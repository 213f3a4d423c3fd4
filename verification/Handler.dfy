/** The packet handler as the program's class: maps of incoming and outgoing packets, the AES context and the
    IV words, updated in place.  Its methods are proved against the state machine of module Receiving. */
module Handler {
  import opened Bytes
  import opened Endianness
  import opened Frames
  import opened Padding
  import opened Fragments
  import opened Fips197
  import opened KeySchedule
  import opened Modes
  import opened AesContext
  import opened Receiving
  import opened EndToEnd
  import opened Sessions

  // ----- sorting a group -----

  function Inserted(p: Packet, sorted: seq<Packet>): seq<Packet> {
    if |sorted| == 0 || p.fragmentId <= sorted[0].fragmentId then [p] + sorted
    else [sorted[0]] + Inserted(p, sorted[1..])
  }

  lemma {:induction false} InsertedElements(p: Packet, s: seq<Packet>)
    ensures multiset(Inserted(p, s)) == multiset(s) + multiset{p}
    ensures forall q :: q in Inserted(p, s) <==> q == p || q in s
  {
    if |s| > 0 && p.fragmentId > s[0].fragmentId {
      InsertedElements(p, s[1..]);
      assert s == [s[0]] + s[1..];
    }
  }

  lemma PrependSorted(p: Packet, s: seq<Packet>)
    requires SortedById(s) && forall q :: q in s ==> p.fragmentId <= q.fragmentId
    ensures SortedById([p] + s)
  {
  }

  lemma {:induction false} InsertedSorted(p: Packet, s: seq<Packet>)
    requires SortedById(s)
    ensures SortedById(Inserted(p, s))
  {
    if |s| == 0 || p.fragmentId <= s[0].fragmentId {
      PrependSorted(p, s);
    } else {
      InsertedSorted(p, s[1..]);
      InsertedElements(p, s[1..]);
      PrependSorted(s[0], Inserted(p, s[1..]));
    }
  }

  /** Stands for the library's sort: callers know only that the result is a sort of the group. */
  method SortFragments(ps: seq<Packet>) returns (sorted: seq<Packet>)
    ensures SortOf(sorted, ps)
  {
    sorted := [];
    var i := |ps|;
    assert ps[i..] == [];
    while i > 0
      invariant 0 <= i <= |ps|
      invariant SortOf(sorted, ps[i..])
    {
      i := i - 1;
      InsertedElements(ps[i], sorted);
      InsertedSorted(ps[i], sorted);
      assert ps[i..] == [ps[i]] + ps[i + 1..];
      sorted := Inserted(ps[i], sorted);
    }
    assert ps[0..] == ps;
  }

  // ----- packets to be sent -----

  function SealedAll(ps: seq<Packet>): (os: seq<Outgoing>)
    ensures |os| == |ps|
  {
    seq(|ps|, k requires 0 <= k < |ps| => Sealed(ps[k]))
  }

  ghost predicate SentAs(frames: seq<seq<bv8>>, os: seq<Outgoing>) {
    |frames| == |os| && forall k :: 0 <= k < |os| ==> IsFrame(frames[k], os[k])
  }

  /** What send emits for packets is what the delivery theorems expect to arrive. */
  lemma SentFrames(frames: seq<seq<bv8>>, ps: seq<Packet>)
    requires SentAs(frames, SealedAll(ps))
    ensures FramesOf(frames, ps)
  {
    forall k | 0 <= k < |ps|
      ensures IsFrame(frames[k], Sealed(ps[k]))
    {
      assert SealedAll(ps)[k] == Sealed(ps[k]);
    }
  }

  /** The pending packets of an id, if any. */
  function Pending(messages: map<u8, seq<Outgoing>>, id: u8): seq<Outgoing> {
    if id in messages then messages[id] else []
  }

  /** The packets added to those pending under the id. */
  function Queued(messages: map<u8, seq<Outgoing>>, id: u8, ps: seq<Packet>): map<u8, seq<Outgoing>> {
    if |ps| == 0 then messages else messages[id := Pending(messages, id) + SealedAll(ps)]
  }

  /** The entry under the id grows by the packets, each with its checksum, and no other entry changes. */
  lemma QueuedEntries(messages: map<u8, seq<Outgoing>>, id: u8, ps: seq<Packet>)
    ensures var m := WithEntry(id, Queued(messages, id, ps));
            && m.Keys == messages.Keys + {id}
            && |m[id]| == |Pending(messages, id)| + |ps|
            && m[id][..|Pending(messages, id)|] == Pending(messages, id)
            && (forall k :: 0 <= k < |ps| ==>
                  m[id][|Pending(messages, id)| + k] == Outgoing(ps[k], Checksum(ps[k].data)))
            && (forall other :: other in messages && other != id ==> m[other] == messages[other])
  {
    hide Checksum;
  }

  ghost predicate SmallPackets(messages: map<u8, seq<Outgoing>>) {
    forall id :: id in messages ==> forall o :: o in messages[id] ==> |o.packet.data| <= PACKET_MAX_SIZE
  }

  /** Looking an id up creates an empty entry for it. */
  function WithEntry(id: u8, messages: map<u8, seq<Outgoing>>): map<u8, seq<Outgoing>> {
    messages[id := Pending(messages, id)]
  }

  lemma NothingQueued(messages: map<u8, seq<Outgoing>>, id: u8)
    ensures Queued(messages, id, []) == messages
  {
  }

  lemma QueuedOneMore(messages: map<u8, seq<Outgoing>>, id: u8, ps: seq<Packet>, p: Packet)
    ensures var m := Queued(messages, id, ps);
            Queued(messages, id, ps + [p]) == m[id := Pending(m, id) + [Sealed(p)]]
  {
    var m := Queued(messages, id, ps);
    assert SealedAll(ps + [p]) == SealedAll(ps) + [Sealed(p)];
    assert Pending(m, id) == Pending(messages, id) + SealedAll(ps);
    assert Pending(messages, id) + SealedAll(ps + [p]) == Pending(m, id) + [Sealed(p)];
  }

  lemma PacketAdded(messages: map<u8, seq<Outgoing>>, id: u8, o: Outgoing)
    requires SmallPackets(messages) && |o.packet.data| <= PACKET_MAX_SIZE
    ensures SmallPackets(messages[id := Pending(messages, id) + [o]])
    ensures SmallPackets(messages[id := Pending(messages, id)])
  {
  }

  lemma NextIndex(k: nat)
    ensures (k % 256 + 1) % 256 == (k + 1) % 256
  {
  }

  lemma RawCount(n: nat)
    requires n <= TWO_32 - PACKET_MAX_SIZE
    ensures (n + PACKET_MAX_SIZE - 1) % TWO_32 / PACKET_MAX_SIZE == FragmentCount(n)
    ensures n == 0 ==> FragmentCount(n) == 0
  {
  }

  lemma FragmentIs(bytes: seq<bv8>, ptype: u8, id: u8, k: nat, p: Packet)
    requires PACKET_MAX_SIZE * k < |bytes|
    requires p == Packet(ptype, id, k % 256, FragmentCount(|bytes|) % 256,
                         bytes[PACKET_MAX_SIZE * k..Min(PACKET_MAX_SIZE * (k + 1), |bytes|)])
    ensures p == Fragment(bytes, ptype, id, k)
  {
  }

  lemma PaddedSizeBound(message: seq<bv8>)
    requires |message| <= MAX_MESSAGE
    ensures |Padded(message)| <= MAX_MESSAGE
  {
    PaddingValueIsDifference(|message|);
    PaddedSizeIsLeast(|message|);
  }

  // ----- the loop of poll -----

  /** The groups outside `todo` have been looked at: the complete ones are handled and gone. */
  ghost predicate Handled(r: Receiver, r': Receiver, order: seq<u8>, done: seq<seq<Packet>>, todo: set<u8>) {
    && |order| == |done|
    && Distinct(order)
    && (forall id :: id in order ==> id in r.received && Complete(r.received[id]) && id !in todo)
    && (forall id :: id in r.received && Complete(r.received[id]) && id !in todo ==> id in order)
    && (forall k :: 0 <= k < |order| ==> SortOf(done[k], r.received[order[k]]))
    && (forall k :: 0 <= k < |done| ==> Safe(r.endpoint.callbackSet, done[k]))
    && r'.received == (map id | id in r.received && id !in order :: r.received[id])
    && r'.endpoint == ProcessAll(r.endpoint, done)
    && r'.accepted == r.accepted
    && r'.freed == r.freed + FreedBy(done)
    && r'.reassembled == r.reassembled + done
  }

  /** The receiver after one complete group has been handled. */
  ghost function AfterGroup(r: Receiver, id: u8, sorted: seq<Packet>): Receiver
    requires Safe(r.endpoint.callbackSet, sorted)
  {
    r.(received := r.received - {id},
       endpoint := Process(r.endpoint, sorted),
       freed := r.freed + multiset(sorted),
       reassembled := r.reassembled + [sorted])
  }

  lemma NothingHandled(r: Receiver)
    ensures Handled(r, r, [], [], r.received.Keys)
  {
  }

  lemma HandledGroup(r: Receiver, r': Receiver, order: seq<u8>, done: seq<seq<Packet>>, todo: set<u8>, id: u8)
    requires Handled(r, r', order, done, todo) && id in todo && id in r'.received
    ensures id in r.received && r'.received[id] == r.received[id]
    ensures r'.endpoint.callbackSet == r.endpoint.callbackSet
  {
  }

  lemma HandledOneMore(r: Receiver, r': Receiver, order: seq<u8>, done: seq<seq<Packet>>,
                       todo: set<u8>, id: u8, sorted: seq<Packet>)
    requires Handled(r, r', order, done, todo) && id in todo && id in r'.received
    requires Complete(r'.received[id]) && SortOf(sorted, r'.received[id]) && Safe(r'.endpoint.callbackSet, sorted)
    ensures Handled(r, AfterGroup(r', id, sorted), order + [id], done + [sorted], todo - {id})
  {
    hide Process, Safe, SortOf;
    assert id !in order;
    assert (done + [sorted])[..|done|] == done;
  }

  lemma SkippedOneMore(r: Receiver, r': Receiver, order: seq<u8>, done: seq<seq<Packet>>, todo: set<u8>, id: u8)
    requires Handled(r, r', order, done, todo) && id in todo && id in r'.received
    requires !Complete(r'.received[id])
    ensures Handled(r, r', order, done, todo - {id})
  {
  }

  lemma AllHandled(r: Receiver, r': Receiver, order: seq<u8>, done: seq<seq<Packet>>)
    requires Handled(r, r', order, done, {})
    ensures Polled(r, r', order, done)
  {
  }

  lemma {:induction false} JoinedPrefix(ps: seq<Packet>, k: nat)
    requires k <= |ps|
    ensures |Joined(ps[..k])| <= |Joined(ps)|
    decreases |ps|
  {
    if k < |ps| {
      assert ps[..|ps| - 1][..k] == ps[..k];
      JoinedPrefix(ps[..|ps| - 1], k);
    } else {
      assert ps[..k] == ps;
    }
  }

  // ----- the class -----

  class PacketHandler {
    const aesKey: array<bv8>
    const ctx: AesCtx
    /** The four IV words, as they lie in memory. */
    const iv: array<bv8>

    var callbackSet: bool
    var calls: seq<Call>
    var received: map<u8, seq<Packet>>
    var messages: map<u8, seq<Outgoing>>
    /** The frames handed to the radio. */
    var sent: seq<seq<bv8>>

    ghost var accepted: seq<Packet>
    ghost var freed: multiset<Packet>
    ghost var reassembled: seq<seq<Packet>>

    ghost predicate Valid()
      reads this, aesKey
    {
      && ctx.Valid() && iv.Length == 16 && aesKey.Length == 16
      && ctx.Separate(iv) && ctx.Separate(aesKey) && iv != aesKey
      && aesKey[..] == KEY_IN_MEMORY
      && SmallPackets(messages)
    }

    ghost function EndpointNow(): Endpoint
      requires Valid()
      reads this, aesKey, ctx.RoundKey, ctx.Iv, iv
    {
      Endpoint(ctx.RoundKey[..], ctx.Iv[..], iv[..], callbackSet, calls)
    }

    ghost function State(): Receiver
      requires Valid()
      reads this, aesKey, ctx.RoundKey, ctx.Iv, iv
    {
      Receiver(received, EndpointNow(), accepted, freed, reassembled)
    }

    constructor ()
      ensures Valid() && fresh(aesKey) && fresh(ctx) && fresh(ctx.RoundKey) && fresh(ctx.Iv) && fresh(iv)
      ensures Idle(State()) && messages == map[] && sent == [] && calls == [] && !callbackSet
    {
      aesKey := new bv8[16](i requires 0 <= i < 16 => KEY_IN_MEMORY[i]);
      ctx := new AesCtx();
      iv := new bv8[16];
      callbackSet := false;
      calls := [];
      received := map[];
      messages := map[];
      sent := [];
      accepted := [];
      freed := multiset{};
      reassembled := [];
    }

    method SetMsgCallback()
      requires Valid()
      modifies this`callbackSet
      ensures Valid() && State() == old(State()).(endpoint := old(EndpointNow()).(callbackSet := true))
    {
      callbackSet := true;
    }

    /** Expands the key words as they lie in memory. */
    method Init()
      requires Valid()
      modifies ctx.RoundKey, ctx.Iv
      ensures Valid()
      ensures State() == old(State()).(endpoint :=
                old(EndpointNow()).(roundKey := KeyExpansion(KEY_IN_MEMORY), ctxIv := old(iv[..])))
    {
      hide KeyExpansion;
      ctx.InitCtxIv(aesKey, iv);
    }

    // ----- sending -----

    /** Frames the packet; the radio call is repeated until it succeeds, so the frame goes out once. */
    method SendPkt(o: Outgoing) returns (frame: seq<bv8>)
      requires |o.packet.data| <= PACKET_MAX_SIZE
      modifies this`sent
      ensures IsFrame(frame, o) && sent == old(sent) + [frame]
    {
      frame := PrintFrame(o);
      sent := sent + [frame];
    }

    /** Draws a new IV, restarts the context with it and the byte-reversed key words, and announces it. */
    method EncryptionHandshake(msgId: u8, random: Block) returns (hello: seq<bv8>)
      requires Valid()
      modifies this`sent, ctx.RoundKey, ctx.Iv, iv
      ensures Valid() && iv[..] == random
      ensures SenderContext(ctx.RoundKey[..], ctx.Iv[..], aesKey[..], random)
      ensures IsFrame(hello, Sealed(HandshakePacket(msgId, random))) && sent == old(sent) + [hello]
    {
      hide KeyExpansion, Reversed, IsFrame;
      for i := 0 to 16
        invariant sent == old(sent)
        invariant forall k :: 0 <= k < i ==> iv[k] == random[k]
      {
        iv[i] := random[i];
      }
      assert iv[..] == random;
      var keyBytes, ivBytes := new bv8[16], new bv8[16];
      U32ToBytes(aesKey, keyBytes);
      U32ToBytes(iv, ivBytes);
      ctx.InitCtxIv(keyBytes, ivBytes);
      var handshakePkt := Packet(ENCRYP, msgId, 0, 1, ivBytes[..]);
      assert handshakePkt.data[..16] == handshakePkt.data;
      var checksum := ComputeChecksum(handshakePkt.data, 16);
      hello := SendPkt(Outgoing(handshakePkt, checksum));
    }

    /** The message, then as many bytes of the padding value as fill the last block. */
    method Pad(data: array<bv8>) returns (paddedData: array<bv8>)
      requires data.Length <= MAX_MESSAGE
      ensures fresh(paddedData) && paddedData[..] == Padded(data[..])
    {
      hide PaddedSize, PaddingValue, ToByte;
      PaddingValueIsDifference(data.Length);
      var size := PaddedSize(data.Length);
      var value := ToByte(PaddingValue(data.Length));
      paddedData := new bv8[size];
      for i := 0 to size
        invariant forall k :: 0 <= k < i ==> paddedData[k] == value
      {
        paddedData[i] := value;
      }
      for i := 0 to data.Length
        invariant forall k :: 0 <= k < size ==> paddedData[k] == if k < i then data[k] else value
      {
        paddedData[i] := data[i];
      }
    }

    /** Queues the bytes as packets under the message's id; index and total are single bytes. */
    method SplitIntoPackets(bytes: array<bv8>, ptype: u8, id: u8)
      requires Valid() && bytes.Length <= TWO_32 - PACKET_MAX_SIZE
      modifies this`messages
      ensures Valid()
      ensures messages == Queued(old(messages), id, Fragmented(bytes[..], ptype, id))
    {
      hide Fragment, SmallPackets, Queued, FragmentCount;
      RawCount(bytes.Length);
      var remaining, offset := bytes.Length, 0;
      var rawFragments := (bytes.Length + PACKET_MAX_SIZE - 1) % TWO_32 / PACKET_MAX_SIZE;
      var totalFragments := rawFragments % 256;
      var fragIdx: u8 := 0;
      ghost var k := 0;
      ghost var before := messages;
      NothingQueued(before, id);
      while remaining != 0
        invariant offset + remaining == bytes.Length
        invariant k <= FragmentCount(bytes.Length) && offset == Min(PACKET_MAX_SIZE * k, bytes.Length)
        invariant remaining == 0 ==> k == FragmentCount(bytes.Length)
        invariant fragIdx == k % 256
        invariant messages == Queued(before, id, FirstFragments(bytes[..], ptype, id, k))
        invariant Valid()
      {
        FragmentStart(bytes.Length, k);
        FragmentStart(bytes.Length, k + 1);
        var packetLen := if remaining > PACKET_MAX_SIZE then PACKET_MAX_SIZE else remaining;
        var pkt := Packet(ptype, id, fragIdx, totalFragments, bytes[offset..offset + packetLen]);
        assert pkt == Fragment(bytes[..], ptype, id, k) by {
          FragmentIs(bytes[..], ptype, id, k, pkt);
        }
        assert pkt.data[..packetLen] == pkt.data;
        var checksum := ComputeChecksum(pkt.data, packetLen);
        QueuedOneMore(before, id, FirstFragments(bytes[..], ptype, id, k), pkt);
        PacketAdded(messages, id, Outgoing(pkt, checksum));
        messages := messages[id := Pending(messages, id) + [Outgoing(pkt, checksum)]];
        NextIndex(k);
        fragIdx := (fragIdx + 1) % 256;
        offset := offset + packetLen;
        remaining := remaining - packetLen;
        k := k + 1;
      }
    }

    /** Sends a message: handshake, padding, encryption in place, packets queued under the id, and then all
        packets queued under that id are transmitted. */
    method Send(data: array<bv8>, ptype: u8, id: u8, random: Block)
      returns (ghost hello: seq<bv8>, ghost frames: seq<seq<bv8>>)
      requires Valid() && data.Length <= MAX_MESSAGE
      requires data != iv && data != aesKey && ctx.Separate(data)
      modifies this`messages, this`sent, ctx.RoundKey, ctx.Iv, iv
      ensures Valid() && iv[..] == random && SenderContext(ctx.RoundKey[..], Reversed(random, 4), aesKey[..], random)
      ensures ctx.Iv[..] == IvAfter(Reversed(random, 4), |Padded(data[..])|)
      ensures messages == WithEntry(id, Queued(old(messages), id,
                Fragmented(Encrypted(ctx.RoundKey[..], Reversed(random, 4), data[..]), ptype, id)))
      ensures IsFrame(hello, Sealed(HandshakePacket(id, random)))
      ensures SentAs(frames, messages[id])
      ensures sent == old(sent) + [hello] + frames
      ensures Step(old(State()), Event.Send(random, data.Length), State())
    {
      hide KeyExpansion, Reversed, IsFrame, Padded, Xcrypt, IvAfter, Fragmented, Queued, PaddedSize;
      PayloadFits(data[..]);
      hello := EncryptionHandshake(id, random);
      var paddedData := Pad(data);
      PaddedSizeBound(data[..]);
      assert paddedData[..paddedData.Length] == paddedData[..];
      ctx.CtrXcryptBuffer(paddedData, paddedData.Length);
      assert paddedData[..paddedData.Length] == paddedData[..];
      SplitIntoPackets(paddedData, ptype, id);
      messages := WithEntry(id, messages);
      frames := Transmit(id);
    }

    /** Sends every packet queued under the id. */
    method Transmit(id: u8) returns (frames: seq<seq<bv8>>)
      requires Valid() && id in messages
      modifies this`sent
      ensures SentAs(frames, messages[id]) && sent == old(sent) + frames
    {
      hide IsFrame;
      frames := [];
      for k := 0 to |messages[id]|
        invariant SentAs(frames, messages[id][..k])
        invariant sent == old(sent) + frames
      {
        var frame := SendPkt(messages[id][k]);
        frames := frames + [frame];
      }
      assert messages[id][..|messages[id]|] == messages[id];
    }

    // ----- receiving -----

    /** Checks the header and the checksum and copies the fields out of the receive buffer. */
    method ReadPacket(rx: array<bv8>) returns (pkt: Option<Packet>)
      requires InBounds(rx[..])
      ensures pkt == ParseFrame(rx[..])
    {
      hide FromByte;
      if rx[0] != 0xA5 || rx[1] != 0x5A {
        return None;
      }
      var length := FromByte(rx[6]);
      var p := Packet(FromByte(rx[2]), FromByte(rx[3]), FromByte(rx[4]), FromByte(rx[5]), rx[7..7 + length]);
      assert rx[..][7..7 + length] == rx[7..7 + length] == p.data[..length];
      var computed := ComputeChecksum(p.data, length);
      pkt := if computed == FromByte(rx[length + 8]) then Some(p) else None;
    }

    /** Takes one frame from the receive buffer as the radio driver left it. */
    method Receive(rx: array<bv8>, rxReceived: u8, error: u8)
      requires Valid() && InBounds(rx[..])
      modifies this`received, this`accepted
      ensures Valid()
      ensures State() == if rxReceived == 0 || error != 0 then old(State()) else Arrived(old(State()), rx[..])
    {
      hide ParseFrame;
      if rxReceived == 0 || error != 0 {
        return;
      }
      var pkt := ReadPacket(rx);
      if pkt.Some? {
        var p := pkt.value;
        var entry := if p.messageId in received then received[p.messageId] else [];
        received := received[p.messageId := entry + [p]];
        accepted := accepted + [p];
      }
    }

    // ----- processing complete groups -----

    method CopyTo(buffer: array<bv8>, offset: nat, data: seq<bv8>)
      requires offset + |data| <= buffer.Length
      modifies buffer
      ensures buffer[..offset] == old(buffer[..offset])
      ensures buffer[offset..offset + |data|] == data
    {
      for j := 0 to |data|
        invariant buffer[..offset] == old(buffer[..offset])
        invariant buffer[offset..offset + j] == data[..j]
      {
        buffer[offset + j] := data[j];
      }
    }

    /** Copies the packets' data into one buffer. */
    method Reassemble(sorted: seq<Packet>) returns (buffer: array<bv8>)
      requires |Joined(sorted)| < TWO_32
      ensures fresh(buffer) && buffer[..] == Joined(sorted)
    {
      assert sorted[..|sorted|] == sorted;
      var totalLength := 0;
      for k := 0 to |sorted|
        invariant totalLength == |Joined(sorted[..k])|
      {
        assert sorted[..k + 1][..k] == sorted[..k];
        JoinedPrefix(sorted, k + 1);
        totalLength := (totalLength + |sorted[k].data|) % TWO_32;
      }
      buffer := new bv8[totalLength];
      var offset := 0;
      for k := 0 to |sorted|
        invariant offset == |Joined(sorted[..k])| <= totalLength
        invariant buffer[..offset] == Joined(sorted[..k])
      {
        ghost var done := buffer[..offset];
        assert sorted[..k + 1][..k] == sorted[..k];
        JoinedPrefix(sorted, k + 1);
        CopyTo(buffer, offset, sorted[k].data);
        offset := offset + |sorted[k].data|;
        assert buffer[..offset] == done + sorted[k].data;
      }
    }

    /** Decrypts, checks the padding and calls back; or installs a received IV. */
    method ProcessGroup(sorted: seq<Packet>)
      requires Valid() && Safe(callbackSet, sorted)
      modifies this`calls, ctx.Iv, iv
      ensures Valid() && EndpointNow() == Process(old(EndpointNow()), sorted)
    {
      hide StripLength, Xcrypt, IvAfter;
      var buffer := Reassemble(sorted);
      assert buffer[..buffer.Length] == buffer[..];
      var front := sorted[0];
      if front.ptype == MSG {
        if callbackSet {
          ctx.CtrXcryptBuffer(buffer, buffer.Length);
          assert buffer[..buffer.Length] == buffer[..];
          var length := ValidatePadding(buffer, buffer.Length);
          if length.Some? {
            calls := calls + [Call(buffer[..], length.value)];
          }
        }
      } else if front.ptype == ENCRYP {
        InstallIv(buffer, |front.data|);
      }
    }

    /** The received words replace the IV words, as many bytes as the first packet was long, and the counter. */
    method InstallIv(buffer: array<bv8>, length: nat)
      requires Valid() && buffer.Length >= 16 && length <= 16
      requires ctx.Separate(buffer) && buffer != iv && buffer != aesKey
      modifies buffer, ctx.Iv, iv
      ensures iv[..] == Reversed(old(buffer[..]), 4)[..length] + old(iv[length..])
      ensures ctx.Iv[..] == Reversed(old(buffer[..]), 4)[..16]
    {
      hide Reversed;
      SwapEndianness(buffer, 4);
      ghost var before, swapped := iv[..], buffer[..];
      for j := 0 to length
        invariant buffer[..] == swapped
        invariant forall k :: 0 <= k < 16 ==> iv[k] == if k < j then swapped[k] else before[k]
      {
        iv[j] := buffer[j];
      }
      ctx.SetIv(buffer);
    }

    /** Processes one sorted group, frees its packets and erases it. */
    method Finish(id: u8, sorted: seq<Packet>)
      requires Valid() && id in received && Safe(callbackSet, sorted)
      modifies this`received, this`calls, this`freed, this`reassembled, ctx.Iv, iv
      ensures Valid() && State() == AfterGroup(old(State()), id, sorted)
      ensures received == old(received) - {id} && callbackSet == old(callbackSet)
    {
      hide Process, Safe;
      ProcessGroup(sorted);
      received := received - {id};
      freed := freed + multiset(sorted);
      reassembled := reassembled + [sorted];
    }

    /** Handles every complete group, in an order the caller cannot choose. */
    method Poll() returns (ghost order: seq<u8>, ghost done: seq<seq<Packet>>)
      requires Valid()
      requires forall id :: id in received && Complete(received[id]) ==>
        forall sorted :: SortOf(sorted, received[id]) ==> Safe(callbackSet, sorted)
      modifies this`received, this`calls, this`freed, this`reassembled, ctx.Iv, iv
      ensures Valid() && Polled(old(State()), State(), order, done)
    {
      hide Process, ProcessAll, FreedBy, Safe, SortOf, Handled, AfterGroup;
      ghost var r := State();
      var todo := received.Keys;
      order, done := [], [];
      NothingHandled(r);
      while todo != {}
        invariant Valid() && callbackSet == r.endpoint.callbackSet
        invariant todo <= received.Keys
        invariant Handled(r, State(), order, done, todo)
      {
        var id :| id in todo;
        ghost var before, left := State(), todo;
        todo := todo - {id};
        var fragments := received[id];
        HandledGroup(r, before, order, done, left, id);
        if |fragments| != 0 && fragments[0].totalFragments == |fragments| {
          var sorted := SortFragments(fragments);
          Finish(id, sorted);
          HandledOneMore(r, before, order, done, left, id, sorted);
          order, done := order + [id], done + [sorted];
        } else {
          SkippedOneMore(r, before, order, done, left, id);
        }
      }
      AllHandled(r, State(), order, done);
    }
  }

  // ----- from a call of send to the callback of poll -----

  /** What Send leaves behind and emits for a payload under an id that is not in use: the handshake's frame and the
      frames of all packets, encrypted with the context that the handshake installed. */
  ghost predicate SentUnder(before: map<u8, seq<Outgoing>>, messages: map<u8, seq<Outgoing>>, id: u8,
                            payload: seq<bv8>, rk: RoundKeys, random: Block, hello: seq<bv8>, frames: seq<seq<bv8>>)
    requires |payload| <= MAX_MESSAGE
  {
    && id !in before
    && messages == WithEntry(id, Queued(before, id, Fragmented(Encrypted(rk, Reversed(random, 4), payload), MSG, id)))
    && IsFrame(hello, Sealed(HandshakePacket(id, random)))
    && SentAs(frames, messages[id])
  }

  /** The emitted frames are those of the encrypted payload's packets. */
  lemma SentFramesOf(before: map<u8, seq<Outgoing>>, messages: map<u8, seq<Outgoing>>, id: u8,
                     payload: seq<bv8>, rk: RoundKeys, random: Block, hello: seq<bv8>, frames: seq<seq<bv8>>)
    requires |payload| <= MAX_MESSAGE && SentUnder(before, messages, id, payload, rk, random, hello, frames)
    ensures FramesOf(frames, Fragmented(Encrypted(rk, Reversed(random, 4), payload), MSG, id))
  {
    hide Fragmented, Encrypted, IsFrame;
    var ps := Fragmented(Encrypted(rk, Reversed(random, 4), payload), MSG, id);
    QueuedAlone(before, id, ps);
    SentFrames(frames, ps);
  }

  /** They reach the callback of a receiver whose context equals the one that the sender's handshake installed,
      whatever the order of arrival, exactly if the payload is recoverable. */
  lemma SendReachesCallback(before: map<u8, seq<Outgoing>>, messages: map<u8, seq<Outgoing>>, id: u8,
                            payload: seq<bv8>, rk: RoundKeys, random: Block, hello: seq<bv8>, frames: seq<seq<bv8>>,
                            states: seq<Receiver>, events: seq<Event>, arrival: seq<nat>)
    requires 0 < |payload| <= MAX_PAYLOAD
    requires SentUnder(before, messages, id, payload, rk, random, hello, frames)
    requires Run(states, events) && Group(states[0].received, id) == [] && OthersInert(events, id)
    requires states[0].endpoint.callbackSet
    requires states[0].endpoint.roundKey == rk && states[0].endpoint.ctxIv == Reversed(random, 4)
    requires |events| > 0 && events[|events| - 1].Poll? && forall k :: 0 <= k < |events| ==> !events[k].Send?
    requires EachReceivedOnce(events, id, frames, arrival)
    ensures var ep := states[0].endpoint;
            states[|events|].endpoint == ep.(ctxIv := IvAfter(ep.ctxIv, |Padded(payload)|),
                                             calls := ep.calls + [Call(Padded(payload), |payload|)]) <==>
            Recoverable(payload)
    ensures Padded(payload)[..|payload|] == payload
    ensures Group(states[|events|].received, id) == []
  {
    hide Fragmented, Encrypted, Padded, IvAfter, EachReceivedOnce, Recoverable, Step, SentUnder, FramesOf, Reversed,
         OthersInert;
    SentFramesOf(before, messages, id, payload, rk, random, hello, frames);
    FramesReachCallback(states, events, payload, id, frames, arrival);
  }

  /** All that Send emits, the handshake's frame first, among traffic that puts only inert messages together: a second
      copy of the program that has itself sent before, and so has the same round keys, hands the payload to its
      callback exactly if the drawn IV words read the same from both ends and the payload is recoverable. */
  lemma SentExchangeReachesCallback(before: map<u8, seq<Outgoing>>, messages: map<u8, seq<Outgoing>>, id: u8,
                                    payload: seq<bv8>, rk: RoundKeys, random: Block, hello: seq<bv8>,
                                    frames: seq<seq<bv8>>, states: seq<Receiver>, events: seq<Event>, j: nat,
                                    arrival: seq<nat>)
    requires 0 < |payload| <= MAX_PAYLOAD
    requires SenderContext(rk, Reversed(random, 4), KEY_IN_MEMORY, random)
    requires SentUnder(before, messages, id, payload, rk, random, hello, frames)
    requires Run(states, events) && id !in states[0].received && OthersInert(events, id)
    requires states[0].endpoint.callbackSet && states[0].endpoint.roundKey == KeyExpansion(SenderKey())
    requires 1 <= j < |events| - 1 && events[0].Arrive? && Holds(events[0].rx, hello)
    requires events[j].Poll? && events[|events| - 1].Poll?
    requires forall k :: 1 <= k < j ==> events[k].Arrive? && !Accepts(events[k], id)
    requires forall k :: j < k < |events| ==> !events[k].Send?
    requires EachReceivedOnce(events[j + 1..], id, frames, arrival)
    ensures states[|events|].endpoint.calls == states[0].endpoint.calls + [Call(Padded(payload), |payload|)] <==>
            Palindromic(random, 4) && Recoverable(payload)
    ensures Group(states[|events|].received, id) == []
  {
    hide Fragmented, Encrypted, Padded, EachReceivedOnce, Recoverable, Step, FramesOf, Reversed, Palindromic,
         KeyExpansion, Accepts, OthersInert;
    SentFramesOf(before, messages, id, payload, rk, random, hello, frames);
    ExchangeReachesCallback(states, events, payload, id, KEY_IN_MEMORY, random, Reversed(random, 4), hello, j, frames,
                            arrival);
  }

  lemma QueuedAlone(before: map<u8, seq<Outgoing>>, id: u8, ps: seq<Packet>)
    requires id !in before
    ensures Pending(WithEntry(id, Queued(before, id, ps)), id) == SealedAll(ps)
  {
    if |ps| == 0 {
      assert SealedAll(ps) == [];
    } else {
      assert [] + SealedAll(ps) == SealedAll(ps);
    }
  }
}
