/** Whole exchanges at the level of frames: the bytes that send emits, received in any order between polls and among
    any other traffic, by a receiver with any history, and the handshake before them. */
module Sessions {
  import opened Bytes
  import opened Frames
  import opened Padding
  import opened Endianness
  import opened Fips197
  import opened KeySchedule
  import opened Modes
  import opened Fragments
  import opened Receiving
  import opened Conservation
  import opened Delivery
  import opened EndToEnd

  // ----- the frames that arrive -----

  /** The event is the acceptance of a packet of the id. */
  ghost predicate Accepts(e: Event, id: u8) {
    e.Arrive? && InBounds(e.rx) && ParseFrame(e.rx).Some? && ParseFrame(e.rx).value.messageId == id
  }

  lemma AcceptedPacket(e: Event, id: u8)
    ensures OfId(PacketIn(e), id) == if Accepts(e, id) then [ParseFrame(e.rx).value] else []
  {
    hide ParseFrame, InBounds;
    if PacketIn(e) != [] {
      OfIdSingle(ParseFrame(e.rx).value, id);
    }
  }

  /** The buffers from which packets of the id were accepted, in their order of arrival. */
  ghost function AcceptedUnder(events: seq<Event>, id: u8): seq<seq<bv8>> {
    if |events| == 0 then []
    else AcceptedUnder(events[..|events| - 1], id) + BufferUnder(events[|events| - 1], id)
  }

  ghost function BufferUnder(e: Event, id: u8): seq<seq<bv8>> {
    if Accepts(e, id) then [e.rx] else []
  }

  /** They are read as the packets accepted. */
  lemma {:induction false} AcceptedAreRead(events: seq<Event>, id: u8)
    ensures |AcceptedUnder(events, id)| == |PacketsOf(events, id)|
    ensures forall k :: 0 <= k < |AcceptedUnder(events, id)| ==>
      && InBounds(AcceptedUnder(events, id)[k])
      && ParseFrame(AcceptedUnder(events, id)[k]) == Some(PacketsOf(events, id)[k])
  {
    hide ParseFrame, InBounds, OfId, PacketIn;
    if |events| > 0 {
      AcceptedAreRead(events[..|events| - 1], id);
      AcceptedPacket(events[|events| - 1], id);
    }
  }

  /** The buffers accepted under the id hold the frames, each frame once, in the order of arrival given by `arrival`. */
  ghost predicate EachReceivedOnce(events: seq<Event>, id: u8, frames: seq<seq<bv8>>, arrival: seq<nat>) {
    var rxs := AcceptedUnder(events, id);
    && |rxs| == |arrival| == |frames|
    && Distinct(arrival)
    && forall k :: 0 <= k < |arrival| ==> arrival[k] < |frames| && Holds(rxs[k], frames[arrival[k]])
  }

  ghost predicate FramesOf(frames: seq<seq<bv8>>, ps: seq<Packet>) {
    |frames| == |ps| && forall k :: 0 <= k < |ps| ==> IsFrame(frames[k], Sealed(ps[k]))
  }

  lemma ArrivedPackets(events: seq<Event>, frames: seq<seq<bv8>>, arrival: seq<nat>, m: seq<Packet>, id: u8)
    requires Message(m, id) && FramesOf(frames, m) && EachReceivedOnce(events, id, frames, arrival)
    ensures |PacketsOf(events, id)| == |arrival|
    ensures forall k :: 0 <= k < |arrival| ==> PacketsOf(events, id)[k] == m[arrival[k]]
  {
    hide IsFrame, ParseFrame, Sealed, AcceptedUnder, PacketsOf;
    AcceptedAreRead(events, id);
    forall k | 0 <= k < |arrival|
      ensures PacketsOf(events, id)[k] == m[arrival[k]]
    {
      ParseUndoesPrint(m[arrival[k]], frames[arrival[k]], AcceptedUnder(events, id)[k]);
    }
  }

  /** Frames received once each are packets accepted once each. */
  lemma ReceivedOnceEach(events: seq<Event>, frames: seq<seq<bv8>>, arrival: seq<nat>, m: seq<Packet>, id: u8)
    requires Message(m, id) && FramesOf(frames, m) && EachReceivedOnce(events, id, frames, arrival)
    ensures ArrivesOnce(events, m, id)
  {
    hide IsFrame, ParseFrame, Sealed, PacketsOf, AcceptedUnder;
    var ps := PacketsOf(events, id);
    AcceptedAreRead(events, id);
    ArrivedPackets(events, frames, arrival, m, id);
    MessageDistinct(m, id);
    forall i, j | 0 <= i < j < |ps|
      ensures ps[i] != ps[j]
    {
      assert ps[i] == m[arrival[i]] && ps[j] == m[arrival[j]];
      assert arrival[i] != arrival[j];
    }
    DistinctWithin(ps, m);
  }

  // ----- the end-to-end theorems -----

  /** The frames of an encrypted payload, received once each in any order, among any other traffic that puts only inert
      messages together, by a receiver whose context equals the sender's and that holds nothing of the id: after a
      final poll the counter stands where the sender's does, and exactly the payload has reached the callback, if and
      only if it is recoverable. */
  lemma FramesReachCallback(states: seq<Receiver>, events: seq<Event>, payload: seq<bv8>, id: u8,
                            frames: seq<seq<bv8>>, arrival: seq<nat>)
    requires Run(states, events) && Group(states[0].received, id) == [] && states[0].endpoint.callbackSet
    requires |events| > 0 && events[|events| - 1].Poll? && forall k :: 0 <= k < |events| ==> !events[k].Send?
    requires OthersInert(events, id)
    requires 0 < |payload| <= MAX_PAYLOAD
    requires var ep := states[0].endpoint;
             FramesOf(frames, Fragmented(Encrypted(ep.roundKey, ep.ctxIv, payload), MSG, id))
    requires EachReceivedOnce(events, id, frames, arrival)
    ensures var ep := states[0].endpoint;
            states[|events|].endpoint == ep.(ctxIv := IvAfter(ep.ctxIv, |Padded(payload)|),
                                             calls := ep.calls + [Call(Padded(payload), |payload|)]) <==>
            Recoverable(payload)
    ensures states[|events|].endpoint.ctxIv == IvAfter(states[0].endpoint.ctxIv, |Padded(payload)|)
    ensures Group(states[|events|].received, id) == []
    ensures states[0].received == map[] && OnlyOf(events, id) ==> states[|events|].received == map[]
    ensures payload <= Padded(payload)
  {
    hide Fragmented, Encrypted, Process, Padded, EachReceivedOnce, FramesOf, Recoverable, Step, Message, ArrivesOnce,
         Group, OthersInert, IvAfter, OnlyOf;
    var ep := states[0].endpoint;
    PayloadPackets(ep.roundKey, ep.ctxIv, payload, id, true);
    ReceivedOnceEach(events, frames, arrival, Fragmented(Encrypted(ep.roundKey, ep.ctxIv, payload), MSG, id), id);
    PayloadDelivered(states, events, payload, id);
    if states[0].received == map[] && OnlyOf(events, id) {
      assert events[..|events|] == events;
      NothingElseHeld(states, events, id, |events|);
    }
  }

  /** The same with sends of the receiver in between, which restart its context, and any counter of the receiver's. */
  lemma FramesAmongInert(states: seq<Receiver>, events: seq<Event>, payload: seq<bv8>, id: u8, iv: Block,
                         frames: seq<seq<bv8>>, arrival: seq<nat>) returns (i: nat)
    requires Run(states, events) && Group(states[0].received, id) == [] && states[0].endpoint.callbackSet
    requires |events| > 0 && events[|events| - 1].Poll? && OthersInert(events, id)
    requires SendWithin(events, |events|) ==> states[0].endpoint.roundKey == KeyExpansion(SenderKey())
    requires 0 < |payload| <= MAX_PAYLOAD
    requires FramesOf(frames, Fragmented(Encrypted(states[0].endpoint.roundKey, iv, payload), MSG, id))
    requires EachReceivedOnce(events, id, frames, arrival)
    ensures HandledOnlyAt(events, id, i)
    ensures states[|events|].endpoint.calls == states[0].endpoint.calls + [Call(Padded(payload), |payload|)] <==>
            AfterSends(states[0].endpoint, events, 0, i).ctxIv == iv && Recoverable(payload)
    ensures Group(states[|events|].received, id) == []
  {
    hide Fragmented, Encrypted, Process, Padded, EachReceivedOnce, FramesOf, Recoverable, Step, Message, ArrivesOnce,
         Group, OthersInert, KeyExpansion, SenderKey, AfterSends;
    var rk := states[0].endpoint.roundKey;
    PayloadPackets(rk, iv, payload, id, true);
    ReceivedOnceEach(events, frames, arrival, Fragmented(Encrypted(rk, iv, payload), MSG, id), id);
    i := PayloadAmongInert(states, events, payload, id, iv);
  }

  /** Amid anything: whatever texts, handshakes, duplicates and broken messages of other ids arrive and whatever is
      sent, exactly one poll puts the payload's packets together, and makes the call with the payload exactly if the
      counter at that moment is the one it was encrypted with and the payload is recoverable. */
  lemma FramesReachCallbackExactly(states: seq<Receiver>, events: seq<Event>, payload: seq<bv8>, id: u8, iv: Block,
                                   frames: seq<seq<bv8>>, arrival: seq<nat>) returns (i: nat, k: nat)
    requires Run(states, events) && Group(states[0].received, id) == [] && states[0].endpoint.callbackSet
    requires |events| > 0 && events[|events| - 1].Poll?
    requires SendWithin(events, |events|) ==> states[0].endpoint.roundKey == KeyExpansion(SenderKey())
    requires 0 < |payload| <= MAX_PAYLOAD
    requires FramesOf(frames, Fragmented(Encrypted(states[0].endpoint.roundKey, iv, payload), MSG, id))
    requires EachReceivedOnce(events, id, frames, arrival)
    ensures HandledOnlyAt(events, id, i)
    ensures PutsTogether(events[i], k, id, Fragmented(Encrypted(states[0].endpoint.roundKey, iv, payload), MSG, id))
    ensures var before := EndpointAt(states, events, i, k);
            EndpointAt(states, events, i, k + 1).calls == before.calls + [Call(Padded(payload), |payload|)] <==>
            before.ctxIv == iv && Recoverable(payload)
    ensures EndpointAt(states, events, i, k + 1).calls <= states[|events|].endpoint.calls
    ensures Group(states[|events|].received, id) == []
  {
    hide Fragmented, Encrypted, Process, Padded, EachReceivedOnce, FramesOf, Recoverable, Step, Message, ArrivesOnce,
         Group, KeyExpansion, SenderKey, EndpointAt;
    var rk := states[0].endpoint.roundKey;
    PayloadPackets(rk, iv, payload, id, true);
    ReceivedOnceEach(events, frames, arrival, Fragmented(Encrypted(rk, iv, payload), MSG, id), id);
    i, k := PayloadDeliveredExactly(states, events, payload, id, iv);
  }

  // ----- the handshake between two copies of the program -----

  /** A receiver that processes a handshake of the sixteen random bytes: its IV words become the sender's, but
      its context's counter is the sender's with the bytes of each word reversed. */
  lemma HandshakeWords(ep: Endpoint, random: Block)
    ensures var r := ProcessHandshake(ep, Reversed(random, 4), 16);
            && r.iv == random
            && r.ctxIv == random == Reversed(Reversed(random, 4), 4)
            && r.roundKey == ep.roundKey
  {
    ReversedTwice(random, 4);
  }

  /** The packet of a handshake: the random bytes printed as four words, most significant byte first. */
  function HandshakePacket(id: u8, random: Block): Packet {
    Packet(ENCRYP, id, 0, 1, Reversed(random, 4))
  }

  /** The frame of a handshake byte by byte: kind 1, index 0 of 1, sixteen bytes of data, which are the random bytes
      with the order in each word reversed, and the checksum of that data. */
  lemma HandshakeFrameBytes(hello: seq<bv8>, id: u8, random: Block, w: nat)
    requires IsFrame(hello, Sealed(HandshakePacket(id, random))) && w < 4
    ensures |hello| == 25 && hello[..7] == [0xA5, 0x5A, 0x01, ToByte(id), 0x00, 0x01, 0x10]
    ensures hello[7 + 4 * w..11 + 4 * w] == [random[4 * w + 3], random[4 * w + 2], random[4 * w + 1], random[4 * w]]
    ensures (Sum(hello[7..23]) + FromByte(hello[24])) % 256 == 255
  {
    hide Sum, Checksum, Reversed;
    var data := Reversed(random, 4);
    ReversedBytes(random, 4, w);
    assert |data| == 16 && hello[7..7 + |data|] == data;
    assert hello[7..23] == data;
    assert hello[7..23][4 * w..4 * w + 4] == hello[7 + 4 * w..11 + 4 * w];
    FromToByte(Checksum(data));
    AcceptedExactly(data, Checksum(data));
    hide ToByte, FromByte;
  }

  /** The event receives the frame that announces the random bytes under the id. */
  ghost predicate ReceivesHandshake(e: Event, hello: seq<bv8>, id: u8, random: Block) {
    e.Arrive? && Holds(e.rx, hello) && IsFrame(hello, Sealed(HandshakePacket(id, random)))
  }

  lemma HandshakeFrameReceived(e: Event, hello: seq<bv8>, id: u8, random: Block)
    requires ReceivesHandshake(e, hello, id, random)
    ensures e.Arrive? && InBounds(e.rx) && ParseFrame(e.rx) == Some(HandshakePacket(id, random))
  {
    ParseUndoesPrint(HandshakePacket(id, random), hello, e.rx);
  }

  ghost predicate PollWithin(events: seq<Event>, lo: nat, hi: nat)
    requires hi <= |events|
  {
    exists i :: lo <= i < hi && events[i].Poll?
  }

  lemma ProcessSingle(ep: Endpoint, p: Packet)
    requires Safe(ep.callbackSet, [p])
    ensures Joined([p]) == p.data && ProcessAll(ep, [[p]]) == Process(ep, [p])
  {
    assert [p][..0] == [] && [[p]][..0] == [];
    assert ProcessAll(ep, [[p]][..0]) == ep;
    assert Joined([p][..0]) == [];
  }

  lemma HandshakeId(id: u8, random: Block)
    ensures HandshakePacket(id, random).messageId == id && HandshakePacket(id, random).totalFragments == 1
  {
  }

  /** Until another packet of its id is accepted, the handshake is held exactly as long as there was no poll. */
  lemma {:induction false} HandshakeHeld(states: seq<Receiver>, events: seq<Event>, hello: seq<bv8>, id: u8,
                                         random: Block, j: nat)
    requires Run(states, events) && 1 <= j < |states| && id !in states[0].received
    requires ReceivesHandshake(events[0], hello, id, random)
    requires forall k :: 1 <= k < j ==> !Accepts(events[k], id)
    ensures if PollWithin(events, 1, j) then id !in states[j].received
            else id in states[j].received && states[j].received[id] == [HandshakePacket(id, random)]
  {
    hide ParseFrame, ReceivesHandshake, HandshakePacket, ProcessAll, FreedBy, Safe;
    HandshakeId(id, random);
    if j == 1 {
      HandshakeFrameReceived(events[0], hello, id, random);
      assert Step(states[0], events[0], states[1]);
      assert states[1].received[id] == [] + [HandshakePacket(id, random)];
    } else {
      HandshakeHeld(states, events, hello, id, random, j - 1);
      assert Step(states[j - 1], events[j - 1], states[j]);
      assert PollWithin(events, 1, j) <==> PollWithin(events, 1, j - 1) || events[j - 1].Poll?;
    }
  }

  lemma SafeHandshake(callbackSet: bool, id: u8, random: Block)
    ensures var m := [HandshakePacket(id, random)]; Safe(callbackSet, m) && Complete(m) && SortedById(m)
  {
    var m := [HandshakePacket(id, random)];
    assert m[..0] == [] && Joined(m[..0]) == [];
    assert Joined(m) == Reversed(random, 4);
  }

  lemma ProcessedHandshake(ep: Endpoint, id: u8, random: Block)
    ensures Safe(ep.callbackSet, [HandshakePacket(id, random)])
    ensures Process(ep, [HandshakePacket(id, random)]) == ProcessHandshake(ep, Reversed(random, 4), 16)
  {
    SafeHandshake(ep.callbackSet, id, random);
    ProcessSingle(ep, HandshakePacket(id, random));
  }

  lemma SingleInPlace(done: seq<Packet>, p: Packet)
    requires SortOf(done, [p])
    ensures done == [p]
  {
    SortIsUnique(done, [p]);
  }

  /** A poll that finds the handshake of the id handles it, and if what else it puts together is inert, the IV words and
      the counter become the announced ones. */
  lemma PolledHandshake(r: Receiver, e: Event, r': Receiver, id: u8, random: Block)
    requires Step(r, e, r') && e.Poll? && InertBut(e, id)
    requires id in r.received && r.received[id] == [HandshakePacket(id, random)]
    ensures Group(r'.received, id) == []
    ensures r'.endpoint == ProcessHandshake(r.endpoint, Reversed(random, 4), 16)
  {
    hide Process, ProcessHandshake, HandshakePacket, ProcessAll, Safe, SortOf, Complete, InertBut;
    var m := [HandshakePacket(id, random)];
    SafeHandshake(r.endpoint.callbackSet, id, random);
    assert id in e.order;
    forall k | 0 <= k < |e.order| && e.order[k] == id
      ensures e.done[k] == m
    {
      SingleInPlace(e.done[k], HandshakePacket(id, random));
    }
    StepChangesEndpoint(r, e, r', id, m);
    ProcessedHandshake(r.endpoint, id, random);
  }

  /** A handshake that is followed by a poll before any other packet of its id is processed and leaves nothing behind,
      whatever else arrives in between, if only inert messages are put together with it. */
  lemma HandshakeThenPoll(states: seq<Receiver>, events: seq<Event>, hello: seq<bv8>, id: u8, random: Block, j: nat)
    requires Run(states, events) && 1 <= j < |events| && id !in states[0].received
    requires ReceivesHandshake(events[0], hello, id, random)
    requires events[j].Poll? && InertBut(events[j], id)
    requires forall k :: 1 <= k < j ==> events[k].Arrive? && !Accepts(events[k], id)
    ensures Group(states[j + 1].received, id) == []
    ensures states[0].received == map[] && OnlyOf(events[..j + 1], id) ==> states[j + 1].received == map[]
    ensures states[j + 1].endpoint == ProcessHandshake(states[0].endpoint, Reversed(random, 4), 16)
  {
    hide ParseFrame, Polled, ProcessHandshake, ReceivesHandshake, HandshakePacket, Accepts, InertBut, OnlyOf;
    HandshakeHeld(states, events, hello, id, random, j);
    assert events[0].Arrive? by {
      HandshakeFrameReceived(events[0], hello, id, random);
    }
    ArrivalsKeepEndpoint(states, events, j);
    assert Step(states[j], events[j], states[j + 1]);
    PolledHandshake(states[j], events[j], states[j + 1], id, random);
    if states[0].received == map[] && OnlyOf(events[..j + 1], id) {
      NothingElseHeld(states, events, id, j + 1);
    }
  }

  lemma {:induction false} ArrivalsKeepEndpoint(states: seq<Receiver>, events: seq<Event>, n: nat)
    requires Run(states, events) && n < |states| && forall k :: 0 <= k < n ==> events[k].Arrive?
    ensures states[n].endpoint == states[0].endpoint
  {
    hide ParseFrame;
    if n > 0 {
      ArrivalsKeepEndpoint(states, events, n - 1);
      assert Step(states[n - 1], events[n - 1], states[n]);
    }
  }

  /** The next packet of the handshake's id, whatever comes between, makes a group that can never be completed
      exactly if no poll came first (or the packet announces a total of 0). */
  lemma UnpolledHandshakeBlocks(states: seq<Receiver>, events: seq<Event>, hello: seq<bv8>, id: u8, random: Block,
                                j: nat, n: nat)
    requires Run(states, events) && 1 <= j < n < |states| && id !in states[0].received
    requires ReceivesHandshake(events[0], hello, id, random)
    requires Accepts(events[j], id) && forall k :: 1 <= k < j ==> !Accepts(events[k], id)
    ensures Overfull(states[j + 1], id) <==>
            !PollWithin(events, 1, j) || ParseFrame(events[j].rx).value.totalFragments == 0
    ensures !PollWithin(events, 1, j) ==> Overfull(states[n], id)
  {
    hide ParseFrame, ReceivesHandshake, HandshakePacket, PollWithin;
    HandshakeId(id, random);
    HandshakeHeld(states, events, hello, id, random, j);
    var p := ParseFrame(events[j].rx).value;
    assert Step(states[j], events[j], states[j + 1]);
    assert states[j + 1].received[id] == Group(states[j].received, id) + [p];
    if Overfull(states[j + 1], id) {
      OverfullForever(states, events, id, j + 1, n);
    }
  }

  /** The sender's context after its handshake, from the key words and the random bytes as they lie in memory. */
  ghost predicate SenderContext(rk: RoundKeys, iv: Block, key: Block, random: Block) {
    rk == KeyExpansion(Reversed(key, 4)) && iv == Reversed(random, 4)
  }

  /** After the handshake the two contexts agree exactly when the key that the receiver has expanded is the
      byte-reversed one and every word of the IV reads the same from both ends. */
  lemma HandshakeAgreement(ep: Endpoint, receiverKey: Block, key: Block, random: Block, rk: RoundKeys, iv: Block)
    requires ep.roundKey == KeyExpansion(receiverKey) && SenderContext(rk, iv, key, random)
    ensures var r := ProcessHandshake(ep, Reversed(random, 4), 16);
            r.roundKey == rk && r.ctxIv == iv <==> receiverKey == Reversed(key, 4) && Palindromic(random, 4)
  {
    hide KeyExpansion, Palindromic;
    HandshakeWords(ep, random);
    ReversedFixesPalindromes(random, 4);
    if ep.roundKey == rk {
      KeyExpansionInjective(receiverKey, Reversed(key, 4));
    }
  }

  /** The key words in memory are not their own byte reversal, and so their schedules differ. */
  lemma KeysDiffer()
    ensures KeyExpansion(KEY_IN_MEMORY) != KeyExpansion(SenderKey())
  {
    hide KeyExpansion;
    var k, k' := KEY_IN_MEMORY, SenderKey();
    assert k'[0] == k[Mirror(0)] == k[3] == 0xC9;
    assert k[0] == 0x13;
    if KeyExpansion(k) == KeyExpansion(k') {
      KeyExpansionInjective(k, k');
    }
  }

  /** init expands the key words as they lie in memory, the handshake of a sender expands them byte-reversed; the
      round keys of a receiver that has only run init therefore differ from every sender's. */
  lemma InitNeverAgrees(ep: Endpoint, random: Block, rk: RoundKeys, iv: Block)
    requires ep.roundKey == KeyExpansion(KEY_IN_MEMORY) && SenderContext(rk, iv, KEY_IN_MEMORY, random)
    ensures ProcessHandshake(ep, Reversed(random, 4), 16).roundKey != rk
  {
    hide KeyExpansion;
    KeysDiffer();
  }

  /** A program that has only run init never comes to decrypt with a sender's round keys, whatever it receives, until
      it sends. */
  lemma NoAgreementBeforeSend(states: seq<Receiver>, events: seq<Event>, n: nat)
    requires Run(states, events) && n < |states|
    requires states[0].endpoint.roundKey == KeyExpansion(KEY_IN_MEMORY)
    ensures states[n].endpoint.roundKey == KeyExpansion(SenderKey()) <==> SendWithin(events, n)
  {
    hide KeyExpansion, SendWithin;
    EveryRunRoundKey(states, events, n);
    KeysDiffer();
  }

  lemma RunFrom(states: seq<Receiver>, events: seq<Event>, n: nat)
    requires Run(states, events) && n < |states|
    ensures Run(states[n..], events[n..])
  {
    hide Step;
    forall i | 0 <= i < |events| - n
      ensures Step(states[n..][i], events[n..][i], states[n..][i + 1])
    {
      assert Step(states[i + n], events[i + n], states[i + n + 1]);
    }
  }

  /** The whole exchange between two copies of the program: the handshake's frame, a poll, the message's frames in any
      order, and a last poll, among any other traffic that puts only inert messages together.  If the receiver has
      expanded the byte-reversed key words, as it does when it sends, exactly the payload reaches the callback if and
      only if the IV words read the same from both ends and the payload is recoverable. */
  lemma ExchangeReachesCallback(states: seq<Receiver>, events: seq<Event>, payload: seq<bv8>, id: u8,
                                key: Block, random: Block, iv: Block, hello: seq<bv8>, j: nat,
                                frames: seq<seq<bv8>>, arrival: seq<nat>)
    requires Run(states, events) && id !in states[0].received && states[0].endpoint.callbackSet
    requires 1 <= j < |events| - 1 && events[j].Poll? && events[|events| - 1].Poll? && OthersInert(events, id)
    requires ReceivesHandshake(events[0], hello, id, random)
    requires forall k :: 1 <= k < j ==> events[k].Arrive? && !Accepts(events[k], id)
    requires forall k :: j < k < |events| ==> !events[k].Send?
    requires 0 < |payload| <= MAX_PAYLOAD
    requires SenderContext(states[0].endpoint.roundKey, iv, key, random)
    requires FramesOf(frames, Fragmented(Encrypted(states[0].endpoint.roundKey, iv, payload), MSG, id))
    requires EachReceivedOnce(events[j + 1..], id, frames, arrival)
    ensures states[|events|].endpoint.calls == states[0].endpoint.calls + [Call(Padded(payload), |payload|)] <==>
            Palindromic(random, 4) && Recoverable(payload)
    ensures Group(states[|events|].received, id) == []
    ensures states[0].received == map[] && OnlyOf(events, id) ==> states[|events|].received == map[]
  {
    hide Fragmented, Encrypted, Process, Padded, EachReceivedOnce, FramesOf, Recoverable, Palindromic, KeyExpansion,
         ReceivesHandshake, Accepts, Step, Reversed, InertBut, Group, OnlyOf;
    HandshakeThenPoll(states, events, hello, id, random, j);
    HandshakeWords(states[0].endpoint, random);
    ReversedFixesPalindromes(random, 4);
    RunFrom(states, events, j + 1);
    var tail, rest := states[j + 1..], events[j + 1..];
    assert rest[|rest| - 1] == events[|events| - 1];
    assert forall k :: 0 <= k < |rest| ==> rest[k] == events[j + 1 + k];
    var i := FramesAmongInert(tail, rest, payload, id, iv, frames, arrival);
    assert tail[|rest|] == states[|events|];
    assert AfterSends(tail[0].endpoint, rest, 0, i) == tail[0].endpoint;
    if states[0].received == map[] && OnlyOf(events, id) {
      assert events[..|events|] == events;
      NothingElseHeld(states, events, id, |events|);
    }
  }

  // ----- such runs exist -----

  lemma {:induction false} AllAccepted(events: seq<Event>, id: u8)
    requires forall k :: 0 <= k < |events| ==> Accepts(events[k], id)
    ensures |AcceptedUnder(events, id)| == |events|
    ensures forall k :: 0 <= k < |events| ==> events[k].Arrive? && AcceptedUnder(events, id)[k] == events[k].rx
  {
    hide ParseFrame, InBounds;
    if |events| > 0 {
      AllAccepted(events[..|events| - 1], id);
    }
  }

  lemma {:induction false} AcceptNothing(events: seq<Event>, others: seq<Event>, id: u8)
    requires forall k :: 0 <= k < |others| ==> !Accepts(others[k], id)
    ensures AcceptedUnder(events + others, id) == AcceptedUnder(events, id)
  {
    hide Accepts;
    if |others| > 0 {
      var n := |others| - 1;
      AcceptNothing(events, others[..n], id);
      assert (events + others)[..|events| + n] == events + others[..n];
    } else {
      assert events + others == events;
    }
  }

  lemma ReceivedInOrder(events: seq<Event>, others: seq<Event>, id: u8, frames: seq<seq<bv8>>)
    requires |events| == |frames| && forall k :: 0 <= k < |others| ==> !others[k].Arrive?
    requires forall k :: 0 <= k < |events| ==> Accepts(events[k], id) && Holds(events[k].rx, frames[k])
    ensures EachReceivedOnce(events + others, id, frames, seq(|frames|, k => k))
  {
    AcceptNothing(events, others, id);
    AllAccepted(events, id);
    hide Accepts, Holds, AcceptedUnder;
  }

  /** Packets of one id can be received in their order by a receiver that holds nothing. */
  lemma {:induction false} SomeArrivals(start: Receiver, ps: seq<Packet>, id: u8)
    returns (states: seq<Receiver>, events: seq<Event>, frames: seq<seq<bv8>>)
    requires start.received == map[]
    requires forall k :: 0 <= k < |ps| ==> ps[k].messageId == id && |ps[k].data| <= PACKET_MAX_SIZE
    ensures Run(states, events) && |events| == |ps| == |frames| && states[0] == start && FramesOf(frames, ps)
    ensures forall k :: 0 <= k < |ps| ==> Accepts(events[k], id) && Holds(events[k].rx, frames[k])
    ensures states[|ps|].received == if ps == [] then map[] else map[id := ps]
    ensures states[|ps|].endpoint == start.endpoint
  {
    hide ParseFrame, IsFrame, InBounds, Sealed, Holds;
    if |ps| == 0 {
      states, events, frames := [start], [], [];
    } else {
      var n := |ps| - 1;
      states, events, frames := SomeArrivals(start, ps[..n], id);
      var frame, rx := SomeBuffer(ps[n]);
      var r := states[n];
      assert Group(r.received, id) + [ps[n]] == ps;
      assert Accept(r, ps[n]).received == map[id := ps];
      RunExtended(states, events, Arrive(rx), Accept(r, ps[n]));
      states, events, frames := states + [Accept(r, ps[n])], events + [Arrive(rx)], frames + [frame];
    }
  }

  lemma RunExtended(states: seq<Receiver>, events: seq<Event>, e: Event, r: Receiver)
    requires Run(states, events) && Step(states[|events|], e, r)
    ensures Run(states + [r], events + [e])
  {
    hide Step;
    var s, es := states + [r], events + [e];
    forall i | 0 <= i < |es|
      ensures Step(s[i], es[i], s[i + 1])
    {
      if i < |events| {
        assert Step(states[i], events[i], states[i + 1]);
      }
    }
  }

  lemma SomePollIsStep(r: Receiver, id: u8, m: seq<Packet>, r': Receiver)
    requires Polled(r, r', [id], [m])
    ensures Step(r, Poll([id], [m]), r')
  {
  }

  /** For every payload within the bound and every receiver that holds nothing there are frames of it, encrypted with
      the receiver's round keys and any counter, and a run as the delivery theorems ask for.  In it the payload
      reaches the callback exactly if the counters agree and it is recoverable. */
  lemma SomeDelivery(start: Receiver, payload: seq<bv8>, id: u8, iv: Block)
    returns (states: seq<Receiver>, events: seq<Event>, frames: seq<seq<bv8>>, arrival: seq<nat>)
    requires start.received == map[] && start.endpoint.callbackSet && 0 < |payload| <= MAX_PAYLOAD
    ensures Run(states, events) && states[0] == start
    ensures |events| > 0 && events[|events| - 1].Poll? && forall k :: 0 <= k < |events| ==> !events[k].Send?
    ensures OthersInert(events, id)
    ensures FramesOf(frames, Fragmented(Encrypted(start.endpoint.roundKey, iv, payload), MSG, id))
    ensures EachReceivedOnce(events, id, frames, arrival)
    ensures states[|events|].endpoint.calls == start.endpoint.calls + [Call(Padded(payload), |payload|)] <==>
            start.endpoint.ctxIv == iv && Recoverable(payload)
  {
    hide Fragmented, Encrypted, Process, Padded, FramesOf, Recoverable, Step, Holds, InBounds, ParseFrame, Safe,
         Complete, EachReceivedOnce, Message;
    var m := Fragmented(Encrypted(start.endpoint.roundKey, iv, payload), MSG, id);
    MessageArrivals(start.endpoint.roundKey, iv, payload, id);
    states, events, frames := SomeArrivals(start, m, id);
    ReceivedInOrder(events, [Poll([id], [m])], id, frames);
    var r' := SomePoll(states[|m|], id, m);
    SomePollIsStep(states[|m|], id, m, r');
    RunExtended(states, events, Poll([id], [m]), r');
    states, events, arrival := states + [r'], events + [Poll([id], [m])], seq(|m|, k => k);
    var i := FramesAmongInert(states, events, payload, id, iv, frames, arrival);
    assert AfterSends(start.endpoint, events, 0, i) == start.endpoint;
  }

  lemma MessageArrivals(rk: RoundKeys, iv: Block, payload: seq<bv8>, id: u8)
    requires 0 < |payload| <= MAX_PAYLOAD
    ensures var m := Fragmented(Encrypted(rk, iv, payload), MSG, id);
            && m != [] && Complete(m) && SortedById(m)
            && (forall callbackSet :: Safe(callbackSet, m))
            && forall k :: 0 <= k < |m| ==> m[k].messageId == id && |m[k].data| <= PACKET_MAX_SIZE
  {
    hide Fragmented, Encrypted, Safe;
    PayloadPackets(rk, iv, payload, id, true);
    PayloadPackets(rk, iv, payload, id, false);
    MessageDistinct(Fragmented(Encrypted(rk, iv, payload), MSG, id), id);
  }

  /** A send just before the poll spoils the delivery: for every payload, and frames of it that were encrypted with the
      receiver's own context, there is such a run, and in it the payload reaches the callback only if the send happens
      to leave the counter where it was. */
  lemma SomeSpoiledDelivery(start: Receiver, payload: seq<bv8>, id: u8, random: Block, size: nat)
    returns (states: seq<Receiver>, events: seq<Event>, frames: seq<seq<bv8>>, arrival: seq<nat>)
    requires start.received == map[] && start.endpoint.callbackSet && 0 < |payload| <= MAX_PAYLOAD
    requires start.endpoint.roundKey == KeyExpansion(SenderKey())
    ensures Run(states, events) && states[0] == start
    ensures |events| > 1 && events[|events| - 1].Poll? && events[|events| - 2] == Event.Send(random, size)
    ensures OthersInert(events, id)
    ensures FramesOf(frames, Fragmented(Encrypted(start.endpoint.roundKey, start.endpoint.ctxIv, payload), MSG, id))
    ensures EachReceivedOnce(events, id, frames, arrival)
    ensures states[|events|].endpoint.calls == start.endpoint.calls + [Call(Padded(payload), |payload|)] <==>
            IvAfter(Reversed(random, 4), PaddedSize(size)) == start.endpoint.ctxIv && Recoverable(payload)
  {
    hide Fragmented, Encrypted, Process, Padded, FramesOf, Recoverable, Step, Holds, InBounds, ParseFrame, Safe,
         Complete, EachReceivedOnce, Message, KeyExpansion, SenderKey, IvAfter, Reversed, PaddedSize, Accepts;
    var ep := start.endpoint;
    var m := Fragmented(Encrypted(ep.roundKey, ep.ctxIv, payload), MSG, id);
    MessageArrivals(ep.roundKey, ep.ctxIv, payload, id);
    states, events, frames := SomeArrivals(start, m, id);
    var send, poll, r := Event.Send(random, size), Poll([id], [m]), states[|m|];
    ReceivedInOrder(events, [send, poll], id, frames);
    var spoiled := r.(endpoint := Restarted(r.endpoint, random, size));
    SendIsStep(r, random, size);
    RunExtended(states, events, send, spoiled);
    var r' := SomePoll(spoiled, id, m);
    SomePollIsStep(spoiled, id, m, r');
    RunExtended(states + [spoiled], events + [send], poll, r');
    assert events + [send] + [poll] == events + [send, poll];
    var n := |events|;
    ArrivalsOnly(events, id);
    states, events, arrival := states + [spoiled] + [r'], events + [send] + [poll], seq(|m|, k => k);
    var i := FramesAmongInert(states, events, payload, id, ep.ctxIv, frames, arrival);
    assert i == n + 1;
    assert AfterSends(ep, events, 0, n) == ep;
    assert AfterSends(ep, events, 0, n + 1) == AfterSend(ep, send);
  }

  lemma ArrivalsOnly(events: seq<Event>, id: u8)
    requires forall k :: 0 <= k < |events| ==> Accepts(events[k], id)
    ensures forall k :: 0 <= k < |events| ==> events[k].Arrive?
  {
  }

  lemma SendIsStep(r: Receiver, random: Block, size: nat)
    ensures Step(r, Event.Send(random, size), r.(endpoint := Restarted(r.endpoint, random, size)))
  {
  }

  /** Without a poll after the handshake the message is lost: for every payload there is a run in which its first packet
      follows the handshake, a poll then finds nothing complete, and the group is overfull from there on. */
  lemma SomeBlockedExchange(start: Receiver, payload: seq<bv8>, id: u8, random: Block, iv: Block)
    returns (states: seq<Receiver>, events: seq<Event>, hello: seq<bv8>)
    requires start.received == map[] && 0 < |payload| <= MAX_PAYLOAD
    ensures Run(states, events) && states[0] == start && |events| == 3 && events[2].Poll?
    ensures ReceivesHandshake(events[0], hello, id, random)
    ensures Accepts(events[1], id) && ParseFrame(events[1].rx)
         == Some(Fragmented(Encrypted(start.endpoint.roundKey, iv, payload), MSG, id)[0])
    ensures Overfull(states[3], id)
  {
    hide ParseFrame, InBounds, IsFrame, Fragmented, Encrypted, Holds, Safe, SortedById, Step;
    MessageArrivals(start.endpoint.roundKey, iv, payload, id);
    HandshakeId(id, random);
    var p, q := HandshakePacket(id, random), Fragmented(Encrypted(start.endpoint.roundKey, iv, payload), MSG, id)[0];
    var frame, rx0, rx1;
    hello, rx0 := SomeBuffer(p);
    frame, rx1 := SomeBuffer(q);
    var r1 := Accept(start, p);
    var r2 := Accept(r1, q);
    ArriveIsStep(start, rx0, p);
    ArriveIsStep(r1, rx1, q);
    assert Group(start.received, id) + [p] == [p];
    assert r1.received == map[id := [p]];
    assert Group(r1.received, id) + [q] == [p, q];
    assert r2.received == map[id := [p, q]];
    assert [p, q][0] == p && !Complete([p, q]);
    NothingToPoll(r2, id);
    states, events := [start, r1, r2, r2], [Arrive(rx0), Arrive(rx1), Poll([], [])];
  }

  lemma NothingToPoll(r: Receiver, id: u8)
    requires r.received.Keys == {id} && !Complete(r.received[id])
    ensures Step(r, Poll([], []), r)
  {
    assert r.received == map i | i in r.received && i !in [] :: r.received[i];
    assert r.freed + FreedBy([]) == r.freed && r.reassembled + [] == r.reassembled;
    assert ProcessAll(r.endpoint, []) == r.endpoint;
  }

  lemma RunsJoined(states: seq<Receiver>, events: seq<Event>, states': seq<Receiver>, events': seq<Event>)
    requires Run(states, events) && Run(states', events') && states[|events|] == states'[0]
    ensures Run(states[..|events|] + states', events + events')
  {
    hide Step;
    var s, es := states[..|events|] + states', events + events';
    forall i | 0 <= i < |es|
      ensures Step(s[i], es[i], s[i + 1])
    {
      if i < |events| {
        assert Step(states[i], events[i], states[i + 1]);
      } else {
        assert Step(states'[i - |events|], events'[i - |events|], states'[i - |events| + 1]);
      }
    }
  }

  /** For every payload within the bound, every random bytes and every receiver that holds nothing there are frames of
      the handshake and of the payload and a run as ExchangeReachesCallback asks for.  So both outcomes happen:
      with words that are palindromes a recoverable payload arrives, with others it does not. */
  lemma SomeExchange(start: Receiver, payload: seq<bv8>, id: u8, random: Block, hello: seq<bv8>, rx: seq<bv8>)
    returns (states: seq<Receiver>, events: seq<Event>, frames: seq<seq<bv8>>, arrival: seq<nat>)
    requires start.received == map[] && start.endpoint.callbackSet && 0 < |payload| <= MAX_PAYLOAD
    requires ReceivesHandshake(Arrive(rx), hello, id, random)
    ensures Run(states, events) && states[0] == start
    ensures |events| > 2 && events[0] == Arrive(rx) && events[1].Poll? && events[|events| - 1].Poll?
    ensures OthersInert(events, id) && forall k :: 1 < k < |events| ==> !events[k].Send?
    ensures FramesOf(frames, Fragmented(Encrypted(start.endpoint.roundKey, Reversed(random, 4), payload), MSG, id))
    ensures EachReceivedOnce(events[2..], id, frames, arrival)
    ensures states[|events|].endpoint.calls == start.endpoint.calls + [Call(Padded(payload), |payload|)] <==>
            Palindromic(random, 4) && Recoverable(payload)
  {
    hide Fragmented, Encrypted, Process, Padded, FramesOf, Recoverable, Step, Holds, InBounds, ParseFrame, Safe,
         IsFrame, EachReceivedOnce, Reversed, Palindromic, HandshakePacket, Complete, SortedById, ReceivesHandshake,
         InertBut;
    var p, e := HandshakePacket(id, random), Arrive(rx);
    HandshakeFrameReceived(e, hello, id, random);
    HandshakeId(id, random);
    SafeHandshake(start.endpoint.callbackSet, id, random);
    assert Group(start.received, id) + [p] == [p];
    var r1 := Accept(start, p);
    ArriveIsStep(start, rx, p);
    assert r1.received == map[id := [p]];
    var r2 := SomePoll(r1, id, [p]);
    var poll := Poll([id], [[p]]);
    SomePollIsStep(r1, id, [p], r2);
    OwnPollInert(id, [p]);
    PolledHandshake(r1, poll, r2, id, random);
    HandshakeWords(start.endpoint, random);
    ReversedFixesPalindromes(random, 4);
    var tail, rest;
    tail, rest, frames, arrival := SomeDelivery(r2, payload, id, Reversed(random, 4));
    RunOfTwo(start, e, r1, poll, r2);
    RunsJoined([start, r1, r2], [e, poll], tail, rest);
    states, events := [start, r1] + tail, [e, poll] + rest;
    assert [start, r1, r2][..2] == [start, r1];
    assert events[2..] == rest;
    assert InertBut(e, id) by {
      ArrivalInert(e, id);
    }
  }

  lemma OwnPollInert(id: u8, m: seq<Packet>)
    ensures InertBut(Poll([id], [m]), id)
  {
  }

  lemma ArrivalInert(e: Event, id: u8)
    requires e.Arrive?
    ensures InertBut(e, id)
  {
  }

  lemma ArriveIsStep(r: Receiver, rx: seq<bv8>, p: Packet)
    requires InBounds(rx) && ParseFrame(rx) == Some(p)
    ensures Step(r, Arrive(rx), Accept(r, p))
  {
  }

  lemma RunOfTwo(r: Receiver, e: Event, r1: Receiver, e1: Event, r2: Receiver)
    requires Step(r, e, r1) && Step(r1, e1, r2)
    ensures Run([r, r1, r2], [e, e1])
  {
    hide Step;
  }
}
