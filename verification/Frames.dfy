/** Packets, their checksum, and the frames that carry them over the radio. */
module Frames {
  import opened Bytes

  const PACKET_MAX_SIZE := 119

  /** The bytes a frame adds to the packet's data, and the size of the receive buffer. */
  const FRAME_OVERHEAD := 9
  const RX_SIZE := PACKET_MAX_SIZE + FRAME_OVERHEAD

  // The kinds of packet that a receiver acts on; it drops the others.
  const MSG: u8 := 0
  const ENCRYP: u8 := 1

  datatype Option<T> = None | Some(value: T)

  /** A packet; the source's `lenght` field is |data|. */
  datatype Packet = Packet(ptype: u8, messageId: u8, fragmentId: u8, totalFragments: u8, data: seq<bv8>)

  /** A packet to be sent also has its checksum filled in; a received one leaves that field unset. */
  datatype Outgoing = Outgoing(packet: Packet, checksum: u8)

  function Sealed(p: Packet): Outgoing {
    Outgoing(p, Checksum(p.data))
  }

  // ----- checksum -----

  function Sum(data: seq<bv8>): nat {
    if |data| == 0 then 0 else Sum(data[..|data| - 1]) + FromByte(data[|data| - 1])
  }

  function Checksum(data: seq<bv8>): u8 {
    255 - Sum(data) % 256
  }

  lemma {:induction false} SumBound(data: seq<bv8>)
    ensures Sum(data) <= 255 * |data|
  {
    if |data| > 0 {
      SumBound(data[..|data| - 1]);
    }
  }

  /** The sum counts every byte once, wherever it stands. */
  lemma {:induction false} SumJoined(a: seq<bv8>, b: seq<bv8>)
    ensures Sum(a + b) == Sum(a) + Sum(b)
  {
    hide FromByte;
    if |b| == 0 {
      assert a + b == a;
    } else {
      assert (a + b)[..|a + b| - 1] == a + b[..|b| - 1];
      SumJoined(a, b[..|b| - 1]);
    }
  }

  lemma SumOfOne(b: bv8)
    ensures Sum([b]) == FromByte(b)
  {
    assert [b][..0] == [];
  }

  /** The program's loop over a 16-bit accumulator. */
  method ComputeChecksum(data: seq<bv8>, len: u8) returns (checksum: u8)
    requires len <= |data|
    ensures checksum == Checksum(data[..len])
  {
    var sum := 0;
    for i := 0 to len
      invariant sum == Sum(data[..i])
    {
      assert data[..i + 1][..i] == data[..i];
      SumBound(data[..i + 1]);
      sum := (sum + FromByte(data[i])) % 0x1_0000;
    }
    SumBound(data[..len]);
    checksum := (0xFFFF - sum) % 256;
  }

  /** A received checksum byte is accepted exactly when it completes the data sum to 255, modulo 256. */
  lemma AcceptedExactly(data: seq<bv8>, c: u8)
    ensures c == Checksum(data) <==> (Sum(data) + c) % 256 == 255
  {
    var q, r := Sum(data) / 256, Sum(data) % 256;
    assert Sum(data) + c == 256 * q + (r + c);
  }

  lemma {:induction false} SumAfterChange(data: seq<bv8>, i: nat, b: bv8)
    requires i < |data|
    ensures Sum(data[i := b]) == Sum(data) - FromByte(data[i]) + FromByte(b)
  {
    hide FromByte;
    var n := |data| - 1;
    if i < n {
      SumAfterChange(data[..n], i, b);
      assert data[i := b][..n] == data[..n][i := b];
    } else {
      assert data[i := b][..n] == data[..n];
    }
  }

  /** Changing exactly one data byte changes the checksum, so the damaged packet is rejected. */
  lemma OneChangeDetected(data: seq<bv8>, i: nat, b: bv8)
    requires i < |data| && b != data[i]
    ensures Checksum(data[i := b]) != Checksum(data)
  {
    SumAfterChange(data, i, b);
    ToFromByte(b);
    ToFromByte(data[i]);
    hide FromByte, ToByte;
    var d := FromByte(b) - FromByte(data[i]);
    assert d != 0 && -256 < d < 256;
    ShiftedRemainder(Sum(data), d);
  }

  lemma ShiftedRemainder(n: nat, d: int)
    requires d != 0 && -256 < d < 256 && n + d >= 0
    ensures (n + d) % 256 != n % 256
  {
  }

  // ----- frames -----

  /** The layout that send_pkt writes; the byte before the checksum is never written and may be anything. */
  ghost predicate IsFrame(frame: seq<bv8>, o: Outgoing) {
    var n := |o.packet.data|;
    && n < 256
    && |frame| == n + FRAME_OVERHEAD
    && frame[0] == 0xA5 && frame[1] == 0x5A
    && frame[2] == ToByte(o.packet.ptype)
    && frame[3] == ToByte(o.packet.messageId)
    && frame[4] == ToByte(o.packet.fragmentId)
    && frame[5] == ToByte(o.packet.totalFragments)
    && frame[6] == ToByte(n)
    && frame[7..7 + n] == o.packet.data
    && frame[n + 8] == ToByte(o.checksum)
  }

  /** The buffer comes from the stack, with arbitrary contents. */
  method PrintFrame(o: Outgoing) returns (frame: seq<bv8>)
    requires |o.packet.data| < 256
    ensures IsFrame(frame, o)
  {
    hide ToByte;
    var p, n := o.packet, |o.packet.data|;
    var buffer := new bv8[n + FRAME_OVERHEAD];
    buffer[0] := 0xA5;
    buffer[1] := 0x5A;
    buffer[2] := ToByte(p.ptype);
    buffer[3] := ToByte(p.messageId);
    buffer[4] := ToByte(p.fragmentId);
    buffer[5] := ToByte(p.totalFragments);
    buffer[6] := ToByte(n);
    forall i | 0 <= i < n {
      buffer[7 + i] := p.data[i];
    }
    assert buffer[7..7 + n] == p.data;
    buffer[n + 8] := ToByte(o.checksum);
    frame := buffer[..];
    assert frame[7..7 + n] == buffer[7..7 + n] == p.data;
  }

  /** The header bytes mark a packet. */
  predicate HasHeader(rx: seq<bv8>)
    requires |rx| == RX_SIZE
  {
    rx[0] == 0xA5 && rx[1] == 0x5A
  }

  /** A length beyond the packet's data array would overrun it; such frames are outside the model. */
  predicate InBounds(rx: seq<bv8>) {
    |rx| == RX_SIZE && (HasHeader(rx) ==> FromByte(rx[6]) <= PACKET_MAX_SIZE)
  }

  /** What the program reads from a receive buffer: nothing without the header or with a wrong checksum. */
  function ParseFrame(rx: seq<bv8>): (r: Option<Packet>)
    requires InBounds(rx)
    ensures r.Some? ==> |r.value.data| <= PACKET_MAX_SIZE
  {
    if !HasHeader(rx) then None
    else
      var n := FromByte(rx[6]);
      var p := Packet(FromByte(rx[2]), FromByte(rx[3]), FromByte(rx[4]), FromByte(rx[5]), rx[7..7 + n]);
      if FromByte(rx[n + 8]) == Checksum(p.data) then Some(p) else None
  }

  /** A text packet of two bytes in full; 0xFC makes up for the sum 3 of its data. */
  lemma FrameExample(frame: seq<bv8>)
    ensures IsFrame(frame, Sealed(Packet(MSG, 7, 0, 1, [0x01, 0x02]))) <==>
            |frame| == 11 && frame[..9] == [0xA5, 0x5A, 0x00, 0x07, 0x00, 0x01, 0x02, 0x01, 0x02] && frame[10] == 0xFC
  {
    var data: seq<bv8> := [0x01, 0x02];
    SumOfOne(1);
    SumOfOne(2);
    SumJoined([1], [2]);
    assert data == [1] + [2] && Checksum(data) == 252;
    if |frame| == 11 {
      assert frame[..9] == frame[..7] + frame[7..9];
    }
  }

  /** The bytes of a frame at the front of the buffer, whatever follows them. */
  ghost predicate Holds(rx: seq<bv8>, frame: seq<bv8>) {
    |rx| == RX_SIZE && frame <= rx
  }

  lemma SameSlice(s: seq<bv8>, prefix: seq<bv8>, i: nat, j: nat)
    requires prefix <= s && i <= j <= |prefix|
    ensures s[i..j] == prefix[i..j]
    ensures forall k :: 0 <= k < |prefix| ==> s[k] == prefix[k]
  {
  }

  lemma SliceOfPrefix(s: seq<bv8>, n: nat, i: nat, j: nat)
    requires i <= j <= n <= |s|
    ensures s[..n][i..j] == s[i..j]
  {
  }

  lemma UpdatedSlice(s: seq<bv8>, i: nat, j: nat, k: nat, b: bv8)
    requires i <= j <= |s| && i + k < j
    ensures s[i + k := b][i..j] == s[i..j][k := b]
  {
  }

  /** Parsing undoes printing, whatever the unwritten byte and the rest of the buffer hold. */
  lemma ParseUndoesPrint(p: Packet, frame: seq<bv8>, rx: seq<bv8>)
    requires |p.data| <= PACKET_MAX_SIZE
    requires IsFrame(frame, Sealed(p)) && Holds(rx, frame)
    ensures |frame| <= RX_SIZE
    ensures InBounds(rx) && ParseFrame(rx) == Some(p)
  {
    FromToByte(p.ptype);
    FromToByte(p.messageId);
    FromToByte(p.fragmentId);
    FromToByte(p.totalFragments);
    FromToByte(|p.data|);
    FromToByte(Checksum(p.data));
    hide FromByte, ToByte, Checksum;
    var n := |p.data|;
    SameSlice(rx, frame, 7, 7 + n);
  }

  /** Every packet that fits has a frame, and a buffer from which it is read. */
  lemma SomeBuffer(p: Packet) returns (frame: seq<bv8>, rx: seq<bv8>)
    requires |p.data| <= PACKET_MAX_SIZE
    ensures IsFrame(frame, Sealed(p)) && Holds(rx, frame)
    ensures InBounds(rx) && ParseFrame(rx) == Some(p)
  {
    hide FromByte, ToByte, Checksum, ParseFrame, InBounds;
    var header := [0xA5, 0x5A, ToByte(p.ptype), ToByte(p.messageId), ToByte(p.fragmentId), ToByte(p.totalFragments),
                   ToByte(|p.data|)];
    frame := header + p.data + [0, ToByte(Checksum(p.data))];
    assert frame[7..7 + |p.data|] == p.data;
    rx := frame + seq(RX_SIZE - |frame|, _ => 0);
    assert rx[..|frame|] == frame;
    ParseUndoesPrint(p, frame, rx);
  }

  /** Only frames are accepted: an accepted buffer begins with a frame of the packet it is read as. */
  lemma OnlyFramesParse(rx: seq<bv8>)
    requires InBounds(rx) && ParseFrame(rx).Some?
    ensures var p := ParseFrame(rx).value;
            IsFrame(rx[..|p.data| + FRAME_OVERHEAD], Sealed(p))
  {
    hide FromByte, ToByte, Checksum;
    var p := ParseFrame(rx).value;
    ToFromByte(rx[2]);
    ToFromByte(rx[3]);
    ToFromByte(rx[4]);
    ToFromByte(rx[5]);
    ToFromByte(rx[6]);
    ToFromByte(rx[|p.data| + 8]);
    var frame := rx[..|p.data| + FRAME_OVERHEAD];
    SliceOfPrefix(rx, |frame|, 7, 7 + |p.data|);
  }

  /** A frame damaged in one data byte is not accepted. */
  lemma DamagedFrameRejected(p: Packet, frame: seq<bv8>, rx: seq<bv8>, i: nat, b: bv8)
    requires |p.data| <= PACKET_MAX_SIZE && i < |p.data| && b != p.data[i]
    requires IsFrame(frame, Sealed(p)) && Holds(rx, frame[7 + i := b])
    ensures InBounds(rx) && ParseFrame(rx) == None
  {
    hide FromByte, ToByte, Checksum;
    FromToByte(|p.data|);
    FromToByte(Checksum(p.data));
    OneChangeDetected(p.data, i, b);
    var damaged := frame[7 + i := b];
    var n := |p.data|;
    SameSlice(rx, damaged, 7, 7 + n);
    UpdatedSlice(frame, 7, 7 + n, i, b);
    assert rx[7..7 + n] == p.data[i := b];
    assert rx[6] == ToByte(n) && rx[n + 8] == ToByte(Checksum(p.data));
  }
}
