/** How send pads a message to whole cipher blocks, and what poll makes of the padding. */
module Padding {
  import opened Bytes
  import opened Frames

  const TWO_32 := 0x1_0000_0000

  /** Up to this size none of the 32-bit sums in send wraps around. */
  const MAX_MESSAGE := TWO_32 - 128

  /** All arithmetic is on unsigned 32-bit numbers. */
  function PaddedSize(size: nat): nat {
    (size + 15) % TWO_32 / 16 * 16
  }

  /** The cast binds to the padded size only; the difference is taken in 32 bits and then cut to one byte. */
  function PaddingValue(size: nat): u8 {
    (PaddedSize(size) % 256 - size) % TWO_32 % 256
  }

  function Padded(message: seq<bv8>): seq<bv8>
    requires |message| <= MAX_MESSAGE
  {
    message + seq(PaddedSize(|message|) - |message|, _ => ToByte(PaddingValue(|message|)))
  }

  /** The padded size is the least multiple of 16 that is not below the size. */
  lemma PaddedSizeIsLeast(size: nat)
    requires size <= MAX_MESSAGE
    ensures PaddedSize(size) % 16 == 0 && size <= PaddedSize(size)
    ensures forall n :: n % 16 == 0 && size <= n ==> PaddedSize(size) <= n
  {
    forall n | n % 16 == 0 && size <= n
      ensures PaddedSize(size) <= n
    {
      assert n == 16 * (n / 16);
    }
  }

  /** In spite of the cast, the padding value is the number of padding bytes. */
  lemma PaddingValueIsDifference(size: nat)
    requires size <= MAX_MESSAGE
    ensures PaddingValue(size) == PaddedSize(size) - size < 16
  {
    var padded := PaddedSize(size);
    PaddedSizeIsLeast(size);
    var q, r := padded / 256, padded % 256;
    assert padded == 256 * q + r;
    var d := r - size;
    assert d == (padded - size) - 256 * q;
    WrappedRemainder(padded - size, q);
  }

  /** Taking 256 q off a small number in 32 bits does not show in the low byte. */
  lemma WrappedRemainder(n: nat, q: nat)
    requires n < 256 && q < 0x100_0000
    ensures (n - 256 * q) % TWO_32 % 256 == n
  {
    if q > 0 {
      assert (n - 256 * q) % TWO_32 == n - 256 * q + TWO_32;
      assert n - 256 * q + TWO_32 == n + 256 * (0x100_0000 - q);
    }
  }

  /** The message, followed by fewer than sixteen bytes that all say how many they are, up to a whole number of
      blocks. */
  lemma PaddedBytes(message: seq<bv8>)
    requires |message| <= MAX_MESSAGE
    ensures var padded := Padded(message); var n := |padded| - |message|;
            && 0 <= n < 16 && |padded| % 16 == 0
            && padded[..|message|] == message
            && forall i :: |message| <= i < |padded| ==> padded[i] == ToByte(n)
  {
    hide ToByte, PaddingValue;
    PaddingValueIsDifference(|message|);
    PaddedSizeIsLeast(|message|);
  }

  // ----- removing the padding -----

  /** The last p bytes all hold p. */
  ghost predicate EndsWithPadding(buf: seq<bv8>, p: u8) {
    p <= |buf| && forall i :: |buf| - p <= i < |buf| ==> buf[i] == ToByte(p)
  }

  /** The length that poll passes to the callback, or none if it rejects the padding.  With a padding value
      larger than the buffer the start index wraps around, so nothing is checked and the length wraps too. */
  ghost function StripLength(buf: seq<bv8>): Option<nat>
    requires 0 < |buf| < TWO_32
  {
    var p := FromByte(buf[|buf| - 1]);
    if 0 < p < 16 then
      if p > |buf| then Some(|buf| - p + TWO_32)
      else if EndsWithPadding(buf, p) then Some(|buf| - p) else None
    else if |buf| % 16 == 0 then Some(|buf|)
    else None
  }

  /** The answer for every buffer, of whatever length: q bytes come off exactly if the buffer ends in q bytes with the
      value q, for a q from 1 to 15; nothing comes off exactly if it consists of whole blocks and the last byte is not
      from 1 to 15; a last byte from 1 to 15 that is more than the buffer's length makes the length wrap around; every
      other buffer is rejected. */
  lemma StripExactly(buf: seq<bv8>, n: nat)
    requires 0 < |buf| < TWO_32
    ensures n < |buf| ==> (StripLength(buf) == Some(n) <==> |buf| - n < 16 && EndsWithPadding(buf, |buf| - n))
    ensures n == |buf| ==>
      (StripLength(buf) == Some(n) <==> |buf| % 16 == 0 && !(0 < FromByte(buf[|buf| - 1]) < 16))
    ensures n > |buf| ==>
      (StripLength(buf) == Some(n) <==> |buf| < FromByte(buf[|buf| - 1]) < 16 &&
                                        n + FromByte(buf[|buf| - 1]) == |buf| + TWO_32)
  {
    var p := FromByte(buf[|buf| - 1]);
    ToFromByte(buf[|buf| - 1]);
    if |buf| - 16 < n < |buf| {
      FromToByte(|buf| - n);
    }
    hide FromByte, ToByte;
  }

  lemma WrappedDifference(n: nat, p: nat)
    requires n < TWO_32 && p < TWO_32
    ensures (n - p) % TWO_32 == if p <= n then n - p else n - p + TWO_32
  {
  }

  /** The validation steps of poll over the decrypted buffer. */
  method ValidatePadding(reassembled: array<bv8>, totalLength: nat) returns (length: Option<nat>)
    requires 0 < totalLength < TWO_32 && totalLength == reassembled.Length
    ensures length == StripLength(reassembled[..])
  {
    hide FromByte, ToByte;
    var paddingLength: int := FromByte(reassembled[totalLength - 1]);
    ghost var p: u8 := paddingLength;
    ToFromByte(reassembled[totalLength - 1]);
    WrappedDifference(totalLength, p);
    WrappedDifference(totalLength, 0);
    if paddingLength > 0 && paddingLength < 16 {
      var i := (totalLength - paddingLength) % TWO_32;
      ghost var start := i;
      while i < totalLength
        invariant start <= i
        invariant start < totalLength ==> i <= totalLength
        invariant paddingLength == p
        invariant forall k :: start <= k < i && k < totalLength ==> reassembled[k] == ToByte(p)
      {
        FromToByte(p);
        if FromByte(reassembled[i]) != paddingLength {
          paddingLength := -1;
          break;
        }
        ToFromByte(reassembled[i]);
        i := i + 1;
      }
    } else if totalLength % 16 == 0 {
      paddingLength := 0;
    } else {
      paddingLength := -2;
    }
    if paddingLength < 16 && paddingLength >= 0 {
      length := Some((totalLength - paddingLength) % TWO_32);
    } else {
      length := None;
    }
  }

  // ----- when the padding comes off as it went on -----

  /** What a caller can check beforehand: the message fills no whole number of blocks, or its last byte
      cannot be taken for a padding value. */
  predicate Recoverable(message: seq<bv8>) {
    |message| % 16 != 0 || (|message| > 0 && !(0 < FromByte(message[|message| - 1]) < 16))
  }

  /** Stripping recovers the length exactly for recoverable messages: a message of whole blocks gets no
      padding block, so one that ends in 1..15 is cut short or rejected. */
  lemma StripUndoesPad(message: seq<bv8>)
    requires 0 < |message| <= MAX_MESSAGE
    ensures 0 < |Padded(message)| < TWO_32
    ensures StripLength(Padded(message)) == Some(|message|) <==> Recoverable(message)
  {
    var size, buf := |message|, Padded(message);
    PaddingValueIsDifference(size);
    PaddedSizeIsLeast(size);
    var p := PaddingValue(size);
    FromToByte(p);
    hide FromByte, ToByte, PaddingValue, PaddedSize;
    assert |buf| == size + p;
    if size % 16 == 0 {
      assert buf == message;
    } else {
      assert forall i :: size <= i < |buf| ==> buf[i] == ToByte(p);
    }
  }

  /** What happens to the messages that are not recoverable. */
  lemma UnrecoverableIsCutOrRejected(message: seq<bv8>)
    requires 0 < |message| <= MAX_MESSAGE && !Recoverable(message)
    ensures Padded(message) == message
    ensures var p := FromByte(message[|message| - 1]);
            StripLength(message) == if EndsWithPadding(message, p) then Some(|message| - p) else None
  {
    PaddingValueIsDifference(|message|);
    PaddedSizeIsLeast(|message|);
  }

  /** Sixteen bytes of which the last is 1 lose that byte. */
  lemma CutMessageExample()
    ensures var message := seq(15, _ => 0x41) + [0x01];
            |Padded(message)| == 16 && StripLength(Padded(message)) == Some(15)
  {
    var message: seq<bv8> := seq(15, _ => 0x41) + [0x01];
    assert message[|message| - 1] == 1 && FromByte(1) == 1 && ToByte(1) == 1;
    UnrecoverableIsCutOrRejected(message);
    assert EndsWithPadding(message, 1);
  }
}
