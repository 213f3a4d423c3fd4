/** Words in memory.  The program views the same sixteen bytes now as four 32-bit words, now as bytes; on
    its little-endian host the least significant byte of a word comes first. */
module Endianness {

  function LoadLittle(b0: bv8, b1: bv8, b2: bv8, b3: bv8): bv32 {
    (b0 as bv32) | ((b1 as bv32) << 8) | ((b2 as bv32) << 16) | ((b3 as bv32) << 24)
  }

  /** Byte j of a stored word. */
  function StoredByte(w: bv32, j: nat): bv8
    requires j < 4
  {
    if j == 0 then (w & 0xff) as bv8
    else if j == 1 then ((w >> 8) & 0xff) as bv8
    else if j == 2 then ((w >> 16) & 0xff) as bv8
    else ((w >> 24) & 0xff) as bv8
  }

  /** The word with its bytes in the opposite order, by the program's masks and shifts. */
  function SwapWord(v: bv32): bv32 {
    ((v & 0x000000FF) << 24)
    | ((v & 0x0000FF00) << 8)
    | ((v & 0x00FF0000) >> 8)
    | ((v & 0xFF000000) >> 24)
  }

  /** The bytes with each of the first `words` words reversed. */
  function Reversed(bytes: seq<bv8>, words: nat): (r: seq<bv8>)
    requires 4 * words <= |bytes|
    ensures |r| == |bytes|
  {
    seq(|bytes|, k requires 0 <= k < |bytes| => if k < 4 * words then bytes[Mirror(k)] else bytes[k])
  }

  /** The place of byte k within its word, counted from the other end. */
  function Mirror(k: nat): (m: nat)
    ensures m / 4 == k / 4 && m % 4 == 3 - k % 4
  {
    4 * (k / 4) + (3 - k % 4)
  }

  lemma MirrorWord(w: nat)
    ensures Mirror(4 * w) == 4 * w + 3 && Mirror(4 * w + 1) == 4 * w + 2
    ensures Mirror(4 * w + 2) == 4 * w + 1 && Mirror(4 * w + 3) == 4 * w
  {
  }

  lemma StoreAfterLoad(b0: bv8, b1: bv8, b2: bv8, b3: bv8)
    ensures var w := LoadLittle(b0, b1, b2, b3);
            StoredByte(w, 0) == b0 && StoredByte(w, 1) == b1 && StoredByte(w, 2) == b2 && StoredByte(w, 3) == b3
  {
  }

  lemma SwapReversesBytes(b0: bv8, b1: bv8, b2: bv8, b3: bv8)
    ensures var w := SwapWord(LoadLittle(b0, b1, b2, b3));
            StoredByte(w, 0) == b3 && StoredByte(w, 1) == b2 && StoredByte(w, 2) == b1 && StoredByte(w, 3) == b0
  {
  }

  /** Each of the first words has its four bytes in the opposite order; the bytes after them stay. */
  lemma ReversedBytes(bytes: seq<bv8>, words: nat, w: nat)
    requires 4 * words <= |bytes|
    ensures w < words ==>
      Reversed(bytes, words)[4 * w..4 * w + 4] == [bytes[4 * w + 3], bytes[4 * w + 2], bytes[4 * w + 1], bytes[4 * w]]
    ensures Reversed(bytes, words)[4 * words..] == bytes[4 * words..]
  {
    if w < words {
      MirrorWord(w);
      hide Mirror;
    }
  }

  /** Reversing is its own inverse, for any number of words. */
  lemma ReversedTwice(bytes: seq<bv8>, words: nat)
    requires 4 * words <= |bytes|
    ensures Reversed(Reversed(bytes, words), words) == bytes
  {
    var once := Reversed(bytes, words);
    forall k | 0 <= k < |bytes|
      ensures Reversed(once, words)[k] == bytes[k]
    {
      if k < 4 * words {
        assert Mirror(k) < 4 * words && Mirror(Mirror(k)) == k;
      }
    }
  }

  /** A byte string whose words read the same from both ends. */
  predicate Palindromic(bytes: seq<bv8>, words: nat)
    requires 4 * words <= |bytes|
  {
    forall k :: 0 <= k < 4 * words ==> bytes[k] == bytes[Mirror(k)]
  }

  lemma ReversedFixesPalindromes(bytes: seq<bv8>, words: nat)
    requires 4 * words <= |bytes|
    ensures Reversed(bytes, words) == bytes <==> Palindromic(bytes, words)
  {
    var r := Reversed(bytes, words);
    if r == bytes {
      forall k | 0 <= k < 4 * words
        ensures bytes[k] == bytes[Mirror(k)]
      {
        assert r[k] == bytes[Mirror(k)];
      }
    }
  }

  /** Word i of a buffer, as the program loads it. */
  function WordAt(buf: seq<bv8>, i: nat): bv32
    requires 4 * i + 4 <= |buf|
  {
    LoadLittle(buf[4 * i], buf[4 * i + 1], buf[4 * i + 2], buf[4 * i + 3])
  }

  /** Word w of `out` is word w of s with its bytes in the opposite order. */
  ghost predicate WordReversed(out: seq<bv8>, s: seq<bv8>, w: nat)
    requires 4 * w + 4 <= |out| && 4 * w + 4 <= |s|
  {
    && out[4 * w] == s[4 * w + 3] && out[4 * w + 1] == s[4 * w + 2]
    && out[4 * w + 2] == s[4 * w + 1] && out[4 * w + 3] == s[4 * w]
  }

  /** The first `words` words are reversed and the bytes after them are those of s. */
  ghost predicate ReversedUpTo(out: seq<bv8>, s: seq<bv8>, words: nat) {
    && |out| == |s| && 4 * words <= |s|
    && (forall w :: 0 <= w < words ==> WordReversed(out, s, w))
  }

  lemma ReversedAll(out: seq<bv8>, s: seq<bv8>, words: nat)
    requires ReversedUpTo(out, s, words)
    requires forall k :: 4 * words <= k < |s| ==> out[k] == s[k]
    ensures out == Reversed(s, words)
  {
    forall k | 0 <= k < |s|
      ensures out[k] == Reversed(s, words)[k]
    {
      if k < 4 * words {
        var w := k / 4;
        assert WordReversed(out, s, w);
        assert k == 4 * w || k == 4 * w + 1 || k == 4 * w + 2 || k == 4 * w + 3;
      }
    }
  }

  lemma ReversedOneMore(out: seq<bv8>, out': seq<bv8>, s: seq<bv8>, w: nat)
    requires ReversedUpTo(out, s, w) && |out'| == |s| && 4 * w + 4 <= |s|
    requires forall k :: 0 <= k < 4 * w ==> out'[k] == out[k]
    requires WordReversed(out', s, w)
    ensures ReversedUpTo(out', s, w + 1)
  {
    forall v | 0 <= v < w
      ensures WordReversed(out', s, v)
    {
      assert WordReversed(out, s, v);
    }
  }

  method StoreWord(buf: array<bv8>, i: nat, w: bv32)
    requires 4 * i + 4 <= buf.Length
    modifies buf
    ensures buf[4 * i] == StoredByte(w, 0) && buf[4 * i + 1] == StoredByte(w, 1)
    ensures buf[4 * i + 2] == StoredByte(w, 2) && buf[4 * i + 3] == StoredByte(w, 3)
    ensures forall k :: 0 <= k < buf.Length && !(4 * i <= k < 4 * i + 4) ==> buf[k] == old(buf[k])
  {
    buf[4 * i] := StoredByte(w, 0);
    buf[4 * i + 1] := StoredByte(w, 1);
    buf[4 * i + 2] := StoredByte(w, 2);
    buf[4 * i + 3] := StoredByte(w, 3);
  }

  /** Reverses the bytes of each of the first `wordCount` words in place. */
  method SwapEndianness(buf: array<bv8>, wordCount: nat)
    requires 4 * wordCount <= buf.Length
    modifies buf
    ensures buf[..] == Reversed(old(buf[..]), wordCount)
  {
    hide LoadLittle, SwapWord, StoredByte;
    ghost var s := buf[..];
    for i := 0 to wordCount
      invariant ReversedUpTo(buf[..], s, i)
      invariant forall k :: 4 * i <= k < buf.Length ==> buf[k] == s[k]
    {
      ghost var out := buf[..];
      var v := WordAt(buf[..], i);
      SwapReversesBytes(s[4 * i], s[4 * i + 1], s[4 * i + 2], s[4 * i + 3]);
      StoreWord(buf, i, SwapWord(v));
      ReversedOneMore(out, buf[..], s, i);
    }
    ReversedAll(buf[..], s, wordCount);
  }

  /** Prints four words most significant byte first: on this host, each word's bytes reversed. */
  method U32ToBytes(input: array<bv8>, output: array<bv8>)
    requires input.Length == 16 == output.Length && input != output
    modifies output
    ensures output[..] == Reversed(input[..], 4)
  {
    hide LoadLittle, StoredByte;
    for i := 0 to 4
      invariant ReversedUpTo(output[..], input[..], i)
    {
      ghost var out := output[..];
      var w := WordAt(input[..], i);
      StoreAfterLoad(input[4 * i], input[4 * i + 1], input[4 * i + 2], input[4 * i + 3]);
      output[i * 4 + 0] := StoredByte(w, 3);
      output[i * 4 + 1] := StoredByte(w, 2);
      output[i * 4 + 2] := StoredByte(w, 1);
      output[i * 4 + 3] := StoredByte(w, 0);
      ReversedOneMore(out, output[..], input[..], i);
    }
    ReversedAll(output[..], input[..], 4);
  }
}
