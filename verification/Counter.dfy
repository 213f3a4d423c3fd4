/** The 128-bit big-endian counter of SP 800-38A section 6.5 and Appendix B.1. */
module Counter {
  import opened Bytes
  import opened Fips197

  const TWO_128 := 0x1_0000_0000_0000_0000_0000_0000_0000_0000

  /** 256 to the power n. */
  function Power256(n: nat): (p: nat)
    ensures p > 0
  {
    if n == 0 then 1 else 256 * Power256(n - 1)
  }

  /** The number that a byte string denotes, most significant byte first. */
  function FromBytes(s: seq<bv8>): (n: nat)
  {
    if |s| == 0 then 0 else 256 * FromBytes(s[..|s| - 1]) + FromByte(s[|s| - 1])
  }

  /** The last `length` bytes of the big-endian form of n. */
  function ToBytes(n: nat, length: nat): (s: seq<bv8>)
    ensures |s| == length
    decreases length
  {
    if length == 0 then [] else ToBytes(n / 256, length - 1) + [ToByte(n % 256)]
  }

  /** The carry loop: trailing 255s become 0 and the byte before them goes up by one. */
  function Incremented(s: seq<bv8>): (t: seq<bv8>)
    ensures |t| == |s|
  {
    if |s| == 0 then []
    else if s[|s| - 1] == 255 then Incremented(s[..|s| - 1]) + [0]
    else s[..|s| - 1] + [s[|s| - 1] + 1]
  }

  /** The k-th counter block after `iv`. */
  function CounterBlock(iv: Block, k: nat): Block {
    ToBytes((FromBytes(iv) + k) % TWO_128, 16)
  }

  lemma PowerOf16()
    ensures Power256(16) == TWO_128
  {
    assert Power256(4) == 0x1_0000_0000;
    assert Power256(8) == 0x1_0000_0000_0000_0000;
    assert Power256(12) == 0x1_0000_0000_0000_0000_0000_0000;
  }

  lemma {:induction false} FromBytesBelow(s: seq<bv8>)
    ensures FromBytes(s) < Power256(|s|)
  {
    hide ToByte, FromByte;
    if |s| > 0 {
      FromBytesBelow(s[..|s| - 1]);
    }
  }

  lemma DivideByte(n: nat, b: u8)
    ensures (256 * n + b) / 256 == n && (256 * n + b) % 256 == b
  {
  }

  lemma {:induction false} ToBytesFromBytes(s: seq<bv8>)
    ensures ToBytes(FromBytes(s), |s|) == s
  {
    hide ToByte, FromByte;
    if |s| > 0 {
      ToBytesFromBytes(s[..|s| - 1]);
      DivideByte(FromBytes(s[..|s| - 1]), FromByte(s[|s| - 1]));
      ToFromByte(s[|s| - 1]);
    }
  }

  lemma {:induction false} FromBytesToBytes(n: nat, length: nat)
    requires n < Power256(length)
    ensures FromBytes(ToBytes(n, length)) == n
  {
    hide ToByte, FromByte;
    if length > 0 {
      FromBytesToBytes(n / 256, length - 1);
      FromToByte(n % 256);
      var s := ToBytes(n, length);
      assert s[..|s| - 1] == ToBytes(n / 256, length - 1);
    }
  }

  /** The carry loop adds one modulo the number of strings of that length; all 255s wrap to all 0s. */
  lemma {:induction false} IncrementedAddsOne(s: seq<bv8>)
    ensures FromBytes(Incremented(s)) == if FromBytes(s) + 1 == Power256(|s|) then 0 else FromBytes(s) + 1
  {
    hide FromByte;
    if |s| > 0 {
      var init, last := s[..|s| - 1], s[|s| - 1];
      FromBytesBelow(init);
      if last == 255 {
        IncrementedAddsOne(init);
        LastByte(Incremented(init), 0);
        ByteBounds();
      } else {
        LastByte(init, last + 1);
        Successor(last);
      }
    }
  }

  lemma LastByte(s: seq<bv8>, b: bv8)
    ensures FromBytes(s + [b]) == 256 * FromBytes(s) + FromByte(b)
  {
    assert (s + [b])[..|s + [b]| - 1] == s;
  }

  lemma ByteBounds()
    ensures FromByte(0) == 0 && FromByte(255) == 255
  {
  }

  /** The first byte counts most: what precedes n bytes counts 256^n times. */
  lemma {:induction false} FromBytesJoined(s: seq<bv8>, t: seq<bv8>)
    ensures FromBytes(s + t) == FromBytes(s) * Power256(|t|) + FromBytes(t)
  {
    hide FromByte;
    if |t| == 0 {
      assert s + t == s;
    } else {
      var init, b := t[..|t| - 1], FromByte(t[|t| - 1]);
      assert (s + t)[..|s + t| - 1] == s + init;
      FromBytesJoined(s, init);
      Distributed(FromBytes(s), Power256(|init|), FromBytes(init), b);
    }
  }

  lemma Distributed(m: nat, p: nat, n: nat, b: nat)
    ensures 256 * (m * p + n) + b == m * (256 * p) + (256 * n + b)
  {
  }

  /** From the first to the second counter block of the example in SP 800-38A appendix F.5.1. */
  lemma CounterExample()
    ensures Incremented([0xf0, 0xf1, 0xf2, 0xf3, 0xf4, 0xf5, 0xf6, 0xf7,
                         0xf8, 0xf9, 0xfa, 0xfb, 0xfc, 0xfd, 0xfe, 0xff])
                     == [0xf0, 0xf1, 0xf2, 0xf3, 0xf4, 0xf5, 0xf6, 0xf7,
                         0xf8, 0xf9, 0xfa, 0xfb, 0xfc, 0xfd, 0xff, 0x00]
  {
    var s: seq<bv8> := [0xf0, 0xf1, 0xf2, 0xf3, 0xf4, 0xf5, 0xf6, 0xf7, 0xf8, 0xf9, 0xfa, 0xfb, 0xfc, 0xfd];
    var t: seq<bv8> := s + [0xfe];
    assert Incremented(t) == s + [0xff] by {
      assert t[..|t| - 1] == s;
    }
    assert Incremented(t + [0xff]) == Incremented(t) + [0] by {
      assert (t + [0xff])[..|t|] == t;
    }
  }

  // ----- arithmetic modulo 2^128 -----

  lemma ModuloIs(n: nat, q: nat, r: nat)
    requires n == q * TWO_128 + r && r < TWO_128
    ensures n % TWO_128 == r
  {
  }

  lemma ModuloSuccessor(n: nat)
    ensures (n + 1) % TWO_128 == if n % TWO_128 + 1 == TWO_128 then 0 else n % TWO_128 + 1
  {
    var q, r := n / TWO_128, n % TWO_128;
    if r + 1 == TWO_128 {
      ModuloIs(n + 1, q + 1, 0);
    } else {
      ModuloIs(n + 1, q, r + 1);
    }
  }

  lemma ModuloSum(n: nat, k: nat)
    ensures (n % TWO_128 + k) % TWO_128 == (n + k) % TWO_128
  {
    var m := n % TWO_128 + k;
    ModuloIs(n + k, n / TWO_128 + m / TWO_128, m % TWO_128);
  }

  lemma ModuloDistinct(m: nat, n: nat)
    requires m < n < m + TWO_128
    ensures m % TWO_128 != n % TWO_128
  {
  }

  // ----- counter blocks -----

  lemma CounterBlockValue(iv: Block, k: nat)
    ensures FromBytes(CounterBlock(iv, k)) == (FromBytes(iv) + k) % TWO_128
  {
    hide FromBytes, ToBytes, Power256;
    PowerOf16();
    FromBytesToBytes((FromBytes(iv) + k) % TWO_128, 16);
  }

  lemma FirstCounterBlock(iv: Block)
    ensures CounterBlock(iv, 0) == iv
  {
    hide FromBytes, ToBytes, Power256;
    PowerOf16();
    FromBytesBelow(iv);
    ToBytesFromBytes(iv);
    ModuloIs(FromBytes(iv), 0, FromBytes(iv));
  }

  /** Incrementing steps from each counter block to the next, through the wrap at 2^128. */
  lemma NextCounterBlock(iv: Block, k: nat)
    ensures Incremented(CounterBlock(iv, k)) == CounterBlock(iv, k + 1)
  {
    hide FromBytes, ToBytes, Power256, Incremented, CounterBlock;
    var c := CounterBlock(iv, k);
    CounterBlockValue(iv, k);
    CounterBlockValue(iv, k + 1);
    PowerOf16();
    IncrementedAddsOne(c);
    ModuloSuccessor(FromBytes(iv) + k);
    SameNumberSameBytes(Incremented(c), CounterBlock(iv, k + 1));
  }

  lemma SameNumberSameBytes(s: seq<bv8>, t: seq<bv8>)
    requires |s| == |t| && FromBytes(s) == FromBytes(t)
    ensures s == t
  {
    hide FromBytes, ToBytes;
    ToBytesFromBytes(s);
    ToBytesFromBytes(t);
  }

  lemma CountersCompose(iv: Block, j: nat, k: nat)
    ensures CounterBlock(CounterBlock(iv, j), k) == CounterBlock(iv, j + k)
  {
    CounterBlockValue(iv, j);
    hide FromBytes, ToBytes;
    ModuloSum(FromBytes(iv) + j, k);
  }

  /** Counter blocks repeat only after 2^128 steps. */
  lemma CountersDistinct(iv: Block, j: nat, k: nat)
    requires j < k < j + TWO_128
    ensures CounterBlock(iv, j) != CounterBlock(iv, k)
  {
    CounterBlockValue(iv, j);
    CounterBlockValue(iv, k);
    hide FromBytes, CounterBlock;
    ModuloDistinct(FromBytes(iv) + j, FromBytes(iv) + k);
  }
}
