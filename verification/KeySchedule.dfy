/** The key expansion of FIPS 197 section 5.2 for 128-bit keys, and the proof that it can be run
    backwards from any four consecutive words. */
module KeySchedule {
  import opened Gf256
  import opened SubstitutionBox
  import opened Fips197

  /** The number of words in a key, and in the whole schedule. */
  const NK := 4
  const WORDS := 44

  datatype Word = Word(b0: bv8, b1: bv8, b2: bv8, b3: bv8) {
    function Byte(j: nat): bv8
      requires j < 4
    {
      if j == 0 then b0 else if j == 1 then b1 else if j == 2 then b2 else b3
    }

    function Xor(w: Word): Word {
      Word(b0 ^ w.b0, b1 ^ w.b1, b2 ^ w.b2, b3 ^ w.b3)
    }

    function Rotated(): Word {
      Word(b1, b2, b3, b0)
    }

    function Substituted(): Word {
      Word(Sbox(b0), Sbox(b1), Sbox(b2), Sbox(b3))
    }
  }

  function KeyWord(key: Block, i: nat): Word
    requires i < NK
  {
    Word(key[4 * i], key[4 * i + 1], key[4 * i + 2], key[4 * i + 3])
  }

  /** The polynomial x^(n-1), which the n-th round constant carries in its first byte. */
  function RoundConstant(n: nat): bv8
    requires 1 <= n
  {
    if n == 1 then 1 else TimesX(RoundConstant(n - 1))
  }

  /** What word i adds to the word four before it, given the word just before it. */
  function Increment(previous: Word, i: nat): Word
    requires NK <= i
  {
    if i % NK == 0 then previous.Rotated().Substituted().Xor(Word(RoundConstant(i / NK), 0, 0, 0))
    else previous
  }

  function ScheduleWord(key: Block, i: nat): Word {
    if i < NK then KeyWord(key, i)
    else ScheduleWord(key, i - NK).Xor(Increment(ScheduleWord(key, i - 1), i))
  }

  function KeyExpansion(key: Block): RoundKeys {
    seq(176, k requires 0 <= k < 176 => ScheduleWord(key, k / 4).Byte(k % 4))
  }

  // ----- the recurrence on bytes -----

  /** The round constants in figures. */
  lemma RoundConstants()
    ensures RoundConstant(1) == 0x01 && RoundConstant(2) == 0x02 && RoundConstant(3) == 0x04
    ensures RoundConstant(4) == 0x08 && RoundConstant(5) == 0x10 && RoundConstant(6) == 0x20
    ensures RoundConstant(7) == 0x40 && RoundConstant(8) == 0x80 && RoundConstant(9) == 0x1b
    ensures RoundConstant(10) == 0x36
  {
    assert RoundConstant(2) == TimesX(1) == 2;
    assert RoundConstant(3) == TimesX(2) == 4;
    assert RoundConstant(4) == TimesX(4) == 8;
    assert RoundConstant(5) == TimesX(8) == 0x10;
    assert RoundConstant(6) == TimesX(0x10) == 0x20;
    assert RoundConstant(7) == TimesX(0x20) == 0x40;
    assert RoundConstant(8) == TimesX(0x40) == 0x80;
    assert RoundConstant(9) == TimesX(0x80) == 0x1b;
    assert RoundConstant(10) == TimesX(0x1b) == 0x36;
  }

  /** Each later word is the sum of the words one and four places before it, but for every fourth one the word before it
      is first rotated by a byte, substituted, and given a round constant. */
  lemma RecurrenceOnBytes(key: Block, i: nat)
    requires i >= 4
    ensures ScheduleWord(key, i) == NextOnBytes(ScheduleWord(key, i - 1), ScheduleWord(key, i - 4), i)
  {
    hide Sbox, RoundConstant, ScheduleWord, Increment, Word.Xor, NextOnBytes;
    ScheduleStep(key, i);
    NextIsSum(ScheduleWord(key, i - 1), ScheduleWord(key, i - 4), i);
  }

  /** Word i from its neighbours p, one place before, and q, four places before. */
  function NextOnBytes(p: Word, q: Word, i: nat): Word
    requires i >= 4
  {
    if i % 4 == 0 then
      Word(q.b0 ^ (Sbox(p.b1) ^ RoundConstant(i / 4)), q.b1 ^ Sbox(p.b2), q.b2 ^ Sbox(p.b3), q.b3 ^ Sbox(p.b0))
    else Word(q.b0 ^ p.b0, q.b1 ^ p.b1, q.b2 ^ p.b2, q.b3 ^ p.b3)
  }

  lemma NextIsSum(p: Word, q: Word, i: nat)
    requires i >= 4
    ensures q.Xor(Increment(p, i)) == NextOnBytes(p, q, i)
  {
    hide Sbox, RoundConstant, Increment, NextOnBytes, Word.Xor;
    IncrementOnBytes(p, i);
    if i % 4 == 0 {
      SubstitutedSum(p, q, Increment(p, i), i);
    } else {
      PlainSum(p, q, i);
    }
  }

  lemma PlainSum(p: Word, q: Word, i: nat)
    requires i >= 4 && i % 4 != 0
    ensures q.Xor(p) == NextOnBytes(p, q, i)
  {
    hide Sbox, RoundConstant;
  }

  lemma SubstitutedSum(p: Word, q: Word, t: Word, i: nat)
    requires i >= 4 && i % 4 == 0
    requires t.b0 == Sbox(p.b1) ^ RoundConstant(i / 4)
    requires t.b1 == Sbox(p.b2) && t.b2 == Sbox(p.b3) && t.b3 == Sbox(p.b0)
    ensures q.Xor(t) == NextOnBytes(p, q, i)
  {
    hide Sbox, RoundConstant;
  }

  lemma IncrementOnBytes(p: Word, i: nat)
    requires i >= 4
    ensures i % 4 != 0 ==> Increment(p, i) == p
    ensures i % 4 == 0 ==>
      Increment(p, i) == Word(Sbox(p.b1) ^ RoundConstant(i / 4), Sbox(p.b2), Sbox(p.b3), Sbox(p.b0))
  {
    hide Sbox, RoundConstant;
    NoSummand(Sbox(p.b2));
    NoSummand(Sbox(p.b3));
    NoSummand(Sbox(p.b0));
  }

  lemma ScheduleStep(key: Block, i: nat)
    requires i >= NK
    ensures ScheduleWord(key, i) == ScheduleWord(key, i - NK).Xor(Increment(ScheduleWord(key, i - 1), i))
  {
  }

  lemma NoSummand(b: bv8)
    ensures b ^ 0 == b
  {
  }

  // ----- reversibility -----

  lemma XorWordTwice(v: Word, w: Word)
    ensures v.Xor(w).Xor(w) == v
  {
    XorTwice(v.b0, w.b0);
    XorTwice(v.b1, w.b1);
    XorTwice(v.b2, w.b2);
    XorTwice(v.b3, w.b3);
  }

  function BlockOf(a: Word, b: Word, c: Word, d: Word): Block {
    [a.b0, a.b1, a.b2, a.b3, b.b0, b.b1, b.b2, b.b3, c.b0, c.b1, c.b2, c.b3, d.b0, d.b1, d.b2, d.b3]
  }

  /** Runs the recurrence backwards from the words numbered i to i + 3, down to the key. */
  function Rewind(a: Word, b: Word, c: Word, d: Word, i: nat): Block
    decreases i
  {
    if i == 0 then BlockOf(a, b, c, d)
    else Rewind(d.Xor(Increment(c, i + 3)), a, b, c, i - 1)
  }

  /** The word four places back is recovered from a word and its predecessor. */
  lemma StepBack(key: Block, i: nat)
    requires NK <= i
    ensures ScheduleWord(key, i).Xor(Increment(ScheduleWord(key, i - 1), i)) == ScheduleWord(key, i - NK)
  {
    hide Increment;
    XorWordTwice(ScheduleWord(key, i - NK), Increment(ScheduleWord(key, i - 1), i));
  }

  lemma BlockOfKeyWords(key: Block)
    ensures BlockOf(KeyWord(key, 0), KeyWord(key, 1), KeyWord(key, 2), KeyWord(key, 3)) == key
  {
  }

  /** Any four consecutive words of the schedule lead back to the key, hence determine every other word. */
  lemma {:induction false} RewindRecoversKey(key: Block, i: nat)
    ensures Rewind(ScheduleWord(key, i), ScheduleWord(key, i + 1),
                   ScheduleWord(key, i + 2), ScheduleWord(key, i + 3), i) == key
  {
    hide Increment, Word.Xor, BlockOf;
    if i == 0 {
      BlockOfKeyWords(key);
    } else {
      StepBack(key, i + 3);
      RewindRecoversKey(key, i - 1);
    }
  }

  lemma ScheduleByte(key: Block, i: nat, b: nat)
    requires i < WORDS && b < 4
    ensures KeyExpansion(key)[4 * i + b] == ScheduleWord(key, i).Byte(b)
  {
    hide ScheduleWord;
    assert (4 * i + b) / 4 == i && (4 * i + b) % 4 == b;
  }

  lemma SameBytesSameWord(key: Block, key': Block, i: nat)
    requires i < WORDS
    requires KeyExpansion(key)[4 * i..4 * i + 4] == KeyExpansion(key')[4 * i..4 * i + 4]
    ensures ScheduleWord(key, i) == ScheduleWord(key', i)
  {
    hide ScheduleWord, KeyExpansion;
    var w, w' := ScheduleWord(key, i), ScheduleWord(key', i);
    var bytes, bytes' := KeyExpansion(key)[4 * i..4 * i + 4], KeyExpansion(key')[4 * i..4 * i + 4];
    forall b | 0 <= b < 4
      ensures w.Byte(b) == w'.Byte(b)
    {
      ScheduleByte(key, i, b);
      ScheduleByte(key', i, b);
      assert bytes[b] == bytes'[b];
    }
    assert w.Byte(0) == w'.Byte(0) && w.Byte(1) == w'.Byte(1) && w.Byte(2) == w'.Byte(2) && w.Byte(3) == w'.Byte(3);
  }

  lemma SliceOfSlice(s: seq<bv8>, o: nat, p: nat)
    requires p <= 12 && o + 16 <= |s|
    ensures s[o + p..o + p + 4] == s[o..o + 16][p..p + 4]
  {
    var t, u := s[o..o + 16], s[o + p..o + p + 4];
    forall k | 0 <= k < 4
      ensures u[k] == t[p..p + 4][k]
    {
      assert t[p..p + 4][k] == t[p + k] == s[o + (p + k)];
    }
  }

  lemma SameRoundKeySameWord(key: Block, key': Block, round: nat, j: nat)
    requires round <= NR && j < 4
    requires KeyExpansion(key)[16 * round..16 * round + 16] == KeyExpansion(key')[16 * round..16 * round + 16]
    ensures ScheduleWord(key, 4 * round + j) == ScheduleWord(key', 4 * round + j)
  {
    hide ScheduleWord, KeyExpansion;
    var rk, rk', o, i := KeyExpansion(key), KeyExpansion(key'), 16 * round, 4 * round + j;
    SliceOfSlice(rk, o, 4 * j);
    SliceOfSlice(rk', o, 4 * j);
    SameBytesSameWord(key, key', i);
  }

  /** Two keys that agree on one of the eleven round keys are the same key. */
  lemma RoundKeyDeterminesKey(key: Block, key': Block, round: nat)
    requires round <= NR
    requires KeyExpansion(key)[16 * round..16 * round + 16] == KeyExpansion(key')[16 * round..16 * round + 16]
    ensures key == key'
  {
    hide ScheduleWord, KeyExpansion, Rewind;
    SameRoundKeySameWord(key, key', round, 0);
    SameRoundKeySameWord(key, key', round, 1);
    SameRoundKeySameWord(key, key', round, 2);
    SameRoundKeySameWord(key, key', round, 3);
    RewindRecoversKey(key, 4 * round);
    RewindRecoversKey(key', 4 * round);
  }

  lemma KeyExpansionInjective(key: Block, key': Block)
    requires KeyExpansion(key) == KeyExpansion(key')
    ensures key == key'
  {
    RoundKeyDeterminesKey(key, key', 0);
  }
}
