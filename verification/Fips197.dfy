/** The cipher of FIPS 197 as functions on 16-byte blocks: the specification that the in-place
    routines of module AesBlock are proved against, and the proof that InvCipher undoes Cipher.

    A block holds the state column by column: byte 4c + r is row r of column c. */
module Fips197 {
  import opened Gf256
  import opened SubstitutionBox

  /** The number of rounds for a 128-bit key. */
  const NR := 10

  type Block = s: seq<bv8> | |s| == 16 witness [0, 0, 0, 0, 0, 0, 0, 0, 0, 0, 0, 0, 0, 0, 0, 0]

  /** The eleven round keys, one after the other. */
  type RoundKeys = s: seq<bv8> | |s| == 176 witness seq(176, _ => 0)

  function XorBlocks(a: Block, b: Block): (r: Block) {
    seq(16, i requires 0 <= i < 16 => a[i] ^ b[i])
  }

  // ----- the transformations of section 5.1 and their inverses, section 5.3 -----

  function AddRoundKey(s: Block, rk: RoundKeys, round: nat): Block
    requires round <= NR
  {
    XorBlocks(s, rk[16 * round..16 * round + 16])
  }

  function SubBytes(s: Block): Block {
    seq(16, i requires 0 <= i < 16 => Sbox(s[i]))
  }

  function InvSubBytes(s: Block): Block {
    seq(16, i requires 0 <= i < 16 => InvSbox(s[i]))
  }

  /** n modulo 4, for the indices that occur. */
  function Wrap(n: nat): (m: nat)
    requires n < 8
    ensures m < 4
  {
    if n < 4 then n else n - 4
  }

  /** The byte of the same row as byte i, n columns to its right, cyclically. */
  function Right(i: nat, n: nat): (j: nat)
    requires i < 16 && n <= 4
    ensures j < 16 && j % 4 == i % 4
  {
    4 * Wrap(i / 4 + n) + i % 4
  }

  /** The byte of the same column as byte i, n rows below it, cyclically. */
  function Below(i: nat, n: nat): (j: nat)
    requires i < 16 && n <= 4
    ensures j < 16 && j / 4 == i / 4
  {
    4 * (i / 4) + Wrap(i % 4 + n)
  }

  /** Row r moves r columns to the left. */
  function ShiftRows(s: Block): Block {
    seq(16, i requires 0 <= i < 16 => s[Right(i, i % 4)])
  }

  /** Row r moves r columns to the right. */
  function InvShiftRows(s: Block): Block {
    seq(16, i requires 0 <= i < 16 => s[Right(i, 4 - i % 4)])
  }

  function MixColumns(s: Block): Block {
    seq(16, i requires 0 <= i < 16 => Mixed(s[i], s[Below(i, 1)], s[Below(i, 2)], s[Below(i, 3)]))
  }

  function InvMixColumns(s: Block): Block {
    seq(16, i requires 0 <= i < 16 => InvMixed(s[i], s[Below(i, 1)], s[Below(i, 2)], s[Below(i, 3)]))
  }

  // ----- the cipher -----

  /** The state after the initial key addition and `round` full rounds. */
  function Rounds(s: Block, rk: RoundKeys, round: nat): Block
    requires round < NR
  {
    if round == 0 then AddRoundKey(s, rk, 0)
    else AddRoundKey(MixColumns(ShiftRows(SubBytes(Rounds(s, rk, round - 1)))), rk, round)
  }

  function Cipher(s: Block, rk: RoundKeys): Block {
    AddRoundKey(ShiftRows(SubBytes(Rounds(s, rk, NR - 1))), rk, NR)
  }

  /** What the inverse cipher makes of a state with which it enters the round numbered `round`. */
  function InvRounds(s: Block, rk: RoundKeys, round: nat): Block
    requires round < NR
    decreases round
  {
    var t := AddRoundKey(InvSubBytes(InvShiftRows(s)), rk, round);
    if round == 0 then t else InvRounds(InvMixColumns(t), rk, round - 1)
  }

  function InvCipher(s: Block, rk: RoundKeys): Block {
    InvRounds(AddRoundKey(s, rk, NR), rk, NR - 1)
  }

  /** Round number `round` uses bytes 16 * round to 16 * round + 15 of the round keys, in their order. */
  lemma AddRoundKeyByte(s: Block, rk: RoundKeys, round: nat, i: nat)
    requires round <= NR && i < 16
    ensures AddRoundKey(s, rk, round)[i] == s[i] ^ rk[16 * round + i]
  {
  }

  // ----- each transformation is undone -----

  lemma XorTwice(a: bv8, b: bv8)
    ensures (a ^ b) ^ b == a
  {
  }

  lemma XorBlocksTwice(a: Block, b: Block)
    ensures XorBlocks(XorBlocks(a, b), b) == a
  {
    forall i | 0 <= i < 16
      ensures XorBlocks(XorBlocks(a, b), b)[i] == a[i]
    {
      XorTwice(a[i], b[i]);
    }
  }

  lemma AddRoundKeyTwice(s: Block, rk: RoundKeys, round: nat)
    requires round <= NR
    ensures AddRoundKey(AddRoundKey(s, rk, round), rk, round) == s
  {
    XorBlocksTwice(s, rk[16 * round..16 * round + 16]);
  }

  lemma InvSubBytesUndoes(s: Block)
    ensures InvSubBytes(SubBytes(s)) == s
  {
    hide Sbox, InvSbox;
    forall i | 0 <= i < 16
      ensures InvSubBytes(SubBytes(s))[i] == s[i]
    {
      InvSboxUndoesSbox(s[i]);
    }
  }

  lemma RightAndBack(i: nat)
    requires i < 16
    ensures var j := Right(i, 4 - i % 4); Right(j, j % 4) == i
  {
  }

  lemma InvShiftRowsUndoes(s: Block)
    ensures InvShiftRows(ShiftRows(s)) == s
  {
    hide Right;
    forall i | 0 <= i < 16
      ensures InvShiftRows(ShiftRows(s))[i] == s[i]
    {
      RightAndBack(i);
    }
  }

  /** Going down three more times from byte i visits the column and comes back. */
  lemma AroundColumn(i: nat, j: nat, k: nat, l: nat)
    requires i < 16 && j == Below(i, 1) && k == Below(i, 2) && l == Below(i, 3)
    ensures Below(j, 1) == k && Below(j, 2) == l && Below(j, 3) == i
    ensures Below(k, 1) == l && Below(k, 2) == i && Below(k, 3) == j
    ensures Below(l, 1) == i && Below(l, 2) == j && Below(l, 3) == k
  {
  }

  lemma InvMixColumnsUndoes(s: Block)
    ensures InvMixColumns(MixColumns(s)) == s
  {
    hide Mixed, InvMixed, Below;
    var t := MixColumns(s);
    forall i | 0 <= i < 16
      ensures InvMixColumns(t)[i] == s[i]
    {
      var j, k, l := Below(i, 1), Below(i, 2), Below(i, 3);
      AroundColumn(i, j, k, l);
      InvMixedUndoesMixed(s[i], s[j], s[k], s[l]);
    }
  }

  // ----- the inverse cipher undoes the cipher -----

  /** Round r of the inverse cipher starts from the state that round r + 1 of the cipher reached just
      after its row shift; from there the remaining inverse rounds lead back to the plaintext. */
  lemma {:induction false} InvRoundsUndo(s: Block, rk: RoundKeys, round: nat)
    requires round < NR
    ensures InvRounds(ShiftRows(SubBytes(Rounds(s, rk, round))), rk, round) == s
  {
    hide AddRoundKey, SubBytes, InvSubBytes, ShiftRows, InvShiftRows, MixColumns, InvMixColumns;
    var x := Rounds(s, rk, round);
    InvShiftRowsUndoes(SubBytes(x));
    InvSubBytesUndoes(x);
    if round == 0 {
      AddRoundKeyTwice(s, rk, 0);
    } else {
      var y := ShiftRows(SubBytes(Rounds(s, rk, round - 1)));
      AddRoundKeyTwice(MixColumns(y), rk, round);
      InvMixColumnsUndoes(y);
      InvRoundsUndo(s, rk, round - 1);
    }
  }

  /** For every block and every round-key array. */
  lemma InvCipherUndoesCipher(s: Block, rk: RoundKeys)
    ensures InvCipher(Cipher(s, rk), rk) == s
  {
    hide AddRoundKey, SubBytes, ShiftRows, InvRounds, Rounds;
    AddRoundKeyTwice(ShiftRows(SubBytes(Rounds(s, rk, NR - 1))), rk, NR);
    InvRoundsUndo(s, rk, NR - 1);
  }

  lemma CipherInjective(s: Block, t: Block, rk: RoundKeys)
    requires Cipher(s, rk) == Cipher(t, rk)
    ensures s == t
  {
    hide Cipher, InvCipher;
    InvCipherUndoesCipher(s, rk);
    InvCipherUndoesCipher(t, rk);
  }
}
