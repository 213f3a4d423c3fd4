/** The example of FIPS 197 appendix C.1, worked out word by word: the key expansion of the key 00 01 .. 0f and the
    encryption of 00 11 .. ff under it, round by round.  It fixes the order of rounds, keys, rows and columns. */
module KnownAnswers {
  import opened Gf256
  import opened SubstitutionBox
  import opened Fips197
  import opened KeySchedule
  import opened AesBlock

  function ExampleKey(): Block {
    [0x00, 0x01, 0x02, 0x03, 0x04, 0x05, 0x06, 0x07, 0x08, 0x09, 0x0a, 0x0b, 0x0c, 0x0d, 0x0e, 0x0f]
  }

  function ExamplePlaintext(): Block {
    [0x00, 0x11, 0x22, 0x33, 0x44, 0x55, 0x66, 0x77, 0x88, 0x99, 0xaa, 0xbb, 0xcc, 0xdd, 0xee, 0xff]
  }

  // ----- entries of the table -----

  ghost predicate Entries0() {
    && Sbox(0x00) == 0x63 && Sbox(0x02) == 0x77 && Sbox(0x04) == 0xf2 && Sbox(0x05) == 0x6b
    && Sbox(0x09) == 0x01 && Sbox(0x0a) == 0x67 && Sbox(0x0b) == 0x2b && Sbox(0x0c) == 0xfe
    && Sbox(0x0d) == 0xd7 && Sbox(0x0e) == 0xab && Sbox(0x0f) == 0x76
  }

  lemma EntriesHold0()
    ensures Entries0()
  {
  }

  ghost predicate Entries1() {
    && Sbox(0x10) == 0xca && Sbox(0x12) == 0xc9 && Sbox(0x15) == 0x59 && Sbox(0x16) == 0x47
    && Sbox(0x17) == 0xf0 && Sbox(0x18) == 0xad && Sbox(0x19) == 0xd4 && Sbox(0x1f) == 0xc0
  }

  lemma EntriesHold1()
    ensures Entries1()
  {
  }

  ghost predicate Entries2() {
    && Sbox(0x20) == 0xb7 && Sbox(0x21) == 0xfd && Sbox(0x22) == 0x93 && Sbox(0x23) == 0x26
    && Sbox(0x24) == 0x36 && Sbox(0x25) == 0x3f && Sbox(0x26) == 0xf7 && Sbox(0x28) == 0x34
    && Sbox(0x2c) == 0x71 && Sbox(0x2d) == 0xd8 && Sbox(0x2f) == 0x15
  }

  lemma EntriesHold2()
    ensures Entries2()
  {
  }

  ghost predicate Entries3() {
    && Sbox(0x30) == 0x04 && Sbox(0x31) == 0xc7 && Sbox(0x32) == 0x23 && Sbox(0x35) == 0x96
    && Sbox(0x37) == 0x9a && Sbox(0x39) == 0x12 && Sbox(0x3b) == 0xe2 && Sbox(0x3d) == 0x27
  }

  lemma EntriesHold3()
    ensures Entries3()
  {
  }

  ghost predicate Entries4() {
    && Sbox(0x40) == 0x09 && Sbox(0x41) == 0x83 && Sbox(0x42) == 0x2c && Sbox(0x43) == 0x1a
    && Sbox(0x47) == 0xa0 && Sbox(0x49) == 0x3b && Sbox(0x4d) == 0xe3 && Sbox(0x4e) == 0x2f
  }

  lemma EntriesHold4()
    ensures Entries4()
  {
  }

  ghost predicate Entries5() {
    && Sbox(0x50) == 0x53 && Sbox(0x55) == 0xfc && Sbox(0x57) == 0x5b && Sbox(0x59) == 0xcb
    && Sbox(0x5a) == 0xbe && Sbox(0x5b) == 0x39 && Sbox(0x5d) == 0x4c && Sbox(0x5e) == 0x58
  }

  lemma EntriesHold5()
    ensures Entries5()
  {
  }

  ghost predicate Entries6() {
    && Sbox(0x60) == 0xd0 && Sbox(0x61) == 0xef && Sbox(0x63) == 0xfb && Sbox(0x66) == 0x33
    && Sbox(0x68) == 0x45 && Sbox(0x69) == 0xf9 && Sbox(0x6a) == 0x02 && Sbox(0x6b) == 0x7f
    && Sbox(0x6c) == 0x50 && Sbox(0x6e) == 0x9f && Sbox(0x6f) == 0xa8
  }

  lemma EntriesHold6()
    ensures Entries6()
  {
  }

  ghost predicate Entries7() {
    && Sbox(0x70) == 0x51 && Sbox(0x72) == 0x40 && Sbox(0x75) == 0x9d && Sbox(0x76) == 0x38
    && Sbox(0x77) == 0xf5 && Sbox(0x79) == 0xb6 && Sbox(0x7a) == 0xda && Sbox(0x7c) == 0x10
  }

  lemma EntriesHold7()
    ensures Entries7()
  {
  }

  ghost predicate Entries8() {
    && Sbox(0x80) == 0xcd && Sbox(0x84) == 0x5f && Sbox(0x85) == 0x97 && Sbox(0x87) == 0x17
    && Sbox(0x88) == 0xc4 && Sbox(0x89) == 0xa7 && Sbox(0x8a) == 0x7e && Sbox(0x8b) == 0x3d
    && Sbox(0x8d) == 0x5d && Sbox(0x8f) == 0x73
  }

  lemma EntriesHold8()
    ensures Entries8()
  {
  }

  ghost predicate Entries9() {
    && Sbox(0x90) == 0x60 && Sbox(0x92) == 0x4f && Sbox(0x94) == 0x22 && Sbox(0x96) == 0x90
    && Sbox(0x97) == 0x88 && Sbox(0x9b) == 0x14 && Sbox(0x9e) == 0x0b
  }

  lemma EntriesHold9()
    ensures Entries9()
  {
  }

  ghost predicate EntriesA() {
    && Sbox(0xa0) == 0xe0 && Sbox(0xa3) == 0x0a && Sbox(0xa9) == 0xd3 && Sbox(0xaa) == 0xac
    && Sbox(0xab) == 0x62 && Sbox(0xad) == 0x95 && Sbox(0xae) == 0xe4
  }

  lemma EntriesHoldA()
    ensures EntriesA()
  {
  }

  ghost predicate EntriesB() {
    && Sbox(0xb0) == 0xe7 && Sbox(0xb3) == 0x6d && Sbox(0xb4) == 0x8d && Sbox(0xb5) == 0xd5
    && Sbox(0xb6) == 0x4e && Sbox(0xba) == 0xf4 && Sbox(0xbc) == 0x65 && Sbox(0xbd) == 0x7a
    && Sbox(0xbe) == 0xae && Sbox(0xbf) == 0x08
  }

  lemma EntriesHoldB()
    ensures EntriesB()
  {
  }

  ghost predicate EntriesC() {
    && Sbox(0xc0) == 0xba && Sbox(0xc3) == 0x2e && Sbox(0xc4) == 0x1c && Sbox(0xc6) == 0xb4
    && Sbox(0xc8) == 0xe8 && Sbox(0xc9) == 0xdd && Sbox(0xca) == 0x74 && Sbox(0xcb) == 0x1f
    && Sbox(0xcc) == 0x4b && Sbox(0xce) == 0x8b && Sbox(0xcf) == 0x8a
  }

  lemma EntriesHoldC()
    ensures EntriesC()
  {
  }

  ghost predicate EntriesD() {
    && Sbox(0xd0) == 0x70 && Sbox(0xd1) == 0x3e && Sbox(0xd2) == 0xb5 && Sbox(0xd6) == 0xf6
    && Sbox(0xd7) == 0x0e && Sbox(0xd8) == 0x61 && Sbox(0xda) == 0x57
  }

  lemma EntriesHoldD()
    ensures EntriesD()
  {
  }

  ghost predicate EntriesE() {
    && Sbox(0xe0) == 0xe1 && Sbox(0xe1) == 0xf8 && Sbox(0xe3) == 0x11 && Sbox(0xe4) == 0x69
    && Sbox(0xe5) == 0xd9 && Sbox(0xe8) == 0x9b && Sbox(0xed) == 0x55
  }

  lemma EntriesHoldE()
    ensures EntriesE()
  {
  }

  ghost predicate EntriesF() {
    && Sbox(0xf0) == 0x8c && Sbox(0xf1) == 0xa1 && Sbox(0xf2) == 0x89 && Sbox(0xf4) == 0xbf
    && Sbox(0xf6) == 0x42 && Sbox(0xf7) == 0x68 && Sbox(0xf9) == 0x99 && Sbox(0xfa) == 0x2d
    && Sbox(0xfd) == 0x54 && Sbox(0xfe) == 0xbb
  }

  lemma EntriesHoldF()
    ensures EntriesF()
  {
  }

  /** The entries of sbox that the example meets. */
  lemma EntriesHold()
    ensures Entries0() && Entries1() && Entries2() && Entries3()
    ensures Entries4() && Entries5() && Entries6() && Entries7()
    ensures Entries8() && Entries9() && EntriesA() && EntriesB()
    ensures EntriesC() && EntriesD() && EntriesE() && EntriesF()
  {
    hide Sbox;
    EntriesHold0();
    EntriesHold1();
    EntriesHold2();
    EntriesHold3();
    EntriesHold4();
    EntriesHold5();
    EntriesHold6();
    EntriesHold7();
    EntriesHold8();
    EntriesHold9();
    EntriesHoldA();
    EntriesHoldB();
    EntriesHoldC();
    EntriesHoldD();
    EntriesHoldE();
    EntriesHoldF();
  }

  // ----- the key expansion -----

  lemma ExampleWords0()
    ensures ScheduleWord(ExampleKey(), 0) == Word(0x00, 0x01, 0x02, 0x03)
    ensures ScheduleWord(ExampleKey(), 1) == Word(0x04, 0x05, 0x06, 0x07)
    ensures ScheduleWord(ExampleKey(), 2) == Word(0x08, 0x09, 0x0a, 0x0b)
    ensures ScheduleWord(ExampleKey(), 3) == Word(0x0c, 0x0d, 0x0e, 0x0f)
  {
  }

  lemma ExampleWords4()
    ensures ScheduleWord(ExampleKey(), 4) == Word(0xd6, 0xaa, 0x74, 0xfd)
    ensures ScheduleWord(ExampleKey(), 5) == Word(0xd2, 0xaf, 0x72, 0xfa)
    ensures ScheduleWord(ExampleKey(), 6) == Word(0xda, 0xa6, 0x78, 0xf1)
    ensures ScheduleWord(ExampleKey(), 7) == Word(0xd6, 0xab, 0x76, 0xfe)
  {
    hide ScheduleWord, ExampleKey, RoundConstant, Sbox;
    ExampleWords0();
    RoundConstants();
    EntriesHold();
    RecurrenceOnBytes(ExampleKey(), 4);
    RecurrenceOnBytes(ExampleKey(), 5);
    RecurrenceOnBytes(ExampleKey(), 6);
    RecurrenceOnBytes(ExampleKey(), 7);
  }

  lemma ExampleWords8()
    ensures ScheduleWord(ExampleKey(), 8) == Word(0xb6, 0x92, 0xcf, 0x0b)
    ensures ScheduleWord(ExampleKey(), 9) == Word(0x64, 0x3d, 0xbd, 0xf1)
    ensures ScheduleWord(ExampleKey(), 10) == Word(0xbe, 0x9b, 0xc5, 0x00)
    ensures ScheduleWord(ExampleKey(), 11) == Word(0x68, 0x30, 0xb3, 0xfe)
  {
    hide ScheduleWord, ExampleKey, RoundConstant, Sbox;
    ExampleWords4();
    RoundConstants();
    EntriesHold();
    RecurrenceOnBytes(ExampleKey(), 8);
    RecurrenceOnBytes(ExampleKey(), 9);
    RecurrenceOnBytes(ExampleKey(), 10);
    RecurrenceOnBytes(ExampleKey(), 11);
  }

  lemma ExampleWords12()
    ensures ScheduleWord(ExampleKey(), 12) == Word(0xb6, 0xff, 0x74, 0x4e)
    ensures ScheduleWord(ExampleKey(), 13) == Word(0xd2, 0xc2, 0xc9, 0xbf)
    ensures ScheduleWord(ExampleKey(), 14) == Word(0x6c, 0x59, 0x0c, 0xbf)
    ensures ScheduleWord(ExampleKey(), 15) == Word(0x04, 0x69, 0xbf, 0x41)
  {
    hide ScheduleWord, ExampleKey, RoundConstant, Sbox;
    ExampleWords8();
    RoundConstants();
    EntriesHold();
    RecurrenceOnBytes(ExampleKey(), 12);
    RecurrenceOnBytes(ExampleKey(), 13);
    RecurrenceOnBytes(ExampleKey(), 14);
    RecurrenceOnBytes(ExampleKey(), 15);
  }

  lemma ExampleWords16()
    ensures ScheduleWord(ExampleKey(), 16) == Word(0x47, 0xf7, 0xf7, 0xbc)
    ensures ScheduleWord(ExampleKey(), 17) == Word(0x95, 0x35, 0x3e, 0x03)
    ensures ScheduleWord(ExampleKey(), 18) == Word(0xf9, 0x6c, 0x32, 0xbc)
    ensures ScheduleWord(ExampleKey(), 19) == Word(0xfd, 0x05, 0x8d, 0xfd)
  {
    hide ScheduleWord, ExampleKey, RoundConstant, Sbox;
    ExampleWords12();
    RoundConstants();
    EntriesHold();
    RecurrenceOnBytes(ExampleKey(), 16);
    RecurrenceOnBytes(ExampleKey(), 17);
    RecurrenceOnBytes(ExampleKey(), 18);
    RecurrenceOnBytes(ExampleKey(), 19);
  }

  lemma ExampleWords20()
    ensures ScheduleWord(ExampleKey(), 20) == Word(0x3c, 0xaa, 0xa3, 0xe8)
    ensures ScheduleWord(ExampleKey(), 21) == Word(0xa9, 0x9f, 0x9d, 0xeb)
    ensures ScheduleWord(ExampleKey(), 22) == Word(0x50, 0xf3, 0xaf, 0x57)
    ensures ScheduleWord(ExampleKey(), 23) == Word(0xad, 0xf6, 0x22, 0xaa)
  {
    hide ScheduleWord, ExampleKey, RoundConstant, Sbox;
    ExampleWords16();
    RoundConstants();
    EntriesHold();
    RecurrenceOnBytes(ExampleKey(), 20);
    RecurrenceOnBytes(ExampleKey(), 21);
    RecurrenceOnBytes(ExampleKey(), 22);
    RecurrenceOnBytes(ExampleKey(), 23);
  }

  lemma ExampleWords24()
    ensures ScheduleWord(ExampleKey(), 24) == Word(0x5e, 0x39, 0x0f, 0x7d)
    ensures ScheduleWord(ExampleKey(), 25) == Word(0xf7, 0xa6, 0x92, 0x96)
    ensures ScheduleWord(ExampleKey(), 26) == Word(0xa7, 0x55, 0x3d, 0xc1)
    ensures ScheduleWord(ExampleKey(), 27) == Word(0x0a, 0xa3, 0x1f, 0x6b)
  {
    hide ScheduleWord, ExampleKey, RoundConstant, Sbox;
    ExampleWords20();
    RoundConstants();
    EntriesHold();
    RecurrenceOnBytes(ExampleKey(), 24);
    RecurrenceOnBytes(ExampleKey(), 25);
    RecurrenceOnBytes(ExampleKey(), 26);
    RecurrenceOnBytes(ExampleKey(), 27);
  }

  lemma ExampleWords28()
    ensures ScheduleWord(ExampleKey(), 28) == Word(0x14, 0xf9, 0x70, 0x1a)
    ensures ScheduleWord(ExampleKey(), 29) == Word(0xe3, 0x5f, 0xe2, 0x8c)
    ensures ScheduleWord(ExampleKey(), 30) == Word(0x44, 0x0a, 0xdf, 0x4d)
    ensures ScheduleWord(ExampleKey(), 31) == Word(0x4e, 0xa9, 0xc0, 0x26)
  {
    hide ScheduleWord, ExampleKey, RoundConstant, Sbox;
    ExampleWords24();
    RoundConstants();
    EntriesHold();
    RecurrenceOnBytes(ExampleKey(), 28);
    RecurrenceOnBytes(ExampleKey(), 29);
    RecurrenceOnBytes(ExampleKey(), 30);
    RecurrenceOnBytes(ExampleKey(), 31);
  }

  lemma ExampleWords32()
    ensures ScheduleWord(ExampleKey(), 32) == Word(0x47, 0x43, 0x87, 0x35)
    ensures ScheduleWord(ExampleKey(), 33) == Word(0xa4, 0x1c, 0x65, 0xb9)
    ensures ScheduleWord(ExampleKey(), 34) == Word(0xe0, 0x16, 0xba, 0xf4)
    ensures ScheduleWord(ExampleKey(), 35) == Word(0xae, 0xbf, 0x7a, 0xd2)
  {
    hide ScheduleWord, ExampleKey, RoundConstant, Sbox;
    ExampleWords28();
    RoundConstants();
    EntriesHold();
    RecurrenceOnBytes(ExampleKey(), 32);
    RecurrenceOnBytes(ExampleKey(), 33);
    RecurrenceOnBytes(ExampleKey(), 34);
    RecurrenceOnBytes(ExampleKey(), 35);
  }

  lemma ExampleWords36()
    ensures ScheduleWord(ExampleKey(), 36) == Word(0x54, 0x99, 0x32, 0xd1)
    ensures ScheduleWord(ExampleKey(), 37) == Word(0xf0, 0x85, 0x57, 0x68)
    ensures ScheduleWord(ExampleKey(), 38) == Word(0x10, 0x93, 0xed, 0x9c)
    ensures ScheduleWord(ExampleKey(), 39) == Word(0xbe, 0x2c, 0x97, 0x4e)
  {
    hide ScheduleWord, ExampleKey, RoundConstant, Sbox;
    ExampleWords32();
    RoundConstants();
    EntriesHold();
    RecurrenceOnBytes(ExampleKey(), 36);
    RecurrenceOnBytes(ExampleKey(), 37);
    RecurrenceOnBytes(ExampleKey(), 38);
    RecurrenceOnBytes(ExampleKey(), 39);
  }

  lemma ExampleWords40()
    ensures ScheduleWord(ExampleKey(), 40) == Word(0x13, 0x11, 0x1d, 0x7f)
    ensures ScheduleWord(ExampleKey(), 41) == Word(0xe3, 0x94, 0x4a, 0x17)
    ensures ScheduleWord(ExampleKey(), 42) == Word(0xf3, 0x07, 0xa7, 0x8b)
    ensures ScheduleWord(ExampleKey(), 43) == Word(0x4d, 0x2b, 0x30, 0xc5)
  {
    hide ScheduleWord, ExampleKey, RoundConstant, Sbox;
    ExampleWords36();
    RoundConstants();
    EntriesHold();
    RecurrenceOnBytes(ExampleKey(), 40);
    RecurrenceOnBytes(ExampleKey(), 41);
    RecurrenceOnBytes(ExampleKey(), 42);
    RecurrenceOnBytes(ExampleKey(), 43);
  }

  // ----- the rounds on words -----

  ghost function ColumnOf(s: Block, c: nat): Word
    requires c < 4
  {
    Word(s[4 * c], s[4 * c + 1], s[4 * c + 2], s[4 * c + 3])
  }

  /** The bytes that the row shift brings into column c, substituted. */
  ghost function Diagonal(s: Block, c: nat): Word
    requires c < 4
  {
    Word(Sbox(s[4 * c]), Sbox(s[4 * ((c + 1) % 4) + 1]), Sbox(s[4 * ((c + 2) % 4) + 2]), Sbox(s[4 * ((c + 3) % 4) + 3]))
  }

  /** One byte of the product with the matrix {02, 03, 01, 01}. */
  function MixByte(a: bv8, b: bv8, c: bv8, d: bv8): bv8 {
    Doubled(a) ^ (Doubled(b) ^ b) ^ c ^ d
  }

  function Doubled(a: bv8): bv8 {
    (a << 1) ^ (if a & 0x80 != 0 then 0x1b else 0)
  }

  lemma DoubledIsTimesX(a: bv8)
    ensures Doubled(a) == TimesX(a)
  {
  }

  function MixWord(d: Word): Word {
    Word(MixByte(d.b0, d.b1, d.b2, d.b3), MixByte(d.b1, d.b2, d.b3, d.b0),
         MixByte(d.b2, d.b3, d.b0, d.b1), MixByte(d.b3, d.b0, d.b1, d.b2))
  }

  function SumWord(v: Word, w: Word): Word {
    Word(v.b0 ^ w.b0, v.b1 ^ w.b1, v.b2 ^ w.b2, v.b3 ^ w.b3)
  }

  lemma MixedIsMixByte(a: bv8, b: bv8, c: bv8, d: bv8)
    ensures Mixed(a, b, c, d) == MixByte(a, b, c, d)
  {
    hide FieldProduct, TimesX, Xtime, Doubled;
    Times02And03(a);
    Times02And03(b);
    XtimeIsTimesX(a);
    XtimeIsTimesX(b);
    DoubledIsTimesX(a);
    DoubledIsTimesX(b);
  }

  /** Bytes of the round key are bytes of the schedule's words. */
  lemma RoundKeyColumn(s: Block, key: Block, round: nat, c: nat)
    requires round <= NR && c < 4
    ensures ColumnOf(AddRoundKey(s, KeyExpansion(key), round), c)
         == SumWord(ColumnOf(s, c), ScheduleWord(key, 4 * round + c))
  {
    hide ScheduleWord, KeyExpansion, AddRoundKey;
    var rk := KeyExpansion(key);
    ScheduleByte(key, 4 * round + c, 0);
    ScheduleByte(key, 4 * round + c, 1);
    ScheduleByte(key, 4 * round + c, 2);
    ScheduleByte(key, 4 * round + c, 3);
    AddRoundKeyByte(s, rk, round, 4 * c);
    AddRoundKeyByte(s, rk, round, 4 * c + 1);
    AddRoundKeyByte(s, rk, round, 4 * c + 2);
    AddRoundKeyByte(s, rk, round, 4 * c + 3);
  }

  lemma ShiftedColumn(s: Block, c: nat)
    requires c < 4
    ensures ColumnOf(ShiftRows(SubBytes(s)), c) == Diagonal(s, c)
  {
    hide ShiftRows, SubBytes, Sbox;
    ShiftedAndSubstituted(s, 0, c);
    ShiftedAndSubstituted(s, 1, c);
    ShiftedAndSubstituted(s, 2, c);
    ShiftedAndSubstituted(s, 3, c);
  }

  lemma ShiftedAndSubstituted(s: Block, r: nat, c: nat)
    requires r < 4 && c < 4
    ensures ShiftRows(SubBytes(s))[4 * c + r] == Sbox(s[4 * ((c + r) % 4) + r])
  {
    hide ShiftRows, InvShiftRows, Sbox;
    ShiftedByte(SubBytes(s), r, c);
    assert Wrap(c + r) == (c + r) % 4;
  }

  lemma MixedColumn(s: Block, c: nat)
    requires c < 4
    ensures ColumnOf(MixColumns(s), c) == MixWord(ColumnOf(s, c))
  {
    hide MixColumns, InvMixColumns, Mixed, InvMixed, MixByte;
    MixedBytes(s, c);
    var d := ColumnOf(s, c);
    MixedIsMixByte(d.b0, d.b1, d.b2, d.b3);
    MixedIsMixByte(d.b1, d.b2, d.b3, d.b0);
    MixedIsMixByte(d.b2, d.b3, d.b0, d.b1);
    MixedIsMixByte(d.b3, d.b0, d.b1, d.b2);
  }

  /** Section 5.1: one round, column by column, from the words of the schedule. */
  lemma RoundColumn(p: Block, key: Block, round: nat, c: nat)
    requires c < 4
    ensures ColumnOf(Rounds(p, KeyExpansion(key), 0), c) == SumWord(ColumnOf(p, c), ScheduleWord(key, c))
    ensures 1 <= round < 10 ==>
      ColumnOf(Rounds(p, KeyExpansion(key), round), c)
      == SumWord(MixWord(Diagonal(Rounds(p, KeyExpansion(key), round - 1), c)), ScheduleWord(key, 4 * round + c))
    ensures ColumnOf(Cipher(p, KeyExpansion(key)), c)
         == SumWord(Diagonal(Rounds(p, KeyExpansion(key), 9), c), ScheduleWord(key, 40 + c))
  {
    hide ScheduleWord, KeyExpansion, AddRoundKey, MixColumns, ShiftRows, SubBytes, ColumnOf, Diagonal, MixWord, SumWord;
    var rk := KeyExpansion(key);
    RoundKeyColumn(p, key, 0, c);
    if 1 <= round < 10 {
      var s := Rounds(p, rk, round - 1);
      ShiftedColumn(s, c);
      MixedColumn(ShiftRows(SubBytes(s)), c);
      RoundKeyColumn(MixColumns(ShiftRows(SubBytes(s))), key, round, c);
    }
    var t := Rounds(p, rk, 9);
    ShiftedColumn(t, c);
    RoundKeyColumn(ShiftRows(SubBytes(t)), key, 10, c);
  }

  // ----- the encryption -----

  ghost predicate StateIs(s: Block, w0: Word, w1: Word, w2: Word, w3: Word) {
    ColumnOf(s, 0) == w0 && ColumnOf(s, 1) == w1 && ColumnOf(s, 2) == w2 && ColumnOf(s, 3) == w3
  }

  /** The state while the example is encrypted. */
  ghost function ExampleState(round: nat): Block
    requires round < 10
  {
    Rounds(ExamplePlaintext(), KeyExpansion(ExampleKey()), round)
  }

  lemma ExampleRound0()
    ensures StateIs(ExampleState(0), Word(0x00, 0x10, 0x20, 0x30), Word(0x40, 0x50, 0x60, 0x70),
                    Word(0x80, 0x90, 0xa0, 0xb0), Word(0xc0, 0xd0, 0xe0, 0xf0))
  {
    hide ScheduleWord, KeyExpansion, ExampleKey, Rounds, Cipher, Diagonal, MixWord;
    ExampleWords0();
    RoundColumn(ExamplePlaintext(), ExampleKey(), 0, 0);
    RoundColumn(ExamplePlaintext(), ExampleKey(), 0, 1);
    RoundColumn(ExamplePlaintext(), ExampleKey(), 0, 2);
    RoundColumn(ExamplePlaintext(), ExampleKey(), 0, 3);
  }

  lemma ExampleRound1()
    ensures StateIs(ExampleState(1), Word(0x89, 0xd8, 0x10, 0xe8), Word(0x85, 0x5a, 0xce, 0x68),
                    Word(0x2d, 0x18, 0x43, 0xd8), Word(0xcb, 0x12, 0x8f, 0xe4))
  {
    hide ScheduleWord, KeyExpansion, ExampleKey, ExamplePlaintext, Rounds, Cipher, Sbox, MixWord, SumWord;
    ExampleWords4();
    ExampleRound0();
    EntriesHold();
    MixedWords1();
    RoundColumn(ExamplePlaintext(), ExampleKey(), 1, 0);
    RoundColumn(ExamplePlaintext(), ExampleKey(), 1, 1);
    RoundColumn(ExamplePlaintext(), ExampleKey(), 1, 2);
    RoundColumn(ExamplePlaintext(), ExampleKey(), 1, 3);
  }

  lemma MixedWords1()
    ensures SumWord(MixWord(Word(0x63, 0x53, 0xe0, 0x8c)), Word(0xd6, 0xaa, 0x74, 0xfd)) == Word(0x89, 0xd8, 0x10, 0xe8)
    ensures SumWord(MixWord(Word(0x09, 0x60, 0xe1, 0x04)), Word(0xd2, 0xaf, 0x72, 0xfa)) == Word(0x85, 0x5a, 0xce, 0x68)
    ensures SumWord(MixWord(Word(0xcd, 0x70, 0xb7, 0x51)), Word(0xda, 0xa6, 0x78, 0xf1)) == Word(0x2d, 0x18, 0x43, 0xd8)
    ensures SumWord(MixWord(Word(0xba, 0xca, 0xd0, 0xe7)), Word(0xd6, 0xab, 0x76, 0xfe)) == Word(0xcb, 0x12, 0x8f, 0xe4)
  {
  }

  lemma ExampleRound2()
    ensures StateIs(ExampleState(2), Word(0x49, 0x15, 0x59, 0x8f), Word(0x55, 0xe5, 0xd7, 0xa0),
                    Word(0xda, 0xca, 0x94, 0xfa), Word(0x1f, 0x0a, 0x63, 0xf7))
  {
    hide ScheduleWord, KeyExpansion, ExampleKey, ExamplePlaintext, Rounds, Cipher, Sbox, MixWord, SumWord;
    ExampleWords8();
    ExampleRound1();
    EntriesHold();
    MixedWords2();
    RoundColumn(ExamplePlaintext(), ExampleKey(), 2, 0);
    RoundColumn(ExamplePlaintext(), ExampleKey(), 2, 1);
    RoundColumn(ExamplePlaintext(), ExampleKey(), 2, 2);
    RoundColumn(ExamplePlaintext(), ExampleKey(), 2, 3);
  }

  lemma MixedWords2()
    ensures SumWord(MixWord(Word(0xa7, 0xbe, 0x1a, 0x69)), Word(0xb6, 0x92, 0xcf, 0x0b)) == Word(0x49, 0x15, 0x59, 0x8f)
    ensures SumWord(MixWord(Word(0x97, 0xad, 0x73, 0x9b)), Word(0x64, 0x3d, 0xbd, 0xf1)) == Word(0x55, 0xe5, 0xd7, 0xa0)
    ensures SumWord(MixWord(Word(0xd8, 0xc9, 0xca, 0x45)), Word(0xbe, 0x9b, 0xc5, 0x00)) == Word(0xda, 0xca, 0x94, 0xfa)
    ensures SumWord(MixWord(Word(0x1f, 0x61, 0x8b, 0x61)), Word(0x68, 0x30, 0xb3, 0xfe)) == Word(0x1f, 0x0a, 0x63, 0xf7)
  {
  }

  lemma ExampleRound3()
    ensures StateIs(ExampleState(3), Word(0xfa, 0x63, 0x6a, 0x28), Word(0x25, 0xb3, 0x39, 0xc9),
                    Word(0x40, 0x66, 0x8a, 0x31), Word(0x57, 0x24, 0x4d, 0x17))
  {
    hide ScheduleWord, KeyExpansion, ExampleKey, ExamplePlaintext, Rounds, Cipher, Sbox, MixWord, SumWord;
    ExampleWords12();
    ExampleRound2();
    EntriesHold();
    MixedWords3();
    RoundColumn(ExamplePlaintext(), ExampleKey(), 3, 0);
    RoundColumn(ExamplePlaintext(), ExampleKey(), 3, 1);
    RoundColumn(ExamplePlaintext(), ExampleKey(), 3, 2);
    RoundColumn(ExamplePlaintext(), ExampleKey(), 3, 3);
  }

  lemma MixedWords3()
    ensures SumWord(MixWord(Word(0x3b, 0xd9, 0x22, 0x68)), Word(0xb6, 0xff, 0x74, 0x4e)) == Word(0xfa, 0x63, 0x6a, 0x28)
    ensures SumWord(MixWord(Word(0xfc, 0x74, 0xfb, 0x73)), Word(0xd2, 0xc2, 0xc9, 0xbf)) == Word(0x25, 0xb3, 0x39, 0xc9)
    ensures SumWord(MixWord(Word(0x57, 0x67, 0xcb, 0xe0)), Word(0x6c, 0x59, 0x0c, 0xbf)) == Word(0x40, 0x66, 0x8a, 0x31)
    ensures SumWord(MixWord(Word(0xc0, 0x59, 0x0e, 0x2d)), Word(0x04, 0x69, 0xbf, 0x41)) == Word(0x57, 0x24, 0x4d, 0x17)
  {
  }

  lemma ExampleRound4()
    ensures StateIs(ExampleState(4), Word(0x24, 0x72, 0x40, 0x23), Word(0x69, 0x66, 0xb3, 0xfa),
                    Word(0x6e, 0xd2, 0x75, 0x32), Word(0x88, 0x42, 0x5b, 0x6c))
  {
    hide ScheduleWord, KeyExpansion, ExampleKey, ExamplePlaintext, Rounds, Cipher, Sbox, MixWord, SumWord;
    ExampleWords16();
    ExampleRound3();
    EntriesHold();
    MixedWords4();
    RoundColumn(ExamplePlaintext(), ExampleKey(), 4, 0);
    RoundColumn(ExamplePlaintext(), ExampleKey(), 4, 1);
    RoundColumn(ExamplePlaintext(), ExampleKey(), 4, 2);
    RoundColumn(ExamplePlaintext(), ExampleKey(), 4, 3);
  }

  lemma MixedWords4()
    ensures SumWord(MixWord(Word(0x2d, 0x6d, 0x7e, 0xf0)), Word(0x47, 0xf7, 0xf7, 0xbc)) == Word(0x24, 0x72, 0x40, 0x23)
    ensures SumWord(MixWord(Word(0x3f, 0x33, 0xe3, 0x34)), Word(0x95, 0x35, 0x3e, 0x03)) == Word(0x69, 0x66, 0xb3, 0xfa)
    ensures SumWord(MixWord(Word(0x09, 0x36, 0x02, 0xdd)), Word(0xf9, 0x6c, 0x32, 0xbc)) == Word(0x6e, 0xd2, 0x75, 0x32)
    ensures SumWord(MixWord(Word(0x5b, 0xfb, 0x12, 0xc7)), Word(0xfd, 0x05, 0x8d, 0xfd)) == Word(0x88, 0x42, 0x5b, 0x6c)
  {
  }

  lemma ExampleRound5()
    ensures StateIs(ExampleState(5), Word(0xc8, 0x16, 0x77, 0xbc), Word(0x9b, 0x7a, 0xc9, 0x3b),
                    Word(0x25, 0x02, 0x79, 0x92), Word(0xb0, 0x26, 0x19, 0x96))
  {
    hide ScheduleWord, KeyExpansion, ExampleKey, ExamplePlaintext, Rounds, Cipher, Sbox, MixWord, SumWord;
    ExampleWords20();
    ExampleRound4();
    EntriesHold();
    MixedWords5();
    RoundColumn(ExamplePlaintext(), ExampleKey(), 5, 0);
    RoundColumn(ExamplePlaintext(), ExampleKey(), 5, 1);
    RoundColumn(ExamplePlaintext(), ExampleKey(), 5, 2);
    RoundColumn(ExamplePlaintext(), ExampleKey(), 5, 3);
  }

  lemma MixedWords5()
    ensures SumWord(MixWord(Word(0x36, 0x33, 0x9d, 0x50)), Word(0x3c, 0xaa, 0xa3, 0xe8)) == Word(0xc8, 0x16, 0x77, 0xbc)
    ensures SumWord(MixWord(Word(0xf9, 0xb5, 0x39, 0x26)), Word(0xa9, 0x9f, 0x9d, 0xeb)) == Word(0x9b, 0x7a, 0xc9, 0x3b)
    ensures SumWord(MixWord(Word(0x9f, 0x2c, 0x09, 0x2d)), Word(0x50, 0xf3, 0xaf, 0x57)) == Word(0x25, 0x02, 0x79, 0x92)
    ensures SumWord(MixWord(Word(0xc4, 0x40, 0x6d, 0x23)), Word(0xad, 0xf6, 0x22, 0xaa)) == Word(0xb0, 0x26, 0x19, 0x96)
  {
  }

  lemma ExampleRound6()
    ensures StateIs(ExampleState(6), Word(0xc6, 0x2f, 0xe1, 0x09), Word(0xf7, 0x5e, 0xed, 0xc3),
                    Word(0xcc, 0x79, 0x39, 0x5d), Word(0x84, 0xf9, 0xcf, 0x5d))
  {
    hide ScheduleWord, KeyExpansion, ExampleKey, ExamplePlaintext, Rounds, Cipher, Sbox, MixWord, SumWord;
    ExampleWords24();
    ExampleRound5();
    EntriesHold();
    MixedWords6();
    RoundColumn(ExamplePlaintext(), ExampleKey(), 6, 0);
    RoundColumn(ExamplePlaintext(), ExampleKey(), 6, 1);
    RoundColumn(ExamplePlaintext(), ExampleKey(), 6, 2);
    RoundColumn(ExamplePlaintext(), ExampleKey(), 6, 3);
  }

  lemma MixedWords6()
    ensures SumWord(MixWord(Word(0xe8, 0xda, 0xb6, 0x90)), Word(0x5e, 0x39, 0x0f, 0x7d)) == Word(0xc6, 0x2f, 0xe1, 0x09)
    ensures SumWord(MixWord(Word(0x14, 0x77, 0xd4, 0x65)), Word(0xf7, 0xa6, 0x92, 0x96)) == Word(0xf7, 0x5e, 0xed, 0xc3)
    ensures SumWord(MixWord(Word(0x3f, 0xf7, 0xf5, 0xe2)), Word(0xa7, 0x55, 0x3d, 0xc1)) == Word(0xcc, 0x79, 0x39, 0x5d)
    ensures SumWord(MixWord(Word(0xe7, 0x47, 0xdd, 0x4f)), Word(0x0a, 0xa3, 0x1f, 0x6b)) == Word(0x84, 0xf9, 0xcf, 0x5d)
  {
  }

  lemma ExampleRound7()
    ensures StateIs(ExampleState(7), Word(0xd1, 0x87, 0x6c, 0x0f), Word(0x79, 0xc4, 0x30, 0x0a),
                    Word(0xb4, 0x55, 0x94, 0xad), Word(0xd6, 0x6f, 0xf4, 0x1f))
  {
    hide ScheduleWord, KeyExpansion, ExampleKey, ExamplePlaintext, Rounds, Cipher, Sbox, MixWord, SumWord;
    ExampleWords28();
    ExampleRound6();
    EntriesHold();
    MixedWords7();
    RoundColumn(ExamplePlaintext(), ExampleKey(), 7, 0);
    RoundColumn(ExamplePlaintext(), ExampleKey(), 7, 1);
    RoundColumn(ExamplePlaintext(), ExampleKey(), 7, 2);
    RoundColumn(ExamplePlaintext(), ExampleKey(), 7, 3);
  }

  lemma MixedWords7()
    ensures SumWord(MixWord(Word(0xb4, 0x58, 0x12, 0x4c)), Word(0x14, 0xf9, 0x70, 0x1a)) == Word(0xd1, 0x87, 0x6c, 0x0f)
    ensures SumWord(MixWord(Word(0x68, 0xb6, 0x8a, 0x01)), Word(0xe3, 0x5f, 0xe2, 0x8c)) == Word(0x79, 0xc4, 0x30, 0x0a)
    ensures SumWord(MixWord(Word(0x4b, 0x99, 0xf8, 0x2e)), Word(0x44, 0x0a, 0xdf, 0x4d)) == Word(0xb4, 0x55, 0x94, 0xad)
    ensures SumWord(MixWord(Word(0x5f, 0x15, 0x55, 0x4c)), Word(0x4e, 0xa9, 0xc0, 0x26)) == Word(0xd6, 0x6f, 0xf4, 0x1f)
  {
  }

  lemma ExampleRound8()
    ensures StateIs(ExampleState(8), Word(0xfd, 0xe3, 0xba, 0xd2), Word(0x05, 0xe5, 0xd0, 0xd7),
                    Word(0x35, 0x47, 0x96, 0x4e), Word(0xf1, 0xfe, 0x37, 0xf1))
  {
    hide ScheduleWord, KeyExpansion, ExampleKey, ExamplePlaintext, Rounds, Cipher, Sbox, MixWord, SumWord;
    ExampleWords32();
    ExampleRound7();
    EntriesHold();
    MixedWords8();
    RoundColumn(ExamplePlaintext(), ExampleKey(), 8, 0);
    RoundColumn(ExamplePlaintext(), ExampleKey(), 8, 1);
    RoundColumn(ExamplePlaintext(), ExampleKey(), 8, 2);
    RoundColumn(ExamplePlaintext(), ExampleKey(), 8, 3);
  }

  lemma MixedWords8()
    ensures SumWord(MixWord(Word(0x3e, 0x1c, 0x22, 0xc0)), Word(0x47, 0x43, 0x87, 0x35)) == Word(0xfd, 0xe3, 0xba, 0xd2)
    ensures SumWord(MixWord(Word(0xb6, 0xfc, 0xbf, 0x76)), Word(0xa4, 0x1c, 0x65, 0xb9)) == Word(0x05, 0xe5, 0xd0, 0xd7)
    ensures SumWord(MixWord(Word(0x8d, 0xa8, 0x50, 0x67)), Word(0xe0, 0x16, 0xba, 0xf4)) == Word(0x35, 0x47, 0x96, 0x4e)
    ensures SumWord(MixWord(Word(0xf6, 0x17, 0x04, 0x95)), Word(0xae, 0xbf, 0x7a, 0xd2)) == Word(0xf1, 0xfe, 0x37, 0xf1)
  {
  }

  lemma ExampleRound9()
    ensures StateIs(ExampleState(9), Word(0xbd, 0x6e, 0x7c, 0x3d), Word(0xf2, 0xb5, 0x77, 0x9e),
                    Word(0x0b, 0x61, 0x21, 0x6e), Word(0x8b, 0x10, 0xb6, 0x89))
  {
    hide ScheduleWord, KeyExpansion, ExampleKey, ExamplePlaintext, Rounds, Cipher, Sbox, MixWord, SumWord;
    ExampleWords36();
    ExampleRound8();
    EntriesHold();
    MixedWords9();
    RoundColumn(ExamplePlaintext(), ExampleKey(), 9, 0);
    RoundColumn(ExamplePlaintext(), ExampleKey(), 9, 1);
    RoundColumn(ExamplePlaintext(), ExampleKey(), 9, 2);
    RoundColumn(ExamplePlaintext(), ExampleKey(), 9, 3);
  }

  lemma MixedWords9()
    ensures SumWord(MixWord(Word(0x54, 0xd9, 0x90, 0xa1)), Word(0x54, 0x99, 0x32, 0xd1)) == Word(0xbd, 0x6e, 0x7c, 0x3d)
    ensures SumWord(MixWord(Word(0x6b, 0xa0, 0x9a, 0xb5)), Word(0xf0, 0x85, 0x57, 0x68)) == Word(0xf2, 0xb5, 0x77, 0x9e)
    ensures SumWord(MixWord(Word(0x96, 0xbb, 0xf4, 0x0e)), Word(0x10, 0x93, 0xed, 0x9c)) == Word(0x0b, 0x61, 0x21, 0x6e)
    ensures SumWord(MixWord(Word(0xa1, 0x11, 0x70, 0x2f)), Word(0xbe, 0x2c, 0x97, 0x4e)) == Word(0x8b, 0x10, 0xb6, 0x89)
  {
  }

  lemma StateBytes(s: Block, w0: Word, w1: Word, w2: Word, w3: Word)
    requires StateIs(s, w0, w1, w2, w3)
    ensures s == [w0.b0, w0.b1, w0.b2, w0.b3, w1.b0, w1.b1, w1.b2, w1.b3,
                  w2.b0, w2.b1, w2.b2, w2.b3, w3.b0, w3.b1, w3.b2, w3.b3]
  {
  }

  lemma ExampleLastRound()
    ensures StateIs(Cipher(ExamplePlaintext(), KeyExpansion(ExampleKey())),
                    Word(0x69, 0xc4, 0xe0, 0xd8), Word(0x6a, 0x7b, 0x04, 0x30),
                    Word(0xd8, 0xcd, 0xb7, 0x80), Word(0x70, 0xb4, 0xc5, 0x5a))
  {
    hide ScheduleWord, KeyExpansion, ExampleKey, ExamplePlaintext, Rounds, Cipher, Sbox, MixWord, SumWord;
    ExampleWords40();
    ExampleRound9();
    EntriesHold();
    LastWords();
    RoundColumn(ExamplePlaintext(), ExampleKey(), 9, 0);
    RoundColumn(ExamplePlaintext(), ExampleKey(), 9, 1);
    RoundColumn(ExamplePlaintext(), ExampleKey(), 9, 2);
    RoundColumn(ExamplePlaintext(), ExampleKey(), 9, 3);
  }

  lemma LastWords()
    ensures SumWord(Word(0x7a, 0xd5, 0xfd, 0xa7), Word(0x13, 0x11, 0x1d, 0x7f)) == Word(0x69, 0xc4, 0xe0, 0xd8)
    ensures SumWord(Word(0x89, 0xef, 0x4e, 0x27), Word(0xe3, 0x94, 0x4a, 0x17)) == Word(0x6a, 0x7b, 0x04, 0x30)
    ensures SumWord(Word(0x2b, 0xca, 0x10, 0x0b), Word(0xf3, 0x07, 0xa7, 0x8b)) == Word(0xd8, 0xcd, 0xb7, 0x80)
    ensures SumWord(Word(0x3d, 0x9f, 0xf5, 0x9f), Word(0x4d, 0x2b, 0x30, 0xc5)) == Word(0x70, 0xb4, 0xc5, 0x5a)
  {
  }

  /** The ciphertext of appendix C.1. */
  lemma ExampleCiphertext()
    ensures Cipher(ExamplePlaintext(), KeyExpansion(ExampleKey())) ==
            [0x69, 0xc4, 0xe0, 0xd8, 0x6a, 0x7b, 0x04, 0x30, 0xd8, 0xcd, 0xb7, 0x80, 0x70, 0xb4, 0xc5, 0x5a]
  {
    hide ColumnOf, ScheduleWord, KeyExpansion, ExampleKey, ExamplePlaintext, Cipher;
    ExampleLastRound();
    var s := Cipher(ExamplePlaintext(), KeyExpansion(ExampleKey()));
    StateBytes(s, Word(0x69, 0xc4, 0xe0, 0xd8), Word(0x6a, 0x7b, 0x04, 0x30),
               Word(0xd8, 0xcd, 0xb7, 0x80), Word(0x70, 0xb4, 0xc5, 0x5a));
  }
}
