/** The block cipher as the program runs it: sixteen bytes of a buffer, rewritten in place.

    The program's `state_t` is a view of the sixteen bytes at `off`; its entry [i][j] is byte 4i + j. */
module AesBlock {
  import opened Gf256
  import opened SubstitutionBox
  import opened Fips197

  ghost predicate BlockAt(buf: array<bv8>, off: nat) {
    off + 16 <= buf.Length
  }

  /** The sixteen bytes at `off`. */
  ghost function View(buf: array<bv8>, off: nat): Block
    requires BlockAt(buf, off)
    reads buf
  {
    buf[off..off + 16]
  }

  /** Nothing outside the block at `off` has changed. */
  twostate predicate OnlyBlock(buf: array<bv8>, off: nat)
    reads buf
  {
    forall k :: 0 <= k < buf.Length && !(off <= k < off + 16) ==> buf[k] == old(buf[k])
  }

  method AddRoundKeyInPlace(round: nat, buf: array<bv8>, off: nat, roundKey: array<bv8>)
    requires BlockAt(buf, off) && roundKey.Length == 176 && roundKey != buf && round <= NR
    modifies buf
    ensures OnlyBlock(buf, off)
    ensures View(buf, off) == AddRoundKey(old(View(buf, off)), roundKey[..], round)
  {
    ghost var s := buf[off..off + 16];
    ghost var rk := roundKey[..];
    for i := 0 to 4
      invariant OnlyBlock(buf, off) && roundKey[..] == rk
      invariant forall k :: 0 <= k < 16 ==>
        buf[off + k] == if k < 4 * i then s[k] ^ rk[16 * round + k] else s[k]
    {
      for j := 0 to 4
        invariant OnlyBlock(buf, off) && roundKey[..] == rk
        invariant forall k :: 0 <= k < 16 ==>
          buf[off + k] == if k < 4 * i + j then s[k] ^ rk[16 * round + k] else s[k]
      {
        buf[off + 4 * i + j] := buf[off + 4 * i + j] ^ roundKey[round * 4 * 4 + i * 4 + j];
      }
    }
  }

  /** The source visits the bytes row by row: entry [j][i] is byte 4j + i. */
  method SubBytesInPlace(buf: array<bv8>, off: nat)
    requires BlockAt(buf, off)
    modifies buf
    ensures OnlyBlock(buf, off)
    ensures View(buf, off) == SubBytes(old(View(buf, off)))
  {
    hide Sbox;
    ghost var s := buf[off..off + 16];
    for i := 0 to 4
      invariant OnlyBlock(buf, off)
      invariant forall k :: 0 <= k < 16 ==> buf[off + k] == if k % 4 < i then Sbox(s[k]) else s[k]
    {
      for j := 0 to 4
        invariant OnlyBlock(buf, off)
        invariant forall k :: 0 <= k < 16 ==>
          buf[off + k] == if k % 4 < i || (k % 4 == i && k / 4 < j) then Sbox(s[k]) else s[k]
      {
        buf[off + 4 * j + i] := Sbox(buf[off + 4 * j + i]);
      }
    }
  }

  method InvSubBytesInPlace(buf: array<bv8>, off: nat)
    requires BlockAt(buf, off)
    modifies buf
    ensures OnlyBlock(buf, off)
    ensures View(buf, off) == InvSubBytes(old(View(buf, off)))
  {
    hide InvSbox;
    ghost var s := buf[off..off + 16];
    for i := 0 to 4
      invariant OnlyBlock(buf, off)
      invariant forall k :: 0 <= k < 16 ==> buf[off + k] == if k % 4 < i then InvSbox(s[k]) else s[k]
    {
      for j := 0 to 4
        invariant OnlyBlock(buf, off)
        invariant forall k :: 0 <= k < 16 ==>
          buf[off + k] == if k % 4 < i || (k % 4 == i && k / 4 < j) then InvSbox(s[k]) else s[k]
      {
        buf[off + 4 * j + i] := InvSbox(buf[off + 4 * j + i]);
      }
    }
  }

  lemma SameBytes(a: Block, b: Block)
    requires a[0] == b[0] && a[1] == b[1] && a[2] == b[2] && a[3] == b[3]
    requires a[4] == b[4] && a[5] == b[5] && a[6] == b[6] && a[7] == b[7]
    requires a[8] == b[8] && a[9] == b[9] && a[10] == b[10] && a[11] == b[11]
    requires a[12] == b[12] && a[13] == b[13] && a[14] == b[14] && a[15] == b[15]
    ensures a == b
  {
  }

  /** The byte in row r and column c, n columns to the right. */
  lemma RightOf(r: nat, c: nat, n: nat)
    requires r < 4 && c < 4 && n <= 4
    ensures Right(4 * c + r, n) == 4 * Wrap(c + n) + r
  {
    assert (4 * c + r) / 4 == c && (4 * c + r) % 4 == r;
  }

  lemma ShiftedAt(s: Block, i: nat)
    requires i < 16
    ensures ShiftRows(s)[i] == s[Right(i, i % 4)]
    ensures InvShiftRows(s)[i] == s[Right(i, 4 - i % 4)]
  {
    hide Right;
  }

  lemma ShiftedByte(s: Block, r: nat, c: nat)
    requires r < 4 && c < 4
    ensures ShiftRows(s)[4 * c + r] == s[4 * Wrap(c + r) + r]
    ensures InvShiftRows(s)[4 * c + r] == s[4 * Wrap(c + (4 - r)) + r]
  {
    hide Right, Wrap, ShiftRows, InvShiftRows;
    var i := 4 * c + r;
    assert i % 4 == r;
    ShiftedAt(s, i);
    RightOf(r, c, r);
    RightOf(r, c, 4 - r);
  }

  lemma ShiftedRow0(s: Block)
    ensures var t := ShiftRows(s);
            t[0] == s[0] && t[4] == s[4] && t[8] == s[8] && t[12] == s[12]
  {
    hide ShiftRows, InvShiftRows;
    ShiftedByte(s, 0, 0);
    ShiftedByte(s, 0, 1);
    ShiftedByte(s, 0, 2);
    ShiftedByte(s, 0, 3);
  }

  lemma ShiftedRow1(s: Block)
    ensures var t := ShiftRows(s);
            t[1] == s[5] && t[5] == s[9] && t[9] == s[13] && t[13] == s[1]
  {
    hide ShiftRows, InvShiftRows;
    ShiftedByte(s, 1, 0);
    ShiftedByte(s, 1, 1);
    ShiftedByte(s, 1, 2);
    ShiftedByte(s, 1, 3);
  }

  lemma ShiftedRow2(s: Block)
    ensures var t := ShiftRows(s);
            t[2] == s[10] && t[6] == s[14] && t[10] == s[2] && t[14] == s[6]
  {
    hide ShiftRows, InvShiftRows;
    ShiftedByte(s, 2, 0);
    ShiftedByte(s, 2, 1);
    ShiftedByte(s, 2, 2);
    ShiftedByte(s, 2, 3);
  }

  lemma ShiftedRow3(s: Block)
    ensures var t := ShiftRows(s);
            t[3] == s[15] && t[7] == s[3] && t[11] == s[7] && t[15] == s[11]
  {
    hide ShiftRows, InvShiftRows;
    ShiftedByte(s, 3, 0);
    ShiftedByte(s, 3, 1);
    ShiftedByte(s, 3, 2);
    ShiftedByte(s, 3, 3);
  }

  lemma ShiftedBytes(s: Block)
    ensures var t := ShiftRows(s);
            && t[0] == s[0] && t[4] == s[4] && t[8] == s[8] && t[12] == s[12]
            && t[1] == s[5] && t[5] == s[9] && t[9] == s[13] && t[13] == s[1]
            && t[2] == s[10] && t[6] == s[14] && t[10] == s[2] && t[14] == s[6]
            && t[3] == s[15] && t[7] == s[3] && t[11] == s[7] && t[15] == s[11]
  {
    hide ShiftRows, InvShiftRows;
    ShiftedRow0(s);
    ShiftedRow1(s);
    ShiftedRow2(s);
    ShiftedRow3(s);
  }

  lemma InvShiftedRow0(s: Block)
    ensures var t := InvShiftRows(s);
            t[0] == s[0] && t[4] == s[4] && t[8] == s[8] && t[12] == s[12]
  {
    hide ShiftRows, InvShiftRows;
    ShiftedByte(s, 0, 0);
    ShiftedByte(s, 0, 1);
    ShiftedByte(s, 0, 2);
    ShiftedByte(s, 0, 3);
  }

  lemma InvShiftedRow1(s: Block)
    ensures var t := InvShiftRows(s);
            t[1] == s[13] && t[5] == s[1] && t[9] == s[5] && t[13] == s[9]
  {
    hide ShiftRows, InvShiftRows;
    ShiftedByte(s, 1, 0);
    ShiftedByte(s, 1, 1);
    ShiftedByte(s, 1, 2);
    ShiftedByte(s, 1, 3);
  }

  lemma InvShiftedRow2(s: Block)
    ensures var t := InvShiftRows(s);
            t[2] == s[10] && t[6] == s[14] && t[10] == s[2] && t[14] == s[6]
  {
    hide ShiftRows, InvShiftRows;
    ShiftedByte(s, 2, 0);
    ShiftedByte(s, 2, 1);
    ShiftedByte(s, 2, 2);
    ShiftedByte(s, 2, 3);
  }

  lemma InvShiftedRow3(s: Block)
    ensures var t := InvShiftRows(s);
            t[3] == s[7] && t[7] == s[11] && t[11] == s[15] && t[15] == s[3]
  {
    hide ShiftRows, InvShiftRows;
    ShiftedByte(s, 3, 0);
    ShiftedByte(s, 3, 1);
    ShiftedByte(s, 3, 2);
    ShiftedByte(s, 3, 3);
  }

  lemma InvShiftedBytes(s: Block)
    ensures var t := InvShiftRows(s);
            && t[0] == s[0] && t[4] == s[4] && t[8] == s[8] && t[12] == s[12]
            && t[1] == s[13] && t[5] == s[1] && t[9] == s[5] && t[13] == s[9]
            && t[2] == s[10] && t[6] == s[14] && t[10] == s[2] && t[14] == s[6]
            && t[3] == s[7] && t[7] == s[11] && t[11] == s[15] && t[15] == s[3]
  {
    hide ShiftRows, InvShiftRows;
    InvShiftedRow0(s);
    InvShiftedRow1(s);
    InvShiftedRow2(s);
    InvShiftedRow3(s);
  }

  /** Each of four bytes takes the next one's value, and the last the first's, through one temporary. */
  method Cycle(buf: array<bv8>, w: nat, x: nat, y: nat, z: nat)
    requires w < buf.Length && x < buf.Length && y < buf.Length && z < buf.Length
    requires w != x && w != y && w != z && x != y && x != z && y != z
    modifies buf
    ensures buf[w] == old(buf[x]) && buf[x] == old(buf[y]) && buf[y] == old(buf[z]) && buf[z] == old(buf[w])
    ensures forall k :: 0 <= k < buf.Length && k != w && k != x && k != y && k != z ==> buf[k] == old(buf[k])
  {
    var temp := buf[w];
    buf[w] := buf[x];
    buf[x] := buf[y];
    buf[y] := buf[z];
    buf[z] := temp;
  }

  method Swap(buf: array<bv8>, w: nat, x: nat)
    requires w < buf.Length && x < buf.Length
    modifies buf
    ensures buf[w] == old(buf[x]) && buf[x] == old(buf[w])
    ensures forall k :: 0 <= k < buf.Length && k != w && k != x ==> buf[k] == old(buf[k])
  {
    var temp := buf[w];
    buf[w] := buf[x];
    buf[x] := temp;
  }

  /** Row 1 moves one column to the left, row 2 two columns, row 3 three. */
  method ShiftRowsInPlace(buf: array<bv8>, off: nat)
    requires BlockAt(buf, off)
    modifies buf
    ensures OnlyBlock(buf, off)
    ensures View(buf, off) == ShiftRows(old(View(buf, off)))
  {
    hide ShiftRows;
    ghost var s := View(buf, off);
    Cycle(buf, off + 1, off + 5, off + 9, off + 13);
    Swap(buf, off + 2, off + 10);
    Swap(buf, off + 6, off + 14);
    Cycle(buf, off + 3, off + 15, off + 11, off + 7);
    ShiftedBytes(s);
    SameBytes(View(buf, off), ShiftRows(s));
  }

  /** The same moves to the right. */
  method InvShiftRowsInPlace(buf: array<bv8>, off: nat)
    requires BlockAt(buf, off)
    modifies buf
    ensures OnlyBlock(buf, off)
    ensures View(buf, off) == InvShiftRows(old(View(buf, off)))
  {
    hide InvShiftRows;
    ghost var s := View(buf, off);
    Cycle(buf, off + 13, off + 9, off + 5, off + 1);
    Swap(buf, off + 2, off + 10);
    Swap(buf, off + 6, off + 14);
    Cycle(buf, off + 3, off + 7, off + 11, off + 15);
    InvShiftedBytes(s);
    SameBytes(View(buf, off), InvShiftRows(s));
  }

  // ----- column mixing -----

  /** The program's shortcut for one byte: the byte, the column sum, and one doubling. */
  lemma ShortcutIsMatrix(a: bv8, b: bv8, c: bv8, d: bv8)
    ensures Add(a, Add(Xtime(Add(a, b)), Sum4(a, b, c, d))) == Mixed(a, b, c, d)
  {
    hide FieldProduct, Xtime, Add;
    Times02And03(a);
    Times02And03(b);
    XtimeLinear(a, b);
    ShortcutSum(a, b, c, d, Xtime(a), Xtime(b));
  }

  lemma ShortcutSum(a: bv8, b: bv8, c: bv8, d: bv8, a2: bv8, b2: bv8)
    ensures Add(a, Add(Add(a2, b2), Sum4(a, b, c, d))) == Sum4(a2, Add(b2, b), c, d)
  {
    hide Add;
    var double, rest := Add(a2, b2), Sum3(b, c, d);
    assert Sum4(a, b, c, d) == Add(a, rest) by {
      AddAssociates(a, b, c);
      AddAssociates(a, Add(b, c), d);
    }
    assert Add(a, Add(double, Add(a, rest))) == Add(double, rest) by {
      AddCommutes(double, Add(a, rest));
      AddAssociates(a, rest, double);
      AddTwice(a, Add(rest, double));
      AddCommutes(rest, double);
    }
    AddAssociates(double, Add(b, c), d);
    AddAssociates(double, b, c);
    AddAssociates(a2, b2, b);
  }

  lemma AddTwice(a: bv8, b: bv8)
    ensures Add(a, Add(a, b)) == b
  {
  }

  /** The blocks v and s agree on column c. */
  ghost predicate ColumnIs(v: Block, c: nat, s: Block)
    requires c < 4
  {
    && v[4 * c] == s[4 * c]
    && v[4 * c + 1] == s[4 * c + 1]
    && v[4 * c + 2] == s[4 * c + 2]
    && v[4 * c + 3] == s[4 * c + 3]
  }

  /** Nothing outside column c of the block at `off` has changed. */
  twostate predicate OnlyColumn(buf: array<bv8>, off: nat, c: nat)
    reads buf
  {
    forall k :: 0 <= k < buf.Length && !(off + 4 * c <= k < off + 4 * c + 4) ==> buf[k] == old(buf[k])
  }

  lemma ColumnsMakeBlock(v: Block, s: Block)
    requires ColumnIs(v, 0, s) && ColumnIs(v, 1, s) && ColumnIs(v, 2, s) && ColumnIs(v, 3, s)
    ensures v == s
  {
    SameBytes(v, s);
  }

  lemma MixedBytes(s: Block, i: nat)
    requires i < 4
    ensures var m, j := MixColumns(s), 4 * i;
            && m[j] == Mixed(s[j], s[j + 1], s[j + 2], s[j + 3])
            && m[j + 1] == Mixed(s[j + 1], s[j + 2], s[j + 3], s[j])
            && m[j + 2] == Mixed(s[j + 2], s[j + 3], s[j], s[j + 1])
            && m[j + 3] == Mixed(s[j + 3], s[j], s[j + 1], s[j + 2])
    ensures var m, j := InvMixColumns(s), 4 * i;
            && m[j] == InvMixed(s[j], s[j + 1], s[j + 2], s[j + 3])
            && m[j + 1] == InvMixed(s[j + 1], s[j + 2], s[j + 3], s[j])
            && m[j + 2] == InvMixed(s[j + 2], s[j + 3], s[j], s[j + 1])
            && m[j + 3] == InvMixed(s[j + 3], s[j], s[j + 1], s[j + 2])
  {
    hide Mixed, InvMixed;
    var j := 4 * i;
    assert Below(j, 1) == j + 1 && Below(j, 2) == j + 2 && Below(j, 3) == j + 3;
    AroundColumn(j, j + 1, j + 2, j + 3);
  }

  /** The column of the block at `off` holds the bytes of s exactly if the buffer does. */
  lemma ColumnInBuffer(buf: array<bv8>, off: nat, c: nat, s: Block)
    requires BlockAt(buf, off) && c < 4
    ensures ColumnIs(View(buf, off), c, s) <==>
            var p := off + 4 * c;
            buf[p] == s[4 * c] && buf[p + 1] == s[4 * c + 1] && buf[p + 2] == s[4 * c + 2] && buf[p + 3] == s[4 * c + 3]
  {
  }

  /** One turn of the loop of MixColumns: column c, which holds its bytes of s, comes to hold the mixed ones. */
  method MixColumnInPlace(buf: array<bv8>, off: nat, c: nat, ghost s: Block)
    requires BlockAt(buf, off) && c < 4 && ColumnIs(View(buf, off), c, s)
    modifies buf
    ensures OnlyColumn(buf, off, c)
    ensures ColumnIs(View(buf, off), c, MixColumns(s))
  {
    hide Mixed, Xtime, Add, Sum4, MixColumns, InvMixColumns, View, ColumnIs;
    var p := off + 4 * c;
    ColumnInBuffer(buf, off, c, s);
    ghost var w, x, y, z := buf[p], buf[p + 1], buf[p + 2], buf[p + 3];
    MixedBytes(s, c);
    Rotate(x, y, z, w);
    Rotate(y, z, w, x);
    Rotate(z, w, x, y);
    ShortcutIsMatrix(w, x, y, z);
    ShortcutIsMatrix(x, y, z, w);
    ShortcutIsMatrix(y, z, w, x);
    ShortcutIsMatrix(z, w, x, y);
    var t := buf[p];
    var sum := Sum4(buf[p], buf[p + 1], buf[p + 2], buf[p + 3]);
    var tm := Add(buf[p], buf[p + 1]);
    tm := Xtime(tm);
    buf[p] := Add(buf[p], Add(tm, sum));
    tm := Add(buf[p + 1], buf[p + 2]);
    tm := Xtime(tm);
    buf[p + 1] := Add(buf[p + 1], Add(tm, sum));
    tm := Add(buf[p + 2], buf[p + 3]);
    tm := Xtime(tm);
    buf[p + 2] := Add(buf[p + 2], Add(tm, sum));
    tm := Add(buf[p + 3], t);
    tm := Xtime(tm);
    buf[p + 3] := Add(buf[p + 3], Add(tm, sum));
    ColumnInBuffer(buf, off, c, MixColumns(s));
  }

  method MixColumnsInPlace(buf: array<bv8>, off: nat)
    requires BlockAt(buf, off)
    modifies buf
    ensures OnlyBlock(buf, off)
    ensures View(buf, off) == MixColumns(old(View(buf, off)))
  {
    hide MixColumns, Below;
    ghost var s := View(buf, off);
    ghost var m := MixColumns(s);
    for i := 0 to 4
      invariant OnlyBlock(buf, off)
      invariant forall c :: 0 <= c < i ==> ColumnIs(View(buf, off), c, m)
      invariant forall c :: i <= c < 4 ==> ColumnIs(View(buf, off), c, s)
    {
      ghost var v := View(buf, off);
      MixColumnInPlace(buf, off, i, s);
      forall c | 0 <= c < 4 && c != i
        ensures c < i ==> ColumnIs(View(buf, off), c, m)
        ensures i < c ==> ColumnIs(View(buf, off), c, s)
      {
        assert ColumnIs(View(buf, off), c, v);
        assert c < i ==> ColumnIs(v, c, m);
        assert i < c ==> ColumnIs(v, c, s);
      }
    }
    ColumnsMakeBlock(View(buf, off), m);
  }

  /** The four rows of the inverse matrix as the program writes them. */
  lemma InverseRows(a: bv8, b: bv8, c: bv8, d: bv8)
    ensures Sum4(Multiply(a, 0x0e), Multiply(b, 0x0b), Multiply(c, 0x0d), Multiply(d, 0x09)) == InvMixed(a, b, c, d)
    ensures Sum4(Multiply(a, 0x09), Multiply(b, 0x0e), Multiply(c, 0x0b), Multiply(d, 0x0d)) == InvMixed(b, c, d, a)
    ensures Sum4(Multiply(a, 0x0d), Multiply(b, 0x09), Multiply(c, 0x0e), Multiply(d, 0x0b)) == InvMixed(c, d, a, b)
    ensures Sum4(Multiply(a, 0x0b), Multiply(b, 0x0d), Multiply(c, 0x09), Multiply(d, 0x0e)) == InvMixed(d, a, b, c)
  {
    hide Multiply, FieldProduct, Sum4;
    forall x: bv8, y: bv8 | y < 0x20
      ensures Multiply(x, y) == FieldProduct(x, y)
    {
      MultiplyIsFieldProduct(x, y);
    }
    Rotate(Multiply(b, 0x0e), Multiply(c, 0x0b), Multiply(d, 0x0d), Multiply(a, 0x09));
    Rotate(Multiply(c, 0x0e), Multiply(d, 0x0b), Multiply(a, 0x0d), Multiply(b, 0x09));
    Rotate(Multiply(b, 0x09), Multiply(c, 0x0e), Multiply(d, 0x0b), Multiply(a, 0x0d));
    Rotate(Multiply(a, 0x0b), Multiply(b, 0x0d), Multiply(c, 0x09), Multiply(d, 0x0e));
  }

  /** One turn of the loop of InvMixColumns: column c, which holds its bytes of s, comes to hold the mixed ones. */
  method InvMixColumnInPlace(buf: array<bv8>, off: nat, c: nat, ghost s: Block)
    requires BlockAt(buf, off) && c < 4 && ColumnIs(View(buf, off), c, s)
    modifies buf
    ensures OnlyColumn(buf, off, c)
    ensures ColumnIs(View(buf, off), c, InvMixColumns(s))
  {
    hide InvMixed, Multiply, Sum4, MixColumns, InvMixColumns, View, ColumnIs;
    var p := off + 4 * c;
    ColumnInBuffer(buf, off, c, s);
    MixedBytes(s, c);
    var w, x, y, z := buf[p], buf[p + 1], buf[p + 2], buf[p + 3];
    InverseRows(w, x, y, z);
    buf[p] := Sum4(Multiply(w, 0x0e), Multiply(x, 0x0b), Multiply(y, 0x0d), Multiply(z, 0x09));
    buf[p + 1] := Sum4(Multiply(w, 0x09), Multiply(x, 0x0e), Multiply(y, 0x0b), Multiply(z, 0x0d));
    buf[p + 2] := Sum4(Multiply(w, 0x0d), Multiply(x, 0x09), Multiply(y, 0x0e), Multiply(z, 0x0b));
    buf[p + 3] := Sum4(Multiply(w, 0x0b), Multiply(x, 0x0d), Multiply(y, 0x09), Multiply(z, 0x0e));
    ColumnInBuffer(buf, off, c, InvMixColumns(s));
  }

  method InvMixColumnsInPlace(buf: array<bv8>, off: nat)
    requires BlockAt(buf, off)
    modifies buf
    ensures OnlyBlock(buf, off)
    ensures View(buf, off) == InvMixColumns(old(View(buf, off)))
  {
    hide InvMixColumns, Below;
    ghost var s := View(buf, off);
    ghost var m := InvMixColumns(s);
    for i := 0 to 4
      invariant OnlyBlock(buf, off)
      invariant forall c :: 0 <= c < i ==> ColumnIs(View(buf, off), c, m)
      invariant forall c :: i <= c < 4 ==> ColumnIs(View(buf, off), c, s)
    {
      ghost var v := View(buf, off);
      InvMixColumnInPlace(buf, off, i, s);
      forall c | 0 <= c < 4 && c != i
        ensures c < i ==> ColumnIs(View(buf, off), c, m)
        ensures i < c ==> ColumnIs(View(buf, off), c, s)
      {
        assert ColumnIs(View(buf, off), c, v);
        assert c < i ==> ColumnIs(v, c, m);
        assert i < c ==> ColumnIs(v, c, s);
      }
    }
    ColumnsMakeBlock(View(buf, off), m);
  }

  // ----- the cipher -----

  method CipherInPlace(buf: array<bv8>, off: nat, roundKey: array<bv8>)
    requires BlockAt(buf, off) && roundKey.Length == 176 && roundKey != buf
    modifies buf
    ensures OnlyBlock(buf, off)
    ensures View(buf, off) == Cipher(old(View(buf, off)), roundKey[..])
  {
    hide AddRoundKey, SubBytes, ShiftRows, MixColumns;
    ghost var s, rk := View(buf, off), roundKey[..];
    AddRoundKeyInPlace(0, buf, off, roundKey);
    var round := 1;
    while true
      invariant 1 <= round <= NR
      invariant OnlyBlock(buf, off) && roundKey[..] == rk
      invariant View(buf, off) == Rounds(s, rk, round - 1)
      decreases NR - round
    {
      SubBytesInPlace(buf, off);
      ShiftRowsInPlace(buf, off);
      if round == NR {
        break;
      }
      MixColumnsInPlace(buf, off);
      AddRoundKeyInPlace(round, buf, off, roundKey);
      round := round + 1;
    }
    AddRoundKeyInPlace(NR, buf, off, roundKey);
  }

  method InvCipherInPlace(buf: array<bv8>, off: nat, roundKey: array<bv8>)
    requires BlockAt(buf, off) && roundKey.Length == 176 && roundKey != buf
    modifies buf
    ensures OnlyBlock(buf, off)
    ensures View(buf, off) == InvCipher(old(View(buf, off)), roundKey[..])
  {
    hide AddRoundKey, InvSubBytes, InvShiftRows, InvMixColumns;
    ghost var s, rk := View(buf, off), roundKey[..];
    AddRoundKeyInPlace(NR, buf, off, roundKey);
    var round := NR - 1;
    while true
      invariant 0 <= round < NR
      invariant OnlyBlock(buf, off) && roundKey[..] == rk
      invariant InvRounds(View(buf, off), rk, round) == InvCipher(s, rk)
      decreases round
    {
      InvShiftRowsInPlace(buf, off);
      InvSubBytesInPlace(buf, off);
      AddRoundKeyInPlace(round, buf, off, roundKey);
      if round == 0 {
        break;
      }
      InvMixColumnsInPlace(buf, off);
      round := round - 1;
    }
  }
}
