/** The substitution tables of the cipher, FIPS 197 sections 5.1.1 and 5.3.2. */
module SubstitutionBox {
  import opened Gf256

  /** One of the sixteen entries of a table row. */
  function Row(column: bv8, v0: bv8, v1: bv8, v2: bv8, v3: bv8, v4: bv8, v5: bv8, v6: bv8, v7: bv8,
               v8: bv8, v9: bv8, vA: bv8, vB: bv8, vC: bv8, vD: bv8, vE: bv8, vF: bv8): bv8 {
    if column & 8 == 0 then
      if column & 4 == 0 then
        (if column & 2 == 0 then (if column & 1 == 0 then v0 else v1) else (if column & 1 == 0 then v2 else v3))
      else
        (if column & 2 == 0 then (if column & 1 == 0 then v4 else v5) else (if column & 1 == 0 then v6 else v7))
    else
      if column & 4 == 0 then
        (if column & 2 == 0 then (if column & 1 == 0 then v8 else v9) else (if column & 1 == 0 then vA else vB))
      else
        (if column & 2 == 0 then (if column & 1 == 0 then vC else vD) else (if column & 1 == 0 then vE else vF))
  }

  /** The program's `sbox`, laid out as in the source: the high half of the index selects the row. */
  function Sbox(x: bv8): bv8 {
    var row, column := x >> 4, x & 15;
    if row == 0x0 then Row(column, 0x63, 0x7c, 0x77, 0x7b, 0xf2, 0x6b, 0x6f, 0xc5,
                               0x30, 0x01, 0x67, 0x2b, 0xfe, 0xd7, 0xab, 0x76)
    else if row == 0x1 then Row(column, 0xca, 0x82, 0xc9, 0x7d, 0xfa, 0x59, 0x47, 0xf0,
                               0xad, 0xd4, 0xa2, 0xaf, 0x9c, 0xa4, 0x72, 0xc0)
    else if row == 0x2 then Row(column, 0xb7, 0xfd, 0x93, 0x26, 0x36, 0x3f, 0xf7, 0xcc,
                               0x34, 0xa5, 0xe5, 0xf1, 0x71, 0xd8, 0x31, 0x15)
    else if row == 0x3 then Row(column, 0x04, 0xc7, 0x23, 0xc3, 0x18, 0x96, 0x05, 0x9a,
                               0x07, 0x12, 0x80, 0xe2, 0xeb, 0x27, 0xb2, 0x75)
    else if row == 0x4 then Row(column, 0x09, 0x83, 0x2c, 0x1a, 0x1b, 0x6e, 0x5a, 0xa0,
                               0x52, 0x3b, 0xd6, 0xb3, 0x29, 0xe3, 0x2f, 0x84)
    else if row == 0x5 then Row(column, 0x53, 0xd1, 0x00, 0xed, 0x20, 0xfc, 0xb1, 0x5b,
                               0x6a, 0xcb, 0xbe, 0x39, 0x4a, 0x4c, 0x58, 0xcf)
    else if row == 0x6 then Row(column, 0xd0, 0xef, 0xaa, 0xfb, 0x43, 0x4d, 0x33, 0x85,
                               0x45, 0xf9, 0x02, 0x7f, 0x50, 0x3c, 0x9f, 0xa8)
    else if row == 0x7 then Row(column, 0x51, 0xa3, 0x40, 0x8f, 0x92, 0x9d, 0x38, 0xf5,
                               0xbc, 0xb6, 0xda, 0x21, 0x10, 0xff, 0xf3, 0xd2)
    else if row == 0x8 then Row(column, 0xcd, 0x0c, 0x13, 0xec, 0x5f, 0x97, 0x44, 0x17,
                               0xc4, 0xa7, 0x7e, 0x3d, 0x64, 0x5d, 0x19, 0x73)
    else if row == 0x9 then Row(column, 0x60, 0x81, 0x4f, 0xdc, 0x22, 0x2a, 0x90, 0x88,
                               0x46, 0xee, 0xb8, 0x14, 0xde, 0x5e, 0x0b, 0xdb)
    else if row == 0xa then Row(column, 0xe0, 0x32, 0x3a, 0x0a, 0x49, 0x06, 0x24, 0x5c,
                               0xc2, 0xd3, 0xac, 0x62, 0x91, 0x95, 0xe4, 0x79)
    else if row == 0xb then Row(column, 0xe7, 0xc8, 0x37, 0x6d, 0x8d, 0xd5, 0x4e, 0xa9,
                               0x6c, 0x56, 0xf4, 0xea, 0x65, 0x7a, 0xae, 0x08)
    else if row == 0xc then Row(column, 0xba, 0x78, 0x25, 0x2e, 0x1c, 0xa6, 0xb4, 0xc6,
                               0xe8, 0xdd, 0x74, 0x1f, 0x4b, 0xbd, 0x8b, 0x8a)
    else if row == 0xd then Row(column, 0x70, 0x3e, 0xb5, 0x66, 0x48, 0x03, 0xf6, 0x0e,
                               0x61, 0x35, 0x57, 0xb9, 0x86, 0xc1, 0x1d, 0x9e)
    else if row == 0xe then Row(column, 0xe1, 0xf8, 0x98, 0x11, 0x69, 0xd9, 0x8e, 0x94,
                               0x9b, 0x1e, 0x87, 0xe9, 0xce, 0x55, 0x28, 0xdf)
    else Row(column, 0x8c, 0xa1, 0x89, 0x0d, 0xbf, 0xe6, 0x42, 0x68,
                     0x41, 0x99, 0x2d, 0x0f, 0xb0, 0x54, 0xbb, 0x16)
  }

  /** The program's `rsbox`. */
  function InvSbox(x: bv8): bv8 {
    var row, column := x >> 4, x & 15;
    if row == 0x0 then Row(column, 0x52, 0x09, 0x6a, 0xd5, 0x30, 0x36, 0xa5, 0x38,
                               0xbf, 0x40, 0xa3, 0x9e, 0x81, 0xf3, 0xd7, 0xfb)
    else if row == 0x1 then Row(column, 0x7c, 0xe3, 0x39, 0x82, 0x9b, 0x2f, 0xff, 0x87,
                               0x34, 0x8e, 0x43, 0x44, 0xc4, 0xde, 0xe9, 0xcb)
    else if row == 0x2 then Row(column, 0x54, 0x7b, 0x94, 0x32, 0xa6, 0xc2, 0x23, 0x3d,
                               0xee, 0x4c, 0x95, 0x0b, 0x42, 0xfa, 0xc3, 0x4e)
    else if row == 0x3 then Row(column, 0x08, 0x2e, 0xa1, 0x66, 0x28, 0xd9, 0x24, 0xb2,
                               0x76, 0x5b, 0xa2, 0x49, 0x6d, 0x8b, 0xd1, 0x25)
    else if row == 0x4 then Row(column, 0x72, 0xf8, 0xf6, 0x64, 0x86, 0x68, 0x98, 0x16,
                               0xd4, 0xa4, 0x5c, 0xcc, 0x5d, 0x65, 0xb6, 0x92)
    else if row == 0x5 then Row(column, 0x6c, 0x70, 0x48, 0x50, 0xfd, 0xed, 0xb9, 0xda,
                               0x5e, 0x15, 0x46, 0x57, 0xa7, 0x8d, 0x9d, 0x84)
    else if row == 0x6 then Row(column, 0x90, 0xd8, 0xab, 0x00, 0x8c, 0xbc, 0xd3, 0x0a,
                               0xf7, 0xe4, 0x58, 0x05, 0xb8, 0xb3, 0x45, 0x06)
    else if row == 0x7 then Row(column, 0xd0, 0x2c, 0x1e, 0x8f, 0xca, 0x3f, 0x0f, 0x02,
                               0xc1, 0xaf, 0xbd, 0x03, 0x01, 0x13, 0x8a, 0x6b)
    else if row == 0x8 then Row(column, 0x3a, 0x91, 0x11, 0x41, 0x4f, 0x67, 0xdc, 0xea,
                               0x97, 0xf2, 0xcf, 0xce, 0xf0, 0xb4, 0xe6, 0x73)
    else if row == 0x9 then Row(column, 0x96, 0xac, 0x74, 0x22, 0xe7, 0xad, 0x35, 0x85,
                               0xe2, 0xf9, 0x37, 0xe8, 0x1c, 0x75, 0xdf, 0x6e)
    else if row == 0xa then Row(column, 0x47, 0xf1, 0x1a, 0x71, 0x1d, 0x29, 0xc5, 0x89,
                               0x6f, 0xb7, 0x62, 0x0e, 0xaa, 0x18, 0xbe, 0x1b)
    else if row == 0xb then Row(column, 0xfc, 0x56, 0x3e, 0x4b, 0xc6, 0xd2, 0x79, 0x20,
                               0x9a, 0xdb, 0xc0, 0xfe, 0x78, 0xcd, 0x5a, 0xf4)
    else if row == 0xc then Row(column, 0x1f, 0xdd, 0xa8, 0x33, 0x88, 0x07, 0xc7, 0x31,
                               0xb1, 0x12, 0x10, 0x59, 0x27, 0x80, 0xec, 0x5f)
    else if row == 0xd then Row(column, 0x60, 0x51, 0x7f, 0xa9, 0x19, 0xb5, 0x4a, 0x0d,
                               0x2d, 0xe5, 0x7a, 0x9f, 0x93, 0xc9, 0x9c, 0xef)
    else if row == 0xe then Row(column, 0xa0, 0xe0, 0x3b, 0x4d, 0xae, 0x2a, 0xf5, 0xb0,
                               0xc8, 0xeb, 0xbb, 0x3c, 0x83, 0x53, 0x99, 0x61)
    else Row(column, 0x17, 0x2b, 0x04, 0x7e, 0xba, 0x77, 0xd6, 0x26,
                     0xe1, 0x69, 0x14, 0x63, 0x55, 0x21, 0x0c, 0x7d)
  }

  // ----- what the tables hold -----

  function RotateLeft(x: bv8, n: bv4): bv8
    requires n < 8
  {
    (x << n) | (x >> (8 - n))
  }

  /** The affine transformation of section 5.1.1. */
  function Affine(b: bv8): bv8 {
    b ^ RotateLeft(b, 1) ^ RotateLeft(b, 2) ^ RotateLeft(b, 3) ^ RotateLeft(b, 4) ^ 0x63
  }

  function InverseAffine(s: bv8): bv8 {
    RotateLeft(s, 1) ^ RotateLeft(s, 3) ^ RotateLeft(s, 6) ^ 0x05
  }

  /** Section 4.2: y is the multiplicative inverse of x, with zero mapped to itself. */
  predicate IsInverse(x: bv8, y: bv8) {
    if x == 0 then y == 0 else FieldProduct(x, y) == 1
  }

  // ----- the tables against the standard, a row at a time -----

  lemma Row0IsStandard(x: bv8)
    requires x >> 4 == 0x0
    ensures IsInverse(x, InverseAffine(Sbox(x)))
  {
  }

  lemma Row1IsStandard(x: bv8)
    requires x >> 4 == 0x1
    ensures IsInverse(x, InverseAffine(Sbox(x)))
  {
  }

  lemma Row2IsStandard(x: bv8)
    requires x >> 4 == 0x2
    ensures IsInverse(x, InverseAffine(Sbox(x)))
  {
  }

  lemma Row3IsStandard(x: bv8)
    requires x >> 4 == 0x3
    ensures IsInverse(x, InverseAffine(Sbox(x)))
  {
  }

  lemma Row4IsStandard(x: bv8)
    requires x >> 4 == 0x4
    ensures IsInverse(x, InverseAffine(Sbox(x)))
  {
  }

  lemma Row5IsStandard(x: bv8)
    requires x >> 4 == 0x5
    ensures IsInverse(x, InverseAffine(Sbox(x)))
  {
  }

  lemma Row6IsStandard(x: bv8)
    requires x >> 4 == 0x6
    ensures IsInverse(x, InverseAffine(Sbox(x)))
  {
  }

  lemma Row7IsStandard(x: bv8)
    requires x >> 4 == 0x7
    ensures IsInverse(x, InverseAffine(Sbox(x)))
  {
  }

  lemma Row8IsStandard(x: bv8)
    requires x >> 4 == 0x8
    ensures IsInverse(x, InverseAffine(Sbox(x)))
  {
  }

  lemma Row9IsStandard(x: bv8)
    requires x >> 4 == 0x9
    ensures IsInverse(x, InverseAffine(Sbox(x)))
  {
  }

  lemma RowAIsStandard(x: bv8)
    requires x >> 4 == 0xa
    ensures IsInverse(x, InverseAffine(Sbox(x)))
  {
  }

  lemma RowBIsStandard(x: bv8)
    requires x >> 4 == 0xb
    ensures IsInverse(x, InverseAffine(Sbox(x)))
  {
  }

  lemma RowCIsStandard(x: bv8)
    requires x >> 4 == 0xc
    ensures IsInverse(x, InverseAffine(Sbox(x)))
  {
  }

  lemma RowDIsStandard(x: bv8)
    requires x >> 4 == 0xd
    ensures IsInverse(x, InverseAffine(Sbox(x)))
  {
  }

  lemma RowEIsStandard(x: bv8)
    requires x >> 4 == 0xe
    ensures IsInverse(x, InverseAffine(Sbox(x)))
  {
  }

  lemma RowFIsStandard(x: bv8)
    requires x >> 4 == 0xf
    ensures IsInverse(x, InverseAffine(Sbox(x)))
  {
  }

  lemma AffineInverts(s: bv8)
    ensures Affine(InverseAffine(s)) == s
  {
  }

  /** Section 5.1.1: every entry of `sbox` is the affine image of the multiplicative inverse of its index. */
  lemma SboxIsStandard(x: bv8)
    ensures exists y :: IsInverse(x, y) && Sbox(x) == Affine(y)
  {
    hide Sbox, Affine, InverseAffine, IsInverse;
    AffineInverts(Sbox(x));
    if
    case x >> 4 == 0x0 => Row0IsStandard(x);
    case x >> 4 == 0x1 => Row1IsStandard(x);
    case x >> 4 == 0x2 => Row2IsStandard(x);
    case x >> 4 == 0x3 => Row3IsStandard(x);
    case x >> 4 == 0x4 => Row4IsStandard(x);
    case x >> 4 == 0x5 => Row5IsStandard(x);
    case x >> 4 == 0x6 => Row6IsStandard(x);
    case x >> 4 == 0x7 => Row7IsStandard(x);
    case x >> 4 == 0x8 => Row8IsStandard(x);
    case x >> 4 == 0x9 => Row9IsStandard(x);
    case x >> 4 == 0xa => RowAIsStandard(x);
    case x >> 4 == 0xb => RowBIsStandard(x);
    case x >> 4 == 0xc => RowCIsStandard(x);
    case x >> 4 == 0xd => RowDIsStandard(x);
    case x >> 4 == 0xe => RowEIsStandard(x);
    case x >> 4 == 0xf => RowFIsStandard(x);
  }

  // ----- rsbox leads back, a column at a time -----

  lemma InverseColumn0(x: bv8)
    requires x & 15 == 0x0
    ensures InvSbox(Sbox(x)) == x
  {
  }

  lemma InverseColumn1(x: bv8)
    requires x & 15 == 0x1
    ensures InvSbox(Sbox(x)) == x
  {
  }

  lemma InverseColumn2(x: bv8)
    requires x & 15 == 0x2
    ensures InvSbox(Sbox(x)) == x
  {
  }

  lemma InverseColumn3(x: bv8)
    requires x & 15 == 0x3
    ensures InvSbox(Sbox(x)) == x
  {
  }

  lemma InverseColumn4(x: bv8)
    requires x & 15 == 0x4
    ensures InvSbox(Sbox(x)) == x
  {
  }

  lemma InverseColumn5(x: bv8)
    requires x & 15 == 0x5
    ensures InvSbox(Sbox(x)) == x
  {
  }

  lemma InverseColumn6(x: bv8)
    requires x & 15 == 0x6
    ensures InvSbox(Sbox(x)) == x
  {
  }

  lemma InverseColumn7(x: bv8)
    requires x & 15 == 0x7
    ensures InvSbox(Sbox(x)) == x
  {
  }

  lemma InverseColumn8(x: bv8)
    requires x & 15 == 0x8
    ensures InvSbox(Sbox(x)) == x
  {
  }

  lemma InverseColumn9(x: bv8)
    requires x & 15 == 0x9
    ensures InvSbox(Sbox(x)) == x
  {
  }

  lemma InverseColumnA(x: bv8)
    requires x & 15 == 0xa
    ensures InvSbox(Sbox(x)) == x
  {
  }

  lemma InverseColumnB(x: bv8)
    requires x & 15 == 0xb
    ensures InvSbox(Sbox(x)) == x
  {
  }

  lemma InverseColumnC(x: bv8)
    requires x & 15 == 0xc
    ensures InvSbox(Sbox(x)) == x
  {
  }

  lemma InverseColumnD(x: bv8)
    requires x & 15 == 0xd
    ensures InvSbox(Sbox(x)) == x
  {
  }

  lemma InverseColumnE(x: bv8)
    requires x & 15 == 0xe
    ensures InvSbox(Sbox(x)) == x
  {
  }

  lemma InverseColumnF(x: bv8)
    requires x & 15 == 0xf
    ensures InvSbox(Sbox(x)) == x
  {
  }

  /** Substituting back undoes substitution, for all 256 bytes. */
  lemma InvSboxUndoesSbox(x: bv8)
    ensures InvSbox(Sbox(x)) == x
  {
    hide Sbox, InvSbox;
    if
    case x & 15 == 0x0 => InverseColumn0(x);
    case x & 15 == 0x1 => InverseColumn1(x);
    case x & 15 == 0x2 => InverseColumn2(x);
    case x & 15 == 0x3 => InverseColumn3(x);
    case x & 15 == 0x4 => InverseColumn4(x);
    case x & 15 == 0x5 => InverseColumn5(x);
    case x & 15 == 0x6 => InverseColumn6(x);
    case x & 15 == 0x7 => InverseColumn7(x);
    case x & 15 == 0x8 => InverseColumn8(x);
    case x & 15 == 0x9 => InverseColumn9(x);
    case x & 15 == 0xa => InverseColumnA(x);
    case x & 15 == 0xb => InverseColumnB(x);
    case x & 15 == 0xc => InverseColumnC(x);
    case x & 15 == 0xd => InverseColumnD(x);
    case x & 15 == 0xe => InverseColumnE(x);
    case x & 15 == 0xf => InverseColumnF(x);
  }
}
