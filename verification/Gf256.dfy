/** The field GF(2^8) of FIPS 197 section 4: bytes are polynomials over GF(2), multiplied modulo
    x^8 + x^4 + x^3 + x + 1.  `Xtime` and `Multiply` are the program's shift-and-mask forms;
    `FieldProduct` is the product they are compared with.

    Sums of several bytes are named functions, so that proofs can treat them as units. */
module Gf256 {

  function Add(a: bv8, b: bv8): bv8 { a ^ b }

  function Sum3(a: bv8, b: bv8, c: bv8): bv8 { Add(Add(a, b), c) }

  function Sum4(a: bv8, b: bv8, c: bv8, d: bv8): bv8 { Add(Sum3(a, b, c), d) }

  function Sum5(a: bv8, b: bv8, c: bv8, d: bv8, e: bv8): bv8 { Add(Sum4(a, b, c, d), e) }

  // ----- the program's helpers -----

  function Xtime(x: bv8): bv8 {
    (x << 1) ^ (((x >> 7) & 1) * 0x1b)
  }

  /** The program keeps or drops a summand by multiplying it with a bit. */
  function Scale(bit: bv8, x: bv8): bv8 {
    bit * x
  }

  function Multiply(x: bv8, y: bv8): bv8 {
    Sum5(Scale(y & 1, x),
         Scale((y >> 1) & 1, Xtime(x)),
         Scale((y >> 2) & 1, Xtime(Xtime(x))),
         Scale((y >> 3) & 1, Xtime(Xtime(Xtime(x)))),
         Scale((y >> 4) & 1, Xtime(Xtime(Xtime(Xtime(x))))))
  }

  // ----- the reference -----

  /** The polynomial x times a, reduced: when x^8 appears, the modulus 0x11b is subtracted. */
  function TimesX(a: bv8): bv8 {
    var p := (a as bv16) << 1;
    (if p & 0x100 != 0 then p ^ 0x11b else p) as bv8
  }

  /** One term of a product: the polynomial, if the multiplier has this coefficient. */
  function Term(coefficient: bv8, a: bv8): bv8 {
    if coefficient != 0 then a else 0
  }

  /** The product of a and b: the sum of b_k x^k a over the coefficients b_k of b. */
  function FieldProduct(a: bv8, b: bv8): bv8 {
    var a1 := TimesX(a);
    var a2 := TimesX(a1);
    var a3 := TimesX(a2);
    var a4 := TimesX(a3);
    Sum5(Term(b & 0x01, a), Term(b & 0x02, a1), Term(b & 0x04, a2), Term(b & 0x08, a3), Term(b & 0x10, a4))
    ^ HighTerms(a4, b)
  }

  /** The terms for x^5 to x^7, given x^4 a. */
  function HighTerms(a4: bv8, b: bv8): bv8 {
    var a5 := TimesX(a4);
    var a6 := TimesX(a5);
    Sum3(Term(b & 0x20, a5), Term(b & 0x40, a6), Term(b & 0x80, TimesX(a6)))
  }

  // ----- Multiply against the reference -----

  lemma XtimeIsTimesX(a: bv8)
    ensures Xtime(a) == TimesX(a)
    ensures TimesX(a) == 0 <==> a == 0
  {
  }

  lemma HighTermsVanish(a4: bv8, b: bv8)
    ensures b < 0x20 ==> HighTerms(a4, b) == 0
    ensures a4 != 0 ==> (HighTerms(a4, b) == 0 <==> b < 0x20)
  {
  }

  lemma ScaleIsTerm(y: bv8, x: bv8)
    ensures Scale(y & 1, x) == Term(y & 0x01, x)
    ensures Scale((y >> 1) & 1, x) == Term(y & 0x02, x)
    ensures Scale((y >> 2) & 1, x) == Term(y & 0x04, x)
    ensures Scale((y >> 3) & 1, x) == Term(y & 0x08, x)
    ensures Scale((y >> 4) & 1, x) == Term(y & 0x10, x)
  {
  }

  lemma XorCancels(a: bv8, b: bv8)
    ensures a ^ b == a <==> b == 0
  {
  }

  /** The program sums five terms only, so its `Multiply` is the field's product exactly for
      multipliers below 32; FIPS 197 needs 9, 11, 13 and 14. */
  lemma MultiplyIsFieldProduct(x: bv8, y: bv8)
    ensures y < 0x20 ==> Multiply(x, y) == FieldProduct(x, y)
    ensures x != 0 ==> (Multiply(x, y) == FieldProduct(x, y) <==> y < 0x20)
  {
    hide Xtime, TimesX, Term, Scale, Sum5, HighTerms;
    var x1 := Xtime(x);
    var x2 := Xtime(x1);
    var x3 := Xtime(x2);
    var x4 := Xtime(x3);
    XtimeIsTimesX(x);
    XtimeIsTimesX(x1);
    XtimeIsTimesX(x2);
    XtimeIsTimesX(x3);
    ScaleIsTerm(y, x);
    ScaleIsTerm(y, x1);
    ScaleIsTerm(y, x2);
    ScaleIsTerm(y, x3);
    ScaleIsTerm(y, x4);
    XorCancels(Multiply(x, y), HighTerms(x4, y));
    HighTermsVanish(x4, y);
  }

  // ----- linearity -----

  lemma XtimeLinear(a: bv8, b: bv8)
    ensures Xtime(Add(a, b)) == Add(Xtime(a), Xtime(b))
  {
  }

  lemma AddZeros()
    ensures Add(0, 0) == 0
  {
  }

  lemma AddAssociates(a: bv8, b: bv8, c: bv8)
    ensures Add(Add(a, b), c) == Add(a, Add(b, c))
  {
  }

  lemma AddCommutes(a: bv8, b: bv8)
    ensures Add(a, b) == Add(b, a)
  {
  }

  /** Four summands may be regrouped. */
  lemma Interchange(a: bv8, b: bv8, c: bv8, d: bv8)
    ensures Add(Add(a, b), Add(c, d)) == Add(Add(a, c), Add(b, d))
  {
    hide Add;
    AddAssociates(Add(a, b), c, d);
    AddAssociates(a, b, c);
    AddCommutes(b, c);
    AddAssociates(a, c, b);
    AddAssociates(Add(a, c), b, d);
  }

  /** A sum may start at its last summand. */
  lemma Rotate(a: bv8, b: bv8, c: bv8, d: bv8)
    ensures Sum4(a, b, c, d) == Sum4(d, a, b, c)
  {
    hide Add;
    AddCommutes(Sum3(a, b, c), d);
    AddAssociates(Add(a, b), c, d);
    AddAssociates(d, Add(a, b), c);
    AddAssociates(d, a, b);
  }

  lemma Sum3Linear(a: bv8, b: bv8, c: bv8, a': bv8, b': bv8, c': bv8)
    ensures Sum3(Add(a, a'), Add(b, b'), Add(c, c')) == Add(Sum3(a, b, c), Sum3(a', b', c'))
  {
    hide Add;
    Interchange(a, a', b, b');
    Interchange(Add(a, b), Add(a', b'), c, c');
  }

  lemma Sum4Linear(a: bv8, b: bv8, c: bv8, d: bv8, a': bv8, b': bv8, c': bv8, d': bv8)
    ensures Sum4(Add(a, a'), Add(b, b'), Add(c, c'), Add(d, d')) == Add(Sum4(a, b, c, d), Sum4(a', b', c', d'))
  {
    hide Add;
    Sum3Linear(a, b, c, a', b', c');
    Interchange(Sum3(a, b, c), Sum3(a', b', c'), d, d');
  }

  lemma SumTransposes(a: bv8, b: bv8, c: bv8, d: bv8, e: bv8, f: bv8, g: bv8, h: bv8,
                      i: bv8, j: bv8, k: bv8, l: bv8, m: bv8, n: bv8, o: bv8, p: bv8)
    ensures Sum4(Sum4(a, b, c, d), Sum4(e, f, g, h), Sum4(i, j, k, l), Sum4(m, n, o, p))
         == Sum4(Sum4(a, e, i, m), Sum4(b, f, j, n), Sum4(c, g, k, o), Sum4(d, h, l, p))
  {
    hide Add;
    Sum4Linear(a, b, c, d, e, f, g, h);
    Sum4Linear(Add(a, e), Add(b, f), Add(c, g), Add(d, h), i, j, k, l);
    Sum4Linear(Sum3(a, e, i), Sum3(b, f, j), Sum3(c, g, k), Sum3(d, h, l), m, n, o, p);
  }

  /** The coefficients of the inverse matrix, FIPS 197 section 5.3.3. */
  predicate InverseCoefficient(k: bv8) {
    k == 0x09 || k == 0x0b || k == 0x0d || k == 0x0e
  }

  lemma Times09(x: bv8)
    ensures FieldProduct(x, 0x09) == Sum3(x, 0, Xtime(Xtime(Xtime(x))))
  {
  }

  lemma Times0b(x: bv8)
    ensures FieldProduct(x, 0x0b) == Sum3(x, Xtime(x), Xtime(Xtime(Xtime(x))))
  {
  }

  lemma Times0d(x: bv8)
    ensures FieldProduct(x, 0x0d) == Sum3(x, Xtime(Xtime(x)), Xtime(Xtime(Xtime(x))))
  {
  }

  lemma Times0e(x: bv8)
    ensures FieldProduct(x, 0x0e) == Sum3(Xtime(x), Xtime(Xtime(x)), Xtime(Xtime(Xtime(x))))
  {
  }

  lemma CoefficientLinear(a: bv8, b: bv8, k: bv8)
    requires InverseCoefficient(k)
    ensures FieldProduct(Add(a, b), k) == Add(FieldProduct(a, k), FieldProduct(b, k))
  {
    hide Add, Xtime, FieldProduct;
    var a1, b1 := Xtime(a), Xtime(b);
    var a2, b2 := Xtime(a1), Xtime(b1);
    var a3, b3 := Xtime(a2), Xtime(b2);
    XtimeLinear(a, b);
    XtimeLinear(a1, b1);
    XtimeLinear(a2, b2);
    AddZeros();
    match k {
      case 0x09 => Times09(a); Times09(b); Times09(Add(a, b)); Sum3Linear(a, 0, a3, b, 0, b3);
      case 0x0b => Times0b(a); Times0b(b); Times0b(Add(a, b)); Sum3Linear(a, a1, a3, b, b1, b3);
      case 0x0d => Times0d(a); Times0d(b); Times0d(Add(a, b)); Sum3Linear(a, a2, a3, b, b2, b3);
      case 0x0e => Times0e(a); Times0e(b); Times0e(Add(a, b)); Sum3Linear(a1, a2, a3, b1, b2, b3);
    }
  }

  lemma CoefficientOfSum(a: bv8, b: bv8, c: bv8, d: bv8, k: bv8)
    requires InverseCoefficient(k)
    ensures FieldProduct(Sum4(a, b, c, d), k)
         == Sum4(FieldProduct(a, k), FieldProduct(b, k), FieldProduct(c, k), FieldProduct(d, k))
  {
    hide FieldProduct, Add;
    CoefficientLinear(a, b, k);
    CoefficientLinear(Add(a, b), c, k);
    CoefficientLinear(Sum3(a, b, c), d, k);
  }

  // ----- one column of MixColumns and of its inverse -----

  /** One byte of a mixed column, FIPS 197 section 5.1.3, from the column rotated to start at that byte. */
  function Mixed(a: bv8, b: bv8, c: bv8, d: bv8): bv8 {
    Sum4(FieldProduct(a, 0x02), FieldProduct(b, 0x03), c, d)
  }

  /** Section 5.3.3. */
  function InvMixed(a: bv8, b: bv8, c: bv8, d: bv8): bv8 {
    Sum4(FieldProduct(a, 0x0e), FieldProduct(b, 0x0b), FieldProduct(c, 0x0d), FieldProduct(d, 0x09))
  }

  lemma Times02And03(x: bv8)
    ensures FieldProduct(x, 0x02) == Xtime(x)
    ensures FieldProduct(x, 0x03) == Add(Xtime(x), x)
  {
  }

  lemma InvMixedByPowers(a: bv8, b: bv8, c: bv8, d: bv8)
    ensures InvMixed(a, b, c, d)
         == Sum4(Sum3(Xtime(a), Xtime(Xtime(a)), Xtime(Xtime(Xtime(a)))),
                 Sum3(b, Xtime(b), Xtime(Xtime(Xtime(b)))),
                 Sum3(c, Xtime(Xtime(c)), Xtime(Xtime(Xtime(c)))),
                 Sum3(d, 0, Xtime(Xtime(Xtime(d)))))
  {
    hide FieldProduct, Add, Xtime;
    Times0e(a);
    Times0b(b);
    Times0d(c);
    Times09(d);
  }

  /** The entries of the product of the two circulant matrices: one on the diagonal, zero elsewhere. */
  lemma MatrixProduct(x: bv8)
    ensures InvMixed(FieldProduct(x, 0x02), x, x, FieldProduct(x, 0x03)) == x
    ensures InvMixed(FieldProduct(x, 0x03), FieldProduct(x, 0x02), x, x) == 0
    ensures InvMixed(x, FieldProduct(x, 0x03), FieldProduct(x, 0x02), x) == 0
    ensures InvMixed(x, x, FieldProduct(x, 0x03), FieldProduct(x, 0x02)) == 0
  {
    hide FieldProduct, InvMixed;
    var y, z := FieldProduct(x, 0x02), FieldProduct(x, 0x03);
    Times02And03(x);
    InvMixedByPowers(y, x, x, z);
    InvMixedByPowers(z, y, x, x);
    InvMixedByPowers(x, z, y, x);
    InvMixedByPowers(x, x, z, y);
  }

  lemma SumWithZeros(a: bv8)
    ensures Sum4(a, 0, 0, 0) == a
  {
  }

  /** Multiplying by the inverse matrix recovers the first byte of the column, and by rotation each byte. */
  lemma InvMixedUndoesMixed(a: bv8, b: bv8, c: bv8, d: bv8)
    ensures InvMixed(Mixed(a, b, c, d), Mixed(b, c, d, a), Mixed(c, d, a, b), Mixed(d, a, b, c)) == a
  {
    hide FieldProduct, Add;
    var a2, b2, c2, d2 := FieldProduct(a, 2), FieldProduct(b, 2), FieldProduct(c, 2), FieldProduct(d, 2);
    var a3, b3, c3, d3 := FieldProduct(a, 3), FieldProduct(b, 3), FieldProduct(c, 3), FieldProduct(d, 3);
    // each row, with its summands in the order a, b, c, d
    CoefficientOfSum(a2, b3, c, d, 0x0e);
    Rotate(b2, c3, d, a);
    CoefficientOfSum(a, b2, c3, d, 0x0b);
    Rotate(c2, d3, a, b);
    Rotate(b, c2, d3, a);
    CoefficientOfSum(a, b, c2, d3, 0x0d);
    Rotate(a3, b, c, d2);
    CoefficientOfSum(a3, b, c, d2, 0x09);
    SumTransposes(FieldProduct(a2, 0x0e), FieldProduct(b3, 0x0e), FieldProduct(c, 0x0e), FieldProduct(d, 0x0e),
                  FieldProduct(a, 0x0b), FieldProduct(b2, 0x0b), FieldProduct(c3, 0x0b), FieldProduct(d, 0x0b),
                  FieldProduct(a, 0x0d), FieldProduct(b, 0x0d), FieldProduct(c2, 0x0d), FieldProduct(d3, 0x0d),
                  FieldProduct(a3, 0x09), FieldProduct(b, 0x09), FieldProduct(c, 0x09), FieldProduct(d2, 0x09));
    MatrixProduct(a);
    MatrixProduct(b);
    MatrixProduct(c);
    MatrixProduct(d);
    SumWithZeros(a);
  }
}
