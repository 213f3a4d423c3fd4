/** Bytes as numbers: the conversions between bv8 and 0..255. */
module Bytes {
  /** A number that one byte holds. */
  type u8 = n: int | 0 <= n < 256

  function ToByte(n: u8): bv8 {
    n as bv8
  }

  function FromByte(b: bv8): u8 {
    b as int
  }

  lemma Successor(b: bv8)
    requires b != 255
    ensures FromByte(b + 1) == FromByte(b) + 1
  {
  }

  lemma {:induction false} FromToByte(n: u8)
    ensures FromByte(ToByte(n)) == n
  {
    if n > 0 {
      FromToByte(n - 1);
      Successor(ToByte(n - 1));
      assert ToByte(n) == ToByte(n - 1) + 1;
    }
  }

  lemma ToFromByte(b: bv8)
    ensures ToByte(FromByte(b)) == b
  {
  }
}
