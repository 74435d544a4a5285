// The multiplication against its definition: the polynomial product, less a multiple of the modulus.
module Polynomials {
  import opened GaloisField

  function Xor16(a: bv16, b: bv16): bv16 { a ^ b }

  function Double(a: bv16): bv16 { a << 1 }

  function Term16(a: bv16, b: bv8): bv16 { if b & 1 != 0 then a else 0 }

  // Product of polynomials over GF(2), not reduced
  function Product(a: bv16, b: bv8): bv16
    decreases b
  {
    if b == 0 then 0 else Xor16(Term16(a, b), Product(Double(a), b >> 1))
  }

  const MODULUS: bv16 := 0x11B

  function Carry(a: bv8, b: bv8): bv8 { if a & 0x80 != 0 then b else 0 }

  // How often the modulus goes into the product
  function Quotient(a: bv8, b: bv8): bv8
    decreases b
  {
    if b == 0 then 0 else Xor(Carry(a, b >> 1), Quotient(XTime(a), b >> 1))
  }

  lemma Xor16Swap(a: bv16, b: bv16, c: bv16, d: bv16)
    ensures Xor16(Xor16(a, b), Xor16(c, d)) == Xor16(Xor16(a, c), Xor16(b, d))
  {
    assert Xor16(a ^ b, c ^ d) == Xor16(a ^ c, b ^ d);
  }

  lemma Xor16Zero(a: bv16)
    ensures Xor16(a, 0) == a && Xor16(0, a) == a && Xor16(a, a) == 0
  {}

  lemma Xor16Associates(a: bv16, b: bv16, c: bv16)
    ensures Xor16(Xor16(a, b), c) == Xor16(a, Xor16(b, c))
  {
    assert Xor16(a ^ b, c) == Xor16(a, b ^ c);
  }

  lemma Xor16Moves(a: bv16, b: bv16, c: bv16, d: bv16)
    ensures Xor16(a, Xor16(Xor16(b, c), d)) == Xor16(Xor16(a, b), Xor16(d, c))
  {
    Xor16Associates(b, c, d);
    Xor16Associates(a, b, Xor16(c, d));
    assert Xor16(c, d) == Xor16(d, c);
  }

  lemma DoubleXor(a: bv16, c: bv16)
    ensures Double(Xor16(a, c)) == Xor16(Double(a), Double(c))
  {}

  lemma Term16XorLeft(a: bv16, c: bv16, b: bv8)
    ensures Term16(Xor16(a, c), b) == Xor16(Term16(a, b), Term16(c, b))
  {
    if b & 1 == 0 {} else {}
  }

  lemma Term16XorRight(a: bv16, b: bv8, d: bv8)
    ensures Term16(a, Xor(b, d)) == Xor16(Term16(a, b), Term16(a, d))
  {
    if b & 1 == 0 {
      if d & 1 == 0 {} else {}
    } else {
      if d & 1 == 0 {} else {}
    }
  }

  lemma {:induction false} ProductXorLeft(a: bv16, c: bv16, b: bv8)
    ensures Product(Xor16(a, c), b) == Xor16(Product(a, b), Product(c, b))
    decreases b
  {
    if b != 0 {
      DoubleXor(a, c);
      Term16XorLeft(a, c, b);
      ProductXorLeft(Double(a), Double(c), b >> 1);
      Xor16Swap(Term16(a, b), Term16(c, b), Product(Double(a), b >> 1), Product(Double(c), b >> 1));
    }
  }

  lemma {:induction false} ProductXorRight(a: bv16, b: bv8, d: bv8)
    ensures Product(a, Xor(b, d)) == Xor16(Product(a, b), Product(a, d))
    decreases b, d
  {
    if b == 0 {
      XorZero(d);
      Xor16Zero(Product(a, d));
    } else if d == 0 {
      XorZero(b);
      Xor16Zero(Product(a, b));
    } else {
      ShiftXor(b, d);
      Term16XorRight(a, b, d);
      ProductXorRight(Double(a), b >> 1, d >> 1);
      Xor16Swap(Term16(a, b), Term16(a, d), Product(Double(a), b >> 1), Product(Double(a), d >> 1));
      if Xor(b, d) == 0 {
        assert b == d;
      }
    }
  }

  lemma DoubleIsXTime(a: bv8)
    ensures Double(a as bv16) == if a & 0x80 != 0 then Xor16(XTime(a) as bv16, MODULUS) else XTime(a) as bv16
  {}

  // Doubling without reduction, in terms of XTime
  lemma DoubleProduct(a: bv8, b: bv8)
    ensures Product(Double(a as bv16), b) == Xor16(Product(XTime(a) as bv16, b), Product(MODULUS, Carry(a, b)))
  {
    hide Double, XTime, Xor16;
    DoubleIsXTime(a);
    if a & 0x80 != 0 {
      ProductXorLeft(XTime(a) as bv16, MODULUS, b);
    } else {
      Xor16Zero(Product(XTime(a) as bv16, b));
    }
  }

  lemma WidenXor(a: bv8, b: bv8)
    ensures Xor(a, b) as bv16 == Xor16(a as bv16, b as bv16)
  {}

  lemma WidenTerm(a: bv8, b: bv8)
    ensures Term(a, b) as bv16 == Term16(a as bv16, b)
  {}

  lemma {:induction false} MulIsRemainder(a: bv8, b: bv8)
    ensures Product(a as bv16, b) == Xor16(Mul(a, b) as bv16, Product(MODULUS, Quotient(a, b)))
    decreases b
  {
    if b == 0 {
      Xor16Zero(0);
    } else {
      var rest, q := Mul(XTime(a), b >> 1), Quotient(XTime(a), b >> 1);
      DoubleProduct(a, b >> 1);
      MulIsRemainder(XTime(a), b >> 1);
      WidenXor(Term(a, b), rest);
      WidenTerm(a, b);
      ProductXorRight(MODULUS, Carry(a, b >> 1), q);
      Xor16Moves(Term(a, b) as bv16, rest as bv16, Product(MODULUS, q), Product(MODULUS, Carry(a, b >> 1)));
    }
  }
}
