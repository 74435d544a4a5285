// Bytes as polynomials over GF(2) modulo x^8 + x^4 + x^3 + x + 1 (section 4.2 of FIPS-197): the shift-and-add
// multiplication, and the proof that it makes a commutative ring.
module GaloisField {
  function Xor(a: bv8, b: bv8): bv8 {
    a ^ b
  }

  function XTime(byte: bv8): bv8 {
    var doubled := byte << 1;
    if byte & 0x80 == 0 then doubled else Xor(doubled, 0x1B)
  }

  function Term(a: bv8, b: bv8): bv8 {
    if b & 1 != 0 then a else 0
  }

  function Mul(a: bv8, b: bv8): bv8
    decreases b
  {
    if b == 0 then 0 else Xor(Term(a, b), Mul(XTime(a), b >> 1))
  }

  method GfMul(a0: bv8, b0: bv8) returns (product: bv8)
    ensures product == Mul(a0, b0)
  {
    var a, b := a0, b0;
    product := 0;
    XorZero(Mul(a, b));
    while b != 0
      invariant Xor(product, Mul(a, b)) == Mul(a0, b0)
      decreases b
    {
      XorAssociates(product, Term(a, b), Mul(XTime(a), b >> 1));
      XorZero(product);
      if b & 1 != 0 {
        product := Xor(product, a);
      }
      a := XTime(a);
      b := b >> 1;
    }
    XorZero(product);
  }

  // ---- exclusive or is a group in which everything is its own inverse

  lemma XorCommutes(a: bv8, b: bv8)
    ensures Xor(a, b) == Xor(b, a)
  {}

  lemma XorZero(a: bv8)
    ensures Xor(a, 0) == a && Xor(0, a) == a && Xor(a, a) == 0
  {}

  lemma XorOfZeros()
    ensures Xor(0, 0) == 0
  {}

  lemma XorAssociates(a: bv8, b: bv8, c: bv8)
    ensures Xor(Xor(a, b), c) == Xor(a, Xor(b, c))
  {
    assert Xor(a ^ b, c) == Xor(a, b ^ c);
  }

  lemma XorCancels(a: bv8, b: bv8)
    ensures Xor(Xor(a, b), b) == a
  {
    assert Xor(a ^ b, b) == a;
  }

  lemma XorSwap(a: bv8, b: bv8, c: bv8, d: bv8)
    ensures Xor(Xor(a, b), Xor(c, d)) == Xor(Xor(a, c), Xor(b, d))
  {
    assert Xor(a ^ b, c ^ d) == Xor(a ^ c, b ^ d);
  }

  // ---- Mul is the multiplication of a commutative ring

  lemma XTimeXor(a: bv8, c: bv8)
    ensures XTime(Xor(a, c)) == Xor(XTime(a), XTime(c))
  {
    if a & 0x80 == 0 {
      if c & 0x80 == 0 {} else {}
    } else {
      if c & 0x80 == 0 {} else {}
    }
  }

  lemma TermXor(a: bv8, b: bv8, d: bv8)
    ensures Term(a, Xor(b, d)) == Xor(Term(a, b), Term(a, d))
  {
    if b & 1 == 0 {
      if d & 1 == 0 {} else {}
    } else {
      if d & 1 == 0 {} else {}
    }
  }

  lemma TermXorLeft(a: bv8, c: bv8, b: bv8)
    ensures Term(Xor(a, c), b) == Xor(Term(a, b), Term(c, b))
  {
    if b & 1 == 0 {} else {}
  }

  lemma ShiftXor(b: bv8, d: bv8)
    ensures Xor(b, d) >> 1 == Xor(b >> 1, d >> 1)
  {
    assert (b ^ d) >> 1 == (b >> 1) ^ (d >> 1);
  }

  lemma {:induction false} MulXorLeft(a: bv8, c: bv8, b: bv8)
    ensures Mul(Xor(a, c), b) == Xor(Mul(a, b), Mul(c, b))
    decreases b
  {
    hide Xor, XTime, Term;
    if b != 0 {
      XTimeXor(a, c);
      TermXorLeft(a, c, b);
      MulXorLeft(XTime(a), XTime(c), b >> 1);
      XorSwap(Term(a, b), Term(c, b), Mul(XTime(a), b >> 1), Mul(XTime(c), b >> 1));
    } else {
      XorOfZeros();
    }
  }

  lemma {:induction false} MulXorRight(a: bv8, b: bv8, d: bv8)
    ensures Mul(a, Xor(b, d)) == Xor(Mul(a, b), Mul(a, d))
    decreases b, d
  {
    if b == 0 {
      XorZero(d);
      XorZero(Mul(a, d));
    } else if d == 0 {
      XorZero(b);
      XorZero(Mul(a, b));
    } else {
      ShiftXor(b, d);
      TermXor(a, b, d);
      MulXorRight(XTime(a), b >> 1, d >> 1);
      XorSwap(Term(a, b), Term(a, d), Mul(XTime(a), b >> 1), Mul(XTime(a), d >> 1));
      if Xor(b, d) == 0 {
        assert b == d;
      }
    }
  }

  lemma {:induction false} MulXTime(a: bv8, b: bv8)
    ensures Mul(XTime(a), b) == XTime(Mul(a, b))
    decreases b
  {
    if b != 0 {
      MulXTime(XTime(a), b >> 1);
      XTimeXor(Term(a, b), Mul(XTime(a), b >> 1));
      if b & 1 == 0 {} else {}
    }
  }

  lemma {:induction false} MulZero(b: bv8)
    ensures Mul(0, b) == 0
    decreases b
  {
    if b != 0 {
      MulZero(b >> 1);
    }
  }

  lemma Halves(b: bv8)
    ensures b == Xor(b & 1, XTime(b >> 1))
  {
    assert (b >> 1) & 0x80 == 0;
    assert Xor(b & 1, (b >> 1) << 1) == b;
  }

  lemma {:induction false} MulOne(b: bv8)
    ensures Mul(1, b) == b
    decreases b
  {
    if b != 0 {
      MulOne(b >> 1);
      MulXTime(1, b >> 1);
      Halves(b);
      assert Term(1, b) == b & 1;
    }
  }

  lemma TermIsMul(a: bv8, b: bv8)
    ensures Mul(b & 1, a) == Term(a, b)
  {
    MulZero(a);
    MulOne(a);
    assert b & 1 == 0 || b & 1 == 1;
  }

  lemma {:induction false} MulCommutes(a: bv8, b: bv8)
    ensures Mul(a, b) == Mul(b, a)
    decreases b
  {
    if b == 0 {
      MulZero(a);
    } else {
      MulCommutes(a, b >> 1);
      MulXTime(a, b >> 1);
      Halves(b);
      MulXorLeft(b & 1, XTime(b >> 1), a);
      MulXTime(b >> 1, a);
      TermIsMul(a, b);
    }
  }

  lemma {:induction false} MulAssociates(a: bv8, b: bv8, c: bv8)
    ensures Mul(Mul(a, b), c) == Mul(a, Mul(b, c))
    decreases c
  {
    if c == 0 {
    } else {
      var rest := Mul(b, c >> 1);
      MulAssociates(a, b, c >> 1);
      MulXTime(Mul(a, b), c >> 1);
      MulXTime(b, c >> 1);
      MulXorRight(a, Term(b, c), XTime(rest));
      MulXTimeRight(a, rest);
      assert Mul(a, Term(b, c)) == Term(Mul(a, b), c);
    }
  }

  lemma MulXTimeRight(a: bv8, b: bv8)
    ensures Mul(a, XTime(b)) == XTime(Mul(a, b))
  {
    MulCommutes(a, XTime(b));
    MulCommutes(a, b);
    MulXTime(b, a);
  }
}
