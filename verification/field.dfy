// Every byte but zero has one inverse. Squaring is linear, and squaring eight times is the identity; so a^254
// inverts a, and the search through all bytes finds it.
module Field {
  import opened GaloisField

  function Square(a: bv8): bv8 { Mul(a, a) }

  lemma SquareXor(a: bv8, b: bv8)
    ensures Square(Xor(a, b)) == Xor(Square(a), Square(b))
  {
    MulXorLeft(a, b, Xor(a, b));
    MulXorRight(a, a, b);
    MulXorRight(b, a, b);
    MulCommutes(a, b);
    var ab := Mul(a, b);
    XorCommutes(ab, Square(b));
    XorSwap(Square(a), ab, Square(b), ab);
    XorZero(ab);
    XorZero(Xor(Square(a), Square(b)));
  }

  lemma SquareMul(a: bv8, b: bv8)
    ensures Square(Mul(a, b)) == Mul(Square(a), Square(b))
  {
    MulAssociates(a, b, Mul(a, b));
    MulAssociates(b, a, b);
    MulCommutes(a, b);
    MulAssociates(a, b, b);
    MulAssociates(a, a, Mul(b, b));
  }

  lemma SquareXTime(h: bv8)
    ensures Square(XTime(h)) == XTime(XTime(Square(h)))
  {
    MulXTime(h, XTime(h));
    MulXTimeRight(h, h);
  }

  // The bits of a square: bit i goes to x^(2i) mod the polynomial
  function Spread(a: bv8): bv8 {
    (a & 0x01) ^ ((a & 0x02) << 1) ^ ((a & 0x04) << 2) ^ ((a & 0x08) << 3)
    ^ (((a >> 4) & 1) * 0x1B) ^ (((a >> 5) & 1) * 0x6C) ^ (((a >> 6) & 1) * 0xAB) ^ (((a >> 7) & 1) * 0x9A)
  }

  lemma SpreadFixed(a: bv8)
    requires Spread(a) == a
    ensures a == 0 || a == 1
  {}

  const BITS: seq<bv8> := [0x01, 0x02, 0x04, 0x08, 0x10, 0x20, 0x40, 0x80]

  // A set bit
  function TopBit(a: bv8): (m: bv8)
    requires a != 0
    ensures a & m == m && Xor(a, m) < a
    ensures m in BITS
  {
    if a & 0x80 != 0 then 0x80 else if a & 0x40 != 0 then 0x40 else
    if a & 0x20 != 0 then 0x20 else if a & 0x10 != 0 then 0x10 else
    if a & 0x08 != 0 then 0x08 else if a & 0x04 != 0 then 0x04 else
    if a & 0x02 != 0 then 0x02 else 0x01
  }

  lemma SpreadClears(a: bv8)
    requires a != 0
    ensures Spread(a) == Xor(Spread(Xor(a, TopBit(a))), Spread(TopBit(a)))
  {}

  lemma SquareBits()
    ensures Square(0x01) == 0x01 && Square(0x02) == 0x04 && Square(0x04) == 0x10 && Square(0x08) == 0x40
    ensures Square(0x10) == 0x1B && Square(0x20) == 0x6C && Square(0x40) == 0xAB && Square(0x80) == 0x9A
  {
    MulOne(1);
    SquareXTime(0x01);
    SquareXTime(0x02);
    SquareXTime(0x04);
    SquareXTime(0x08);
    SquareXTime(0x10);
    SquareXTime(0x20);
    SquareXTime(0x40);
  }

  lemma {:induction false} SquareIsSpread(a: bv8)
    ensures Square(a) == Spread(a)
    decreases a
  {
    if a == 0 {
    } else {
      var m := TopBit(a);
      SquareIsSpread(Xor(a, m));
      XorCancels(a, m);
      SquareXor(Xor(a, m), m);
      SpreadClears(a);
      SquareBits();
    }
  }

  // a^(2^n)
  function Frobenius(a: bv8, n: nat): bv8
    decreases n
  {
    if n == 0 then a else Frobenius(Square(a), n - 1)
  }

  lemma {:induction false} FrobeniusXor(a: bv8, b: bv8, n: nat)
    ensures Frobenius(Xor(a, b), n) == Xor(Frobenius(a, n), Frobenius(b, n))
    decreases n
  {
    hide Xor, Square;
    if n != 0 {
      SquareXor(a, b);
      FrobeniusXor(Square(a), Square(b), n - 1);
    }
  }

  function Spreads(a: bv8, n: nat): bv8
    decreases n
  {
    if n == 0 then a else Spreads(Spread(a), n - 1)
  }

  lemma {:induction false} FrobeniusSpread(a: bv8, n: nat)
    ensures Frobenius(a, n) == Spreads(a, n)
    decreases n
  {
    SquareIsSpread(a);
    if n != 0 { FrobeniusSpread(Spread(a), n-1); }
  }

  lemma SpreadsBits()
    ensures Spreads(0x01, 8) == 0x01 && Spreads(0x02, 8) == 0x02 && Spreads(0x04, 8) == 0x04 && Spreads(0x08, 8) == 0x08
    ensures Spreads(0x10, 8) == 0x10 && Spreads(0x20, 8) == 0x20 && Spreads(0x40, 8) == 0x40 && Spreads(0x80, 8) == 0x80
    ensures Spreads(0, 8) == 0
  {}

  ghost predicate FixesBits(n: nat) {
    forall m :: m in BITS ==> Frobenius(m, n) == m
  }

  lemma {:induction false} FrobeniusFixes(a: bv8, n: nat)
    requires FixesBits(n)
    ensures Frobenius(a, n) == a
    decreases a
  {
    if a == 0 {
      FrobeniusZero(n);
    } else {
      var m := TopBit(a);
      FrobeniusFixes(Xor(a, m), n);
      XorCancels(a, m);
      FrobeniusXor(Xor(a, m), m, n);
    }
  }

  lemma {:induction false} FrobeniusZero(n: nat)
    ensures Frobenius(0, n) == 0
  {
    if n != 0 {
      assert Square(0) == 0;
      FrobeniusZero(n - 1);
    }
  }

  lemma FrobeniusEight(a: bv8)
    ensures Frobenius(a, 8) == a
  {
    hide Frobenius, Spreads;
    SpreadsBits();
    forall m | m in BITS ensures Frobenius(m, 8) == m {
      FrobeniusSpread(m, 8);
    }
    FrobeniusFixes(a, 8);
  }

  // a^(2^n - 1), as a * a^2 * a^4 * ... * a^(2^(n-1))
  function Power(a: bv8, n: nat): bv8
    decreases n
  {
    if n == 0 then 1 else Mul(a, Power(Square(a), n - 1))
  }

  lemma {:induction false} PowerLast(a: bv8, n: nat)
    ensures Power(a, n + 1) == Mul(Power(a, n), Frobenius(a, n))
    decreases n
  {
    if n == 0 {
      MulCommutes(a, 1);
    } else {
      PowerLast(Square(a), n - 1);
      MulAssociates(a, Power(Square(a), n - 1), Frobenius(Square(a), n - 1));
    }
  }

  lemma {:induction false} PowerSquare(a: bv8, n: nat)
    ensures Square(Power(a, n)) == Power(Square(a), n)
    decreases n
  {
    if n == 0 {
      MulOne(1);
    } else {
      PowerSquare(Square(a), n - 1);
      SquareMul(a, Power(Square(a), n - 1));
    }
  }

  lemma {:induction false} PowerTimes(a: bv8, n: nat)
    ensures Mul(a, Power(a, n)) == Frobenius(a, n)
    decreases n
  {
    if n == 0 {
      MulCommutes(a, 1);
      MulOne(a);
    } else {
      PowerTimes(Square(a), n - 1);
      MulAssociates(a, a, Power(Square(a), n - 1));
    }
  }

  lemma PowerEight(a: bv8)
    requires a != 0
    ensures Power(a, 8) == 1
  {
    var p := Power(a, 8);
    assert Square(p) == p by {
      PowerSquare(a, 8);
      PowerLast(Square(a), 7);
      FrobeniusEight(a);
      assert Frobenius(a, 8) == Frobenius(Square(a), 7);
      MulCommutes(a, Power(Square(a), 7));
    }
    SquareIsSpread(p);
    SpreadFixed(p);
    PowerTimes(a, 8);
    FrobeniusEight(a);
    MulCommutes(a, p);
    MulZero(a);
  }

  function Inverse(a: bv8): bv8 {
    Power(Square(a), 7)
  }

  lemma InverseIsInverse(a: bv8)
    requires a != 0
    ensures Mul(a, Inverse(a)) == 1
  {
    PowerEight(a);
  }

  lemma InverseUnique(a: bv8, c: bv8)
    requires Mul(a, c) == 1
    ensures c == Inverse(a) && a == Inverse(c)
  {
    MulZero(c);
    InverseIsInverse(a);
    MulCommutes(a, c);
    MulAssociates(c, a, Inverse(a));
    MulOne(Inverse(a));
    MulCommutes(c, 1);
    MulOne(c);
    if c == 0 {
      MulZero(a);
    }
    InverseIsInverse(c);
    MulAssociates(a, c, Inverse(c));
    MulOne(Inverse(c));
    MulCommutes(a, 1);
    MulOne(a);
  }

  lemma InverseInvolutive(a: bv8)
    ensures Inverse(Inverse(a)) == a
  {
    if a == 0 {
      assert Square(0) == 0;
      assert Power(0, 7) == 0;
    } else {
      InverseIsInverse(a);
      InverseUnique(a, Inverse(a));
    }
  }

  method GfInverse(value: bv8) returns (r: bv8)
    ensures value == 0 ==> r == 0
    ensures value != 0 ==> Mul(value, r) == 1
    ensures r == Inverse(value)
  {
    hide Inverse, Mul;
    if value == 0 {
      InverseZero();
      return 0;
    }
    InverseIsInverse(value);
    ZeroNotInverse(value);
    var candidate: bv8 := 1;
    while candidate != 0
      invariant candidate != 0
      invariant candidate <= Inverse(value)
      decreases Inverse(value) - candidate
    {
      var product := GfMul(value, candidate);
      if product == 1 {
        InverseUnique(value, candidate);
        return candidate;
      }
      candidate := candidate + 1;
    }
    return 0;
  }

  lemma ZeroNotInverse(value: bv8)
    ensures Mul(value, 0) == 0
  {}

  lemma InverseZero()
    ensures Inverse(0) == 0
  {
    assert Square(0) == 0;
  }
}
