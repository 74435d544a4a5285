// MixColumns and its inverse on one column (sections 5.1.3 and 5.3.3 of FIPS-197): by linearity it is enough that
// they undo each other on a single byte.
module Mix {
  import opened GaloisField

  function Xor4(a: bv8, b: bv8, c: bv8, d: bv8): bv8 {
    Xor(Xor(Xor(a, b), c), d)
  }

  lemma Xor4Transpose(a: bv8, b: bv8, c: bv8, d: bv8, a': bv8, b': bv8, c': bv8, d': bv8)
    ensures Xor4(Xor(a, a'), Xor(b, b'), Xor(c, c'), Xor(d, d')) == Xor(Xor4(a, b, c, d), Xor4(a', b', c', d'))
  {
    XorSwap(a, a', b, b');
    XorSwap(Xor(a, b), Xor(a', b'), c, c');
    XorSwap(Xor(Xor(a, b), c), Xor(Xor(a', b'), c'), d, d');
  }

  lemma Xor4Rotates(a: bv8, b: bv8, c: bv8, d: bv8)
    ensures Xor4(a, b, c, d) == Xor4(b, c, d, a)
  {
    XorAssociates(a, b, c);
    XorAssociates(a, Xor(b, c), d);
    XorCommutes(a, Xor(Xor(b, c), d));
  }

  lemma MulXor4(a: bv8, c1: bv8, c2: bv8, c3: bv8, c4: bv8)
    ensures Mul(a, Xor4(c1, c2, c3, c4)) == Xor4(Mul(a, c1), Mul(a, c2), Mul(a, c3), Mul(a, c4))
  {
    MulXorRight(a, Xor(Xor(c1, c2), c3), c4);
    MulXorRight(a, Xor(c1, c2), c3);
    MulXorRight(a, c1, c2);
  }

  // (2 3 1 1) . (a b c d)
  function MixByte(a: bv8, b: bv8, c: bv8, d: bv8): bv8 {
    Xor4(XTime(a), Xor(XTime(b), b), c, d)
  }

  // (14 11 13 9)
  function UnmixByte(a: bv8, b: bv8, c: bv8, d: bv8): bv8 {
    Xor4(Mul(a, 0x0E), Mul(b, 0x0B), Mul(c, 0x0D), Mul(d, 0x09))
  }

  lemma MixAdds(a: bv8, b: bv8, c: bv8, d: bv8, a': bv8, b': bv8, c': bv8, d': bv8)
    ensures MixByte(Xor(a, a'), Xor(b, b'), Xor(c, c'), Xor(d, d')) == Xor(MixByte(a, b, c, d), MixByte(a', b', c', d'))
  {
    XTimeXor(a, a');
    XTimeXor(b, b');
    XorSwap(XTime(b), XTime(b'), b, b');
    Xor4Transpose(XTime(a), Xor(XTime(b), b), c, d, XTime(a'), Xor(XTime(b'), b'), c', d');
  }

  lemma UnmixAdds(a: bv8, b: bv8, c: bv8, d: bv8, a': bv8, b': bv8, c': bv8, d': bv8)
    ensures UnmixByte(Xor(a, a'), Xor(b, b'), Xor(c, c'), Xor(d, d'))
         == Xor(UnmixByte(a, b, c, d), UnmixByte(a', b', c', d'))
  {
    MulXorLeft(a, a', 0x0E);
    MulXorLeft(b, b', 0x0B);
    MulXorLeft(c, c', 0x0D);
    MulXorLeft(d, d', 0x09);
    Xor4Transpose(Mul(a, 0x0E), Mul(b, 0x0B), Mul(c, 0x0D), Mul(d, 0x09),
                  Mul(a', 0x0E), Mul(b', 0x0B), Mul(c', 0x0D), Mul(d', 0x09));
  }

  lemma MixScales(a: bv8, c1: bv8, c2: bv8, c3: bv8, c4: bv8)
    ensures MixByte(Mul(a, c1), Mul(a, c2), Mul(a, c3), Mul(a, c4)) == Mul(a, MixByte(c1, c2, c3, c4))
  {
    MulXor4(a, XTime(c1), Xor(XTime(c2), c2), c3, c4);
    MulXorRight(a, XTime(c2), c2);
    MulXTimeRight(a, c1);
    MulXTimeRight(a, c2);
  }

  lemma UnmixScales(a: bv8, c1: bv8, c2: bv8, c3: bv8, c4: bv8)
    ensures UnmixByte(Mul(a, c1), Mul(a, c2), Mul(a, c3), Mul(a, c4)) == Mul(a, UnmixByte(c1, c2, c3, c4))
  {
    MulXor4(a, Mul(c1, 0x0E), Mul(c2, 0x0B), Mul(c3, 0x0D), Mul(c4, 0x09));
    MulAssociates(a, c1, 0x0E);
    MulAssociates(a, c2, 0x0B);
    MulAssociates(a, c3, 0x0D);
    MulAssociates(a, c4, 0x09);
  }

  lemma SmallMultiples(c: bv8)
    ensures Mul(1, c) == Mul(c, 1) == c
    ensures Mul(2, c) == Mul(c, 2) == XTime(c)
    ensures Mul(3, c) == Mul(c, 3) == Xor(XTime(c), c)
  {
    MulOne(c);
    assert XTime(1) == 2 && Xor(2, 1) == 3;
    MulXTime(1, c);
    MulXorLeft(2, 1, c);
    MulCommutes(1, c);
    MulCommutes(2, c);
    MulCommutes(3, c);
  }

  lemma UnmixCoefficients()
    ensures UnmixByte(2, 1, 1, 3) == 1 && UnmixByte(3, 2, 1, 1) == 0
    ensures UnmixByte(1, 3, 2, 1) == 0 && UnmixByte(1, 1, 3, 2) == 0
  {
    SmallMultiples(0x0E);
    SmallMultiples(0x0B);
    SmallMultiples(0x0D);
    SmallMultiples(0x09);
  }

  lemma MixCoefficients()
    ensures MixByte(0x0E, 0x09, 0x0D, 0x0B) == 1 && MixByte(0x0B, 0x0E, 0x09, 0x0D) == 0
    ensures MixByte(0x0D, 0x0B, 0x0E, 0x09) == 0 && MixByte(0x09, 0x0D, 0x0B, 0x0E) == 0
  {}

  // Unmix after mix, on the column (a, b, c, d), first byte.
  function MixedThenUnmixed(a: bv8, b: bv8, c: bv8, d: bv8): bv8 {
    UnmixByte(MixByte(a, b, c, d), MixByte(b, c, d, a), MixByte(c, d, a, b), MixByte(d, a, b, c))
  }

  function UnmixedThenMixed(a: bv8, b: bv8, c: bv8, d: bv8): bv8 {
    MixByte(UnmixByte(a, b, c, d), UnmixByte(b, c, d, a), UnmixByte(c, d, a, b), UnmixByte(d, a, b, c))
  }

  lemma BothAdd(a: bv8, b: bv8, c: bv8, d: bv8, a': bv8, b': bv8, c': bv8, d': bv8)
    ensures MixedThenUnmixed(Xor(a, a'), Xor(b, b'), Xor(c, c'), Xor(d, d'))
         == Xor(MixedThenUnmixed(a, b, c, d), MixedThenUnmixed(a', b', c', d'))
    ensures UnmixedThenMixed(Xor(a, a'), Xor(b, b'), Xor(c, c'), Xor(d, d'))
         == Xor(UnmixedThenMixed(a, b, c, d), UnmixedThenMixed(a', b', c', d'))
  {
    MixAdds(a, b, c, d, a', b', c', d');
    MixAdds(b, c, d, a, b', c', d', a');
    MixAdds(c, d, a, b, c', d', a', b');
    MixAdds(d, a, b, c, d', a', b', c');
    UnmixAdds(MixByte(a, b, c, d), MixByte(b, c, d, a), MixByte(c, d, a, b), MixByte(d, a, b, c),
              MixByte(a', b', c', d'), MixByte(b', c', d', a'), MixByte(c', d', a', b'), MixByte(d', a', b', c'));
    UnmixAdds(a, b, c, d, a', b', c', d');
    UnmixAdds(b, c, d, a, b', c', d', a');
    UnmixAdds(c, d, a, b, c', d', a', b');
    UnmixAdds(d, a, b, c, d', a', b', c');
    MixAdds(UnmixByte(a, b, c, d), UnmixByte(b, c, d, a), UnmixByte(c, d, a, b), UnmixByte(d, a, b, c),
            UnmixByte(a', b', c', d'), UnmixByte(b', c', d', a'), UnmixByte(c', d', a', b'), UnmixByte(d', a', b', c'));
  }

  lemma MixSingle(a: bv8)
    ensures MixByte(a, 0, 0, 0) == Mul(a, 2) && MixByte(0, a, 0, 0) == Mul(a, 3)
    ensures MixByte(0, 0, a, 0) == Mul(a, 1) && MixByte(0, 0, 0, a) == Mul(a, 1)
  {
    SmallMultiples(a);
    XorZero(XTime(a));
    XorZero(Xor(XTime(a), a));
    XorZero(a);
    XorZero(0);
  }

  lemma UnmixSingle(a: bv8)
    ensures UnmixByte(a, 0, 0, 0) == Mul(a, 0x0E) && UnmixByte(0, a, 0, 0) == Mul(a, 0x0B)
    ensures UnmixByte(0, 0, a, 0) == Mul(a, 0x0D) && UnmixByte(0, 0, 0, a) == Mul(a, 0x09)
  {
    MulZero(0x0E);
    MulZero(0x0B);
    MulZero(0x0D);
    MulZero(0x09);
    XorZero(Mul(a, 0x0E));
    XorZero(Mul(a, 0x0B));
    XorZero(Mul(a, 0x0D));
    XorZero(Mul(a, 0x09));
    XorZero(0);
  }

  lemma UnmixOfMultiples(a: bv8, x: bv8, y: bv8, z: bv8)
    requires x == Mul(a, 2) && y == Mul(a, 3) && z == Mul(a, 1)
    ensures UnmixByte(x, z, z, y) == a && UnmixByte(y, x, z, z) == 0
    ensures UnmixByte(z, y, x, z) == 0 && UnmixByte(z, z, y, x) == 0
  {
    UnmixScales(a, 2, 1, 1, 3);
    UnmixScales(a, 3, 2, 1, 1);
    UnmixScales(a, 1, 3, 2, 1);
    UnmixScales(a, 1, 1, 3, 2);
    UnmixCoefficients();
    SmallMultiples(a);
  }

  lemma TimesZero(a: bv8)
    ensures Mul(a, 0) == 0
  {}

  lemma SingleForward(a: bv8)
    ensures MixedThenUnmixed(a, 0, 0, 0) == a && MixedThenUnmixed(0, a, 0, 0) == 0
    ensures MixedThenUnmixed(0, 0, a, 0) == 0 && MixedThenUnmixed(0, 0, 0, a) == 0
  {
    hide Mul, MixByte, UnmixByte, Xor4;
    MixSingle(a);
    UnmixOfMultiples(a, Mul(a, 2), Mul(a, 3), Mul(a, 1));
  }

  lemma SingleBackward(a: bv8)
    ensures UnmixedThenMixed(a, 0, 0, 0) == a && UnmixedThenMixed(0, a, 0, 0) == 0
    ensures UnmixedThenMixed(0, 0, a, 0) == 0 && UnmixedThenMixed(0, 0, 0, a) == 0
  {
    hide Mul, MixByte, UnmixByte, Xor4;
    UnmixSingle(a);
    assert UnmixedThenMixed(a, 0, 0, 0) == MixByte(Mul(a, 0x0E), Mul(a, 0x09), Mul(a, 0x0D), Mul(a, 0x0B));
    assert UnmixedThenMixed(0, a, 0, 0) == MixByte(Mul(a, 0x0B), Mul(a, 0x0E), Mul(a, 0x09), Mul(a, 0x0D));
    assert UnmixedThenMixed(0, 0, a, 0) == MixByte(Mul(a, 0x0D), Mul(a, 0x0B), Mul(a, 0x0E), Mul(a, 0x09));
    assert UnmixedThenMixed(0, 0, 0, a) == MixByte(Mul(a, 0x09), Mul(a, 0x0D), Mul(a, 0x0B), Mul(a, 0x0E));
    MixScales(a, 0x0E, 0x09, 0x0D, 0x0B);
    MixScales(a, 0x0B, 0x0E, 0x09, 0x0D);
    MixScales(a, 0x0D, 0x0B, 0x0E, 0x09);
    MixScales(a, 0x09, 0x0D, 0x0B, 0x0E);
    MixCoefficients();
    SmallMultiples(a);
    TimesZero(a);
  }

  lemma MixInverts(a: bv8, b: bv8, c: bv8, d: bv8)
    ensures MixedThenUnmixed(a, b, c, d) == a && UnmixedThenMixed(a, b, c, d) == a
  {
    XorZero(a);
    XorZero(b);
    XorZero(c);
    XorZero(d);
    XorZero(0);
    BothAdd(a, 0, 0, 0, 0, b, c, d);
    BothAdd(0, b, 0, 0, 0, 0, c, d);
    BothAdd(0, 0, c, 0, 0, 0, 0, d);
    SingleForward(a);
    SingleForward(b);
    SingleForward(c);
    SingleForward(d);
    SingleBackward(a);
    SingleBackward(b);
    SingleBackward(c);
    SingleBackward(d);
  }
}
