// The cipher byte by byte, as FIPS-197 writes it: the substitution box in bits, a round in bytes, and the whole run of
// rounds that encryption is.
module Standard {
  import opened Bytes
  import opened GaloisField
  import opened Field
  import opened Mix
  import opened State
  import opened Rijndael

  // ---- the substitution box (section 5.1.1)

  predicate On(b: bv8, mask: bv8) { b & mask != 0 }

  predicate Odd(a: bool, b: bool, c: bool, d: bool, e: bool) {
    (((a != b) != c) != d) != e
  }

  // Bits i, i + 4, i + 5, i + 6 and i + 7 of a byte, around the end, for the mask of bit i
  predicate FiveBits(b: bv8, mask: bv8) {
    Odd(On(b, mask), On(b, mask.RotateLeft(4)), On(b, mask.RotateLeft(5)), On(b, mask.RotateLeft(6)),
        On(b, mask.RotateLeft(7)))
  }

  lemma LowBits(b: bv8)
    ensures On(Affine(b), 0x01) == !FiveBits(b, 0x01) && On(Affine(b), 0x02) == !FiveBits(b, 0x02)
    ensures On(Affine(b), 0x04) == FiveBits(b, 0x04) && On(Affine(b), 0x08) == FiveBits(b, 0x08)
  {}

  lemma HighBits(b: bv8)
    ensures On(Affine(b), 0x10) == FiveBits(b, 0x10) && On(Affine(b), 0x20) == !FiveBits(b, 0x20)
    ensures On(Affine(b), 0x40) == !FiveBits(b, 0x40) && On(Affine(b), 0x80) == FiveBits(b, 0x80)
  {}

  lemma AffineBits(b: bv8, mask: bv8)
    requires mask in BITS
    ensures On(Affine(b), mask) == (FiveBits(b, mask) != On(0x63, mask))
  {
    hide Affine, FiveBits;
    LowBits(b);
    HighBits(b);
  }

  // Each bit of an entry is that of five bits of whatever byte inverts its index (zero for zero), and of 0x63.
  lemma SBoxBits(b: bv8, inverse: bv8, mask: bv8)
    requires (b == 0 && inverse == 0) || Mul(b, inverse) == 1
    requires mask in BITS
    ensures On(SBOX[b as int], mask) == (FiveBits(inverse, mask) != On(0x63, mask))
  {
    hide Affine, Inverse, Mul, On, FiveBits;
    ThereAndBack(b);
    if Mul(b, inverse) == 1 {
      InverseUnique(b, inverse);
    } else {
      InverseZero();
    }
    AffineBits(inverse, mask);
  }

  // ---- a round (sections 5.1.1 to 5.1.4)

  // The byte of a row and column after substituting and shifting rows
  function Moved(s: Block, row: nat, column: nat): bv8
    requires row < 4 && column < 4
  {
    SBOX[s[(column + row) % 4 * 4 + row] as int]
  }

  // The byte of a row and column after a round
  function RoundByte(s: Block, key: Block, row: nat, column: nat): bv8
    requires row < 4 && column < 4
  {
    Xor(Xor4(Mul(2, Moved(s, row, column)), Mul(3, Moved(s, (row + 1) % 4, column)), Moved(s, (row + 2) % 4, column),
             Moved(s, (row + 3) % 4, column)),
        key[4 * column + row])
  }

  lemma MovedBytes(s: Block, row: nat, column: nat)
    requires row < 4 && column < 4
    ensures SubShift(s)[4 * column + row] == Moved(s, row, column)
  {
    hide ShiftedFrom, SBOX, SBoxTable;
    ShiftedAt(column, row);
  }

  lemma MixByteBytes(a: bv8, b: bv8, c: bv8, d: bv8)
    ensures MixByte(a, b, c, d) == Xor4(Mul(2, a), Mul(3, b), c, d)
  {
    SmallMultiples(a);
    SmallMultiples(b);
  }

  lemma MixColumnByte(a: Word, row: nat)
    requires row < 4
    ensures MixColumn(a)[row] == Xor4(Mul(2, a[row]), Mul(3, a[(row + 1) % 4]), a[(row + 2) % 4], a[(row + 3) % 4])
  {
    hide Mul, MixByte, Xor4, MixColumn;
    MixColumnBytes(a);
    MixByteBytes(a[row], a[(row + 1) % 4], a[(row + 2) % 4], a[(row + 3) % 4]);
  }

  lemma RoundBytes(s: Block, key: Block, i: nat)
    requires i < 16
    ensures EncryptRound(s, key)[i] == RoundByte(s, key, i % 4, i / 4)
  {
    hide SubShift, Mul, Xor4, Moved, MixColumn;
    var row, column := i % 4, i / 4;
    var mixed := Column(SubShift(s), column);
    forall k | 0 <= k < 4 ensures mixed[k] == Moved(s, k, column) {
      MovedBytes(s, k, column);
    }
    MixColumnByte(mixed, row);
  }

  // ---- the cipher (section 5.1)

  ghost predicate RoundFollows(before: Block, key: Block, after: Block) {
    forall i :: 0 <= i < 16 ==> after[i] == RoundByte(before, key, i % 4, i / 4)
  }

  // The states of a run: the block under the first round key, and then one for each round but the last
  ghost predicate IsRun(ks: KeySchedule, block: Block, states: seq<Block>)
    requires ks.Valid() && 1 <= ks.rounds <= 11
  {
    && |states| == ks.rounds
    && (forall i :: 0 <= i < 16 ==> states[0][i] == Xor(block[i], ks.roundKeys[0][i]))
    && (forall n :: 1 <= n < ks.rounds ==> RoundFollows(states[n - 1], ks.roundKeys[n], states[n]))
  }

  // Encryption is such a run, and a last round that mixes no columns.
  lemma EncryptIsStandard(ks: KeySchedule, block: Block) returns (states: seq<Block>)
    requires ks.Valid() && 1 <= ks.rounds <= 11
    ensures IsRun(ks, block, states)
    ensures var last, key := states[ks.rounds - 1], ks.roundKeys[ks.rounds];
      forall i :: 0 <= i < 16 ==> Encrypt(ks, block)[i] == Xor(Moved(last, i % 4, i / 4), key[i])
  {
    hide RoundByte, SubShift, EncryptRound, Moved;
    var start := XorBlock(block, ks.roundKeys[0]);
    states := seq(ks.rounds, n requires 0 <= n < ks.rounds => EncryptRounds(ks, start, n));
    forall n | 1 <= n < ks.rounds ensures RoundFollows(states[n - 1], ks.roundKeys[n], states[n]) {
      forall i | 0 <= i < 16 ensures states[n][i] == RoundByte(states[n - 1], ks.roundKeys[n], i % 4, i / 4) {
        RoundBytes(states[n - 1], ks.roundKeys[n], i);
      }
    }
    var last := states[ks.rounds - 1];
    forall i | 0 <= i < 16 ensures SubShift(last)[i] == Moved(last, i % 4, i / 4) {
      MovedBytes(last, i % 4, i / 4);
    }
  }
}
