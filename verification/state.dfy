// The cipher state: the substitution boxes, the four steps of a round, and the inverse of each.
module State {
  import opened Bytes
  import opened GaloisField
  import opened Field
  import opened Mix

  type Block = b: seq<bv8> | |b| == 16 witness seq(16, _ => 0)
  type Word = w: seq<bv8> | |w| == 4 witness seq(4, _ => 0)
  type Table = t: seq<bv8> | |t| == 256 witness seq(256, _ => 0)

  // ---- substitution box

  function Affine(i: bv8): bv8 {
    i ^ i.RotateLeft(1) ^ i.RotateLeft(2) ^ i.RotateLeft(3) ^ i.RotateLeft(4) ^ 0x63
  }

  function InverseAffine(y: bv8): bv8 {
    y.RotateLeft(1) ^ y.RotateLeft(3) ^ y.RotateLeft(6) ^ 0x05
  }

  lemma AffineInverts(i: bv8)
    ensures InverseAffine(Affine(i)) == i && Affine(InverseAffine(i)) == i
  {}

  function SBoxByte(b: bv8): bv8 { Affine(Inverse(b)) }

  function InverseSBoxByte(b: bv8): bv8 { Inverse(InverseAffine(b)) }

  lemma SBoxInverts(b: bv8)
    ensures InverseSBoxByte(SBoxByte(b)) == b && SBoxByte(InverseSBoxByte(b)) == b
  {
    AffineInverts(Inverse(b));
    AffineInverts(b);
    InverseInvolutive(b);
    InverseInvolutive(InverseAffine(b));
  }

  function SBoxTable(): Table {
    seq(256, i requires 0 <= i < 256 => SBoxByte(i as bv8))
  }

  function InverseSBoxTable(): Table {
    seq(256, i requires 0 <= i < 256 => InverseSBoxByte(i as bv8))
  }

  const SBOX: Table := SBoxTable()
  const INVERSE_SBOX: Table := InverseSBoxTable()

  method BuildSbox() returns (table: array<bv8>)
    ensures fresh(table) && table[..] == SBOX
  {
    hide Affine, Inverse;
    table := new bv8[256](_ => 0);
    var index := 0;
    while index < 256
      invariant 0 <= index <= 256
      invariant forall k :: 0 <= k < index ==> table[k] == SBOX[k]
    {
      var inverse := GfInverse(index as bv8);
      table[index] := Affine(inverse);
      index := index + 1;
    }
  }

  // forward[k] ↦ k for the first n indices; a later index wins.
  function Inverted(forward: Table, n: nat): Table
    requires n <= 256
  {
    if n == 0 then seq(256, _ => 0)
    else Inverted(forward, n - 1)[forward[n - 1] as int := (n - 1) as bv8]
  }

  function InvertedTable(forward: Table): Table {
    Inverted(forward, |forward|)
  }

  method InvertPermutation(forward: array<bv8>) returns (table: array<bv8>)
    requires forward.Length == 256
    ensures fresh(table) && table[..] == InvertedTable(forward[..])
  {
    table := new bv8[256](_ => 0);
    var index := 0;
    while index < forward.Length
      invariant 0 <= index <= forward.Length
      invariant table[..] == Inverted(forward[..], index)
    {
      table[forward[index] as int] := index as bv8;
      index := index + 1;
    }
  }

  lemma DistinctIndices(a: bv8, b: bv8)
    requires a != b
    ensures a as int != b as int
  {
    assert (a as int) as bv8 == a && (b as int) as bv8 == b;
  }

  lemma {:induction false} InvertedAt(forward: Table, n: nat, k: nat)
    requires k < n <= 256
    requires forall i, j :: 0 <= i < j < 256 ==> forward[i] != forward[j]
    ensures Inverted(forward, n)[forward[k] as int] == k as bv8
  {
    if k < n - 1 {
      InvertedAt(forward, n - 1, k);
      DistinctIndices(forward[k], forward[n - 1]);
    }
  }

  lemma SBoxIsPermutation()
    ensures forall i, j :: 0 <= i < j < 256 ==> SBOX[i] != SBOX[j]
  {
    forall i, j | 0 <= i < j < 256 ensures SBOX[i] != SBOX[j] {
      SBoxInverts(i as bv8);
      SBoxInverts(j as bv8);
      ByteIndex(i);
      ByteIndex(j);
    }
  }

  lemma InvertedTableAt(forward: Table, k: nat)
    requires k < 256
    requires forall i, j :: 0 <= i < j < 256 ==> forward[i] != forward[j]
    ensures InvertedTable(forward)[forward[k] as int] == k as bv8
  {
    InvertedAt(forward, |forward|, k);
  }

  // The table built from SBOX is the inverse box, at every byte.
  lemma InvertedSBox()
    ensures InvertedTable(SBOX) == INVERSE_SBOX
  {
    hide InvertedTable, SBoxByte, InverseSBoxByte;
    SBoxIsPermutation();
    forall y | 0 <= y < 256 ensures InvertedTable(SBOX)[y] == INVERSE_SBOX[y] {
      InvertedSBoxAt(y as bv8);
      ByteIndex(y);
    }
  }

  lemma InvertedSBoxAt(y: bv8)
    requires forall i, j :: 0 <= i < j < 256 ==> SBOX[i] != SBOX[j]
    ensures InvertedTable(SBOX)[y as int] == INVERSE_SBOX[y as int]
  {
    hide InvertedTable, SBoxByte, InverseSBoxByte;
    var x := INVERSE_SBOX[y as int];
    SBoxInverts(y);
    InvertedTableAt(SBOX, x as int);
    assert (x as int) as bv8 == x;
  }

  // ---- the four steps of a round

  function XorBlock(a: Block, b: Block): Block {
    seq(16, i requires 0 <= i < 16 => Xor(a[i], b[i]))
  }

  function SubstituteBlock(s: Block, table: Table): Block {
    seq(16, i requires 0 <= i < 16 => table[s[i] as int])
  }

  // Byte 4c + r is row r of column c.
  function ShiftedFrom(index: nat): (from: nat)
    requires index < 16
    ensures from < 16
  {
    var row, column := index % 4, index / 4;
    (column + row) % 4 * 4 + row
  }

  function UnshiftedFrom(index: nat): (from: nat)
    requires index < 16
    ensures from < 16
  {
    var row, column := index % 4, index / 4;
    (column + 4 - row) % 4 * 4 + row
  }

  function ShiftRows(s: Block): Block {
    seq(16, i requires 0 <= i < 16 => s[ShiftedFrom(i)])
  }

  function InverseShiftRows(s: Block): Block {
    seq(16, i requires 0 <= i < 16 => s[UnshiftedFrom(i)])
  }

  function MixColumn(a: Word): Word {
    [ Xor4(XTime(a[0]), Xor(XTime(a[1]), a[1]), a[2], a[3]),
      Xor4(a[0], XTime(a[1]), Xor(XTime(a[2]), a[2]), a[3]),
      Xor4(a[0], a[1], XTime(a[2]), Xor(XTime(a[3]), a[3])),
      Xor4(Xor(XTime(a[0]), a[0]), a[1], a[2], XTime(a[3])) ]
  }

  function InverseMixColumn(a: Word): Word {
    [ Xor4(Mul(a[0], 0x0E), Mul(a[1], 0x0B), Mul(a[2], 0x0D), Mul(a[3], 0x09)),
      Xor4(Mul(a[0], 0x09), Mul(a[1], 0x0E), Mul(a[2], 0x0B), Mul(a[3], 0x0D)),
      Xor4(Mul(a[0], 0x0D), Mul(a[1], 0x09), Mul(a[2], 0x0E), Mul(a[3], 0x0B)),
      Xor4(Mul(a[0], 0x0B), Mul(a[1], 0x0D), Mul(a[2], 0x09), Mul(a[3], 0x0E)) ]
  }

  function Column(s: Block, k: nat): Word
    requires k < 4
  {
    s[4 * k..4 * k + 4]
  }

  function MixColumns(s: Block): Block {
    seq(16, i requires 0 <= i < 16 => MixColumn(Column(s, i / 4))[i % 4])
  }

  function InverseMixColumns(s: Block): Block {
    seq(16, i requires 0 <= i < 16 => InverseMixColumn(Column(s, i / 4))[i % 4])
  }

  lemma MixColumnBytes(a: Word)
    ensures MixColumn(a) == [MixByte(a[0], a[1], a[2], a[3]), MixByte(a[1], a[2], a[3], a[0]),
                             MixByte(a[2], a[3], a[0], a[1]), MixByte(a[3], a[0], a[1], a[2])]
  {
    Xor4Rotates(a[0], XTime(a[1]), Xor(XTime(a[2]), a[2]), a[3]);
    Xor4Rotates(a[0], a[1], XTime(a[2]), Xor(XTime(a[3]), a[3]));
    Xor4Rotates(a[1], XTime(a[2]), Xor(XTime(a[3]), a[3]), a[0]);
    Xor4Rotates(XTime(a[3]), Xor(XTime(a[0]), a[0]), a[1], a[2]);
  }

  lemma InverseMixColumnBytes(a: Word)
    ensures InverseMixColumn(a) == [UnmixByte(a[0], a[1], a[2], a[3]), UnmixByte(a[1], a[2], a[3], a[0]),
                                    UnmixByte(a[2], a[3], a[0], a[1]), UnmixByte(a[3], a[0], a[1], a[2])]
  {
    Xor4Rotates(Mul(a[0], 0x09), Mul(a[1], 0x0E), Mul(a[2], 0x0B), Mul(a[3], 0x0D));
    Xor4Rotates(Mul(a[0], 0x0D), Mul(a[1], 0x09), Mul(a[2], 0x0E), Mul(a[3], 0x0B));
    Xor4Rotates(Mul(a[1], 0x09), Mul(a[2], 0x0E), Mul(a[3], 0x0B), Mul(a[0], 0x0D));
    Xor4Rotates(Mul(a[3], 0x0E), Mul(a[0], 0x0B), Mul(a[1], 0x0D), Mul(a[2], 0x09));
  }

  lemma FourBytes(a: Word, b0: bv8, b1: bv8, b2: bv8, b3: bv8)
    requires b0 == a[0] && b1 == a[1] && b2 == a[2] && b3 == a[3]
    ensures [b0, b1, b2, b3] == a
  {}

  lemma MixColumnInverts(a: Word)
    ensures InverseMixColumn(MixColumn(a)) == a && MixColumn(InverseMixColumn(a)) == a
  {
    var m, u := MixColumn(a), InverseMixColumn(a);
    MixColumnBytes(a);
    InverseMixColumnBytes(m);
    InverseMixColumnBytes(a);
    MixColumnBytes(u);
    MixInverts(a[0], a[1], a[2], a[3]);
    MixInverts(a[1], a[2], a[3], a[0]);
    MixInverts(a[2], a[3], a[0], a[1]);
    MixInverts(a[3], a[0], a[1], a[2]);
    FourBytes(a, UnmixByte(m[0], m[1], m[2], m[3]), UnmixByte(m[1], m[2], m[3], m[0]),
              UnmixByte(m[2], m[3], m[0], m[1]), UnmixByte(m[3], m[0], m[1], m[2]));
    FourBytes(a, MixByte(u[0], u[1], u[2], u[3]), MixByte(u[1], u[2], u[3], u[0]),
              MixByte(u[2], u[3], u[0], u[1]), MixByte(u[3], u[0], u[1], u[2]));
  }

  lemma ColumnByte(k: nat, j: nat)
    requires j < 4
    ensures (4 * k + j) / 4 == k && (4 * k + j) % 4 == j
  {}

  lemma MixColumnsAt(s: Block, k: nat)
    requires k < 4
    ensures Column(MixColumns(s), k) == MixColumn(Column(s, k))
  {
    hide MixColumn;
    var w := MixColumn(Column(s, k));
    forall j | 0 <= j < 4 ensures MixColumns(s)[4 * k + j] == w[j] {
      ColumnByte(k, j);
    }
  }

  lemma InverseMixColumnsAt(s: Block, k: nat)
    requires k < 4
    ensures Column(InverseMixColumns(s), k) == InverseMixColumn(Column(s, k))
  {
    hide InverseMixColumn;
    var w := InverseMixColumn(Column(s, k));
    forall j | 0 <= j < 4 ensures InverseMixColumns(s)[4 * k + j] == w[j] {
      ColumnByte(k, j);
    }
  }

  lemma SameColumns(s: Block, t: Block)
    requires forall k :: 0 <= k < 4 ==> Column(s, k) == Column(t, k)
    ensures s == t
  {
    forall i | 0 <= i < 16 ensures s[i] == t[i] {
      assert s[i] == Column(s, i / 4)[i % 4] && t[i] == Column(t, i / 4)[i % 4];
    }
  }

  lemma MixColumnsInverts(s: Block)
    ensures InverseMixColumns(MixColumns(s)) == s && MixColumns(InverseMixColumns(s)) == s
  {
    forall k | 0 <= k < 4
      ensures Column(InverseMixColumns(MixColumns(s)), k) == Column(s, k)
      ensures Column(MixColumns(InverseMixColumns(s)), k) == Column(s, k)
    {
      MixColumnsAt(s, k);
      InverseMixColumnsAt(MixColumns(s), k);
      InverseMixColumnsAt(s, k);
      MixColumnsAt(InverseMixColumns(s), k);
      MixColumnInverts(Column(s, k));
    }
    SameColumns(InverseMixColumns(MixColumns(s)), s);
    SameColumns(MixColumns(InverseMixColumns(s)), s);
  }

  lemma RotateInverts(column: nat, row: nat)
    requires column < 4 && row < 4
    ensures ((column + row) % 4 + 4 - row) % 4 == column && ((column + 4 - row) % 4 + row) % 4 == column
  {}

  lemma PositionParts(column: nat, row: nat)
    requires row < 4
    ensures (column * 4 + row) / 4 == column && (column * 4 + row) % 4 == row
  {}

  lemma ShiftedAt(column: nat, row: nat)
    requires column < 4 && row < 4
    ensures ShiftedFrom(column * 4 + row) == (column + row) % 4 * 4 + row
    ensures UnshiftedFrom(column * 4 + row) == (column + 4 - row) % 4 * 4 + row
  {
    PositionParts(column, row);
  }

  lemma ShiftInverts(index: nat)
    requires index < 16
    ensures ShiftedFrom(UnshiftedFrom(index)) == index && UnshiftedFrom(ShiftedFrom(index)) == index
  {
    hide ShiftedFrom, UnshiftedFrom;
    var column, row := index / 4, index % 4;
    ShiftedAt(column, row);
    ShiftedAt((column + row) % 4, row);
    ShiftedAt((column + 4 - row) % 4, row);
    RotateInverts(column, row);
  }

  lemma ShiftRowsInverts(s: Block)
    ensures InverseShiftRows(ShiftRows(s)) == s && ShiftRows(InverseShiftRows(s)) == s
  {
    forall i | 0 <= i < 16
      ensures InverseShiftRows(ShiftRows(s))[i] == s[i] && ShiftRows(InverseShiftRows(s))[i] == s[i]
    {
      ShiftInverts(i);
    }
  }

  lemma BoxesInvert(b: bv8)
    ensures INVERSE_SBOX[SBOX[b as int] as int] == b && SBOX[INVERSE_SBOX[b as int] as int] == b
  {
    hide SBoxByte, InverseSBoxByte;
    SBoxInverts(b);
    ThereAndBack(b);
    ThereAndBack(SBoxByte(b));
    ThereAndBack(InverseSBoxByte(b));
  }

  lemma SubstituteInverts(s: Block)
    ensures SubstituteBlock(SubstituteBlock(s, SBOX), INVERSE_SBOX) == s
    ensures SubstituteBlock(SubstituteBlock(s, INVERSE_SBOX), SBOX) == s
  {
    hide SBOX, INVERSE_SBOX, SBoxTable, InverseSBoxTable;
    forall i | 0 <= i < 16
      ensures INVERSE_SBOX[SBOX[s[i] as int] as int] == s[i]
      ensures SBOX[INVERSE_SBOX[s[i] as int] as int] == s[i]
    {
      BoxesInvert(s[i]);
    }
  }

  lemma XorBlockCancels(a: Block, b: Block)
    ensures XorBlock(XorBlock(a, b), b) == a
  {
    forall i | 0 <= i < 16 ensures Xor(Xor(a[i], b[i]), b[i]) == a[i] {
      XorCancels(a[i], b[i]);
    }
  }

  // ---- in place

  method AddRoundKey(state: array<bv8>, roundKey: Block)
    requires state.Length == 16
    modifies state
    ensures state[..] == XorBlock(old(state[..]), roundKey)
  {
    for i := 0 to 16
      invariant forall k :: 0 <= k < i ==> state[k] == Xor(old(state[k]), roundKey[k])
      invariant forall k :: i <= k < 16 ==> state[k] == old(state[k])
    {
      state[i] := Xor(state[i], roundKey[i]);
    }
  }

  method Substitute(state: array<bv8>, table: Table)
    requires state.Length == 16
    modifies state
    ensures state[..] == SubstituteBlock(old(state[..]), table)
  {
    for i := 0 to 16
      invariant forall k :: 0 <= k < i ==> state[k] == table[old(state[k]) as int]
      invariant forall k :: i <= k < 16 ==> state[k] == old(state[k])
    {
      state[i] := table[state[i] as int];
    }
  }

  method ShiftRowsInPlace(state: array<bv8>)
    requires state.Length == 16
    modifies state
    ensures state[..] == ShiftRows(old(state[..]))
  {
    var source := state[..];
    for index := 0 to 16
      invariant forall k :: 0 <= k < index ==> state[k] == ShiftRows(source)[k]
    {
      state[index] := source[ShiftedFrom(index)];
    }
  }

  method InverseShiftRowsInPlace(state: array<bv8>)
    requires state.Length == 16
    modifies state
    ensures state[..] == InverseShiftRows(old(state[..]))
  {
    var source := state[..];
    for index := 0 to 16
      invariant forall k :: 0 <= k < index ==> state[k] == InverseShiftRows(source)[k]
    {
      state[index] := source[UnshiftedFrom(index)];
    }
  }

  // s with its first c columns replaced by those of t
  function ColumnsFrom(s: Block, t: Block, c: nat): Block
    requires c <= 4
  {
    t[..4 * c] + s[4 * c..]
  }

  function WithColumn(s: Block, c: nat, w: Word): Block
    requires c < 4
  {
    s[..4 * c] + w + s[4 * c + 4..]
  }

  lemma NextColumn(s: Block, t: Block, c: nat)
    requires c < 4
    ensures Column(ColumnsFrom(s, t, c), c) == Column(s, c)
    ensures WithColumn(ColumnsFrom(s, t, c), c, Column(t, c)) == ColumnsFrom(s, t, c + 1)
  {}

  method PutColumn(state: array<bv8>, c: nat, w: Word)
    requires state.Length == 16 && c < 4
    modifies state
    ensures state[..] == WithColumn(old(state[..]), c, w)
  {
    state[4 * c] := w[0];
    state[4 * c + 1] := w[1];
    state[4 * c + 2] := w[2];
    state[4 * c + 3] := w[3];
  }

  method MixColumnsInPlace(state: array<bv8>)
    requires state.Length == 16
    modifies state
    ensures state[..] == MixColumns(old(state[..]))
  {
    ghost var was: Block := state[..];
    for c := 0 to 4
      invariant state[..] == ColumnsFrom(was, MixColumns(was), c)
    {
      MixColumnsAt(was, c);
      NextColumn(was, MixColumns(was), c);
      PutColumn(state, c, MixColumn(Column(state[..], c)));
    }
  }

  method InverseMixColumnsInPlace(state: array<bv8>)
    requires state.Length == 16
    modifies state
    ensures state[..] == InverseMixColumns(old(state[..]))
  {
    ghost var was: Block := state[..];
    for c := 0 to 4
      invariant state[..] == ColumnsFrom(was, InverseMixColumns(was), c)
    {
      InverseMixColumnsAt(was, c);
      NextColumn(was, InverseMixColumns(was), c);
      var column := UnmixColumn(Column(state[..], c));
      PutColumn(state, c, column);
    }
  }

  method UnmixColumn(a: Word) returns (w: Word)
    ensures w == InverseMixColumn(a)
  {
    var a0E, a0B, a0D, a09 := Multiples(a[0]);
    var a1E, a1B, a1D, a19 := Multiples(a[1]);
    var a2E, a2B, a2D, a29 := Multiples(a[2]);
    var a3E, a3B, a3D, a39 := Multiples(a[3]);
    w := [Xor4(a0E, a1B, a2D, a39), Xor4(a09, a1E, a2B, a3D), Xor4(a0D, a19, a2E, a3B), Xor4(a0B, a1D, a29, a3E)];
  }

  method Multiples(a: bv8) returns (e: bv8, b: bv8, d: bv8, n: bv8)
    ensures e == Mul(a, 0x0E) && b == Mul(a, 0x0B) && d == Mul(a, 0x0D) && n == Mul(a, 0x09)
  {
    e := GfMul(a, 0x0E);
    b := GfMul(a, 0x0B);
    d := GfMul(a, 0x0D);
    n := GfMul(a, 0x09);
  }
}
