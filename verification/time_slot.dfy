// The time-slot key of version 6 and the check of the tag made with it.
module TimeSlot {
  import opened Prelude

  const TIME_C1: nat := 0x22_8168_89BD
  const TIME_C2: nat := 0x20_8CBA_B5ED
  const TIME_C3: nat := 0x3156_CD5A_C628_477A
  const TAG_LEN: nat := 16
  const DIGEST_LEN: nat := 32
  const WORD: nat := 0x1_0000_0000_0000_0000

  type U64 = n: nat | n < 0x1_0000_0000_0000_0000

  type Byte = n: nat | n < 256

  type Bytes = seq<Byte>

  type Digest = s: Bytes | |s| == DIGEST_LEN witness Zeros(DIGEST_LEN)

  type Tag = s: Bytes | |s| == TAG_LEN witness Zeros(TAG_LEN)

  function Zeros(n: nat): Bytes { seq(n, _ => 0) }

  datatype SlotOffset = Previous | Current | Next

  function WrappingAdd(a: U64, b: U64): U64 { (a + b) % WORD }

  function WrappingMul(a: U64, b: U64): U64 { Wrapped(a * b) }

  function Wrapped(n: nat): U64 { n % WORD }

  function TickAdjustment(offset: SlotOffset): U64 {
    match offset
    case Previous => WORD - TIME_C1
    case Current => 0
    case Next => TIME_C1
  }

  function SlotNumber(ticks: U64): U64 { ticks / TIME_C1 }

  function Slot(ticks: U64, offset: SlotOffset): U64 {
    WrappingAdd(WrappingAdd(WrappingMul(SlotNumber(ticks), TIME_C2), TIME_C3), TickAdjustment(offset))
  }

  // ---- the arithmetic

  // What is left of the word above any slot number times TIME_C2 is more than four times TIME_C1.
  lemma SlotNumberBound(ticks: U64)
    ensures SlotNumber(ticks) * TIME_C2 + 4 * TIME_C1 < WORD
  {
    var q := SlotNumber(ticks);
    assert q * TIME_C1 <= ticks;
    assert q <= (WORD - 1) / TIME_C1;
  }

  // The multiplication never wraps.
  lemma MultiplicationExact(ticks: U64)
    ensures WrappingMul(SlotNumber(ticks), TIME_C2) == SlotNumber(ticks) * TIME_C2
  {
    SlotNumberBound(ticks);
  }

  // The adjustment, signed
  function Shift(offset: SlotOffset): int {
    match offset
    case Previous => 0 - TIME_C1
    case Current => 0
    case Next => TIME_C1
  }

  lemma SlotIsResidue(ticks: U64, offset: SlotOffset)
    ensures Slot(ticks, offset) == (SlotNumber(ticks) * TIME_C2 + TIME_C3 + Shift(offset)) % WORD
  {
    hide SlotNumber;
    MultiplicationExact(ticks);
  }

  // The slot value in plain arithmetic, with the numbers of version 6
  lemma SlotIsFormula(ticks: U64, offset: SlotOffset)
    ensures Slot(ticks, offset) == (ticks / 148_199_999_933 * 139_799_999_981 + 3_555_254_745_610_864_506
      + match offset case Previous => -148_199_999_933 case Current => 0 case Next => 148_199_999_933)
      % 18_446_744_073_709_551_616
  {
    SlotIsResidue(ticks, offset);
  }

  // Numbers that are one word apart or nearer have one residue only when they are equal or a whole word apart.
  lemma SameResidue(a: int, b: int)
    requires a - b < WORD && b - a < WORD
    ensures a % WORD == b % WORD <==> a == b
  {
    var m, n := a / WORD, b / WORD;
    assert a == m * WORD + a % WORD && b == n * WORD + b % WORD;
  }

  // No multiple of TIME_C2 makes up the difference of two adjustments but none.
  lemma NoMultiple(d: int, x: SlotOffset, y: SlotOffset)
    requires d * TIME_C2 + Shift(x) == Shift(y)
    ensures d == 0 && x == y
  {
    assert -3 < d < 3;
  }

  // Two slot values agree just when both the offsets and the slot numbers do. So the values of one offset tell
  // slot numbers apart, and no value of Previous or Next is a value of Current for any timestamp at all.
  lemma SlotsAgreeIff(t: U64, x: SlotOffset, u: U64, y: SlotOffset)
    ensures Slot(t, x) == Slot(u, y) <==> SlotNumber(t) == SlotNumber(u) && x == y
  {
    hide SlotNumber, Slot;
    SlotIsResidue(t, x);
    SlotIsResidue(u, y);
    SlotNumberBound(t);
    SlotNumberBound(u);
    var m, n := SlotNumber(t), SlotNumber(u);
    SameResidue(m * TIME_C2 + TIME_C3 + Shift(x), n * TIME_C2 + TIME_C3 + Shift(y));
    if Slot(t, x) == Slot(u, y) {
      assert (m - n) * TIME_C2 == m * TIME_C2 - n * TIME_C2;
      NoMultiple(m - n, x, y);
    }
  }

  // ---- the tag, over any two hash functions

  datatype Hashes = Hashes(sha256: Bytes -> Digest, hmacSha256: (Bytes, Bytes) -> Digest)

  function LastHalf(digest: Digest): Tag { digest[DIGEST_LEN - TAG_LEN..] }

  function LittleEndian(x: nat, n: nat): Bytes {
    if n == 0 then [] else [x % 256] + LittleEndian(x / 256, n - 1)
  }

  function Power(n: nat): nat { if n == 0 then 1 else 256 * Power(n - 1) }

  function Value(s: Bytes): nat { if s == [] then 0 else s[0] + 256 * Value(s[1..]) }

  lemma {:induction false} ValueOfLittleEndian(x: nat, n: nat)
    requires x < Power(n)
    ensures |LittleEndian(x, n)| == n && Value(LittleEndian(x, n)) == x
  {
    if n > 0 {
      ValueOfLittleEndian(x / 256, n - 1);
      assert LittleEndian(x, n)[1..] == LittleEndian(x / 256, n - 1);
    }
  }

  lemma PowerEight()
    ensures Power(8) == WORD
  {
    assert Power(4) == 0x1_0000_0000;
    assert Power(6) == 256 * 256 * Power(4);
  }

  // Eight bytes as a number, the lowest first
  function Word(s: seq<int>): int
    requires |s| == 8
  {
    s[0] + 0x100 * s[1] + 0x1_0000 * s[2] + 0x100_0000 * s[3] + 0x1_0000_0000 * s[4] + 0x100_0000_0000 * s[5]
    + 0x1_0000_0000_0000 * s[6] + 0x100_0000_0000_0000 * s[7]
  }

  lemma ValueOfEight(s: Bytes)
    requires |s| == 8
    ensures Value(s) == Word(s)
  {
    assert s[7..][1..] == [] && Value(s[7..]) == s[7] && s[0..] == s;
    ValueFrom(s, 6);
    ValueFrom(s, 5);
    ValueFrom(s, 4);
    ValueFrom(s, 3);
    ValueFrom(s, 2);
    ValueFrom(s, 1);
    ValueFrom(s, 0);
  }

  lemma ValueFrom(s: Bytes, k: nat)
    requires k < |s|
    ensures Value(s[k..]) == s[k] + 256 * Value(s[k + 1..])
  {
    assert s[k..][1..] == s[k + 1..];
  }

  function SlotKey(h: Hashes, slot: U64): Tag {
    LastHalf(h.sha256(LittleEndian(slot, 8)))
  }

  function SlotTag(h: Hashes, slot: U64, message: Bytes): Tag {
    LastHalf(h.hmacSha256(SlotKey(h, slot), message))
  }

  function TagOf(h: Hashes, ticks: U64, offset: SlotOffset, message: Bytes): Tag {
    SlotTag(h, Slot(ticks, offset), message)
  }

  // The key is the second half of the hash of the slot's eight bytes, lowest first; the tag is the second half of the
  // keyed hash of the message.
  lemma TagBytes(h: Hashes, ticks: U64, offset: SlotOffset, message: Bytes) returns (slot: Bytes, key: Bytes)
    ensures |slot| == 8 && Word(slot) == Slot(ticks, offset)
    ensures |key| == 16 && forall j :: 0 <= j < 16 ==> key[j] == h.sha256(slot)[16 + j]
    ensures forall j :: 0 <= j < 16 ==> TagOf(h, ticks, offset, message)[j] == h.hmacSha256(key, message)[16 + j]
  {
    hide Slot, LittleEndian, Value, Power;
    slot, key := LittleEndian(Slot(ticks, offset), 8), SlotKey(h, Slot(ticks, offset));
    PowerEight();
    ValueOfLittleEndian(Slot(ticks, offset), 8);
    ValueOfEight(slot);
  }

  const ALL: seq<SlotOffset> := [Previous, Current, Next]

  method Verify(h: Hashes, ticks: U64, message: Bytes, candidate: Tag) returns (matched: Option<SlotOffset>)
    ensures matched == Verified(h, ticks, message, candidate)
    ensures matched == Some(Previous) <==> TagOf(h, ticks, Previous, message) == candidate
    ensures matched == Some(Current) <==>
      TagOf(h, ticks, Previous, message) != candidate == TagOf(h, ticks, Current, message)
  {
    hide TagOf;
    assert |ALL| == 3 && ALL[0] == Previous && ALL[1] == Current && ALL[2] == Next;
    for i := 0 to |ALL|
      invariant forall j :: 0 <= j < i ==> TagOf(h, ticks, ALL[j], message) != candidate
    {
      if TagOf(h, ticks, ALL[i], message) == candidate {
        return Some(ALL[i]);
      }
    }
    matched := None;
  }

  function Verified(h: Hashes, ticks: U64, message: Bytes, candidate: Tag): Option<SlotOffset> {
    if TagOf(h, ticks, Previous, message) == candidate then Some(Previous)
    else if TagOf(h, ticks, Current, message) == candidate then Some(Current)
    else if TagOf(h, ticks, Next, message) == candidate then Some(Next)
    else None
  }

  // A candidate is accepted just when it is the tag of one of the three offsets, and the offset named is one it is of.
  lemma AcceptsExactly(h: Hashes, ticks: U64, message: Bytes, candidate: Tag)
    ensures Verified(h, ticks, message, candidate).Some?
      <==> exists offset :: candidate == TagOf(h, ticks, offset, message)
    ensures var v := Verified(h, ticks, message, candidate);
      v.Some? ==> candidate == TagOf(h, ticks, v.value, message)
  {
    hide TagOf;
    if offset :| candidate == TagOf(h, ticks, offset, message) {
      match offset
      case Previous =>
      case Current =>
      case Next =>
    }
  }

  // None of the three slots tried has the tag of another slot.
  ghost predicate NoCollision(h: Hashes, made: U64, offset: SlotOffset, checked: U64, message: Bytes) {
    forall tried: SlotOffset :: TagOf(h, checked, tried, message) == TagOf(h, made, offset, message)
      ==> Slot(checked, tried) == Slot(made, offset)
  }

  // Short of a collision the two further offsets rescue nothing: a tag made in another slot is refused, the slot
  // next door included, and one made in this slot is taken for what it is. And only then.
  lemma RetriesRescueNothing(h: Hashes, made: U64, offset: SlotOffset, checked: U64, message: Bytes)
    ensures NoCollision(h, made, offset, checked, message) ==>
      (Verified(h, checked, message, TagOf(h, made, offset, message))
        == if SlotNumber(made) == SlotNumber(checked) then Some(offset) else None)
    ensures SlotNumber(made) != SlotNumber(checked) ==>
      var verified := Verified(h, checked, message, TagOf(h, made, offset, message));
      verified.None? <==> NoCollision(h, made, offset, checked, message)
  {
    hide Slot, SlotNumber, SlotTag, TagOf;
    forall tried: SlotOffset
      ensures Slot(checked, tried) == Slot(made, offset) <==> SlotNumber(checked) == SlotNumber(made) && tried == offset
    {
      SlotsAgreeIff(checked, tried, made, offset);
    }
    forall tried: SlotOffset | Verified(h, checked, message, TagOf(h, made, offset, message)).None?
      ensures TagOf(h, checked, tried, message) != TagOf(h, made, offset, message)
    {
      match tried
      case Previous =>
      case Current =>
      case Next =>
    }
    SlotTagOfSlot(h, checked, made, offset, message);
  }

  lemma SlotTagOfSlot(h: Hashes, checked: U64, made: U64, offset: SlotOffset, message: Bytes)
    ensures Slot(checked, offset) == Slot(made, offset) ==>
      TagOf(h, checked, offset, message) == TagOf(h, made, offset, message)
  {}

  // Different slots are hashed from different bytes.
  lemma SlotsHashedApart(a: U64, b: U64)
    requires LittleEndian(a, 8) == LittleEndian(b, 8)
    ensures a == b
  {
    PowerEight();
    ValueOfLittleEndian(a, 8);
    ValueOfLittleEndian(b, 8);
  }
}
