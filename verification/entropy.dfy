// Uniform numbers by rejection, out of a stream of 32-bit words.
module Entropy {
  import opened Bits
  import opened Prelude

  const U32_MAX: nat := 0xFFFF_FFFF
  const WORDS: nat := 0x1_0000_0000

  type U32 = n: nat | n <= U32_MAX

  datatype EntropyUnavailable = EntropyUnavailable

  lemma Pow2Word()
    ensures Pow2(32) == WORDS
  {
    assert Pow2(8) == 256;
    Pow2Adds(8, 8);
    Pow2Adds(16, 16);
  }

  function BitLength(n: nat): nat {
    if n == 0 then 0 else 1 + BitLength(n / 2)
  }

  lemma {:induction false} BitLengthBounds(n: nat)
    ensures n < Pow2(BitLength(n))
    ensures n > 0 ==> Pow2(BitLength(n) - 1) <= n
  {
    if n > 0 {
      BitLengthBounds(n / 2);
    }
  }

  lemma BitLengthOfWord(n: U32)
    ensures BitLength(n) <= 32
  {
    Pow2Word();
    BitLengthBounds(n);
    if BitLength(n) > 32 {
      Pow2Grows(32, BitLength(n) - 1);
    }
  }

  function LeadingZeros(n: U32): nat
  {
    BitLengthOfWord(n);
    32 - BitLength(n)
  }

  // The mask a bound is drawn under
  function Mask(bound: U32): U32
    requires bound > 0
  {
    var significantBits := 32 - LeadingZeros(bound - 1);
    MaskFits(significantBits);
    if significantBits >= 32 then U32_MAX else Pow2(significantBits) - 1
  }

  lemma MaskFits(bits: nat)
    requires bits <= 32
    ensures Pow2(bits) <= WORDS
  {
    Pow2Word();
    Pow2Grows(bits, 32);
  }

  lemma MaskIsPower(bound: U32)
    requires bound > 0
    ensures Mask(bound) + 1 == Pow2(BitLength(bound - 1))
  {
    hide BitLength, Pow2;
    Pow2Word();
    BitLengthOfWord(bound - 1);
  }

  lemma MaskIsTight(bound: U32)
    requires bound > 0
    ensures Mask(bound) + 1 == Pow2(BitLength(bound - 1))
    ensures bound <= Mask(bound) + 1 < 2 * bound
  {
    hide BitLength, Mask;
    MaskIsPower(bound);
    BitLengthBounds(bound - 1);
    ZeroHasNoBits();
  }

  lemma ZeroHasNoBits()
    ensures BitLength(0) == 0
  {}

  // Masking is taking the remainder, which all that follows is stated with.
  lemma MaskingIsRemainder(word: U32, bound: U32)
    requires bound > 0
    ensures And(word, Mask(bound)) == word % (Mask(bound) + 1)
  {
    hide Mask;
    MaskIsPower(bound);
    AndOnes(word, BitLength(bound - 1));
  }

  predicate Accepted(word: U32, bound: U32)
    requires bound > 0
  {
    word % (Mask(bound) + 1) < bound
  }

  // Where the first accepted word stands, or the end
  function FirstAccepted(words: seq<U32>, from: nat, bound: U32): (at: nat)
    requires bound > 0 && from <= |words|
    ensures from <= at <= |words|
    ensures forall i :: from <= i < at ==> !Accepted(words[i], bound)
    ensures at < |words| ==> Accepted(words[at], bound)
    decreases |words| - from
  {
    if from == |words| || Accepted(words[from], bound) then from else FirstAccepted(words, from + 1, bound)
  }

  class Source {
    const words: seq<U32>
    var position: nat

    ghost predicate Valid()
      reads this
    {
      position <= |words|
    }

    constructor (words: seq<U32>)
      ensures Valid() && this.words == words && position == 0
    {
      this.words := words;
      position := 0;
    }

    method NextU32() returns (r: Result<U32, EntropyUnavailable>)
      requires Valid()
      modifies this
      ensures Valid()
      ensures old(position) < |words| ==> r == Ok(words[old(position)]) && position == old(position) + 1
      ensures old(position) == |words| ==> r == Err(EntropyUnavailable) && position == old(position)
    {
      if position == |words| {
        return Err(EntropyUnavailable);
      }
      r := Ok(words[position]);
      position := position + 1;
    }

    method UniformBelow(bound: U32) returns (r: Result<U32, EntropyUnavailable>)
      requires Valid() && bound > 0
      modifies this
      ensures Valid()
      ensures var at := FirstAccepted(words, old(position), bound);
        if at < |words| then r == Ok(words[at] % (Mask(bound) + 1)) && position == at + 1
        else r == Err(EntropyUnavailable) && position == |words|
      ensures r.Ok? ==> r.value < bound
    {
      var mask := Mask(bound);
      while true
        invariant Valid()
        invariant FirstAccepted(words, position, bound) == FirstAccepted(words, old(position), bound)
        decreases |words| - position
      {
        var word := NextU32();
        if word.Err? {
          return Err(EntropyUnavailable);
        }
        var candidate := And(word.value, mask);
        MaskingIsRemainder(word.value, bound);
        if candidate < bound {
          return Ok(candidate);
        }
      }
    }

    method UniformInInclusiveRange(low: U32, high: U32) returns (r: Result<U32, EntropyUnavailable>)
      requires Valid()
      modifies this
      ensures Valid()
      ensures high < low ==> r == Ok(low) && position == old(position)
      ensures low <= high ==>
        var bound := RangeBound(low, high);
        var at := FirstAccepted(words, old(position), bound);
        if at < |words| then r == Ok(low + words[at] % (Mask(bound) + 1)) && position == at + 1
        else r == Err(EntropyUnavailable) && position == |words|
      ensures r.Ok? && low <= high ==> low <= r.value <= high
    {
      if high < low {
        return Ok(low);
      }
      var bound := RangeBound(low, high);
      if bound == 0 {
        // A sum that wrapped would be zero for the range of all words; the saturating one never is.
        assert false;
      }
      var drawn := UniformBelow(bound);
      if drawn.Err? {
        return drawn;
      }
      r := Ok(low + drawn.value);
    }
  }

  // The span plus one, saturating: it is never zero, and for the whole range of words it is one short.
  function RangeBound(low: U32, high: U32): (bound: U32)
    requires low <= high
    ensures 0 < bound
  {
    if high - low == U32_MAX then U32_MAX else high - low + 1
  }

  // ---- how many words give a value

  ghost function WithRemainder(limit: nat, m: nat, v: nat): set<nat>
    requires m > 0
  {
    set w | 0 <= w < limit && w % m == v
  }

  // Of the next m numbers after a multiple of m, one has the remainder.
  lemma NextRemainder(base: nat, q: nat, m: nat, v: nat)
    requires v < m && base == q * m
    ensures WithRemainder(base + m, m, v) == WithRemainder(base, m, v) + {base + v}
    ensures base + v !in WithRemainder(base, m, v)
  {
    forall w: nat | base <= w < base + m ensures w % m == w - base {
      TimesNext(q, m);
      Remainder(w, m, q);
    }
  }

  lemma {:induction false} RemainderCount(n: nat, m: nat, v: nat)
    requires v < m
    ensures |WithRemainder(n * m, m, v)| == n
  {
    if n == 0 {
      assert WithRemainder(0, m, v) == {};
    } else {
      RemainderCount(n - 1, m, v);
      TimesNext(n - 1, m);
      NextRemainder((n - 1) * m, n - 1, m, v);
    }
  }

  // Every value below the bound comes from the same number of words, a power of two.
  lemma DrawIsUniform(bound: U32, value: U32)
    requires 0 < bound && value < bound
    ensures BitLength(bound - 1) <= 32
    ensures |set w: nat | w < WORDS && Accepted(w, bound) && w % (Mask(bound) + 1) == value|
         == Pow2(32 - BitLength(bound - 1))
  {
    hide Pow2, Mask, BitLength;
    var k := BitLength(bound - 1);
    BitLengthOfWord(bound - 1);
    MaskIsTight(bound);
    Pow2Word();
    Pow2Adds(32 - k, k);
    RemainderCount(Pow2(32 - k), Pow2(k), value);
    var m := Pow2(k);
    assert m == Mask(bound) + 1 && Pow2(32 - k) * m == WORDS;
    var drawing := set w: nat | w < WORDS && Accepted(w, bound) && w % (Mask(bound) + 1) == value;
    assert drawing == WithRemainder(WORDS, m, value);
  }

  // The value is what some word gives.
  ghost predicate Drawable(low: U32, high: U32, value: nat)
    requires low <= high
  {
    exists word: U32 :: RangeGives(low, high, word, value)
  }

  ghost predicate RangeGives(low: U32, high: U32, word: U32, value: nat)
    requires low <= high
  {
    var bound := RangeBound(low, high);
    Accepted(word, bound) && low + word % (Mask(bound) + 1) == value
  }

  lemma ValueIsDrawable(low: U32, high: U32, value: nat)
    requires low <= value <= high && value - low < RangeBound(low, high)
    ensures Drawable(low, high, value)
  {
    hide Mask, BitLength, Pow2, Accepted;
    var bound := RangeBound(low, high);
    DrawIsUniform(bound, value - low);
    var drawing := set w: nat | w < WORDS && Accepted(w, bound) && w % (Mask(bound) + 1) == value - low;
    assert drawing != {};
    var word :| word in drawing;
    assert RangeGives(low, high, word, value);
  }

  lemma LastOfAllNotDrawable()
    ensures !Drawable(0, U32_MAX, U32_MAX)
  {
    hide Mask;
  }

  // Every value of a range can be drawn, except that the whole range of words loses its last one.
  lemma RangeIsReached(low: U32, high: U32)
    requires low <= high
    ensures (forall value: nat :: low <= value <= high ==> Drawable(low, high, value)) <==> high - low < U32_MAX
  {
    hide Drawable;
    if high - low < U32_MAX {
      forall value: nat | low <= value <= high ensures Drawable(low, high, value) {
        ValueIsDrawable(low, high, value);
      }
    } else {
      LastOfAllNotDrawable();
    }
  }
}
