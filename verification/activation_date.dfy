// The activation date drawn between a build's release and today.
module ActivationDate {
  import opened Bits
  import opened Prelude
  import opened CivilDate
  import opened Entropy

  function Civil(d: Date): int
    requires d.Exists()
  {
    CivilDays(d.year, d.month, d.day)
  }

  // 1 on 1 January; narrowed to 16 bits
  function DayOfYear(d: Date): nat {
    var elapsed := Clamp(d.DaysSinceEpoch() - Date(d.year, 1, 1).DaysSinceEpoch());
    if 0 <= Clamp(elapsed + 1) < 0x1_0000 then Clamp(elapsed + 1) else 1
  }

  // The day of the year is the sum of the earlier months and the day, except in years the 32-bit count cuts off.
  lemma DayOfYearExact(d: Date)
    requires d.Exists()
    ensures DayOfYear(d) == MonthStart(d.year, d.month) + d.day
        <==> (d.month == 1 && d.day == 1) || (I32_MIN <= Civil(Date(d.year, 1, 1)) && Civil(d) <= I32_MAX - EPOCH_SHIFT)
  {
    hide Date.DaysSinceEpoch, YearStart;
    var january := Date(d.year, 1, 1);
    DaysSinceEpochIsCivil(d);
    DaysSinceEpochIsCivil(january);
    MonthFits(d.year, d.month, d.day);
    assert Civil(d) - Civil(january) == MonthStart(d.year, d.month) + d.day - 1;
    if d.month > 1 {
      MonthsInOrder(d.year, 1, d.month);
    }
  }

  // The widest offset that is drawn
  function Span(release: Date, today: Date): (span: U32)
    ensures span <= I32_MAX
  {
    var span := Clamp(today.DaysSinceEpoch() - release.DaysSinceEpoch());
    if span < 0 then 0 else span
  }

  function Drawn(release: Date, offset: U32): Date {
    FromDaysSinceEpoch(Clamp(release.DaysSinceEpoch() + (if offset <= I32_MAX then offset else 0)))
  }

  predicate NotAfter(a: Date, b: Date) { a == b || Before(a, b) }

  lemma CivilNotAfter(a: Date, b: Date)
    requires a.Exists() && b.Exists()
    ensures NotAfter(a, b) <==> Civil(a) <= Civil(b)
  {
    CivilOrder(a, b);
    CivilOrder(b, a);
  }

  lemma DrawnIsCivil(release: Date, today: Date, offset: U32)
    requires release.Exists() && today.Exists() && offset <= Span(release, today)
    ensures Drawn(release, offset).Exists()
    ensures Civil(Drawn(release, offset)) == release.DaysSinceEpoch() + offset <= I32_MAX - EPOCH_SHIFT
  {
    hide Date.DaysSinceEpoch, FromDaysSinceEpoch, CivilDays, Date.Exists, Before;
    DaysSinceEpochIsCivil(release);
    DaysSinceEpochIsCivil(today);
    DateFromDays(release.DaysSinceEpoch() + offset);
  }

  // Every draw lies between the release and today exactly when the release is not in the future
  // and the two dates are not on the wrong side of the 32-bit day range.
  lemma DrawnInWindow(release: Date, today: Date)
    requires release.Exists() && today.Exists()
    ensures (forall offset: U32 :: offset <= Span(release, today) ==>
               NotAfter(release, Drawn(release, offset)) && NotAfter(Drawn(release, offset), today))
        <==> NotAfter(release, today) && Civil(release) <= I32_MAX - EPOCH_SHIFT && I32_MIN <= Civil(today)
  {
    hide Date.DaysSinceEpoch, FromDaysSinceEpoch, CivilDays, Date.Exists, Before;
    DaysSinceEpochIsCivil(release);
    DaysSinceEpochIsCivil(today);
    CivilNotAfter(release, today);
    forall offset: U32 | offset <= Span(release, today)
      ensures Drawn(release, offset).Exists()
      ensures Civil(Drawn(release, offset)) == release.DaysSinceEpoch() + offset
      ensures NotAfter(release, Drawn(release, offset)) <==> Civil(release) <= Civil(Drawn(release, offset))
      ensures NotAfter(Drawn(release, offset), today) <==> Civil(Drawn(release, offset)) <= Civil(today)
    {
      DrawnIsCivil(release, today, offset);
      CivilNotAfter(release, Drawn(release, offset));
      CivilNotAfter(Drawn(release, offset), today);
    }
    var zero: U32 := 0;
    assert zero <= Span(release, today);
    assert Civil(Drawn(release, zero)) == release.DaysSinceEpoch();
  }

  // Each day of the window is one offset's day, and only one's, up to the widest 32-bit span.
  lemma EveryDayIsDrawnOnce(release: Date, today: Date, d: Date)
    requires release.Exists() && today.Exists() && d.Exists()
    requires I32_MIN <= Civil(release) && Civil(today) <= I32_MAX - EPOCH_SHIFT
    requires NotAfter(release, d) && NotAfter(d, today)
    ensures 0 <= Civil(d) - Civil(release)
    ensures Civil(d) - Civil(release) <= Span(release, today) <==> Civil(d) - Civil(release) <= I32_MAX
    ensures forall offset: U32 :: offset <= Span(release, today) ==>
      (Drawn(release, offset) == d <==> offset == Civil(d) - Civil(release))
  {
    hide Date.DaysSinceEpoch, FromDaysSinceEpoch, CivilDays, Date.Exists;
    DaysSinceEpochIsCivil(release);
    DaysSinceEpochIsCivil(today);
    CivilNotAfter(release, d);
    CivilNotAfter(d, today);
    forall offset: U32 | offset <= Span(release, today)
      ensures Drawn(release, offset) == d <==> offset == Civil(d) - Civil(release)
    {
      DrawnIsCivil(release, today, offset);
      CivilNotAfter(d, Drawn(release, offset));
      CivilNotAfter(Drawn(release, offset), d);
    }
  }

  // The date a 32-bit word gives, if the rejection loop takes the word
  ghost predicate GivesDate(release: Date, today: Date, word: nat, d: Date) {
    var bound := Span(release, today) + 1;
    word < WORDS && Accepted(word, bound) && Drawn(release, word % (Mask(bound) + 1)) == d
  }

  predicate InWindow(release: Date, today: Date, d: Date)
    requires release.Exists() && d.Exists()
  {
    NotAfter(release, d) && NotAfter(d, today) && Civil(d) - Civil(release) <= I32_MAX
  }

  lemma DrawnIsInWindow(release: Date, today: Date, d: Date, offset: U32)
    requires release.Exists() && today.Exists() && d.Exists() && NotAfter(release, today)
    requires I32_MIN <= Civil(release) && Civil(today) <= I32_MAX - EPOCH_SHIFT
    requires offset <= Span(release, today)
    ensures Drawn(release, offset) == d <==> InWindow(release, today, d) && offset == Civil(d) - Civil(release)
  {
    hide Date.DaysSinceEpoch, FromDaysSinceEpoch, CivilDays, Date.Exists, Before;
    CivilNotAfter(release, today);
    if InWindow(release, today, d) {
      EveryDayIsDrawnOnce(release, today, d);
    } else if Drawn(release, offset) == d {
      DrawnIsCivil(release, today, offset);
      DaysSinceEpochIsCivil(release);
      DaysSinceEpochIsCivil(today);
      CivilNotAfter(release, d);
      CivilNotAfter(d, today);
    }
  }

  // Each day of the window is given by the same number of words, a power of two, and no other day by any.
  lemma DateDrawIsUniform(release: Date, today: Date, d: Date)
    requires release.Exists() && today.Exists() && d.Exists() && NotAfter(release, today)
    requires I32_MIN <= Civil(release) && Civil(today) <= I32_MAX - EPOCH_SHIFT
    ensures BitLength(Span(release, today)) <= 32
    ensures |set w: nat | w < WORDS && GivesDate(release, today, w, d)|
         == if InWindow(release, today, d) then Pow2(32 - BitLength(Span(release, today))) else 0
  {
    hide Drawn, InWindow, Mask, BitLength, Pow2, Date.Exists, NotAfter, Accepted, Span;
    var bound := Span(release, today) + 1;
    var giving := set w: nat | w < WORDS && GivesDate(release, today, w, d);
    forall w: nat | w < WORDS && Accepted(w, bound)
      ensures Drawn(release, w % (Mask(bound) + 1)) == d
        <==> InWindow(release, today, d) && w % (Mask(bound) + 1) == Civil(d) - Civil(release)
    {
      AcceptedBelow(w, bound);
      DrawnIsInWindow(release, today, d, w % (Mask(bound) + 1));
    }
    if InWindow(release, today, d) {
      WindowOffset(release, today, d);
      var offset: U32 := Civil(d) - Civil(release);
      DrawIsUniform(bound, offset);
      assert giving == set w: nat | w < WORDS && Accepted(w, bound) && w % (Mask(bound) + 1) == offset;
    } else {
      DrawIsUniform(bound, 0);
      assert giving == {};
    }
  }

  lemma AcceptedBelow(word: U32, bound: U32)
    requires bound > 0 && Accepted(word, bound)
    ensures word % (Mask(bound) + 1) < bound
  {}

  lemma WindowOffset(release: Date, today: Date, d: Date)
    requires release.Exists() && today.Exists() && d.Exists() && InWindow(release, today, d)
    requires I32_MIN <= Civil(release) && Civil(today) <= I32_MAX - EPOCH_SHIFT
    ensures 0 <= Civil(d) - Civil(release) <= Span(release, today)
  {
    hide Date.DaysSinceEpoch, CivilDays, Date.Exists, Before, Span;
    EveryDayIsDrawnOnce(release, today, d);
  }

  method DrawActivationDate(source: Source, releaseDate: Option<Date>, today: Date)
    returns (r: Result<Date, EntropyUnavailable>)
    requires source.Valid()
    modifies source
    ensures source.Valid()
    ensures releaseDate.None? ==> r == Err(EntropyUnavailable) && source.position == old(source.position)
    ensures releaseDate.Some? ==>
      var bound := Span(releaseDate.value, today) + 1;
      var at := FirstAccepted(source.words, old(source.position), bound);
      if at < |source.words| then
        r == Ok(Drawn(releaseDate.value, source.words[at] % (Mask(bound) + 1))) && source.position == at + 1
      else r == Err(EntropyUnavailable) && source.position == |source.words|
  {
    hide Date.DaysSinceEpoch, FromDaysSinceEpoch, Drawn, Mask, FirstAccepted;
    if releaseDate.None? {
      return Err(EntropyUnavailable);
    }
    var release := releaseDate.value;
    var span := Span(release, today);
    var offset := source.UniformInInclusiveRange(0, span);
    if offset.Err? {
      return Err(EntropyUnavailable);
    }
    r := Ok(Drawn(release, offset.value));
  }
}
