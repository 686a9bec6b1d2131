/** `YearRange` of src/search.rs: an optional lower and an optional upper
    publication year, validated on construction. */
module YearRanges {
  import opened Results
  import opened Primitives

  /** An absent bound leaves that side of the range open. */
  datatype YearRange = YearRange(start: Option<Usize>, end: Option<Usize>)

  /** `StartsAfterEndError(start, end)`: the rejected bounds, in the order
      they were given. */
  datatype StartsAfterEndError = StartsAfterEndError(start: Usize, end: Usize)

  /** The invariant every constructed range keeps: when both bounds are
      present the start is not after the end. */
  predicate Ordered(r: YearRange) {
    r.start.Some? && r.end.Some? ==> r.start.value <= r.end.value
  }

  /** `YearRange::default()`: the range with neither bound. */
  function Default(): (r: YearRange)
    ensures Ordered(r)
    ensures r.start.None? && r.end.None?
  {
    YearRange(None, None)
  }

  /** `YearRange::new`: rejects exactly the pairs whose both bounds are
      present with the end before the start, and otherwise keeps the bounds
      as given. */
  function New(start: Option<Usize>, end: Option<Usize>): (r: Result<YearRange, StartsAfterEndError>)
    ensures r.Ok? <==> Ordered(YearRange(start, end))
    ensures r.Ok? ==> r.value.start == start && r.value.end == end
    ensures r.Err? ==> start.Some? && end.Some?
                       && r.error == StartsAfterEndError(start.value, end.value)
                       && r.error.end < r.error.start
  {
    match (start, end)
    case (Some(s), Some(e)) =>
      if e < s then Err(StartsAfterEndError(s, e)) else Ok(YearRange(start, end))
    case _ => Ok(YearRange(start, end))
  }

  /** Every range `New` builds is ordered. */
  lemma NewOrdered(start: Option<Usize>, end: Option<Usize>)
    requires New(start, end).Ok?
    ensures Ordered(New(start, end).value)
  {
  }

  /** Every ordered range is reachable: rebuilding it from its own bounds
      succeeds and gives it back. */
  lemma NewRebuilds(r: YearRange)
    requires Ordered(r)
    ensures New(r.start, r.end) == Ok(r)
  {
  }

  /** An error reports the bounds it was given, so rebuilding from the
      reported pair fails with the same error. */
  lemma ErrorRebuilds(start: Option<Usize>, end: Option<Usize>)
    requires New(start, end).Err?
    ensures New(Some(New(start, end).error.start), Some(New(start, end).error.end)) == New(start, end)
  {
  }

  /** With both bounds present, `New` fails exactly when the end comes
      before the start; equal bounds are accepted. */
  lemma NewBothPresent(a: Usize, b: Usize)
    ensures New(Some(a), Some(b)) == Err(StartsAfterEndError(a, b)) <==> b < a
    ensures New(Some(a), Some(b)) == Ok(YearRange(Some(a), Some(b))) <==> a <= b
  {
  }

  /** With either bound absent, `New` always succeeds and keeps the bounds. */
  lemma NewOneSided(start: Option<Usize>, end: Option<Usize>)
    requires start.None? || end.None?
    ensures New(start, end) == Ok(YearRange(start, end))
  {
  }

  /** The unbounded range is what the default gives and is always valid. */
  lemma DefaultIsUnbounded()
    ensures New(None, None) == Ok(Default())
  {
  }
}
