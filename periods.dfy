/** The time-interval algebra the sequence code consumes (period.c and
    periodset.c are not part of this model): a period is a pair of bounds with
    inclusivity flags, a period set an ordered array of disjoint periods. */
module Periods {
  import opened TemporalBase

  datatype Period = Period(lower: Time, upper: Time, lowerInc: bool, upperInc: bool)
  {
    /** A period is non-empty by its bounds; an instantaneous one is closed. */
    predicate Valid()
    {
      lower < upper || (lower == upper && lowerInc && upperInc)
    }

    predicate Contains(t: Time)
    {
      (lower < t || (lowerInc && t == lower)) && (t < upper || (upperInc && t == upper))
    }
  }

  function Max(a: Time, b: Time): Time { if a < b then b else a }
  function Min(a: Time, b: Time): Time { if a < b then a else b }

  /** intersection_period_period_internal: the common part, or None when the
      bounds do not overlap. */
  function Intersection(p: Period, q: Period): (r: Option<Period>)
    requires p.Valid() && q.Valid()
    ensures r.Some? ==> r.value.Valid()
    ensures r.Some? ==> forall t :: r.value.Contains(t) <==> p.Contains(t) && q.Contains(t)
    ensures r.Some? ==> r.value.lower == Max(p.lower, q.lower) && r.value.upper == Min(p.upper, q.upper)
    ensures (exists t :: p.Contains(t) && q.Contains(t)) ==> r.Some?
    ensures r.Some? ==> Within(r.value, p) && Within(r.value, q)
  {
    var lo := Max(p.lower, q.lower);
    var hi := Min(p.upper, q.upper);
    var loInc := if p.lower == q.lower then p.lowerInc && q.lowerInc
                 else if p.lower < q.lower then q.lowerInc else p.lowerInc;
    var hiInc := if p.upper == q.upper then p.upperInc && q.upperInc
                 else if p.upper < q.upper then p.upperInc else q.upperInc;
    var cand := Period(lo, hi, loInc, hiInc);
    if cand.Valid() then Some(cand) else None
  }

  /** overlaps_period_period_internal */
  predicate Overlaps(p: Period, q: Period)
    requires p.Valid() && q.Valid()
  {
    Intersection(p, q).Some?
  }

  /** Every point of p comes before every point of q. */
  predicate Before(p: Period, q: Period)
  {
    p.upper < q.lower || (p.upper == q.lower && !(p.upperInc && q.lowerInc))
  }

  lemma BeforeDisjoint(p: Period, q: Period, t: Time)
    requires Before(p, q) && p.Contains(t)
    ensures !q.Contains(t)
  {
  }

  /** minus_period_period_internal: the zero, one or two periods covering
      exactly the points of p outside q, in order. */
  function Minus(p: Period, q: Period): (r: seq<Period>)
    requires p.Valid() && q.Valid()
    ensures |r| <= 2
    ensures forall i | 0 <= i < |r| :: r[i].Valid()
    ensures forall t :: (exists i | 0 <= i < |r| :: r[i].Contains(t)) <==> p.Contains(t) && !q.Contains(t)
    ensures |r| == 2 ==> Before(r[0], r[1]) && Before(r[0], q) && Before(q, r[1])
    ensures forall i | 0 <= i < |r| :: Within(r[i], p)
    ensures !Overlaps(p, q) ==> r == [p]
  {
    if Intersection(p, q).None? then
      MinusWhole(p, q);
      [p]
    else
      var left := Period(p.lower, q.lower, p.lowerInc, !q.lowerInc);
      var right := Period(q.upper, p.upper, !q.upperInc, p.upperInc);
      var r := (if left.Valid() then [left] else []) + (if right.Valid() then [right] else []);
      MinusPieces(p, q, left, right, r);
      r
  }

  /** Without a common point, nothing of p is removed. */
  lemma MinusWhole(p: Period, q: Period)
    requires p.Valid() && q.Valid() && Intersection(p, q).None?
    ensures forall t :: (exists i | 0 <= i < |[p]| :: [p][i].Contains(t)) <==> p.Contains(t) && !q.Contains(t)
  {
    forall t
      ensures (exists i | 0 <= i < |[p]| :: [p][i].Contains(t)) <==> p.Contains(t) && !q.Contains(t)
    {
      if p.Contains(t) {
        assert [p][0].Contains(t);
        assert !q.Contains(t);
      }
    }
  }

  lemma MinusPieces(p: Period, q: Period, left: Period, right: Period, r: seq<Period>)
    requires p.Valid() && q.Valid() && Intersection(p, q).Some?
    requires left == Period(p.lower, q.lower, p.lowerInc, !q.lowerInc)
    requires right == Period(q.upper, p.upper, !q.upperInc, p.upperInc)
    requires r == (if left.Valid() then [left] else []) + (if right.Valid() then [right] else [])
    ensures forall t :: (exists i | 0 <= i < |r| :: r[i].Contains(t)) <==> p.Contains(t) && !q.Contains(t)
  {
    forall t
      ensures (exists i | 0 <= i < |r| :: r[i].Contains(t)) <==> p.Contains(t) && !q.Contains(t)
    {
      if p.Contains(t) && !q.Contains(t) {
        if t <= q.lower {
          assert left.Valid() && left.Contains(t);
          assert r[0].Contains(t);
        } else {
          assert right.Valid() && right.Contains(t);
          assert r[|r| - 1].Contains(t);
        }
      }
      if exists i | 0 <= i < |r| :: r[i].Contains(t) {
        var i :| 0 <= i < |r| && r[i].Contains(t);
        assert r[i] == left || r[i] == right;
      }
    }
  }

  /** The bounds of q lie within those of p (inclusive bounds only where p's
      are inclusive at the same value). */
  predicate Within(q: Period, p: Period)
  {
    && (p.lower < q.lower || (p.lower == q.lower && (q.lowerInc ==> p.lowerInc)))
    && (q.upper < p.upper || (q.upper == p.upper && (q.upperInc ==> p.upperInc)))
  }

  /** Intersecting with a period whose bounds lie within yields that period. */
  lemma IntersectionWithin(p: Period, q: Period)
    requires p.Valid() && q.Valid() && Within(q, p)
    ensures Intersection(p, q) == Some(q)
  {
  }

  /** Before is transitive over valid periods. */
  lemma BeforeTrans(a: Period, b: Period, c: Period)
    requires b.Valid() && Before(a, b) && Before(b, c)
    ensures Before(a, c)
  {
  }

  /** Shrinking the periods keeps them in order. */
  lemma BeforeWithin(a: Period, b: Period, a': Period, b': Period)
    requires a'.Valid() && b'.Valid() && Before(a, b) && Within(a', a) && Within(b', b)
    ensures Before(a', b')
  {
  }

  /** A period set: valid periods in strictly increasing, disjoint order. */
  predicate ValidSet(ps: seq<Period>)
  {
    && (forall i | 0 <= i < |ps| :: ps[i].Valid())
    && (forall i, j | 0 <= i < j < |ps| :: Before(ps[i], ps[j]))
  }

  predicate SetContains(ps: seq<Period>, t: Time)
  {
    exists i | 0 <= i < |ps| :: ps[i].Contains(t)
  }

  /** Comparison of two lower bounds: a smaller value first, and at the same
      value an inclusive bound before an exclusive one. */
  function CmpLower(a: Time, aInc: bool, b: Time, bInc: bool): int
  {
    if a < b then -1 else if a > b then 1
    else if aInc == bInc then 0 else if aInc then -1 else 1
  }

  /** Comparison of two upper bounds: at the same value an exclusive bound
      before an inclusive one. */
  function CmpUpper(a: Time, aInc: bool, b: Time, bInc: bool): int
  {
    if a < b then -1 else if a > b then 1
    else if aInc == bInc then 0 else if aInc then 1 else -1
  }

  /** period_cmp_internal: lower bounds first, then upper bounds. */
  function PeriodCmp(p: Period, q: Period): (r: int)
    ensures r == 0 <==> p == q
    ensures -1 <= r <= 1
  {
    var c := CmpLower(p.lower, p.lowerInc, q.lower, q.lowerInc);
    if c != 0 then c else CmpUpper(p.upper, p.upperInc, q.upper, q.upperInc)
  }

  lemma PeriodCmpAntisymmetric(p: Period, q: Period)
    ensures PeriodCmp(p, q) == -PeriodCmp(q, p)
  {
  }
}
