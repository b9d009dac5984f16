/** Restriction of a sequence to, and to the complement of, a base value.
    In step mode a sequence holds one value from each instant to the next,
    so both restrictions are exact: their pieces cover precisely the points
    of the period where the sequence takes (or does not take) the value. */
module TSequenceRestrictValue {
  import opened TemporalBase
  import opened Periods
  import opened TSequence
  import opened TSequenceSearch
  import opened TSequenceJoin
  import opened TSequenceRestrictTime

  /** s is defined at t and takes value there. */
  predicate HasValue(s: Sequence, t: Time, value: Value, ops: Ops)
    requires s.Valid()
  {
    ValueAtTimestamp(s, t, ops) == Some(value)
  }

  /** Inside segment k the value of s is the value the segment gives. */
  lemma ValueInSegment(s: Sequence, k: nat, t: Time, ops: Ops)
    requires s.Valid() && k + 1 < |s.instants| && s.Span().Contains(t)
    requires s.instants[k].t <= t <= s.instants[k + 1].t
    ensures ValueAtTimestamp(s, t, ops) == Some(SegmentValue(s.instants[k], s.instants[k + 1], s.linear, t, ops))
  {
    SegmentAgree(s, k, t, ops);
    ClosureAgree(s, t, ops);
  }

  // ---------------------------------------------------------------------
  // At a value
  // ---------------------------------------------------------------------

  /** The period of segment k of s as tsequence_at_value walks it: closed
      below except possibly the first, open above except possibly the last. */
  function SegmentPeriod(s: Sequence, k: nat): (p: Period)
    requires s.Valid() && k + 1 < |s.instants|
    ensures p.Valid() && p.lower == s.instants[k].t && p.upper == s.instants[k + 1].t
  {
    Period(s.instants[k].t, s.instants[k + 1].t,
           if k == 0 then s.lowerInc else true,
           if k + 2 == |s.instants| then s.upperInc else false)
  }

  /** tlinearseq_intersection_value on numbers: no crossing when the value is
      at an end of the segment or outside the range of its two values;
      otherwise the crossing time comes from the oracle, and it counts only
      strictly inside the segment.  A crossing found lies strictly inside the
      segment in time and strictly between its two values. */
  function IntersectionValue(i1: Instant, i2: Instant, value: Value, ops: Ops): (r: Option<Time>)
    ensures r.Some? ==> i1.t < r.value < i2.t
    ensures r.Some? ==> (i1.v < value < i2.v || i2.v < value < i1.v)
  {
    if value == i1.v || value == i2.v then None
    else if value < Min(i1.v, i2.v) || value > Max(i1.v, i2.v) then None
    else
      match ops.valueCrossing(i1, i2, value)
      case Some(t) => if i1.t < t < i2.t then Some(t) else None
      case None => None
  }

  /** tsequence_at_value1: the part of the segment i1 .. i2 (bounds lowerInc,
      upperInc) where it takes value.  A constant segment is kept whole or
      dropped; in step mode the segment's first value holds until i2, where
      the second takes over; in linear mode the value is met at an end or at
      the crossing time the (uninterpreted) oracle gives.  On a step or
      constant segment, and at the two ends of any segment, the result holds
      exactly the points of the segment period where the segment takes value. */
  function AtValueSegment(i1: Instant, i2: Instant, linear: bool, lowerInc: bool, upperInc: bool, value: Value,
                          ops: Ops): (r: Option<Sequence>)
    requires i1.t < i2.t
    ensures r.Some? ==> r.value.Valid() && r.value.linear == linear
    ensures r.Some? ==> Within(r.value.Span(), Period(i1.t, i2.t, lowerInc, upperInc))
    ensures r.Some? && (!linear || i1.v == i2.v) ==>
              forall q | 0 <= q < |r.value.instants| :: r.value.instants[q].v == value
    ensures forall t | Period(i1.t, i2.t, lowerInc, upperInc).Contains(t) && (!linear || i1.v == i2.v || t == i1.t || t == i2.t) ::
              (r.Some? && r.value.Span().Contains(t)) <==> SegmentValue(i1, i2, linear, t, ops) == value
  {
    if i1.v == i2.v then
      if i1.v != value then None else Some(Sequence([i1, i2], lowerInc, upperInc, linear))
    else if !linear then
      if i1.v == value then Some(Sequence([i1, Instant(i2.t, i1.v)], lowerInc, false, false))
      else if upperInc && value == i2.v then Some(Sequence([i2], true, true, false))
      else None
    else if i1.v == value then
      if !lowerInc then None else Some(Sequence([i1], true, true, true))
    else if i2.v == value then
      if !upperInc then None else Some(Sequence([i2], true, true, true))
    else
      match IntersectionValue(i1, i2, value, ops)
      case Some(t) => Some(Sequence([Instant(t, SegmentValue(i1, i2, true, t, ops))], true, true, true))
      case None => None
  }

  /** Every instant of the result of tsequence_at_value1 on a segment of s
      lies on s. */
  lemma AtValueSegmentSampled(s: Sequence, k: nat, value: Value, ops: Ops)
    requires s.Valid() && k + 1 < |s.instants|
    ensures var p := SegmentPeriod(s, k);
            var r := AtValueSegment(s.instants[k], s.instants[k + 1], s.linear, p.lowerInc, p.upperInc, value, ops);
            r.Some? ==> SampledFrom(r.value, s, ops)
  {
    var a := s.instants;
    var p := SegmentPeriod(s, k);
    var r := AtValueSegment(a[k], a[k + 1], s.linear, p.lowerInc, p.upperInc, value, ops);
    if r.Some? {
      var x := r.value.instants;
      forall q | 0 <= q < |x| && (q < |x| - 1 || r.value.linear || r.value.upperInc)
        ensures OnSequence(x[q], s, ops)
      {
        if x[q] == a[k] {
          InstantOn(s, k, ops);
        } else if x[q] == a[k + 1] {
          InstantOn(s, k + 1, ops);
        } else {
          SegmentAgree(s, k, x[q].t, ops);
        }
      }
    }
  }

  /** The points of s before the start of segment i - 1, or all of them once
      every segment has been walked. */
  predicate Walked(s: Sequence, i: nat, t: Time)
    requires s.Valid() && 1 <= i <= |s.instants|
  {
    s.Span().Contains(t) && (i == |s.instants| || t < s.instants[i - 1].t)
  }

  /** Walking segment i - 1 adds its period. */
  lemma WalkedStep(s: Sequence, i: nat, t: Time)
    requires s.Valid() && 1 <= i < |s.instants|
    ensures Walked(s, i + 1, t) <==> Walked(s, i, t) || SegmentPeriod(s, i - 1).Contains(t)
  {
    var a := s.instants;
    assert a[0].t <= a[i - 1].t && a[i].t <= a[|a| - 1].t;
  }

  /** The pieces of the at_value loop before segment i - 1: in order, on s,
      holding value in step mode, and ending before the segment. */
  ghost predicate AtValueOrder(s: Sequence, value: Value, i: nat, r: seq<Sequence>, ops: Ops)
    requires s.Valid() && 1 <= i <= |s.instants|
  {
    && Pieces(r, s.linear)
    && (forall k | 0 <= k < |r| :: SampledFrom(r[k], s, ops))
    && (!s.linear ==> forall k, q | 0 <= k < |r| && 0 <= q < |r[k].instants| :: r[k].instants[q].v == value)
    && (i < |s.instants| && r != [] ==> EndsBefore(r[|r| - 1].Span(), s.instants[i - 1].t))
  }

  /** The coverage of the at_value loop before segment i - 1: inside the
      walked part of s, and in step mode exactly the walked points where s
      takes value. */
  ghost predicate AtValueCovers(s: Sequence, value: Value, i: nat, r: seq<Sequence>, ops: Ops)
    requires s.Valid() && 1 <= i <= |s.instants| && AllValid(r)
  {
    && (forall t :: Covers(r, t) ==> Walked(s, i, t))
    && (!s.linear ==> forall t | Walked(s, i, t) :: Covers(r, t) <==> HasValue(s, t, value, ops))
  }

  /** Pointwise: the result of segment i - 1 extends the coverage by the
      points of the segment where s takes value. */
  lemma AtValueCover(s: Sequence, value: Value, i: nat, r: seq<Sequence>, x: Option<Sequence>, r': seq<Sequence>,
                     t: Time, ops: Ops)
    requires s.Valid() && 1 <= i < |s.instants| && AllValid(r) && (x.Some? ==> x.value.Valid())
    requires x.Some? && x.value.Span().Contains(t) ==> SegmentPeriod(s, i - 1).Contains(t)
    requires !s.linear && SegmentPeriod(s, i - 1).Contains(t) ==>
               ((x.Some? && x.value.Span().Contains(t)) <==> SegmentValue(s.instants[i - 1], s.instants[i], false, t, ops) == value)
    requires r' == if x.Some? then r + [x.value] else r
    requires Covers(r, t) ==> Walked(s, i, t)
    requires !s.linear && Walked(s, i, t) ==> (Covers(r, t) <==> HasValue(s, t, value, ops))
    ensures Covers(r', t) ==> Walked(s, i + 1, t)
    ensures !s.linear && Walked(s, i + 1, t) ==> (Covers(r', t) <==> HasValue(s, t, value, ops))
  {
    var p := SegmentPeriod(s, i - 1);
    WalkedStep(s, i, t);
    if x.Some? {
      CoversSnoc(r, x.value);
    }
    if p.Contains(t) {
      ValueInSegment(s, i - 1, t, ops);
      if Walked(s, i, t) {
        assert false;
      }
    }
  }

  /** What the result of tsequence_at_value1 on segment i - 1 says about t. */
  lemma AtValueSegmentAt(s: Sequence, value: Value, i: nat, x: Option<Sequence>, t: Time, ops: Ops)
    requires s.Valid() && 1 <= i < |s.instants|
    requires x == AtValueSegment(s.instants[i - 1], s.instants[i], s.linear,
                                 SegmentPeriod(s, i - 1).lowerInc, SegmentPeriod(s, i - 1).upperInc, value, ops)
    ensures x.Some? ==> x.value.Valid()
    ensures x.Some? && x.value.Span().Contains(t) ==> SegmentPeriod(s, i - 1).Contains(t)
    ensures !s.linear && SegmentPeriod(s, i - 1).Contains(t) ==>
              ((x.Some? && x.value.Span().Contains(t)) <==> SegmentValue(s.instants[i - 1], s.instants[i], false, t, ops) == value)
  {
  }

  lemma SampledSnoc(r: seq<Sequence>, x: Sequence, s: Sequence, ops: Ops)
    requires s.Valid() && (forall k | 0 <= k < |r| :: SampledFrom(r[k], s, ops)) && SampledFrom(x, s, ops)
    ensures forall k | 0 <= k < |r + [x]| :: SampledFrom((r + [x])[k], s, ops)
  {
    forall k | 0 <= k < |r + [x]| ensures SampledFrom((r + [x])[k], s, ops) {
      if k < |r| {
        assert (r + [x])[k] == r[k];
      }
    }
  }

  lemma ValuesSnoc(r: seq<Sequence>, x: Sequence, value: Value)
    requires forall k, q | 0 <= k < |r| && 0 <= q < |r[k].instants| :: r[k].instants[q].v == value
    requires forall q | 0 <= q < |x.instants| :: x.instants[q].v == value
    ensures forall k, q | 0 <= k < |r + [x]| && 0 <= q < |(r + [x])[k].instants| :: (r + [x])[k].instants[q].v == value
  {
    forall k, q | 0 <= k < |r + [x]| && 0 <= q < |(r + [x])[k].instants| ensures (r + [x])[k].instants[q].v == value {
      if k < |r| {
        assert (r + [x])[k] == r[k];
      }
    }
  }

  lemma OrderKeep(s: Sequence, value: Value, i: nat, r: seq<Sequence>, ops: Ops)
    requires s.Valid() && 1 <= i < |s.instants| && AtValueOrder(s, value, i, r, ops)
    ensures AtValueOrder(s, value, i + 1, r, ops)
  {
    if i + 1 < |s.instants| && r != [] {
      assert s.instants[i - 1].t < s.instants[i].t;
    }
  }

  lemma OrderSnoc(s: Sequence, value: Value, i: nat, r: seq<Sequence>, x: Sequence, ops: Ops)
    requires s.Valid() && 1 <= i < |s.instants| && AtValueOrder(s, value, i, r, ops)
    requires x.Valid() && x.linear == s.linear && Within(x.Span(), SegmentPeriod(s, i - 1)) && SampledFrom(x, s, ops)
    requires !s.linear ==> forall q | 0 <= q < |x.instants| :: x.instants[q].v == value
    ensures AtValueOrder(s, value, i + 1, r + [x], ops)
  {
    if r != [] {
      assert Before(r[|r| - 1].Span(), x.Span());
    }
    PiecesSnoc(r, x, s.linear);
    SampledSnoc(r, x, s, ops);
    if !s.linear {
      ValuesSnoc(r, x, value);
    }
  }

  /** One segment of the at_value loop keeps the pieces in order. */
  lemma AtValueOrderStep(s: Sequence, value: Value, i: nat, r: seq<Sequence>, x: Option<Sequence>, r': seq<Sequence>, ops: Ops)
    requires s.Valid() && 1 <= i < |s.instants| && AtValueOrder(s, value, i, r, ops)
    requires x.Some? ==> && x.value.Valid() && x.value.linear == s.linear
                         && Within(x.value.Span(), SegmentPeriod(s, i - 1)) && SampledFrom(x.value, s, ops)
                         && (!s.linear ==> forall q | 0 <= q < |x.value.instants| :: x.value.instants[q].v == value)
    requires r' == if x.Some? then r + [x.value] else r
    ensures AtValueOrder(s, value, i + 1, r', ops)
  {
    if x.Some? {
      OrderSnoc(s, value, i, r, x.value, ops);
    } else {
      OrderKeep(s, value, i, r, ops);
    }
  }

  /** One segment of the at_value loop extends the coverage. */
  lemma AtValueCoversStep(s: Sequence, value: Value, i: nat, r: seq<Sequence>, x: Option<Sequence>, r': seq<Sequence>, ops: Ops)
    requires s.Valid() && 1 <= i < |s.instants| && AllValid(r) && AtValueCovers(s, value, i, r, ops)
    requires x == AtValueSegment(s.instants[i - 1], s.instants[i], s.linear,
                                 SegmentPeriod(s, i - 1).lowerInc, SegmentPeriod(s, i - 1).upperInc, value, ops)
    requires r' == if x.Some? then r + [x.value] else r
    ensures AllValid(r') && AtValueCovers(s, value, i + 1, r', ops)
  {
    forall t ensures Covers(r', t) ==> Walked(s, i + 1, t)
      ensures !s.linear && Walked(s, i + 1, t) ==> (Covers(r', t) <==> HasValue(s, t, value, ops))
    {
      AtValueSegmentAt(s, value, i, x, t, ops);
      AtValueCover(s, value, i, r, x, r', t, ops);
    }
  }

  /** An instantaneous sequence restricted to its own value is itself. */
  lemma AtValueSingle(s: Sequence, value: Value, r: seq<Sequence>, ops: Ops)
    requires s.Valid() && |s.instants| == 1 && s.instants[0].v == value && r == [s]
    ensures Pieces(r, s.linear)
    ensures forall k | 0 <= k < |r| :: SampledFrom(r[k], s, ops)
    ensures forall t :: Covers(r, t) ==> s.Span().Contains(t)
    ensures !s.linear ==> forall k, q | 0 <= k < |r| && 0 <= q < |r[k].instants| :: r[k].instants[q].v == value
    ensures !s.linear ==> forall t :: Covers(r, t) <==> s.Span().Contains(t) && HasValue(s, t, value, ops)
  {
    SelfSampled(s, ops);
    CoversOne(s);
    forall t | s.Span().Contains(t) ensures HasValue(s, t, value, ops) {
      ValueAtInstants(s, t, 0, ops);
    }
  }

  /** Before the first segment nothing is walked and nothing is emitted. */
  lemma AtValueStart(s: Sequence, value: Value, ops: Ops)
    requires s.Valid() && |s.instants| >= 2
    ensures AtValueOrder(s, value, 1, [], ops) && AtValueCovers(s, value, 1, [], ops)
  {
    assert forall t :: !Walked(s, 1, t);
  }

  /** The state of the at_value loop before segment i - 1. */
  ghost predicate AtValueLoop(s: Sequence, value: Value, i: nat, lowerInc: bool, r: seq<Sequence>, ops: Ops)
    requires s.Valid() && 1 <= i <= |s.instants|
  {
    && (i == |s.instants| || lowerInc == SegmentPeriod(s, i - 1).lowerInc)
    && AtValueOrder(s, value, i, r, ops)
    && AtValueCovers(s, value, i, r, ops)
  }

  /** The loop state after the piece segment i - 1 yields is appended. */
  lemma AtValueStep(s: Sequence, value: Value, i: nat, r: seq<Sequence>, x: Option<Sequence>, r': seq<Sequence>, ops: Ops)
    requires s.Valid() && 1 <= i < |s.instants| && AllValid(r)
    requires AtValueOrder(s, value, i, r, ops) && AtValueCovers(s, value, i, r, ops)
    requires x == AtValueSegment(s.instants[i - 1], s.instants[i], s.linear,
                                 SegmentPeriod(s, i - 1).lowerInc, SegmentPeriod(s, i - 1).upperInc, value, ops)
    requires r' == if x.Some? then r + [x.value] else r
    ensures AllValid(r') && AtValueOrder(s, value, i + 1, r', ops) && AtValueCovers(s, value, i + 1, r', ops)
  {
    AtValueSegmentSampled(s, i - 1, value, ops);
    AtValueOrderStep(s, value, i, r, x, r', ops);
    AtValueCoversStep(s, value, i, r, x, r', ops);
  }

  /** One round of the at_value loop: restrict segment i - 1 and append the
      piece it yields. */
  method AtValueRound(s: Sequence, value: Value, i: nat, lowerInc: bool, r: seq<Sequence>, ops: Ops)
    returns (r': seq<Sequence>)
    requires s.Valid() && 1 <= i < |s.instants| && AtValueLoop(s, value, i, lowerInc, r, ops)
    ensures AtValueLoop(s, value, i + 1, true, r', ops)
  {
    var a := s.instants;
    var upperInc := if i == |a| - 1 then s.upperInc else false;
    var x := AtValueSegment(a[i - 1], a[i], s.linear, lowerInc, upperInc, value, ops);
    r' := if x.Some? then r + [x.value] else r;
    AtValueStep(s, value, i, r, x, r', ops);
  }

  /** Once every segment is walked, the loop state is the result. */
  lemma AtValueFinish(s: Sequence, value: Value, r: seq<Sequence>, ops: Ops)
    requires s.Valid() && |s.instants| >= 2 && AllValid(r)
    requires AtValueOrder(s, value, |s.instants|, r, ops) && AtValueCovers(s, value, |s.instants|, r, ops)
    ensures Pieces(r, s.linear)
    ensures forall k | 0 <= k < |r| :: SampledFrom(r[k], s, ops)
    ensures forall t :: Covers(r, t) ==> s.Span().Contains(t)
    ensures !s.linear ==> forall k, q | 0 <= k < |r| && 0 <= q < |r[k].instants| :: r[k].instants[q].v == value
    ensures !s.linear ==> forall t :: Covers(r, t) <==> s.Span().Contains(t) && HasValue(s, t, value, ops)
  {
  }

  /** tsequence_at_value: the pieces of s where it takes value, walking its
      segments with tsequence_at_value1.  The bounding-box shortcut is not
      modelled (the value kinds modelled have no value bounds in their box). */
  method AtValue(s: Sequence, value: Value, ops: Ops) returns (r: seq<Sequence>)
    requires s.Valid()
    ensures Pieces(r, s.linear)
    ensures forall k | 0 <= k < |r| :: SampledFrom(r[k], s, ops)
    ensures forall t :: Covers(r, t) ==> s.Span().Contains(t)
    ensures !s.linear ==> forall k, q | 0 <= k < |r| && 0 <= q < |r[k].instants| :: r[k].instants[q].v == value
    ensures !s.linear ==> forall t :: Covers(r, t) <==> s.Span().Contains(t) && HasValue(s, t, value, ops)
  {
    var a := s.instants;
    if |a| == 1 {
      if a[0].v != value {
        return [];
      }
      r := [s];
      AtValueSingle(s, value, r, ops);
      return;
    }
    var lowerInc := s.lowerInc;
    r := [];
    AtValueStart(s, value, ops);
    var i := 1;
    while i < |a|
      invariant 1 <= i <= |a|
      invariant AtValueLoop(s, value, i, lowerInc, r, ops)
    {
      r := AtValueRound(s, value, i, lowerInc, r, ops);
      lowerInc := true;
      i := i + 1;
    }
    AtValueFinish(s, value, r, ops);
  }
}
