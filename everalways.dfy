/** Ever/always comparisons of a sequence with a base value
    (tsequence_ever_eq ... tsequence_always_le): scans of the instants in step
    mode, and per-segment rules on the values at the two ends in linear mode. */
module TSequenceEverAlways {
  import opened TemporalBase
  import opened Periods
  import opened TSequence
  import opened TSequenceSearch
  import opened TSequenceRestrictValue

  // ---------------------------------------------------------------------
  // The scans
  // ---------------------------------------------------------------------

  /** The step loops: does the value of some instant satisfy p?  The scan
      stops at the first instant that does. */
  method AnyInstant(a: seq<Instant>, p: Value -> bool) returns (r: bool)
    ensures r <==> exists k | 0 <= k < |a| :: p(a[k].v)
  {
    var i := 0;
    while i < |a|
      invariant 0 <= i <= |a|
      invariant forall k | 0 <= k < i :: !p(a[k].v)
    {
      if p(a[i].v) {
        return true;
      }
      i := i + 1;
    }
    return false;
  }

  /** The linear loops: does some segment satisfy p, given its two instants
      and its bounds?  The first segment carries the lower bound of the
      sequence, the last one its upper bound, the others are closed below and
      open above.  The scan stops at the first segment that does. */
  method AnySegment(s: Sequence, p: (Instant, Instant, bool, bool) -> bool) returns (r: bool)
    requires s.Valid()
    ensures r <==> exists k | 0 <= k < |s.instants| - 1 ::
                     p(s.instants[k], s.instants[k + 1], SegmentPeriod(s, k).lowerInc, SegmentPeriod(s, k).upperInc)
  {
    var a := s.instants;
    var inst1 := a[0];
    var lowerInc := s.lowerInc;
    var i := 1;
    while i < |a|
      invariant 1 <= i <= |a| && inst1 == a[i - 1]
      invariant lowerInc == if i == 1 then s.lowerInc else true
      invariant forall k | 0 <= k < i - 1 ::
                  !p(a[k], a[k + 1], SegmentPeriod(s, k).lowerInc, SegmentPeriod(s, k).upperInc)
    {
      var inst2 := a[i];
      var upperInc := if i == |a| - 1 then s.upperInc else false;
      if p(inst1, inst2, lowerInc, upperInc) {
        assert SegmentPeriod(s, i - 1).lowerInc == lowerInc && SegmentPeriod(s, i - 1).upperInc == upperInc;
        return true;
      }
      inst1 := inst2;
      lowerInc := true;
      i := i + 1;
    }
    return false;
  }

  // ---------------------------------------------------------------------
  // Linear segments
  // ---------------------------------------------------------------------

  /** The values a linear segment from v1 to v2 takes over its period, read
      on the real line: every value strictly between the two ends (the single
      value of a constant segment), and each end whose bound is inclusive. */
  ghost predicate SegmentTakes(v1: Value, v2: Value, lowerInc: bool, upperInc: bool, w: real)
  {
    || (lowerInc && w == v1 as real)
    || (upperInc && w == v2 as real)
    || (v1 == v2 && w == v1 as real)
    || (v1 < v2 && v1 as real < w < v2 as real)
    || (v2 < v1 && v2 as real < w < v1 as real)
  }

  /** tlinearseq_ever_eq1: a constant segment at the value, an end at the
      value whose bound is inclusive, or a crossing inside found by
      tlinearseq_intersection_value.  Every value it reports is taken by the
      segment, and it misses none taken at an end; a value strictly between
      the ends counts when the crossing oracle finds it inside the segment. */
  function EverEqSegment(i1: Instant, i2: Instant, lowerInc: bool, upperInc: bool, value: Value, ops: Ops): (b: bool)
    ensures b ==> SegmentTakes(i1.v, i2.v, lowerInc, upperInc, value as real)
    ensures SegmentTakes(i1.v, i2.v, lowerInc, upperInc, value as real) && (value == i1.v || value == i2.v) ==> b
  {
    if i1.v == i2.v && i1.v == value then true
    else if i1.v == value then lowerInc
    else if i2.v == value then upperInc
    else IntersectionValue(i1, i2, value, ops).Some?
  }

  /** tlinearseq_ever_eq1 and tsequence_at_value1 share the crossing test, so
      a linear segment ever equals the value exactly when its restriction to
      the value is not empty. */
  lemma EverEqAtValue(i1: Instant, i2: Instant, lowerInc: bool, upperInc: bool, value: Value, ops: Ops)
    requires i1.t < i2.t
    ensures EverEqSegment(i1, i2, lowerInc, upperInc, value, ops) <==>
              AtValueSegment(i1, i2, true, lowerInc, upperInc, value, ops).Some?
  {
  }

  /** tlinearseq_ever_le1: the lowest value of the segment is at most the
      value; an increasing (decreasing) segment is lowest at its start (end),
      which counts only when that bound is inclusive. */
  function EverLeSegment(v1: Value, v2: Value, lowerInc: bool, upperInc: bool, value: Value): bool
  {
    if v1 == v2 then v1 <= value
    else if v1 < v2 then v1 < value || (lowerInc && v1 == value)
    else v2 < value || (upperInc && v2 == value)
  }

  /** tlinearseq_ever_le1 holds exactly when the segment takes some value at
      most the given one. */
  lemma EverLeSegmentMeaning(v1: Value, v2: Value, lowerInc: bool, upperInc: bool, value: Value)
    ensures EverLeSegment(v1, v2, lowerInc, upperInc, value) <==>
              exists w :: SegmentTakes(v1, v2, lowerInc, upperInc, w) && w <= value as real
  {
    if EverLeSegment(v1, v2, lowerInc, upperInc, value) {
      var w: real;
      if v1 == v2 {
        w := v1 as real;
      } else if v1 < v2 {
        w := if v1 < value then (v1 as real + Min(value, v2) as real) / 2.0 else v1 as real;
      } else {
        w := if v2 < value then (v2 as real + Min(value, v1) as real) / 2.0 else v2 as real;
      }
      assert SegmentTakes(v1, v2, lowerInc, upperInc, w) && w <= value as real;
    }
  }

  /** tlinearseq_always_lt1 as the source writes it: its constant-segment
      case compares the segment value with itself, so it is never true. */
  function AlwaysLtSegmentAsWritten(v1: Value, v2: Value, lowerInc: bool, upperInc: bool, value: Value): bool
  {
    if v1 == v2 then v1 < v1
    else if v1 < v2 then v2 < value || (!upperInc && value == v2)
    else v1 < value || (!lowerInc && v1 == value)
  }

  /** A constant segment below the value is always below it, yet the rule
      as written says it is not. */
  lemma AlwaysLtConstantCounterexample()
    ensures !AlwaysLtSegmentAsWritten(0, 0, true, true, 1)
    ensures forall w | SegmentTakes(0, 0, true, true, w) :: w < 1.0
  {
  }

  /** tlinearseq_always_lt1 with the constant case comparing the segment
      value with the given one: the highest value of the segment is below
      the value; an increasing (decreasing) segment is highest at its end
      (start), which may equal the value when that bound is exclusive. */
  function AlwaysLtSegment(v1: Value, v2: Value, lowerInc: bool, upperInc: bool, value: Value): bool
  {
    if v1 == v2 then v1 < value
    else if v1 < v2 then v2 < value || (!upperInc && value == v2)
    else v1 < value || (!lowerInc && v1 == value)
  }

  /** The corrected rule holds exactly when every value the segment takes is
      below the given one; it differs from the rule as written only on
      constant segments. */
  lemma AlwaysLtSegmentMeaning(v1: Value, v2: Value, lowerInc: bool, upperInc: bool, value: Value)
    ensures AlwaysLtSegment(v1, v2, lowerInc, upperInc, value) <==>
              forall w | SegmentTakes(v1, v2, lowerInc, upperInc, w) :: w < value as real
    ensures v1 != v2 ==> AlwaysLtSegment(v1, v2, lowerInc, upperInc, value) == AlwaysLtSegmentAsWritten(v1, v2, lowerInc, upperInc, value)
  {
    if !AlwaysLtSegment(v1, v2, lowerInc, upperInc, value) {
      var w: real;
      if v1 == v2 {
        w := v1 as real;
      } else if v1 < v2 {
        w := if value < v2 then (Max(value, v1) as real + v2 as real) / 2.0 else v2 as real;
      } else {
        w := if value < v1 then (Max(value, v2) as real + v1 as real) / 2.0 else v1 as real;
      }
      assert SegmentTakes(v1, v2, lowerInc, upperInc, w) && w >= value as real;
    }
  }

  /** The segment takes some value below the given one. */
  ghost predicate SomeBelow(v1: Value, v2: Value, lowerInc: bool, upperInc: bool, value: Value)
  {
    exists w :: SegmentTakes(v1, v2, lowerInc, upperInc, w) && w < value as real
  }

  /** Every value the segment takes is at most the given one. */
  ghost predicate AllAtMost(v1: Value, v2: Value, lowerInc: bool, upperInc: bool, value: Value)
  {
    forall w | SegmentTakes(v1, v2, lowerInc, upperInc, w) :: w <= value as real
  }

  /** A linear segment takes a value below the given one exactly when one of
      its ends is below it, whatever its bounds: next to an excluded end the
      segment takes values as close to it as one likes.  Likewise it stays at
      most the value exactly when both ends do. */
  lemma SegmentBelowAtEnds(v1: Value, v2: Value, lowerInc: bool, upperInc: bool, value: Value)
    ensures SomeBelow(v1, v2, lowerInc, upperInc, value) <==> (v1 < value || v2 < value)
    ensures AllAtMost(v1, v2, lowerInc, upperInc, value) <==> (v1 <= value && v2 <= value)
  {
    var lo := Min(v1, v2);
    var hi := Max(v1, v2);
    if v1 < value || v2 < value {
      var w := if lo == hi then lo as real else (lo as real + Min(value, hi) as real) / 2.0;
      assert SegmentTakes(v1, v2, lowerInc, upperInc, w) && w < value as real;
    }
    if !(v1 <= value && v2 <= value) {
      var w := if lo == hi then lo as real else (Max(value, lo) as real + hi as real) / 2.0;
      assert SegmentTakes(v1, v2, lowerInc, upperInc, w) && w > value as real;
    }
  }

  // ---------------------------------------------------------------------
  // Step sequences
  // ---------------------------------------------------------------------

  /** Instant k of a step sequence holds its value over part of the period:
      every instant but the last holds until the next one; the last one only
      when the upper bound is inclusive (or it is the only instant). */
  predicate Held(s: Sequence, k: int)
    requires s.Valid()
  {
    0 <= k < |s.instants| && (k < |s.instants| - 1 || s.upperInc || |s.instants| == 1)
  }

  /** Scanning every instant of a step sequence is scanning the instants
      that hold their value: the last instant behind an exclusive upper bound
      repeats the value of the one before. */
  lemma StepScanHeld(s: Sequence, p: Value -> bool)
    requires s.Valid() && !s.linear
    ensures (exists k | 0 <= k < |s.instants| :: p(s.instants[k].v)) <==>
              exists k | Held(s, k) :: p(s.instants[k].v)
  {
    var a := s.instants;
    if exists k | 0 <= k < |a| :: p(a[k].v) {
      var k :| 0 <= k < |a| && p(a[k].v);
      if !Held(s, k) {
        assert a[k].v == a[|a| - 2].v && Held(s, |a| - 2);
      }
    }
  }

  /** At any timestamp of its period a step sequence takes the value of an
      instant that holds its value. */
  lemma StepValueHeld(s: Sequence, t: Time, ops: Ops)
    requires s.Valid() && !s.linear && s.Span().Contains(t)
    ensures exists k | Held(s, k) :: ValueAtTimestamp(s, t, ops) == Some(s.instants[k].v)
  {
    StepValueAt(s, t, ops);
    var k := StepIndex(s.instants, t);
    assert Held(s, k);
  }

  /** An instant that holds its value takes it from its own timestamp (when
      that timestamp is in the period) until the next instant. */
  lemma HeldTaken(s: Sequence, k: nat, t: Time, ops: Ops)
    requires s.Valid() && !s.linear && Held(s, k)
    requires s.instants[k].t <= t && (k == |s.instants| - 1 || t < s.instants[k + 1].t)
    requires s.Span().Contains(t)
    ensures HasValue(s, t, s.instants[k].v, ops)
  {
    ValueAtInstants(s, t, k, ops);
  }

  /** If every instant's value satisfies p, so does the value of a step
      sequence at every timestamp of its period. */
  lemma StepAlways(s: Sequence, p: Value -> bool, ops: Ops)
    requires s.Valid() && !s.linear
    requires forall k | 0 <= k < |s.instants| :: p(s.instants[k].v)
    ensures forall t | s.Span().Contains(t) :: p(ValueAtTimestamp(s, t, ops).value)
  {
    forall t | s.Span().Contains(t) ensures p(ValueAtTimestamp(s, t, ops).value) {
      StepValueHeld(s, t, ops);
    }
  }

  // ---------------------------------------------------------------------
  // The operations
  // ---------------------------------------------------------------------

  /** tsequence_ever_eq: in step mode (or for one instant) some instant has
      the value.  In linear mode some segment ever equals it: exactly when
      tsequence_at_value finds a piece of that segment, only when the segment
      takes the value, and always when it takes it at an end. */
  method EverEq(s: Sequence, value: Value, ops: Ops) returns (r: bool)
    requires s.Valid()
    ensures !s.linear || |s.instants| == 1 ==>
              (r <==> exists k | 0 <= k < |s.instants| :: s.instants[k].v == value)
    ensures s.linear && |s.instants| > 1 ==>
              (r <==> exists k | 0 <= k < |s.instants| - 1 ::
                        AtValueSegment(s.instants[k], s.instants[k + 1], true,
                                       SegmentPeriod(s, k).lowerInc, SegmentPeriod(s, k).upperInc, value, ops).Some?)
    ensures s.linear && |s.instants| > 1 && r ==>
              exists k | 0 <= k < |s.instants| - 1 ::
                SegmentTakes(s.instants[k].v, s.instants[k + 1].v,
                             SegmentPeriod(s, k).lowerInc, SegmentPeriod(s, k).upperInc, value as real)
    ensures s.linear && |s.instants| > 1 ==>
              ((exists k | 0 <= k < |s.instants| - 1 ::
                  (s.instants[k].v == value || s.instants[k + 1].v == value) &&
                  SegmentTakes(s.instants[k].v, s.instants[k + 1].v,
                               SegmentPeriod(s, k).lowerInc, SegmentPeriod(s, k).upperInc, value as real)) ==> r)
  {
    if !s.linear || |s.instants| == 1 {
      r := AnyInstant(s.instants, w => w == value);
    } else {
      r := AnySegment(s, (i1, i2, li, ui) => EverEqSegment(i1, i2, li, ui, value, ops));
      var a := s.instants;
      forall k | 0 <= k < |a| - 1
        ensures EverEqSegment(a[k], a[k + 1], SegmentPeriod(s, k).lowerInc, SegmentPeriod(s, k).upperInc, value, ops) <==>
                  AtValueSegment(a[k], a[k + 1], true, SegmentPeriod(s, k).lowerInc, SegmentPeriod(s, k).upperInc, value, ops).Some?
      {
        EverEqAtValue(a[k], a[k + 1], SegmentPeriod(s, k).lowerInc, SegmentPeriod(s, k).upperInc, value, ops);
      }
    }
  }

  /** In step mode, a sequence none of whose instants has the value never
      takes it, and one that has it takes it where that value is held. */
  lemma EverEqStep(s: Sequence, value: Value, ops: Ops)
    requires s.Valid() && !s.linear
    ensures (forall k | 0 <= k < |s.instants| :: s.instants[k].v != value) ==>
              forall t :: !HasValue(s, t, value, ops)
    ensures (exists k | 0 <= k < |s.instants| :: s.instants[k].v == value) ==>
              exists k | Held(s, k) :: s.instants[k].v == value
  {
    StepScanHeld(s, w => w == value);
    if forall k | 0 <= k < |s.instants| :: s.instants[k].v != value {
      StepAlways(s, w => w != value, ops);
    }
  }

  /** tsequence_always_eq for types the bounding box does not decide: a
      sequence of more than two instants is taken not to be constant (it is
      normalized), otherwise every instant must have the value. */
  function AlwaysEq(s: Sequence, value: Value): (r: bool)
    requires s.Valid()
    ensures r ==> forall k | 0 <= k < |s.instants| :: s.instants[k].v == value
  {
    if |s.instants| > 2 then false
    else forall k | 0 <= k < |s.instants| :: s.instants[k].v == value
  }

  /** On a normalized sequence the count test loses nothing: three instants
      with one value would make the middle one redundant. */
  lemma AlwaysEqNormal(s: Sequence, value: Value, ops: Ops)
    requires s.Valid() && IsNormal(s.instants, s.linear, ops)
    ensures AlwaysEq(s, value) <==> forall k | 0 <= k < |s.instants| :: s.instants[k].v == value
  {
    var a := s.instants;
    if |a| > 2 && forall k | 0 <= k < |a| :: a[k].v == value {
      assert Redundant(s.linear, ops, a[0], a[1], a[2]);
      assert false;
    }
  }

  /** tsequence_ever_lt: some instant is below the value, in either mode. */
  method EverLt(s: Sequence, value: Value) returns (r: bool)
    requires s.Valid()
    ensures r <==> exists k | 0 <= k < |s.instants| :: s.instants[k].v < value
  {
    r := AnyInstant(s.instants, w => w < value);
  }

  /** tsequence_ever_le: in step mode (or for one instant) some instant is at
      most the value; in linear mode some segment's lowest value is. */
  method EverLe(s: Sequence, value: Value) returns (r: bool)
    requires s.Valid()
    ensures !s.linear || |s.instants| == 1 ==>
              (r <==> exists k | 0 <= k < |s.instants| :: s.instants[k].v <= value)
    ensures s.linear && |s.instants| > 1 ==>
              (r <==> exists k | 0 <= k < |s.instants| - 1 ::
                        EverLeSegment(s.instants[k].v, s.instants[k + 1].v,
                                      SegmentPeriod(s, k).lowerInc, SegmentPeriod(s, k).upperInc, value))
  {
    if !s.linear || |s.instants| == 1 {
      r := AnyInstant(s.instants, w => w <= value);
    } else {
      r := AnySegment(s, (i1: Instant, i2: Instant, li, ui) => EverLeSegment(i1.v, i2.v, li, ui, value));
    }
  }

  /** tsequence_always_lt: in step mode (or for one instant) every instant is
      below the value; in linear mode every segment's highest value is (with
      the constant-segment case corrected). */
  method AlwaysLt(s: Sequence, value: Value) returns (r: bool)
    requires s.Valid()
    ensures !s.linear || |s.instants| == 1 ==>
              (r <==> forall k | 0 <= k < |s.instants| :: s.instants[k].v < value)
    ensures s.linear && |s.instants| > 1 ==>
              (r <==> forall k | 0 <= k < |s.instants| - 1 ::
                        AlwaysLtSegment(s.instants[k].v, s.instants[k + 1].v,
                                        SegmentPeriod(s, k).lowerInc, SegmentPeriod(s, k).upperInc, value))
  {
    var b;
    if !s.linear || |s.instants| == 1 {
      b := AnyInstant(s.instants, w => !(w < value));
    } else {
      b := AnySegment(s, (i1: Instant, i2: Instant, li, ui) => !AlwaysLtSegment(i1.v, i2.v, li, ui, value));
    }
    r := !b;
  }

  /** tsequence_always_le: every instant is at most the value.  For numbers
      the source answers from the bounding box, whose upper value bound is the
      largest instant value; otherwise the interpolation is stepwise and it
      scans the instants. */
  method AlwaysLe(s: Sequence, value: Value) returns (r: bool)
    requires s.Valid()
    ensures r <==> forall k | 0 <= k < |s.instants| :: s.instants[k].v <= value
  {
    var b := AnyInstant(s.instants, w => !(w <= value));
    r := !b;
  }

  /** In linear mode the instant scan of tsequence_ever_lt answers for the
      segments: some segment takes a value below the given one exactly when
      some instant is below it (every instant is an end of a segment). */
  lemma LinearEverLtExact(s: Sequence, value: Value)
    requires s.Valid() && |s.instants| >= 2
    ensures (exists k | 0 <= k < |s.instants| :: s.instants[k].v < value) <==>
              exists k | 0 <= k < |s.instants| - 1 ::
                SomeBelow(s.instants[k].v, s.instants[k + 1].v, SegmentPeriod(s, k).lowerInc, SegmentPeriod(s, k).upperInc, value)
  {
    var a := s.instants;
    forall k | 0 <= k < |a| - 1
      ensures SomeBelow(a[k].v, a[k + 1].v, SegmentPeriod(s, k).lowerInc, SegmentPeriod(s, k).upperInc, value) <==>
                (a[k].v < value || a[k + 1].v < value)
    {
      SegmentBelowAtEnds(a[k].v, a[k + 1].v, SegmentPeriod(s, k).lowerInc, SegmentPeriod(s, k).upperInc, value);
    }
    if exists k | 0 <= k < |a| :: a[k].v < value {
      var k :| 0 <= k < |a| && a[k].v < value;
      var m := if k < |a| - 1 then k else k - 1;
      assert SomeBelow(a[m].v, a[m + 1].v, SegmentPeriod(s, m).lowerInc, SegmentPeriod(s, m).upperInc, value);
    }
  }

  /** In linear mode the instant scan of tsequence_always_le answers for the
      segments: every segment stays at most the value exactly when every
      instant does. */
  lemma LinearAlwaysLeExact(s: Sequence, value: Value)
    requires s.Valid() && |s.instants| >= 2
    ensures (forall k | 0 <= k < |s.instants| :: s.instants[k].v <= value) <==>
              forall k | 0 <= k < |s.instants| - 1 ::
                AllAtMost(s.instants[k].v, s.instants[k + 1].v, SegmentPeriod(s, k).lowerInc, SegmentPeriod(s, k).upperInc, value)
  {
    var a := s.instants;
    forall k | 0 <= k < |a| - 1
      ensures AllAtMost(a[k].v, a[k + 1].v, SegmentPeriod(s, k).lowerInc, SegmentPeriod(s, k).upperInc, value) <==>
                (a[k].v <= value && a[k + 1].v <= value)
    {
      SegmentBelowAtEnds(a[k].v, a[k + 1].v, SegmentPeriod(s, k).lowerInc, SegmentPeriod(s, k).upperInc, value);
    }
    if forall k | 0 <= k < |a| - 1 :: AllAtMost(a[k].v, a[k + 1].v, SegmentPeriod(s, k).lowerInc, SegmentPeriod(s, k).upperInc, value) {
      forall k | 0 <= k < |a| ensures a[k].v <= value {
        var m := if k < |a| - 1 then k else k - 1;
        assert AllAtMost(a[m].v, a[m + 1].v, SegmentPeriod(s, m).lowerInc, SegmentPeriod(s, m).upperInc, value);
      }
    }
  }
}
