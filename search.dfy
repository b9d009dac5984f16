/** Segment lookup by binary search and the value of a sequence at a
    timestamp. */
module TSequenceSearch {
  import opened TemporalBase
  import opened Periods
  import opened TSequence

  /** Segment n (instants n and n+1) holds t: strictly inside, or at its start
      (at the very first instant only if the lower bound is inclusive), or at
      the end of the last segment when the upper bound is inclusive. */
  predicate InSegment(s: Sequence, n: int, t: Time)
    requires s.Valid() && 0 <= n <= |s.instants| - 2
  {
    var i1 := s.instants[n];
    var i2 := s.instants[n + 1];
    || (i1.t < t && t < i2.t)
    || ((n > 0 || s.lowerInc) && i1.t == t)
    || (n == |s.instants| - 2 && s.upperInc && i2.t == t)
  }

  lemma SegmentUnique(s: Sequence, n: int, m: int, t: Time)
    requires s.Valid() && 0 <= n <= |s.instants| - 2 && 0 <= m <= |s.instants| - 2
    requires InSegment(s, n, t) && InSegment(s, m, t)
    ensures n == m
  {
    if n < m {
      assert false;
    } else if m < n {
      assert false;
    }
  }

  /** Reference definition of the lookup: a linear search from segment k. */
  function SegmentFrom(s: Sequence, t: Time, k: nat): (n: int)
    requires s.Valid()
    ensures n == -1 || k <= n <= |s.instants| - 2
    ensures n >= 0 ==> InSegment(s, n, t)
    ensures n == -1 ==> forall j | k <= j <= |s.instants| - 2 :: !InSegment(s, j, t)
    decreases |s.instants| - k
  {
    if k > |s.instants| - 2 then -1
    else if InSegment(s, k, t) then k
    else SegmentFrom(s, t, k + 1)
  }

  /** The segment of s holding t, or -1. */
  function SegmentOf(s: Sequence, t: Time): (n: int)
    requires s.Valid()
    ensures -1 <= n <= |s.instants| - 2
    ensures n >= 0 ==> InSegment(s, n, t)
    ensures n == -1 ==> forall j | 0 <= j <= |s.instants| - 2 :: !InSegment(s, j, t)
  {
    SegmentFrom(s, t, 0)
  }

  /** A timestamp inside the period of a sequence of two or more instants
      lies in one of its segments. */
  lemma {:induction false} SegmentReach(s: Sequence, t: Time, k: nat)
    requires s.Valid() && |s.instants| >= 2 && k <= |s.instants| - 2
    requires s.Span().Contains(t)
    requires s.instants[k].t < t || (s.instants[k].t == t && (k > 0 || s.lowerInc))
    ensures SegmentFrom(s, t, k) >= 0
    decreases |s.instants| - k
  {
    if !InSegment(s, k, t) {
      assert s.instants[k + 1].t <= t;
      SegmentReach(s, t, k + 1);
    }
  }

  /** The lookup succeeds exactly on the timestamps of the period. */
  lemma SegmentOfFound(s: Sequence, t: Time)
    requires s.Valid()
    ensures SegmentOf(s, t) >= 0 <==> |s.instants| >= 2 && s.Span().Contains(t)
    ensures SegmentOf(s, t) >= 0 ==>
      s.instants[SegmentOf(s, t)].t <= t <= s.instants[SegmentOf(s, t) + 1].t
  {
    if |s.instants| >= 2 && s.Span().Contains(t) {
      SegmentReach(s, t, 0);
    }
    var n := SegmentOf(s, t);
    if n >= 0 {
      assert s.instants[0].t <= s.instants[n].t && s.instants[n + 1].t <= s.instants[|s.instants| - 1].t;
    }
  }

  /** tsequence_find_timestamp: binary search over the segments. */
  method FindTimestamp(s: Sequence, t: Time) returns (n: int)
    requires s.Valid()
    ensures n == SegmentOf(s, t)
    ensures n == -1 <==> !(|s.instants| >= 2 && s.Span().Contains(t))
    ensures n >= 0 ==> s.instants[n].t <= t <= s.instants[n + 1].t
  {
    var first := 0;
    var last := |s.instants| - 2;
    while first <= last
      invariant 0 <= first && last <= |s.instants| - 2
      invariant forall k | 0 <= k <= |s.instants| - 2 && InSegment(s, k, t) :: first <= k <= last
      decreases last - first
    {
      var middle := (first + last) / 2;
      var inst1 := s.instants[middle];
      var inst2 := s.instants[middle + 1];
      var lowerInc := if middle == 0 then s.lowerInc else true;
      var upperInc := if middle == |s.instants| - 2 then s.upperInc else false;
      if (inst1.t < t && t < inst2.t) || (lowerInc && inst1.t == t) || (upperInc && inst2.t == t) {
        assert InSegment(s, middle, t);
        SegmentUnique(s, middle, SegmentOf(s, t), t);
        SegmentOfFound(s, t);
        return middle;
      }
      if t <= inst1.t {
        forall k | middle < k <= |s.instants| - 2 ensures !InSegment(s, k, t) {
          assert inst1.t < s.instants[k].t;
        }
        last := middle - 1;
      } else {
        forall k | 0 <= k < middle ensures !InSegment(s, k, t) {
          assert s.instants[k + 1].t <= inst1.t;
        }
        first := middle + 1;
      }
    }
    SegmentOfFound(s, t);
    return -1;
  }

  /** tsequence_value_at_timestamp1 restricted to what is not floating-point:
      a constant segment, the segment start and step interpolation give the
      start value; the segment end gives the end value; strictly inside a
      linear segment the value is the (uninterpreted) linear blend. */
  function SegmentValue(i1: Instant, i2: Instant, linear: bool, t: Time, ops: Ops): (v: Value)
    requires i1.t <= t <= i2.t
    ensures t == i1.t || (!linear && t < i2.t) ==> v == i1.v
    ensures t == i2.t && i1.t < t ==> v == i2.v
    ensures i1.v == i2.v ==> v == i1.v
    ensures !linear ==> v == i1.v || v == i2.v
  {
    if i1.v == i2.v || i1.t == t || (!linear && t < i2.t) then i1.v
    else if i2.t == t then i2.v
    else ops.blend(i1, i2, t)
  }

  /** tsequence_value_at_timestamp: the value at t, or None outside the period. */
  function ValueAtTimestamp(s: Sequence, t: Time, ops: Ops): (r: Option<Value>)
    requires s.Valid()
    ensures r.Some? <==> s.Span().Contains(t)
  {
    if !s.Span().Contains(t) then None
    else if |s.instants| == 1 then Some(s.instants[0].v)
    else
      SegmentOfFound(s, t);
      var n := SegmentOf(s, t);
      Some(SegmentValue(s.instants[n], s.instants[n + 1], s.linear, t, ops))
  }

  /** tsequence_at_timestamp: the instant at t, or None outside the period. */
  function AtTimestamp(s: Sequence, t: Time, ops: Ops): (r: Option<Instant>)
    requires s.Valid()
    ensures r.Some? <==> s.Span().Contains(t)
    ensures r.Some? ==> r.value.t == t && r.value.v == ValueAtTimestamp(s, t, ops).value
  {
    match ValueAtTimestamp(s, t, ops)
    case None => None
    case Some(v) => Some(Instant(t, v))
  }

  /** At the timestamp of one of its instants, a sequence takes that instant's
      value; in step mode, at any timestamp of its period it takes the value of
      the last instant at or before it. */
  lemma ValueAtInstants(s: Sequence, t: Time, k: nat, ops: Ops)
    requires s.Valid() && s.Span().Contains(t) && k < |s.instants|
    requires s.instants[k].t == t || (!s.linear && s.instants[k].t <= t && (k == |s.instants| - 1 || t < s.instants[k + 1].t))
    ensures ValueAtTimestamp(s, t, ops) == Some(s.instants[k].v)
  {
    if |s.instants| >= 2 {
      SegmentOfFound(s, t);
      var n := SegmentOf(s, t);
      if n + 1 < k {
        assert false;
      } else if k < n {
        assert false;
      }
    }
  }

  /** Step interpolation read off an instant array: the index of the last
      instant at or before t. */
  function StepIndex(s: seq<Instant>, t: Time): (k: nat)
    requires |s| >= 1 && s[0].t <= t
    ensures k < |s| && s[k].t <= t
    ensures k == |s| - 1 || t < s[k + 1].t
    decreases |s|
  {
    if |s| == 1 || t < s[1].t then 0 else 1 + StepIndex(s[1..], t)
  }

  /** Past the last timestamp the step index is the last instant. */
  lemma StepIndexAfterLast(s: seq<Instant>, t: Time)
    requires |s| >= 1 && s[0].t <= t && Increasing(s) && s[|s| - 1].t <= t
    ensures StepIndex(s, t) == |s| - 1
  {
    var k := StepIndex(s, t);
    if k < |s| - 1 {
      assert false;
    }
  }

  /** In step mode the value at t is the value of the last instant at or
      before t. */
  lemma StepValueAt(s: Sequence, t: Time, ops: Ops)
    requires s.Valid() && !s.linear && s.Span().Contains(t)
    ensures ValueAtTimestamp(s, t, ops) == Some(s.instants[StepIndex(s.instants, t)].v)
  {
    ValueAtInstants(s, t, StepIndex(s.instants, t), ops);
  }

  /** The step value read off the instants is the value at the step index. */
  lemma {:induction false} StepValueOfIndex(s: seq<Instant>, t: Time)
    requires |s| >= 1 && s[0].t <= t
    ensures StepValueOf(s, t) == s[StepIndex(s, t)].v
    decreases |s|
  {
    if |s| > 1 && s[1].t <= t {
      StepValueOfIndex(s[1..], t);
      assert s[1..][StepIndex(s[1..], t)] == s[1 + StepIndex(s[1..], t)];
    }
  }

  /** tsequence_make with NORMALIZE, step mode: the normalized sequence
      takes the value of the original at every timestamp. */
  lemma NormalizeStepValues(q: Sequence, ops: Ops, t: Time)
    requires q.Valid() && !q.linear && |q.instants| >= 2
    ensures var r := Sequence(Normalize(q.instants, false, ops), q.lowerInc, q.upperInc, false);
            r.Valid() && ValueAtTimestamp(r, t, ops) == ValueAtTimestamp(q, t, ops)
  {
    var r := Sequence(Normalize(q.instants, false, ops), q.lowerInc, q.upperInc, false);
    NormalizeValid(q, ops);
    if q.Span().Contains(t) {
      StepValueAt(q, t, ops);
      StepValueAt(r, t, ops);
      StepValueOfIndex(q.instants, t);
      StepValueOfIndex(r.instants, t);
      NormalizeStepValue(q.instants, ops, t);
    }
  }
}
