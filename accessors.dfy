/** Small accessors of a temporal sequence: conversion of a step sequence to
    linear pieces (tstepseq_to_linear1), its distinct values
    (tsequence_values1), the instant with the minimum value
    (tsequence_min_instant) and its timestamps (tsequence_timestamps1). */
module TSequenceAccessors {
  import opened TemporalBase
  import opened Periods
  import opened TSequence
  import opened TSequenceSearch

  // ---------------------------------------------------------------------
  // Step to linear
  // ---------------------------------------------------------------------

  /** Piece i (1 <= i < count) of the conversion: the value of instant i-1
      held constant up to the timestamp of instant i.  Only the first piece
      keeps the lower bound of the sequence; only the last piece may include
      its upper end, and then only when the final step does not change the
      value. */
  function StepPiece(s: Sequence, i: nat): (p: Sequence)
    requires s.Valid() && 1 <= i < |s.instants|
    ensures p.Valid() && p.linear && |p.instants| == 2
    ensures p.instants[0] == s.instants[i - 1] && p.instants[1] == Instant(s.instants[i].t, s.instants[i - 1].v)
  {
    var a := s.instants;
    var n := |a|;
    Sequence([a[i - 1], Instant(a[i].t, a[i - 1].v)],
             if i == 1 then s.lowerInc else true,
             if i == n - 1 then s.upperInc && a[i - 1].v == a[i].v else false,
             true)
  }

  /** The final step needs its own instantaneous piece when the upper bound
      is inclusive and the value changes at the last instant. */
  predicate NeedsEndInstant(s: Sequence)
    requires s.Valid()
  {
    var a := s.instants;
    |a| > 1 && s.upperInc && a[|a| - 2].v != a[|a| - 1].v
  }

  /** The pieces tstepseq_to_linear1 produces, in order. */
  function StepPieces(s: Sequence): (r: seq<Sequence>)
    requires s.Valid()
    ensures |s.instants| == 1 ==> |r| == 1
    ensures |s.instants| > 1 ==> |r| == |s.instants| - 1 + (if NeedsEndInstant(s) then 1 else 0)
    ensures forall k | 0 <= k < |r| :: r[k].Valid() && r[k].linear
  {
    var a := s.instants;
    var n := |a|;
    if n == 1 then [s.(linear := true)]
    else
      seq(n - 1, k requires 0 <= k < n - 1 => StepPiece(s, k + 1))
        + (if NeedsEndInstant(s) then [Sequence([a[n - 1]], true, true, true)] else [])
  }

  /** tstepseq_to_linear1: one constant linear piece per step. */
  method StepToLinear(s: Sequence) returns (r: seq<Sequence>)
    requires s.Valid()
    ensures r == StepPieces(s)
  {
    var a := s.instants;
    var n := |a|;
    if n == 1 {
      return [s.(linear := true)];
    }
    var inst1 := a[0];
    var lowerInc := s.lowerInc;
    r := [];
    for i := 1 to n
      invariant inst1 == a[i - 1] && lowerInc == (i == 1 ==> s.lowerInc)
      invariant r == seq(i - 1, k requires 0 <= k < i - 1 => StepPiece(s, k + 1))
    {
      var inst2 := a[i];
      var upperInc := if i == n - 1 then s.upperInc && inst1.v == inst2.v else false;
      var piece := Sequence([inst1, Instant(inst2.t, inst1.v)], lowerInc, upperInc, true);
      assert piece == StepPiece(s, i);
      StepPiecesSnoc(s, i, r);
      r := r + [piece];
      inst1 := inst2;
      lowerInc := true;
    }
    if s.upperInc && a[n - 2].v != a[n - 1].v {
      r := r + [Sequence([a[n - 1]], true, true, true)];
    }
  }

  /** The pieces of the first i steps extend those of the first i - 1. */
  lemma StepPiecesSnoc(s: Sequence, i: nat, r: seq<Sequence>)
    requires s.Valid() && 1 <= i < |s.instants|
    requires r == seq(i - 1, k requires 0 <= k < i - 1 => StepPiece(s, k + 1))
    ensures r + [StepPiece(s, i)] == seq(i, k requires 0 <= k < i => StepPiece(s, k + 1))
  {
  }

  /** A linear sequence whose two instants carry the same value takes that
      value throughout its period. */
  lemma ConstantPieceValue(p: Sequence, t: Time, ops: Ops)
    requires p.Valid() && |p.instants| == 2 && p.instants[0].v == p.instants[1].v && p.Span().Contains(t)
    ensures ValueAtTimestamp(p, t, ops) == Some(p.instants[0].v)
  {
    SegmentOfFound(p, t);
  }

  /** A step piece covers part of the period of the sequence and takes the
      value the step sequence takes there. */
  lemma StepPieceAgrees(s: Sequence, i: nat, t: Time, ops: Ops)
    requires s.Valid() && !s.linear && 1 <= i < |s.instants| && StepPiece(s, i).Span().Contains(t)
    ensures s.Span().Contains(t)
    ensures ValueAtTimestamp(StepPiece(s, i), t, ops) == ValueAtTimestamp(s, t, ops)
  {
    var a := s.instants;
    assert a[0].t <= a[i - 1].t && a[i].t <= a[|a| - 1].t;
    ConstantPieceValue(StepPiece(s, i), t, ops);
    if t == a[i].t {
      ValueAtInstants(s, t, i, ops);
    } else {
      ValueAtInstants(s, t, i - 1, ops);
    }
  }

  /** The instantaneous end piece takes the last value at the last
      timestamp, as the step sequence does. */
  lemma EndPieceAgrees(s: Sequence, t: Time, ops: Ops)
    requires s.Valid() && !s.linear && NeedsEndInstant(s)
    requires Sequence([s.instants[|s.instants| - 1]], true, true, true).Span().Contains(t)
    ensures s.Span().Contains(t)
    ensures ValueAtTimestamp(Sequence([s.instants[|s.instants| - 1]], true, true, true), t, ops) == ValueAtTimestamp(s, t, ops)
  {
    var e := Sequence([s.instants[|s.instants| - 1]], true, true, true);
    ValueAtInstants(e, t, 0, ops);
    ValueAtInstants(s, t, |s.instants| - 1, ops);
  }

  /** A single-instant sequence converts to itself with linear
      interpolation, which has the same value at its one timestamp. */
  lemma SinglePieceAgrees(s: Sequence, t: Time, ops: Ops)
    requires s.Valid() && |s.instants| == 1 && s.(linear := true).Span().Contains(t)
    ensures s.Span().Contains(t)
    ensures ValueAtTimestamp(s.(linear := true), t, ops) == ValueAtTimestamp(s, t, ops)
  {
    ValueAtInstants(s.(linear := true), t, 0, ops);
    ValueAtInstants(s, t, 0, ops);
  }

  /** Piece k of the conversion: the step from instant k to k + 1, or the
      final instantaneous piece. */
  lemma StepPiecesIndex(s: Sequence, k: nat)
    requires s.Valid() && |s.instants| > 1 && k < |StepPieces(s)|
    ensures k < |s.instants| - 1 ==> StepPieces(s)[k] == StepPiece(s, k + 1)
    ensures k >= |s.instants| - 1 ==> NeedsEndInstant(s) && k == |s.instants| - 1
    ensures k >= |s.instants| - 1 ==> StepPieces(s)[k] == Sequence([s.instants[|s.instants| - 1]], true, true, true)
  {
  }

  /** Every timestamp of a step sequence lies in one of the pieces, and there
      the piece takes the value the step sequence takes. */
  lemma StepPiecesCover(s: Sequence, t: Time, ops: Ops) returns (k: nat)
    requires s.Valid() && !s.linear && s.Span().Contains(t)
    ensures k < |StepPieces(s)| && StepPieces(s)[k].Span().Contains(t)
    ensures ValueAtTimestamp(StepPieces(s)[k], t, ops) == ValueAtTimestamp(s, t, ops)
  {
    var a := s.instants;
    var n := |a|;
    var r := StepPieces(s);
    if n == 1 {
      k := 0;
      SinglePieceAgrees(s, t, ops);
    } else {
      var j := StepIndex(a, t);
      if j < n - 1 {
        k := j;
        StepPiecesIndex(s, k);
        StepPieceAgrees(s, j + 1, t, ops);
      } else if !NeedsEndInstant(s) {
        k := n - 2;
        StepPiecesIndex(s, k);
        StepPieceAgrees(s, n - 1, t, ops);
      } else {
        k := n - 1;
        StepPiecesIndex(s, k);
        EndPieceAgrees(s, t, ops);
      }
    }
  }

  /** Conversely a timestamp of any piece lies in the period of the step
      sequence, with the same value there. */
  lemma StepPiecesSound(s: Sequence, k: nat, t: Time, ops: Ops)
    requires s.Valid() && !s.linear && k < |StepPieces(s)| && StepPieces(s)[k].Span().Contains(t)
    ensures s.Span().Contains(t)
    ensures ValueAtTimestamp(StepPieces(s)[k], t, ops) == ValueAtTimestamp(s, t, ops)
  {
    var a := s.instants;
    var n := |a|;
    var r := StepPieces(s);
    if n == 1 {
      SinglePieceAgrees(s, t, ops);
    } else if k < n - 1 {
      StepPiecesIndex(s, k);
      StepPieceAgrees(s, k + 1, t, ops);
    } else {
      StepPiecesIndex(s, k);
      EndPieceAgrees(s, t, ops);
    }
  }

  /** The pieces follow each other in time without overlapping. */
  lemma StepPiecesOrdered(s: Sequence, k: nat)
    requires s.Valid() && k + 1 < |StepPieces(s)|
    ensures Before(StepPieces(s)[k].Span(), StepPieces(s)[k + 1].Span())
  {
    var a := s.instants;
    var n := |a|;
    var r := StepPieces(s);
    assert r[k] == StepPiece(s, k + 1);
    if k + 1 < n - 1 {
      assert r[k + 1] == StepPiece(s, k + 2);
    } else {
      assert r[k + 1] == Sequence([a[n - 1]], true, true, true);
    }
  }

  // ---------------------------------------------------------------------
  // Distinct values
  // ---------------------------------------------------------------------

  predicate SortedValues(vs: seq<Value>)
  {
    forall i, j | 0 <= i < j < |vs| :: vs[i] <= vs[j]
  }

  predicate StrictlySorted(vs: seq<Value>)
  {
    forall i, j | 0 <= i < j < |vs| :: vs[i] < vs[j]
  }

  /** The values of the instants, in instant order. */
  function InstantValues(a: seq<Instant>): (r: seq<Value>)
    ensures |r| == |a| && forall i | 0 <= i < |a| :: r[i] == a[i].v
  {
    seq(|a|, i requires 0 <= i < |a| => a[i].v)
  }

  /** Insertion into a sorted list. */
  function Insert(x: Value, vs: seq<Value>): (r: seq<Value>)
    requires SortedValues(vs)
    ensures SortedValues(r) && multiset(r) == multiset(vs) + multiset{x}
  {
    if vs == [] || x <= vs[0] then [x] + vs
    else
      assert vs == [vs[0]] + vs[1..];
      var rest := Insert(x, vs[1..]);
      InsertBelowHead(x, vs, rest);
      [vs[0]] + rest
  }

  /** Putting back the head of a sorted list in front of the insertion into
      its tail keeps the order. */
  lemma InsertBelowHead(x: Value, vs: seq<Value>, rest: seq<Value>)
    requires SortedValues(vs) && vs != [] && vs[0] < x
    requires SortedValues(rest) && multiset(rest) == multiset(vs[1..]) + multiset{x}
    ensures SortedValues([vs[0]] + rest)
  {
    forall i | 0 <= i < |rest| ensures vs[0] <= rest[i] {
      assert rest[i] in multiset(rest);
      if rest[i] != x {
        assert rest[i] in multiset(vs[1..]);
        var j :| 0 <= j < |vs[1..]| && vs[1..][j] == rest[i];
        assert vs[j + 1] == rest[i];
      }
    }
  }

  /** datumarr_sort: the values in nondecreasing order (the sort routine is
      not part of this model; any sort gives this result). */
  function Sort(vs: seq<Value>): (r: seq<Value>)
    ensures SortedValues(r) && multiset(r) == multiset(vs)
  {
    if vs == [] then []
    else
      assert vs == [vs[0]] + vs[1..];
      Insert(vs[0], Sort(vs[1..]))
  }

  /** datumarr_remove_duplicates: keep the first of every run of equal
      values of a sorted list. */
  method RemoveDuplicates(vs: seq<Value>) returns (r: seq<Value>)
    requires |vs| > 0 && SortedValues(vs)
    ensures StrictlySorted(r) && 0 < |r| <= |vs|
    ensures forall v :: v in r <==> v in vs
  {
    r := [vs[0]];
    for i := 1 to |vs|
      invariant 0 < |r| <= i && StrictlySorted(r) && r[|r| - 1] == vs[i - 1]
      invariant forall v :: v in r <==> v in vs[..i]
    {
      assert vs[..i + 1] == vs[..i] + [vs[i]];
      if r[|r| - 1] != vs[i] {
        r := r + [vs[i]];
      }
    }
    assert vs[..|vs|] == vs;
  }

  /** tsequence_values1: the distinct values of the instants, ascending. */
  method Values(s: Sequence) returns (r: seq<Value>)
    requires s.Valid()
    ensures StrictlySorted(r) && 0 < |r| <= |s.instants|
    ensures forall v :: v in r <==> v in InstantValues(s.instants)
  {
    var a := s.instants;
    var vs: seq<Value> := [];
    for i := 0 to |a|
      invariant vs == InstantValues(a[..i])
    {
      assert a[..i + 1] == a[..i] + [a[i]];
      vs := vs + [a[i].v];
    }
    assert a[..|a|] == a;
    if |a| > 1 {
      var sorted := Sort(vs);
      assert forall v :: v in sorted <==> v in vs by {
        forall v ensures v in sorted <==> v in vs {
          assert v in sorted <==> v in multiset(sorted);
          assert v in vs <==> v in multiset(vs);
        }
      }
      r := RemoveDuplicates(sorted);
    } else {
      r := vs;
    }
  }

  // ---------------------------------------------------------------------
  // Minimum instant and timestamps
  // ---------------------------------------------------------------------

  /** tsequence_min_instant: the instant with the smallest value, the
      earliest one when several share it (bounds are not looked at). */
  method MinInstant(s: Sequence) returns (m: Instant)
    requires s.Valid()
    ensures m in s.instants
    ensures forall i | 0 <= i < |s.instants| :: m.v <= s.instants[i].v
    ensures forall i | 0 <= i < |s.instants| && s.instants[i].v == m.v :: m.t <= s.instants[i].t
  {
    var a := s.instants;
    var min := a[0].v;
    var k := 0;
    for i := 1 to |a|
      invariant 0 <= k < i && min == a[k].v
      invariant forall j | 0 <= j < i :: min <= a[j].v
      invariant forall j | 0 <= j < k :: min < a[j].v
    {
      if a[i].v < min {
        min := a[i].v;
        k := i;
      }
    }
    m := a[k];
    forall i | 0 <= i < |a| && a[i].v == m.v ensures m.t <= a[i].t {
      if i < k {
        assert false;
      }
    }
  }

  /** tsequence_timestamps1: the timestamps of the instants, strictly
      increasing. */
  method Timestamps(s: Sequence) returns (times: seq<Time>)
    requires s.Valid()
    ensures |times| == |s.instants| && forall i | 0 <= i < |times| :: times[i] == s.instants[i].t
    ensures forall i, j | 0 <= i < j < |times| :: times[i] < times[j]
  {
    var a := s.instants;
    times := [];
    for i := 0 to |a|
      invariant |times| == i && forall j | 0 <= j < i :: times[j] == a[j].t
    {
      times := times + [a[i].t];
    }
  }
}
