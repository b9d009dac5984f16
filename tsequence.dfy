/** The temporal sequence (TSequence) as a value, its validity invariant,
    the instant-array normalizer and the single constructor. */
module TSequence {
  import opened TemporalBase
  import opened Periods

  /** A temporal sequence: instants in time order, the inclusivity of the two
      bounds of its period, and the interpolation (linear or step).  The
      packed single-allocation layout, the bounding box and the precomputed
      trajectory are not modelled; the period is derived from the first and
      the last instant. */
  datatype Sequence = Sequence(instants: seq<Instant>, lowerInc: bool, upperInc: bool, linear: bool)
  {
    function Count(): nat { |instants| }

    /** The invariant tsequence_make establishes for every sequence it builds. */
    predicate Valid()
    {
      && |instants| >= 1
      && Increasing(instants)
      && (|instants| == 1 ==> lowerInc && upperInc)
      && (!linear && |instants| > 1 && !upperInc ==>
            instants[|instants| - 1].v == instants[|instants| - 2].v)
    }

    function First(): Instant requires |instants| >= 1 { instants[0] }
    function Last(): Instant requires |instants| >= 1 { instants[|instants| - 1] }

    /** The bounding period of the sequence. */
    function Span(): (p: Period)
      requires Valid()
      ensures p.Valid()
      ensures p.lower == instants[0].t && p.upper == instants[|instants| - 1].t
    {
      Period(instants[0].t, instants[|instants| - 1].t, lowerInc, upperInc)
    }
  }

  /** Every sequence of the array is valid. */
  predicate AllValid(ss: seq<Sequence>)
  {
    forall i | 0 <= i < |ss| :: ss[i].Valid()
  }

  /** The collapsing rule of the normalizer: with a kept at the left and c
      at the right, b does not change the represented function.  Step: b
      repeats the value of a.  Linear: a, b, c have one value, or b lies on
      the segment a .. c. */
  predicate Redundant(linear: bool, ops: Ops, a: Instant, b: Instant, c: Instant)
  {
    || (!linear && a.v == b.v)
    || (linear && a.v == b.v && b.v == c.v)
    || (linear && ops.collinear(a.v, b.v, c.v, a.t, b.t, c.t))
  }

  /** Normal form: no inner instant is redundant between its neighbours. */
  predicate IsNormal(s: seq<Instant>, linear: bool, ops: Ops)
  {
    forall i | 0 < i < |s| - 1 :: !Redundant(linear, ops, s[i - 1], s[i], s[i + 1])
  }

  /** The normalizer's scan: `kept` is the last instant emitted, `pending`
      the candidate, `rest` the input not yet read.  Returns the instants
      emitted from `pending` on. */
  function Scan(linear: bool, ops: Ops, kept: Instant, pending: Instant, rest: seq<Instant>): (r: seq<Instant>)
    ensures 1 <= |r| <= |rest| + 1
    ensures r[|r| - 1] == ([pending] + rest)[|rest|]
    decreases |rest|
  {
    if rest == [] then [pending]
    else if Redundant(linear, ops, kept, pending, rest[0]) then
      Scan(linear, ops, kept, rest[0], rest[1..])
    else
      [pending] + Scan(linear, ops, pending, rest[0], rest[1..])
  }

  /** The scan emits an order-preserving selection of its input. */
  lemma {:induction false} ScanSubseq(linear: bool, ops: Ops, kept: Instant, pending: Instant, rest: seq<Instant>)
    ensures SubseqOf(Scan(linear, ops, kept, pending, rest), [pending] + rest)
    decreases |rest|
  {
    if rest != [] {
      assert ([pending] + rest)[1..] == rest;
      assert [rest[0]] + rest[1..] == rest;
      if Redundant(linear, ops, kept, pending, rest[0]) {
        ScanSubseq(linear, ops, kept, rest[0], rest[1..]);
      } else {
        var tail := Scan(linear, ops, pending, rest[0], rest[1..]);
        ScanSubseq(linear, ops, pending, rest[0], rest[1..]);
        assert ([pending] + tail)[1..] == tail;
      }
    }
  }

  /** tinstantarr_normalize, as a function of the input array. */
  function Normalize(s: seq<Instant>, linear: bool, ops: Ops): seq<Instant>
    requires |s| >= 2
  {
    [s[0]] + Scan(linear, ops, s[0], s[1], s[2..])
  }

  /** tinstantarr_normalize: a left-to-right scan with a two-instant window
      (inst1 last kept, inst2 pending) that drops redundant instants. */
  method NormalizeInstants(instants: seq<Instant>, linear: bool, ops: Ops) returns (result: seq<Instant>)
    requires |instants| >= 2
    ensures result == Normalize(instants, linear, ops)
  {
    var inst1 := instants[0];
    var inst2 := instants[1];
    result := [inst1];
    var i := 2;
    while i < |instants|
      invariant 2 <= i <= |instants|
      invariant inst2 == instants[i - 1]
      invariant result + Scan(linear, ops, inst1, inst2, instants[i..]) == Normalize(instants, linear, ops)
    {
      var inst3 := instants[i];
      assert instants[i..][0] == inst3 && instants[i..][1..] == instants[i + 1..];
      if Redundant(linear, ops, inst1, inst2, inst3) {
        inst2 := inst3;
      } else {
        result := result + [inst2];
        inst1 := inst2;
        inst2 := inst3;
      }
      i := i + 1;
    }
    result := result + [inst2];
  }

  /** Normalization keeps an order-preserving subsequence of its input, with
      the first and the last instant, and never grows the array. */
  lemma NormalizeShape(s: seq<Instant>, linear: bool, ops: Ops)
    requires |s| >= 2
    ensures var r := Normalize(s, linear, ops);
      && 2 <= |r| <= |s|
      && r[0] == s[0] && r[|r| - 1] == s[|s| - 1]
      && SubseqOf(r, s)
  {
    var sc := Scan(linear, ops, s[0], s[1], s[2..]);
    ScanSubseq(linear, ops, s[0], s[1], s[2..]);
    assert [s[1]] + s[2..] == s[1..];
    assert ([s[0]] + sc)[1..] == sc;
    assert s[1..][|s[2..]|] == s[|s| - 1];
  }

  lemma NormalizeIncreasing(s: seq<Instant>, linear: bool, ops: Ops)
    requires |s| >= 2 && Increasing(s)
    ensures Increasing(Normalize(s, linear, ops))
    ensures forall x | x in Normalize(s, linear, ops) :: x in s
  {
    NormalizeShape(s, linear, ops);
    SubseqOfIncreasing(Normalize(s, linear, ops), s);
  }

  /** On an array already in normal form the scan keeps everything. */
  lemma {:induction false} ScanOfNormal(linear: bool, ops: Ops, kept: Instant, pending: Instant, rest: seq<Instant>)
    requires IsNormal([kept, pending] + rest, linear, ops)
    ensures Scan(linear, ops, kept, pending, rest) == [pending] + rest
    decreases |rest|
  {
    if rest != [] {
      var w := [kept, pending] + rest;
      assert w[0] == kept && w[1] == pending && w[2] == rest[0];
      assert !Redundant(linear, ops, kept, pending, rest[0]);
      var w' := [pending, rest[0]] + rest[1..];
      assert w' == w[1..];
      assert IsNormal(w', linear, ops) by {
        forall i | 0 < i < |w'| - 1 ensures !Redundant(linear, ops, w'[i - 1], w'[i], w'[i + 1]) {
          assert w'[i - 1] == w[i] && w'[i] == w[i + 1] && w'[i + 1] == w[i + 2];
        }
      }
      ScanOfNormal(linear, ops, pending, rest[0], rest[1..]);
      assert [rest[0]] + rest[1..] == rest;
    }
  }

  /** The first two instants of an array and the rest. */
  lemma SplitTwo(s: seq<Instant>)
    requires |s| >= 2
    ensures [s[0], s[1]] + s[2..] == s && [s[0]] + ([s[1]] + s[2..]) == s
  {
  }

  /** Normalization is the identity on normal arrays. */
  lemma NormalizeIdempotent(s: seq<Instant>, linear: bool, ops: Ops)
    requires |s| >= 2 && IsNormal(s, linear, ops)
    ensures Normalize(s, linear, ops) == s
  {
    SplitTwo(s);
    ScanOfNormal(linear, ops, s[0], s[1], s[2..]);
  }

  /** Step mode: every instant emitted before the final one carries a value
      different from its predecessor `kept`. */
  lemma {:induction false} ScanStepNormal(ops: Ops, kept: Instant, pending: Instant, rest: seq<Instant>)
    ensures IsNormal([kept] + Scan(false, ops, kept, pending, rest), false, ops)
    decreases |rest|
  {
    var r := Scan(false, ops, kept, pending, rest);
    if rest == [] {
    } else if Redundant(false, ops, kept, pending, rest[0]) {
      ScanStepNormal(ops, kept, rest[0], rest[1..]);
    } else {
      var tail := Scan(false, ops, pending, rest[0], rest[1..]);
      ScanStepNormal(ops, pending, rest[0], rest[1..]);
      var w := [kept] + r;
      assert w == [kept] + ([pending] + tail);
      forall i | 0 < i < |w| - 1 ensures !Redundant(false, ops, w[i - 1], w[i], w[i + 1]) {
        if i > 1 {
          var u := [pending] + tail;
          assert w[i - 1] == u[i - 2] && w[i] == u[i - 1] && w[i + 1] == u[i];
        }
      }
    }
  }

  /** In step mode normalization yields a normal array: an instant whose value
      equals its kept predecessor's value is dropped.  With the previous
      lemma, normalizing twice is normalizing once. */
  lemma NormalizeStepIsNormal(s: seq<Instant>, ops: Ops)
    requires |s| >= 2
    ensures IsNormal(Normalize(s, false, ops), false, ops)
    ensures Normalize(Normalize(s, false, ops), false, ops) == Normalize(s, false, ops)
  {
    ScanStepNormal(ops, s[0], s[1], s[2..]);
    NormalizeShape(s, false, ops);
    NormalizeIdempotent(Normalize(s, false, ops), false, ops);
  }

  /** Step mode: the value before the last emitted instant is the value of
      the input instant before the last one. */
  lemma {:induction false} ScanStepPenultimate(ops: Ops, kept: Instant, pending: Instant, rest: seq<Instant>)
    requires rest != []
    ensures var w := [kept] + Scan(false, ops, kept, pending, rest);
      |w| >= 2 && w[|w| - 2].v == ([pending] + rest)[|rest| - 1].v
    decreases |rest|
  {
    if |rest| == 1 {
    } else if Redundant(false, ops, kept, pending, rest[0]) {
      ScanStepPenultimate(ops, kept, rest[0], rest[1..]);
      assert ([rest[0]] + rest[1..])[|rest| - 2] == rest[|rest| - 2];
    } else {
      ScanStepPenultimate(ops, pending, rest[0], rest[1..]);
      assert ([rest[0]] + rest[1..])[|rest| - 2] == rest[|rest| - 2];
    }
  }

  /** Normalizing the instants of a valid sequence gives a valid sequence
      with the same period. */
  lemma NormalizeValid(q: Sequence, ops: Ops)
    requires q.Valid() && |q.instants| >= 2
    ensures var r := Sequence(Normalize(q.instants, q.linear, ops), q.lowerInc, q.upperInc, q.linear);
      r.Valid() && r.Span() == q.Span()
  {
    var s := q.instants;
    var n := Normalize(s, q.linear, ops);
    NormalizeEnds(s, q.linear, ops);
    if !q.linear {
      if |s| > 2 {
        NormalizeStepPenultimate(s, ops);
      } else {
        assert n[|n| - 2] == s[|s| - 2];
      }
    }
    SameEndsValid(q, n);
  }

  /** Normalizing an increasing array keeps it increasing, with the same
      first and last instant. */
  lemma NormalizeEnds(s: seq<Instant>, linear: bool, ops: Ops)
    requires |s| >= 2 && Increasing(s)
    ensures var n := Normalize(s, linear, ops);
      && 2 <= |n| <= |s| && n[0] == s[0] && n[|n| - 1] == s[|s| - 1] && Increasing(n)
  {
    NormalizeShape(s, linear, ops);
    NormalizeIncreasing(s, linear, ops);
  }

  /** Step mode: normalizing keeps the value before the last instant. */
  lemma NormalizeStepPenultimate(s: seq<Instant>, ops: Ops)
    requires |s| > 2
    ensures var n := Normalize(s, false, ops);
      |n| >= 2 && n[|n| - 2].v == s[|s| - 2].v
  {
    ScanStepPenultimate(ops, s[0], s[1], s[2..]);
    assert ([s[1]] + s[2..])[|s[2..]| - 1] == s[|s| - 2];
  }

  /** Instants that keep the first and the last instant of a valid sequence,
      increase, and (in step mode) keep the value before the last one, make
      a valid sequence with the same period. */
  lemma SameEndsValid(q: Sequence, n: seq<Instant>)
    requires q.Valid() && |q.instants| >= 2 && Increasing(n) && |n| >= 2
    requires n[0] == q.instants[0] && n[|n| - 1] == q.instants[|q.instants| - 1]
    requires !q.linear ==> n[|n| - 2].v == q.instants[|q.instants| - 2].v
    ensures var r := Sequence(n, q.lowerInc, q.upperInc, q.linear);
      r.Valid() && r.Span() == q.Span()
  {
  }

  /** tsequence_make: validate the instants and bounds, then normalize on
      request.  Fails on non-increasing timestamps, on an instantaneous
      sequence with an exclusive bound, and on a step sequence with an
      exclusive upper bound whose last two values differ. */
  function Make(instants: seq<Instant>, lowerInc: bool, upperInc: bool, linear: bool,
                normalize: bool, ops: Ops): (r: Result<Sequence>)
    requires |instants| > 0
    ensures r.Success? <==> Sequence(instants, lowerInc, upperInc, linear).Valid()
    ensures !Increasing(instants) ==> r == Failure(NonMonotonicTime)
    ensures Increasing(instants) && |instants| == 1 && !(lowerInc && upperInc) ==> r == Failure(InvalidBounds)
    ensures (Increasing(instants) && !linear && |instants| > 1 && !upperInc
             && instants[|instants| - 1].v != instants[|instants| - 2].v) ==> r == Failure(InvalidEndValue)
    ensures r.Success? ==> && r.value.Valid()
                           && r.value.Span() == Sequence(instants, lowerInc, upperInc, linear).Span()
                           && r.value.linear == linear
                           && SubseqOf(r.value.instants, instants)
    ensures r.Success? && (!normalize || |instants| == 1) ==> r.value.instants == instants
    ensures r.Success? && normalize && |instants| > 1 ==>
              r.value.instants == Normalize(instants, linear, ops)
  {
    var n := |instants|;
    if !Increasing(instants) then Failure(NonMonotonicTime)
    else if n == 1 && (!lowerInc || !upperInc) then Failure(InvalidBounds)
    else if !linear && n > 1 && !upperInc && instants[n - 1].v != instants[n - 2].v then
      Failure(InvalidEndValue)
    else
      var q := Sequence(instants, lowerInc, upperInc, linear);
      if normalize && n > 1 then
        NormalizeValid(q, ops);
        NormalizeShape(instants, linear, ops);
        Success(Sequence(Normalize(instants, linear, ops), lowerInc, upperInc, linear))
      else
        SubseqOfRefl(instants);
        Success(q)
  }

  /** The value step interpolation reads off an instant array at t: that of
      the last instant at or before t (the first one before the array
      starts). */
  function StepValueOf(s: seq<Instant>, t: Time): Value
    requires |s| >= 1
    decreases |s|
  {
    if |s| == 1 || t < s[1].t then s[0].v else StepValueOf(s[1..], t)
  }

  /** The step value of an array with one more instant in front. */
  lemma StepValueCons(a: Instant, w: seq<Instant>, t: Time)
    requires |w| >= 1
    ensures StepValueOf([a] + w, t) == if t < w[0].t then a.v else StepValueOf(w, t)
  {
    assert ([a] + w)[1..] == w;
  }

  /** The rest of an increasing array is increasing and starts after its
      first instant. */
  lemma IncreasingTail(s: seq<Instant>)
    requires |s| >= 1 && Increasing(s)
    ensures Increasing(s[1..]) && (|s| > 1 ==> s[0].t < s[1..][0].t)
  {
  }

  /** Step mode: what the scan emits after `kept` takes the same step value
      at every timestamp as what it reads. */
  lemma {:induction false} ScanStepValue(ops: Ops, kept: Instant, pending: Instant, rest: seq<Instant>, t: Time)
    requires Increasing(rest) && (rest != [] ==> pending.t < rest[0].t)
    ensures StepValueOf([kept] + Scan(false, ops, kept, pending, rest), t) == StepValueOf([kept, pending] + rest, t)
    decreases |rest|
  {
    if rest != [] {
      var tail := rest[1..];
      IncreasingTail(rest);
      assert [kept, pending] + rest == [kept] + ([pending] + ([rest[0]] + tail));
      StepValueCons(kept, [pending] + ([rest[0]] + tail), t);
      StepValueCons(pending, [rest[0]] + tail, t);
      if Redundant(false, ops, kept, pending, rest[0]) {
        assert Scan(false, ops, kept, pending, rest) == Scan(false, ops, kept, rest[0], tail);
        ScanStepValue(ops, kept, rest[0], tail, t);
        assert [kept, rest[0]] + tail == [kept] + ([rest[0]] + tail);
        StepValueCons(kept, [rest[0]] + tail, t);
      } else {
        var sc := Scan(false, ops, pending, rest[0], tail);
        assert Scan(false, ops, kept, pending, rest) == [pending] + sc;
        ScanStepValue(ops, pending, rest[0], tail, t);
        assert [pending, rest[0]] + tail == [pending] + ([rest[0]] + tail);
        StepValueCons(kept, [pending] + sc, t);
      }
    }
  }

  /** Step mode: normalization does not change the value at any timestamp. */
  lemma NormalizeStepValue(s: seq<Instant>, ops: Ops, t: Time)
    requires |s| >= 2 && Increasing(s)
    ensures StepValueOf(Normalize(s, false, ops), t) == StepValueOf(s, t)
  {
    SplitTwo(s);
    IncreasingTail(s);
    IncreasingTail(s[1..]);
    assert s[1..][1..] == s[2..];
    ScanStepValue(ops, s[0], s[1], s[2..], t);
  }

  /** Step mode: 1@t1, 1@t2, 2@t3 normalizes to 1@t1, 2@t3. */
  lemma NormalizeStepExample(ops: Ops)
    ensures Normalize([Instant(1, 1), Instant(2, 1), Instant(3, 2)], false, ops)
            == [Instant(1, 1), Instant(3, 2)]
  {
  }

  /** Linear mode: 1@t1, 2@t2, 3@t3 normalizes to 1@t1, 3@t3 when the three
      are collinear. */
  lemma NormalizeLinearExample(ops: Ops)
    requires ops.collinear(1, 2, 3, 1, 2, 3)
    ensures Normalize([Instant(1, 1), Instant(2, 2), Instant(3, 3)], true, ops)
            == [Instant(1, 1), Instant(3, 3)]
  {
  }
}
