/** Synchronization of two sequences on a common time grid
    (synchronize_tsequence_tsequence): both are cut to the intersection of
    their periods and re-sampled at the union of their timestamps, with an
    instant added where their segments cross when asked for. */
module TSequenceSync {
  import opened TemporalBase
  import opened Periods
  import opened TSequence
  import opened TSequenceSearch
  import opened TSequenceRestrictTime

  /** Two instant arrays of the same length with the same timestamp at every
      index. */
  predicate Aligned(r1: seq<Instant>, r2: seq<Instant>)
  {
    |r1| == |r2| && forall k | 0 <= k < |r1| :: r1[k].t == r2[k].t
  }

  /** Crossings are only looked for when asked and when one of the sequences
      interpolates linearly. */
  predicate CrossMode(s1: Sequence, s2: Sequence, crossings: bool)
  {
    crossings && (s1.linear || s2.linear)
  }

  /** tsequence_intersection on two synchronized segments p1 - q1 and
      p2 - q2: the oracle's crossing time, when it lies strictly inside the
      segments, with the value each segment takes there. */
  function Crossing(p1: Instant, q1: Instant, linear1: bool, p2: Instant, q2: Instant, linear2: bool, ops: Ops)
    : (c: Option<(Instant, Instant)>)
    requires p1.t == p2.t && q1.t == q2.t
    ensures c.Some? ==> c.value.0.t == c.value.1.t && p1.t < c.value.0.t < q1.t
  {
    match ops.segmentCrossing(p1, q1, linear1, p2, q2, linear2)
    case None => None
    case Some(t) =>
      if p1.t < t < q1.t then
        Some((Instant(t, SegmentValue(p1, q1, linear1, t, ops)), Instant(t, SegmentValue(p2, q2, linear2, t, ops))))
      else None
  }

  /** The instant tsequence_at_timestamp yields lies on the sequence. */
  lemma AtTimestampOn(s: Sequence, t: Time, ops: Ops)
    requires s.Valid() && s.Span().Contains(t)
    ensures AtTimestamp(s, t, ops).Some? && OnSequence(AtTimestamp(s, t, ops).value, s, ops)
  {
    ClosureAgree(s, t, ops);
  }

  /** The bounds of the intersection of the two periods, when it is more
      than an instant. */
  predicate SyncPeriod(s1: Sequence, s2: Sequence, p: Period)
    requires s1.Valid() && s2.Valid()
  {
    && p.lower == Max(s1.instants[0].t, s2.instants[0].t)
    && p.upper == Min(s1.instants[|s1.instants| - 1].t, s2.instants[|s2.instants| - 1].t)
    && p.lower < p.upper
  }

  /** The state of the synchronization loop: the grid built so far is
      aligned, increasing and starts at the lower bound; before the first
      round both current instants sit at the lower bound, afterwards they are
      the next instants of their sequences, both later than the grid. */
  ghost predicate SyncLoop(s1: Sequence, s2: Sequence, p: Period, crossings: bool, i: nat, j: nat,
                           inst1: Instant, inst2: Instant, r1: seq<Instant>, r2: seq<Instant>, ops: Ops)
    requires s1.Valid() && s2.Valid()
  {
    && SyncPeriod(s1, s2, p)
    && i < |s1.instants| && j < |s2.instants|
    && Aligned(r1, r2) && Increasing(r1)
    && (r1 != [] ==> r1[0].t == p.lower)
    && (r1 == [] ==> && inst1.t == p.lower && inst2.t == p.lower
                     && OnSequence(inst1, s1, ops) && OnSequence(inst2, s2, ops)
                     && i + 1 < |s1.instants| && p.lower < s1.instants[i + 1].t
                     && j + 1 < |s2.instants| && p.lower < s2.instants[j + 1].t)
    && (r1 != [] ==> && inst1 == s1.instants[i] && inst2 == s2.instants[j]
                     && r1[|r1| - 1].t < inst1.t && r1[|r1| - 1].t < inst2.t)
  }

  /** `t` is the timestamp of one of the instants of `r`. */
  ghost predicate HasTime(r: seq<Instant>, t: Time)
  {
    exists k | 0 <= k < |r| :: r[k].t == t
  }

  /** Every timestamp of `a` from `lo` up to, but excluding, `hi` is a
      timestamp of the grid `g`. */
  ghost predicate CoveredBelow(g: seq<Instant>, a: seq<Instant>, lo: Time, hi: Time)
  {
    forall n | 0 <= n < |a| && lo <= a[n].t < hi :: HasTime(g, a[n].t)
  }

  /** At every grid index whose timestamp is a timestamp of either input,
      both grid instants lie on their inputs. */
  ghost predicate OnAtInputTimes(s1: Sequence, s2: Sequence, r1: seq<Instant>, r2: seq<Instant>, ops: Ops)
    requires s1.Valid() && s2.Valid() && |r1| == |r2|
  {
    forall k | 0 <= k < |r1| && !OffInputs(s1, s2, r1[k].t) ::
      OnSequence(r1[k], s1, ops) && OnSequence(r2[k], s2, ops)
  }

  /** `t` is a timestamp of neither input. */
  ghost predicate OffInputs(s1: Sequence, s2: Sequence, t: Time)
  {
    !HasTime(s1.instants, t) && !HasTime(s2.instants, t)
  }

  /** Every grid timestamp is a timestamp of one of the inputs. */
  ghost predicate InputTimesOnly(s1: Sequence, s2: Sequence, r: seq<Instant>)
  {
    forall k | 0 <= k < |r| :: HasTime(s1.instants, r[k].t) || HasTime(s2.instants, r[k].t)
  }

  /** What the loop has gathered of the inputs' timestamps: before the first
      round no instant of either sequence lies between its current index and
      the lower bound; afterwards every input timestamp from the lower bound
      up to the current instant is on the grid, the grid instants at input
      timestamps lie on their inputs, and without crossings the grid holds
      input timestamps only. */
  ghost predicate SyncCover(s1: Sequence, s2: Sequence, p: Period, crossings: bool, i: nat, j: nat,
                            inst1: Instant, inst2: Instant, r1: seq<Instant>, r2: seq<Instant>, ops: Ops)
    requires s1.Valid() && s2.Valid() && i < |s1.instants| && j < |s2.instants| && |r1| == |r2|
  {
    && (r1 == [] ==> s1.instants[i].t <= p.lower && s2.instants[j].t <= p.lower)
    && GridFacts(s1, s2, p, crossings, r1, r2, inst1.t, inst2.t, ops)
  }

  /** The grid holds the timestamps of `s1` below `b1` and of `s2` below
      `b2` from the lower bound on, lies on the inputs at their timestamps,
      and holds input timestamps only when no crossing is looked for. */
  ghost predicate GridFacts(s1: Sequence, s2: Sequence, p: Period, crossings: bool,
                            r1: seq<Instant>, r2: seq<Instant>, b1: Time, b2: Time, ops: Ops)
    requires s1.Valid() && s2.Valid() && |r1| == |r2|
  {
    && CoveredBelow(r1, s1.instants, p.lower, b1)
    && CoveredBelow(r1, s2.instants, p.lower, b2)
    && OnAtInputTimes(s1, s2, r1, r2, ops)
    && (!CrossMode(s1, s2, crossings) ==> InputTimesOnly(s1, s2, r1))
  }

  /** The grid once the loop stops: aligned, increasing, from the lower to
      the upper bound of the intersection, holding every input timestamp in
      between, and on the inputs at those timestamps. */
  ghost predicate SyncDone(s1: Sequence, s2: Sequence, p: Period, crossings: bool,
                           r1: seq<Instant>, r2: seq<Instant>, ops: Ops)
    requires s1.Valid() && s2.Valid()
  {
    && SyncPeriod(s1, s2, p)
    && Aligned(r1, r2) && Increasing(r1) && |r1| >= 2
    && r1[0].t == p.lower && r1[|r1| - 1].t == p.upper
    && GridFacts(s1, s2, p, crossings, r1, r2, p.upper + 1, p.upper + 1, ops)
  }

  /** The instants one round adds at time min(inst1.t, inst2.t): the earlier
      current instant, and the other sequence's value at that time. */
  lemma RoundPair(s1: Sequence, s2: Sequence, p: Period, crossings: bool, i: nat, j: nat,
                  inst1: Instant, inst2: Instant, r1: seq<Instant>, r2: seq<Instant>,
                  x1: Instant, x2: Instant, ops: Ops)
    requires s1.Valid() && s2.Valid() && SyncLoop(s1, s2, p, crossings, i, j, inst1, inst2, r1, r2, ops)
    requires inst1.t <= p.upper || inst2.t <= p.upper
    requires inst1.t == inst2.t ==> x1 == inst1 && x2 == inst2
    requires inst1.t < inst2.t ==> x1 == inst1 && s2.Span().Contains(inst1.t) && x2 == AtTimestamp(s2, inst1.t, ops).value
    requires inst2.t < inst1.t ==> x2 == inst2 && s1.Span().Contains(inst2.t) && x1 == AtTimestamp(s1, inst2.t, ops).value
    ensures x1.t == x2.t && p.lower <= x1.t <= p.upper
    ensures r1 != [] ==> r1[|r1| - 1].t < x1.t
    ensures OnSequence(x1, s1, ops) && OnSequence(x2, s2, ops)
    ensures HasTime(s1.instants, x1.t) || HasTime(s2.instants, x1.t)
  {
    if r1 != [] {
      InstantOn(s1, i, ops);
      InstantOn(s2, j, ops);
      if inst1.t <= inst2.t {
        assert s1.instants[i].t == x1.t;
      } else {
        assert s2.instants[j].t == x1.t;
      }
    } else if s1.instants[0].t == p.lower {
      assert s1.instants[0].t == x1.t;
    } else {
      assert s2.instants[0].t == x1.t;
    }
    if inst1.t < inst2.t {
      AtTimestampOn(s2, inst1.t, ops);
    } else if inst2.t < inst1.t {
      AtTimestampOn(s1, inst2.t, ops);
    }
  }

  /** The other sequence is defined at the earlier current timestamp. */
  lemma RoundDefined(s1: Sequence, s2: Sequence, p: Period, crossings: bool, i: nat, j: nat,
                     inst1: Instant, inst2: Instant, r1: seq<Instant>, r2: seq<Instant>, ops: Ops)
    requires s1.Valid() && s2.Valid() && SyncLoop(s1, s2, p, crossings, i, j, inst1, inst2, r1, r2, ops)
    ensures inst1.t < inst2.t ==> s2.Span().Contains(inst1.t)
    ensures inst2.t < inst1.t ==> s1.Span().Contains(inst2.t)
  {
    var a1, a2 := s1.instants, s2.instants;
    if inst1.t < inst2.t {
      assert a2[0].t <= p.lower <= r1[|r1| - 1].t < inst1.t < inst2.t <= a2[|a2| - 1].t;
    } else if inst2.t < inst1.t {
      assert a1[0].t <= p.lower <= r1[|r1| - 1].t < inst2.t < inst1.t <= a1[|a1| - 1].t;
    }
  }

  /** Appending one pair at a later timestamp keeps the grid aligned and
      increasing. */
  lemma GridSnoc(r1: seq<Instant>, r2: seq<Instant>, x1: Instant, x2: Instant)
    requires Aligned(r1, r2) && Increasing(r1) && x1.t == x2.t
    requires r1 != [] ==> r1[|r1| - 1].t < x1.t
    ensures Aligned(r1 + [x1], r2 + [x2]) && Increasing(r1 + [x1])
    ensures (r1 + [x1])[0].t == if r1 == [] then x1.t else r1[0].t
  {
    IncreasingSnoc(r1, x1);
  }

  /** A grid whose timestamps are kept index by index while it grows keeps
      every timestamp it held. */
  lemma CoveredGrow(g: seq<Instant>, g': seq<Instant>, a: seq<Instant>, lo: Time, hi: Time)
    requires |g| <= |g'| && forall k | 0 <= k < |g| :: g'[k].t == g[k].t
    requires CoveredBelow(g, a, lo, hi)
    ensures CoveredBelow(g', a, lo, hi)
  {
    forall n | 0 <= n < |a| && lo <= a[n].t < hi ensures HasTime(g', a[n].t) {
      var k :| 0 <= k < |g| && g[k].t == a[n].t;
      assert g'[k].t == a[n].t;
    }
  }

  /** The input timestamps a grid holds are at most its last timestamp. */
  lemma CoveredAtMostLast(g: seq<Instant>, a: seq<Instant>, lo: Time, hi: Time)
    requires CoveredBelow(g, a, lo, hi) && Increasing(g) && g != []
    ensures forall n | 0 <= n < |a| && lo <= a[n].t < hi :: a[n].t <= g[|g| - 1].t
  {
    forall n | 0 <= n < |a| && lo <= a[n].t < hi ensures a[n].t <= g[|g| - 1].t {
      var k :| 0 <= k < |g| && g[k].t == a[n].t;
      if k < |g| - 1 {
        assert g[k].t < g[|g| - 1].t;
      }
    }
  }

  /** A crossing found after the last grid instant and before the next
      input timestamps of both sequences is at no input timestamp. */
  lemma CrossingOffInputs(s1: Sequence, s2: Sequence, p: Period, r1: seq<Instant>, b1: Time, b2: Time, c: Time)
    requires s1.Valid() && s2.Valid() && Increasing(r1) && r1 != [] && r1[0].t == p.lower
    requires CoveredBelow(r1, s1.instants, p.lower, b1) && CoveredBelow(r1, s2.instants, p.lower, b2)
    requires r1[|r1| - 1].t < c && c < b1 && c < b2
    ensures !HasTime(s1.instants, c) && !HasTime(s2.instants, c)
  {
    assert r1[0].t <= r1[|r1| - 1].t by {
      if |r1| > 1 {
        assert r1[0].t < r1[|r1| - 1].t;
      }
    }
    CoveredAtMostLast(r1, s1.instants, p.lower, b1);
    CoveredAtMostLast(r1, s2.instants, p.lower, b2);
  }

  /** Appending one pair keeps the grid facts: the pair lies on the inputs
      if it sits at an input timestamp, and sits at one when no crossing is
      looked for. */
  lemma GridFactsSnoc(s1: Sequence, s2: Sequence, p: Period, crossings: bool,
                      r1: seq<Instant>, r2: seq<Instant>, b1: Time, b2: Time, y1: Instant, y2: Instant, ops: Ops)
    requires s1.Valid() && s2.Valid() && |r1| == |r2|
    requires GridFacts(s1, s2, p, crossings, r1, r2, b1, b2, ops)
    requires HasTime(s1.instants, y1.t) || HasTime(s2.instants, y1.t) ==> OnSequence(y1, s1, ops) && OnSequence(y2, s2, ops)
    requires !CrossMode(s1, s2, crossings) ==> HasTime(s1.instants, y1.t) || HasTime(s2.instants, y1.t)
    ensures GridFacts(s1, s2, p, crossings, r1 + [y1], r2 + [y2], b1, b2, ops)
    ensures HasTime(r1 + [y1], y1.t)
  {
    var g1, g2 := r1 + [y1], r2 + [y2];
    assert g1[|r1|] == y1;
    forall k | 0 <= k < |r1| ensures g1[k] == r1[k] && g2[k] == r2[k] {
    }
    CoveredGrow(r1, g1, s1.instants, p.lower, b1);
    CoveredGrow(r1, g1, s2.instants, p.lower, b2);
  }

  /** The grid facts survive a round's additions: the crossing, when one
      is added, lies at no input timestamp, and the pair at the round's
      timestamp lies on the inputs. */
  lemma ExtendFacts(s1: Sequence, s2: Sequence, p: Period, crossings: bool, r1: seq<Instant>, r2: seq<Instant>,
                    m1: seq<Instant>, m2: seq<Instant>, b1: Time, b2: Time, x1: Instant, x2: Instant, ops: Ops)
    requires s1.Valid() && s2.Valid() && Aligned(r1, r2) && Aligned(m1, m2) && Increasing(r1)
    requires r1 != [] ==> r1[0].t == p.lower
    requires (m1 == r1 && m2 == r2) || (CrossMode(s1, s2, crossings) && r1 != [] && |m1| == |r1| + 1 &&
                                      m1 == r1 + [m1[|r1|]] && m2 == r2 + [m2[|r1|]])
    requires m1 != r1 ==> r1[|r1| - 1].t < m1[|r1|].t < x1.t
    requires GridFacts(s1, s2, p, crossings, r1, r2, b1, b2, ops) && x1.t <= b1 && x1.t <= b2
    requires OnSequence(x1, s1, ops) && OnSequence(x2, s2, ops)
    requires HasTime(s1.instants, x1.t) || HasTime(s2.instants, x1.t)
    ensures GridFacts(s1, s2, p, crossings, m1 + [x1], m2 + [x2], b1, b2, ops) && HasTime(m1 + [x1], x1.t)
  {
    if m1 != r1 {
      CrossingOffInputs(s1, s2, p, r1, b1, b2, m1[|r1|].t);
      GridFactsSnoc(s1, s2, p, crossings, r1, r2, b1, b2, m1[|r1|], m2[|r1|], ops);
    }
    GridFactsSnoc(s1, s2, p, crossings, m1, m2, b1, b2, x1, x2, ops);
  }

  /** Once the pair at the earlier current timestamp is on the grid, every
      input timestamp below the next current instant is, or below the upper
      bound plus one when the walk ends there. */
  lemma AdvanceCovered(a: seq<Instant>, i: nat, i': nat, inst: Instant, lo: Time, xt: Time, started: bool,
                       b': Time, g: seq<Instant>)
    requires Increasing(a) && i < |a|
    requires started ==> inst == a[i]
    requires !started ==> a[i].t <= lo && inst.t == lo && xt == lo
    requires lo <= xt <= inst.t
    requires || (i' == i + 1 && i' < |a| && b' == a[i'].t && xt == inst.t)
             || (i' == i && started && b' == a[i].t)
             || b' == xt + 1
    requires CoveredBelow(g, a, lo, inst.t) && HasTime(g, xt)
    ensures CoveredBelow(g, a, lo, b')
  {
    forall n | 0 <= n < |a| && lo <= a[n].t < b' ensures a[n].t < inst.t || a[n].t == xt {
      if n < i {
        assert a[n].t < a[i].t;
      }
    }
  }

  /** The grid facts move on from the current instants to the next ones,
      or to the upper bound when the walk ends. */
  lemma AdvanceFacts(s1: Sequence, s2: Sequence, p: Period, crossings: bool, i: nat, j: nat,
                     inst1: Instant, inst2: Instant, started: bool, i': nat, j': nat, x: Instant,
                     r1: seq<Instant>, r2: seq<Instant>, b1: Time, b2: Time, ops: Ops)
    requires s1.Valid() && s2.Valid() && i < |s1.instants| && j < |s2.instants| && |r1| == |r2|
    requires started ==> inst1 == s1.instants[i] && inst2 == s2.instants[j]
    requires !started ==> && s1.instants[i].t <= p.lower && s2.instants[j].t <= p.lower
                          && inst1.t == p.lower && inst2.t == p.lower && x.t == p.lower
    requires p.lower <= x.t && x.t == (if inst1.t <= inst2.t then inst1.t else inst2.t)
    requires i' == (if inst1.t <= inst2.t then i + 1 else i) && j' == (if inst2.t <= inst1.t then j + 1 else j)
    requires || (b1 == p.upper + 1 && b2 == p.upper + 1 && x.t == p.upper)
             || (i' < |s1.instants| && j' < |s2.instants| && b1 == s1.instants[i'].t && b2 == s2.instants[j'].t)
    requires GridFacts(s1, s2, p, crossings, r1, r2, inst1.t, inst2.t, ops) && HasTime(r1, x.t)
    ensures GridFacts(s1, s2, p, crossings, r1, r2, b1, b2, ops)
  {
    AdvanceCovered(s1.instants, i, i', inst1, p.lower, x.t, started, b1, r1);
    AdvanceCovered(s2.instants, j, j', inst2, p.lower, x.t, started, b2, r1);
  }

  /** Without crossings every grid instant lies on its input. */
  lemma GridOnInputs(s1: Sequence, s2: Sequence, p: Period, crossings: bool,
                     r1: seq<Instant>, r2: seq<Instant>, b1: Time, b2: Time, ops: Ops)
    requires s1.Valid() && s2.Valid() && |r1| == |r2|
    requires GridFacts(s1, s2, p, crossings, r1, r2, b1, b2, ops) && !CrossMode(s1, s2, crossings)
    ensures forall k | 0 <= k < |r1| :: OnSequence(r1[k], s1, ops) && OnSequence(r2[k], s2, ops)
  {
  }

  /** When a round ends the walk, the pair it added sits at the upper bound. */
  lemma RoundLast(s1: Sequence, s2: Sequence, p: Period, i: nat, j: nat,
                  inst1: Instant, inst2: Instant, r1: seq<Instant>,
                  i': nat, j': nat, x: Instant)
    requires s1.Valid() && s2.Valid() && SyncPeriod(s1, s2, p)
    requires i < |s1.instants| && j < |s2.instants|
    requires r1 == [] ==> i + 1 < |s1.instants| && j + 1 < |s2.instants|
    requires r1 != [] ==> inst1 == s1.instants[i] && inst2 == s2.instants[j]
    requires inst1.t <= p.upper || inst2.t <= p.upper
    requires x.t == if inst1.t <= inst2.t then inst1.t else inst2.t
    requires i' == (if inst1.t <= inst2.t then i + 1 else i) && j' == (if inst2.t <= inst1.t then j + 1 else j)
    requires i' == |s1.instants| || j' == |s2.instants|
    ensures r1 != [] && x.t == p.upper
  {
    var a1, a2 := s1.instants, s2.instants;
    assert r1 != [];
    if i' == |a1| {
      assert inst1.t == a1[|a1| - 1].t;
    } else {
      assert inst2.t == a2[|a2| - 1].t;
    }
  }

  /** The next current instants are later than the pair a round added, and
      one of them is still within the intersection. */
  lemma RoundNext(s1: Sequence, s2: Sequence, p: Period, crossings: bool, i: nat, j: nat,
                  inst1: Instant, inst2: Instant, r1: seq<Instant>, r2: seq<Instant>,
                  i': nat, j': nat, x: Instant, ops: Ops)
    requires s1.Valid() && s2.Valid() && SyncLoop(s1, s2, p, crossings, i, j, inst1, inst2, r1, r2, ops)
    requires x.t == if inst1.t <= inst2.t then inst1.t else inst2.t
    requires i' == (if inst1.t <= inst2.t then i + 1 else i) && j' == (if inst2.t <= inst1.t then j + 1 else j)
    requires i' < |s1.instants| && j' < |s2.instants|
    ensures x.t < s1.instants[i'].t && x.t < s2.instants[j'].t
  {
    var a1, a2 := s1.instants, s2.instants;
    if r1 != [] {
      if i' == i + 1 {
        assert a1[i].t < a1[i + 1].t;
      }
      if j' == j + 1 {
        assert a2[j].t < a2[j + 1].t;
      }
    }
  }

  /** One of any two current instants is within the intersection. */
  lemma WithinUpper(s1: Sequence, s2: Sequence, p: Period, i: nat, j: nat)
    requires s1.Valid() && s2.Valid() && SyncPeriod(s1, s2, p)
    requires i < |s1.instants| && j < |s2.instants|
    ensures s1.instants[i].t <= p.upper || s2.instants[j].t <= p.upper
  {
    assert s1.instants[i].t <= s1.instants[|s1.instants| - 1].t;
    assert s2.instants[j].t <= s2.instants[|s2.instants| - 1].t;
  }

  /** The first half of a round: advance the index (or both) at the
      earlier timestamp and take the pair of instants at that timestamp, the
      other sequence's one computed by tsequence_at_timestamp. */
  method RoundAdvance(s1: Sequence, s2: Sequence, p: Period, crossings: bool, i: nat, j: nat,
                      inst1: Instant, inst2: Instant, r1: seq<Instant>, r2: seq<Instant>, ops: Ops)
    returns (i': nat, j': nat, x1: Instant, x2: Instant)
    requires s1.Valid() && s2.Valid() && SyncLoop(s1, s2, p, crossings, i, j, inst1, inst2, r1, r2, ops)
    requires inst1.t <= p.upper || inst2.t <= p.upper
    ensures x1.t == x2.t && x1.t == (if inst1.t <= inst2.t then inst1.t else inst2.t)
    ensures i' == (if inst1.t <= inst2.t then i + 1 else i) && j' == (if inst2.t <= inst1.t then j + 1 else j)
    ensures r1 == [] ==> x1.t == p.lower
    ensures r1 != [] ==> r1[|r1| - 1].t < x1.t
    ensures OnSequence(x1, s1, ops) && OnSequence(x2, s2, ops)
    ensures p.lower <= x1.t && (HasTime(s1.instants, x1.t) || HasTime(s2.instants, x1.t))
  {
    RoundDefined(s1, s2, p, crossings, i, j, inst1, inst2, r1, r2, ops);
    x1, x2 := inst1, inst2;
    i', j' := i, j;
    if inst1.t == inst2.t {
      i', j' := i + 1, j + 1;
    } else if inst1.t < inst2.t {
      i' := i + 1;
      x2 := AtTimestamp(s2, inst1.t, ops).value;
    } else {
      j' := j + 1;
      x1 := AtTimestamp(s1, inst2.t, ops).value;
    }
    RoundPair(s1, s2, p, crossings, i, j, inst1, inst2, r1, r2, x1, x2, ops);
  }

  /** The crossing of the last segments, added to the grid when looked for
      and found. */
  method AddCrossing(s1: Sequence, s2: Sequence, crossings: bool,
                     r1: seq<Instant>, r2: seq<Instant>, x1: Instant, x2: Instant, ops: Ops)
    returns (m1: seq<Instant>, m2: seq<Instant>)
    requires Aligned(r1, r2) && Increasing(r1) && x1.t == x2.t
    requires r1 != [] ==> r1[|r1| - 1].t < x1.t
    ensures Aligned(m1, m2) && Increasing(m1) && |r1| <= |m1|
    ensures r1 == [] ==> m1 == []
    ensures r1 != [] ==> m1[0].t == r1[0].t && m1[|m1| - 1].t < x1.t
    ensures !CrossMode(s1, s2, crossings) ==> m1 == r1 && m2 == r2
    ensures (m1 == r1 && m2 == r2) || (CrossMode(s1, s2, crossings) && r1 != [] && |m1| == |r1| + 1 &&
                                     m1 == r1 + [m1[|r1|]] && m2 == r2 + [m2[|r1|]])
    ensures m1 != r1 ==> r1[|r1| - 1].t < m1[|r1|].t < x1.t
  {
    m1, m2 := r1, r2;
    if CrossMode(s1, s2, crossings) && |r1| > 0 {
      var c := Crossing(r1[|r1| - 1], x1, s1.linear, r2[|r2| - 1], x2, s2.linear, ops);
      if c.Some? {
        GridSnoc(r1, r2, c.value.0, c.value.1);
        m1, m2 := r1 + [c.value.0], r2 + [c.value.1];
      }
    }
  }

  /** The second half of a round: add the crossing of the last segments
      when one is looked for and found, then the pair itself. */
  method RoundExtend(s1: Sequence, s2: Sequence, p: Period, crossings: bool,
                     r1: seq<Instant>, r2: seq<Instant>, x1: Instant, x2: Instant,
                     ghost b1: Time, ghost b2: Time, ops: Ops)
    returns (r1': seq<Instant>, r2': seq<Instant>)
    requires s1.Valid() && s2.Valid()
    requires Aligned(r1, r2) && Increasing(r1) && x1.t == x2.t
    requires r1 == [] ==> x1.t == p.lower
    requires r1 != [] ==> r1[0].t == p.lower && r1[|r1| - 1].t < x1.t
    requires OnSequence(x1, s1, ops) && OnSequence(x2, s2, ops)
    requires GridFacts(s1, s2, p, crossings, r1, r2, b1, b2, ops) && x1.t <= b1 && x1.t <= b2
    requires HasTime(s1.instants, x1.t) || HasTime(s2.instants, x1.t)
    ensures Aligned(r1', r2') && Increasing(r1') && |r1'| > |r1|
    ensures r1'[0].t == p.lower && r1'[|r1'| - 1] == x1 && r2'[|r2'| - 1] == x2
    ensures GridFacts(s1, s2, p, crossings, r1', r2', b1, b2, ops) && HasTime(r1', x1.t)
  {
    var m1, m2 := AddCrossing(s1, s2, crossings, r1, r2, x1, x2, ops);
    GridSnoc(m1, m2, x1, x2);
    ExtendFacts(s1, s2, p, crossings, r1, r2, m1, m2, b1, b2, x1, x2, ops);
    r1', r2' := m1 + [x1], m2 + [x2];
  }

  /** One round of the synchronization loop: advance the index (or both)
      at the earlier timestamp, add a crossing before it when one is found,
      then add the pair at that timestamp. */
  method SyncRound(s1: Sequence, s2: Sequence, p: Period, crossings: bool, i: nat, j: nat,
                   inst1: Instant, inst2: Instant, r1: seq<Instant>, r2: seq<Instant>, ops: Ops)
    returns (i': nat, j': nat, inst1': Instant, inst2': Instant, r1': seq<Instant>, r2': seq<Instant>, done: bool)
    requires s1.Valid() && s2.Valid() && SyncLoop(s1, s2, p, crossings, i, j, inst1, inst2, r1, r2, ops)
    requires SyncCover(s1, s2, p, crossings, i, j, inst1, inst2, r1, r2, ops)
    requires inst1.t <= p.upper || inst2.t <= p.upper
    ensures done ==> SyncDone(s1, s2, p, crossings, r1', r2', ops)
    ensures !done ==> && SyncLoop(s1, s2, p, crossings, i', j', inst1', inst2', r1', r2', ops)
                      && SyncCover(s1, s2, p, crossings, i', j', inst1', inst2', r1', r2', ops)
                      && (inst1'.t <= p.upper || inst2'.t <= p.upper)
                      && |s1.instants| - i' + |s2.instants| - j' < |s1.instants| - i + |s2.instants| - j
  {
    var x1, x2;
    i', j', x1, x2 := RoundAdvance(s1, s2, p, crossings, i, j, inst1, inst2, r1, r2, ops);
    r1', r2' := RoundExtend(s1, s2, p, crossings, r1, r2, x1, x2, inst1.t, inst2.t, ops);
    done := i' == |s1.instants| || j' == |s2.instants|;
    if done {
      RoundLast(s1, s2, p, i, j, inst1, inst2, r1, i', j', x1);
      inst1', inst2' := x1, x2;
      AdvanceFacts(s1, s2, p, crossings, i, j, inst1, inst2, r1 != [], i', j', x1, r1', r2', p.upper + 1, p.upper + 1, ops);
    } else {
      RoundNext(s1, s2, p, crossings, i, j, inst1, inst2, r1, r2, i', j', x1, ops);
      WithinUpper(s1, s2, p, i', j');
      inst1', inst2' := s1.instants[i'], s2.instants[j'];
      AdvanceFacts(s1, s2, p, crossings, i, j, inst1, inst2, r1 != [], i', j', x1, r1', r2', inst1'.t, inst2'.t, ops);
    }
  }

  /** A sequence that starts before t (and ends after it) is entered at t,
      inside the segment tsequence_find_timestamp locates. */
  lemma StartInside(s: Sequence, t: Time, i: int, inst: Instant, ops: Ops)
    requires s.Valid() && s.instants[0].t < t < s.instants[|s.instants| - 1].t
    requires i == SegmentOf(s, t) && inst == AtTimestamp(s, t, ops).value
    ensures 0 <= i && i + 1 < |s.instants| && s.instants[i].t <= t < s.instants[i + 1].t
    ensures inst.t == t && OnSequence(inst, s, ops)
  {
    SegmentOfFound(s, t);
    AtTimestampOn(s, t, ops);
  }

  /** A sequence that starts at t (and ends after it) is entered at its first
      instant. */
  lemma StartAt(s: Sequence, t: Time, ops: Ops)
    requires s.Valid() && s.instants[0].t == t < s.instants[|s.instants| - 1].t
    ensures 1 < |s.instants| && t < s.instants[1].t && OnSequence(s.instants[0], s, ops)
  {
    InstantOn(s, 0, ops);
  }

  /** The walk starts at the lower bound of the intersection: a sequence
      that starts earlier is entered at that timestamp, the other one at its
      first instant. */
  lemma SyncStart(s1: Sequence, s2: Sequence, p: Period, crossings: bool, i: nat, j: nat, inst1: Instant, inst2: Instant, ops: Ops)
    requires s1.Valid() && s2.Valid() && SyncPeriod(s1, s2, p)
    requires s1.instants[0].t < p.lower ==>
               i == SegmentOf(s1, p.lower) && inst1 == AtTimestamp(s1, p.lower, ops).value && j == 0 && inst2 == s2.instants[0]
    requires s1.instants[0].t >= p.lower && s2.instants[0].t < p.lower ==>
               j == SegmentOf(s2, p.lower) && inst2 == AtTimestamp(s2, p.lower, ops).value && i == 0 && inst1 == s1.instants[0]
    requires s1.instants[0].t >= p.lower && s2.instants[0].t >= p.lower ==>
               i == 0 && j == 0 && inst1 == s1.instants[0] && inst2 == s2.instants[0]
    ensures SyncLoop(s1, s2, p, crossings, i, j, inst1, inst2, [], [], ops)
    ensures SyncCover(s1, s2, p, crossings, i, j, inst1, inst2, [], [], ops)
    ensures inst1.t <= p.upper
  {
    var a1, a2 := s1.instants, s2.instants;
    if a1[0].t < p.lower {
      StartInside(s1, p.lower, i, inst1, ops);
      StartAt(s2, p.lower, ops);
    } else if a2[0].t < p.lower {
      StartInside(s2, p.lower, j, inst2, ops);
      StartAt(s1, p.lower, ops);
    } else {
      StartAt(s1, p.lower, ops);
      StartAt(s2, p.lower, ops);
    }
    SyncLoopEmpty(s1, s2, p, crossings, i, j, inst1, inst2, ops);
  }

  /** Before the first round the loop state holds as soon as both current
      instants sit on their sequences at the lower bound, ahead of the next
      instants. */
  lemma SyncLoopEmpty(s1: Sequence, s2: Sequence, p: Period, crossings: bool, i: nat, j: nat,
                      inst1: Instant, inst2: Instant, ops: Ops)
    requires s1.Valid() && s2.Valid() && SyncPeriod(s1, s2, p)
    requires i + 1 < |s1.instants| && p.lower < s1.instants[i + 1].t
    requires j + 1 < |s2.instants| && p.lower < s2.instants[j + 1].t
    requires inst1.t == p.lower && inst2.t == p.lower && OnSequence(inst1, s1, ops) && OnSequence(inst2, s2, ops)
    requires s1.instants[i].t <= p.lower && s2.instants[j].t <= p.lower
    ensures SyncLoop(s1, s2, p, crossings, i, j, inst1, inst2, [], [], ops)
    ensures SyncCover(s1, s2, p, crossings, i, j, inst1, inst2, [], [], ops)
  {
  }

  /** The last two values of a step sequence with an exclusive upper bound
      must be equal: the end instant takes the value of the one before. */
  method FixStepEnd(r: seq<Instant>, upperInc: bool, linear: bool) returns (r': seq<Instant>)
    requires |r| >= 2
    ensures |r'| == |r| && r'[..|r| - 1] == r[..|r| - 1] && r'[|r| - 1].t == r[|r| - 1].t
    ensures !upperInc && !linear ==> r'[|r| - 1].v == r'[|r| - 2].v
    ensures upperInc || linear || r[|r| - 2].v == r[|r| - 1].v ==> r' == r
  {
    r' := r;
    if !upperInc && !linear && r[|r| - 2].v != r[|r| - 1].v {
      r' := r[..|r| - 1] + [Instant(r[|r| - 1].t, r[|r| - 2].v)];
    }
  }

  /** At every timestamp of either input, `x` lies on `s`, but for the end
      instant a step sequence with an exclusive upper bound repeats from its
      predecessor. */
  ghost predicate SampledAtInputTimes(x: Sequence, s: Sequence, s1: Sequence, s2: Sequence, ops: Ops)
    requires s.Valid()
  {
    forall k | 0 <= k < |x.instants| && (k < |x.instants| - 1 || x.linear || x.upperInc)
                 && !OffInputs(s1, s2, x.instants[k].t) ::
      OnSequence(x.instants[k], s, ops)
  }

  /** The synchronized pair: equal lengths, the same timestamps, both over the
      intersection of the periods. The grid holds every timestamp of either
      input inside the intersection, and at those timestamps each sequence
      lies on its input (but for the step end fix). When no crossing is
      added, the grid holds nothing else, and so each sequence is sampled
      from its input. */
  ghost predicate Synced(s1: Sequence, s2: Sequence, crossings: bool, x: Sequence, y: Sequence, ops: Ops)
    requires s1.Valid() && s2.Valid()
  {
    && Intersection(s1.Span(), s2.Span()).Some?
    && x.Valid() && y.Valid() && x.linear == s1.linear && y.linear == s2.linear
    && Aligned(x.instants, y.instants)
    && x.Span() == Intersection(s1.Span(), s2.Span()).value
    && y.Span() == Intersection(s1.Span(), s2.Span()).value
    && CoveredBelow(x.instants, s1.instants, x.Span().lower, x.Span().upper + 1)
    && CoveredBelow(x.instants, s2.instants, x.Span().lower, x.Span().upper + 1)
    && SampledAtInputTimes(x, s1, s1, s2, ops) && SampledAtInputTimes(y, s2, s1, s2, ops)
    && (!CrossMode(s1, s2, crossings) ==> InputTimesOnly(s1, s2, x.instants))
    && (!CrossMode(s1, s2, crossings) ==> SampledFrom(x, s1, ops) && SampledFrom(y, s2, ops))
  }

  /** Without crossings the grid's timestamps are exactly the timestamps of
      either input inside the intersection. */
  lemma SyncedGridTimes(s1: Sequence, s2: Sequence, crossings: bool, x: Sequence, y: Sequence, t: Time, ops: Ops)
    requires s1.Valid() && s2.Valid() && Synced(s1, s2, crossings, x, y, ops) && !CrossMode(s1, s2, crossings)
    ensures HasTime(x.instants, t) <==>
              && (HasTime(s1.instants, t) || HasTime(s2.instants, t))
              && x.Span().lower <= t <= x.Span().upper
  {
    var a := x.instants;
    if HasTime(a, t) {
      var k :| 0 <= k < |a| && a[k].t == t;
      if 0 < k {
        assert a[0].t < a[k].t;
      }
      if k < |a| - 1 {
        assert a[k].t < a[|a| - 1].t;
      }
    }
  }

  /** One grid array, fixed at its end, as a sequence over the intersection. */
  lemma BuildOne(s: Sequence, p: Period, r: seq<Instant>, f: seq<Instant>, sampled: bool, x: Sequence, ops: Ops)
    requires s.Valid() && p.Valid() && Increasing(r) && |r| >= 2 && r[0].t == p.lower && r[|r| - 1].t == p.upper
    requires sampled ==> forall k | 0 <= k < |r| :: OnSequence(r[k], s, ops)
    requires |f| == |r| && f[..|r| - 1] == r[..|r| - 1] && f[|r| - 1].t == r[|r| - 1].t
    requires !p.upperInc && !s.linear ==> f[|r| - 1].v == f[|r| - 2].v
    requires p.upperInc || s.linear ==> f == r
    requires x == Sequence(f, p.lowerInc, p.upperInc, s.linear)
    ensures x.Valid() && x.Span() == p
    ensures Aligned(f, r)
    ensures sampled ==> SampledFrom(x, s, ops)
    ensures forall k | 0 <= k < |r| - 1 :: f[k] == r[k]
  {
    forall k | 0 <= k < |f| ensures f[k] == r[k] || (k == |r| - 1 && f[k].t == r[k].t) {
      if k < |r| - 1 {
        assert f[k] == f[..|r| - 1][k];
      }
    }
  }

  /** One grid array as a sequence over the intersection, its end fixed
      for step interpolation. */
  method SyncSequence(s: Sequence, p: Period, r: seq<Instant>, sampled: bool, ops: Ops) returns (x: Sequence)
    requires s.Valid() && p.lower < p.upper
    requires Increasing(r) && |r| >= 2 && r[0].t == p.lower && r[|r| - 1].t == p.upper
    requires sampled ==> forall k | 0 <= k < |r| :: OnSequence(r[k], s, ops)
    ensures x.Valid() && x.Span() == p && x.linear == s.linear && Aligned(x.instants, r)
    ensures sampled ==> SampledFrom(x, s, ops)
    ensures forall k | 0 <= k < |r| - 1 :: x.instants[k] == r[k]
    ensures s.linear || p.upperInc ==> x.instants == r
  {
    var f := FixStepEnd(r, p.upperInc, s.linear);
    x := Sequence(f, p.lowerInc, p.upperInc, s.linear);
    BuildOne(s, p, r, f, sampled, x, ops);
  }

  /** The second grid array has the shape of the first. */
  lemma SecondGrid(r1: seq<Instant>, r2: seq<Instant>)
    requires Aligned(r1, r2) && Increasing(r1) && |r1| >= 2
    ensures Increasing(r2) && |r2| >= 2 && r2[0].t == r1[0].t && r2[|r2| - 1].t == r1[|r1| - 1].t
  {
    IncreasingAligned(r1, r2);
  }

  /** The pair Synchronize returns in the general case. */
  lemma SyncBuild(s1: Sequence, s2: Sequence, p: Period, crossings: bool, r1: seq<Instant>, r2: seq<Instant>,
                  x: Sequence, y: Sequence, ops: Ops)
    requires s1.Valid() && s2.Valid() && SyncDone(s1, s2, p, crossings, r1, r2, ops)
    requires Intersection(s1.Span(), s2.Span()) == Some(p)
    requires x.Valid() && x.Span() == p && x.linear == s1.linear && Aligned(x.instants, r1)
    requires y.Valid() && y.Span() == p && y.linear == s2.linear && Aligned(y.instants, r2)
    requires forall k | 0 <= k < |r1| - 1 :: x.instants[k] == r1[k] && y.instants[k] == r2[k]
    requires s1.linear || p.upperInc ==> x.instants == r1
    requires s2.linear || p.upperInc ==> y.instants == r2
    requires !CrossMode(s1, s2, crossings) ==> SampledFrom(x, s1, ops) && SampledFrom(y, s2, ops)
    ensures Synced(s1, s2, crossings, x, y, ops)
  {
    AlignedThrough(x.instants, r1, r2, y.instants);
    CoveredGrow(r1, x.instants, s1.instants, p.lower, p.upper + 1);
    CoveredGrow(r1, x.instants, s2.instants, p.lower, p.upper + 1);
    GridToSequences(s1, s2, r1, r2, x, y, ops);
  }

  /** The built sequences keep what the grid holds: the instants at input
      timestamps lie on the inputs, and without crossings only input
      timestamps occur. */
  lemma GridToSequences(s1: Sequence, s2: Sequence, r1: seq<Instant>, r2: seq<Instant>, x: Sequence, y: Sequence, ops: Ops)
    requires s1.Valid() && s2.Valid() && Aligned(r1, r2) && |r1| >= 1
    requires OnAtInputTimes(s1, s2, r1, r2, ops)
    requires Aligned(x.instants, r1) && |y.instants| == |r2|
    requires forall k | 0 <= k < |r1| - 1 :: x.instants[k] == r1[k] && y.instants[k] == r2[k]
    requires x.linear || x.upperInc ==> x.instants == r1
    requires y.linear || y.upperInc ==> y.instants == r2
    ensures SampledAtInputTimes(x, s1, s1, s2, ops) && SampledAtInputTimes(y, s2, s1, s2, ops)
    ensures InputTimesOnly(s1, s2, r1) ==> InputTimesOnly(s1, s2, x.instants)
  {
    forall k | 0 <= k < |x.instants| && (k < |x.instants| - 1 || x.linear || x.upperInc)
                 && !OffInputs(s1, s2, x.instants[k].t)
      ensures OnSequence(x.instants[k], s1, ops)
    {
      assert x.instants[k] == r1[k];
    }
    forall k | 0 <= k < |y.instants| && (k < |y.instants| - 1 || y.linear || y.upperInc)
                 && !OffInputs(s1, s2, y.instants[k].t)
      ensures OnSequence(y.instants[k], s2, ops)
    {
      assert y.instants[k] == r2[k] && r2[k].t == r1[k].t;
    }
    if InputTimesOnly(s1, s2, r1) {
      forall k | 0 <= k < |x.instants| ensures !OffInputs(s1, s2, x.instants[k].t) {
        assert x.instants[k].t == r1[k].t;
      }
    }
  }

  /** Grids aligned to aligned grids are aligned. */
  lemma AlignedThrough(f1: seq<Instant>, r1: seq<Instant>, r2: seq<Instant>, f2: seq<Instant>)
    requires Aligned(f1, r1) && Aligned(r1, r2) && Aligned(f2, r2)
    ensures Aligned(f1, f2)
  {
    forall k | 0 <= k < |f1| ensures f1[k].t == f2[k].t {
      assert f1[k].t == r1[k].t == r2[k].t == f2[k].t;
    }
  }

  lemma IncreasingAligned(r1: seq<Instant>, r2: seq<Instant>)
    requires Aligned(r1, r2) && Increasing(r1)
    ensures Increasing(r2)
  {
    forall m, n | 0 <= m < n < |r2| ensures r2[m].t < r2[n].t {
      assert r1[m].t < r1[n].t;
    }
  }

  /** The pair for an intersection reduced to one instant. */
  lemma SyncInstant(s1: Sequence, s2: Sequence, crossings: bool, t: Time, x: Sequence, y: Sequence, ops: Ops)
    requires s1.Valid() && s2.Valid() && Intersection(s1.Span(), s2.Span()).Some?
    requires t == Intersection(s1.Span(), s2.Span()).value.lower == Intersection(s1.Span(), s2.Span()).value.upper
    requires x == Sequence([AtTimestamp(s1, t, ops).value], true, true, s1.linear)
    requires y == Sequence([AtTimestamp(s2, t, ops).value], true, true, s2.linear)
    ensures Synced(s1, s2, crossings, x, y, ops)
  {
    AtTimestampOn(s1, t, ops);
    AtTimestampOn(s2, t, ops);
    SingleGrid(s1, s2, t, x, y, ops);
  }

  /** A grid of one instant at an input timestamp holds it and lies on the
      inputs there. */
  lemma SingleGrid(s1: Sequence, s2: Sequence, t: Time, x: Sequence, y: Sequence, ops: Ops)
    requires s1.Valid() && s2.Valid()
    requires |x.instants| == 1 && |y.instants| == 1 && x.instants[0].t == t && y.instants[0].t == t
    requires OnSequence(x.instants[0], s1, ops) && OnSequence(y.instants[0], s2, ops)
    requires s1.instants[0].t == t || s2.instants[0].t == t
    ensures CoveredBelow(x.instants, s1.instants, t, t + 1) && CoveredBelow(x.instants, s2.instants, t, t + 1)
    ensures SampledAtInputTimes(x, s1, s1, s2, ops) && SampledAtInputTimes(y, s2, s1, s2, ops)
    ensures InputTimesOnly(s1, s2, x.instants)
  {
    assert HasTime(x.instants, t) by {
      assert x.instants[0].t == t;
    }
    if s1.instants[0].t == t {
      assert HasTime(s1.instants, t);
    } else {
      assert HasTime(s2.instants, t);
    }
  }

  /** synchronize_tsequence_tsequence: None when the periods do not
      overlap; otherwise the two sequences re-sampled on one grid over the
      intersection of their periods. */
  method Synchronize(s1: Sequence, s2: Sequence, crossings: bool, ops: Ops) returns (res: Option<(Sequence, Sequence)>)
    requires s1.Valid() && s2.Valid()
    ensures res.None? <==> Intersection(s1.Span(), s2.Span()).None?
    ensures res.Some? ==> Synced(s1, s2, crossings, res.value.0, res.value.1, ops)
  {
    var inter := Intersection(s1.Span(), s2.Span());
    if inter.None? {
      return None;
    }
    var p := inter.value;
    if p.lower == p.upper {
      var inst1 := AtTimestamp(s1, p.lower, ops).value;
      var inst2 := AtTimestamp(s2, p.lower, ops).value;
      var x := Sequence([inst1], true, true, s1.linear);
      var y := Sequence([inst2], true, true, s2.linear);
      SyncInstant(s1, s2, crossings, p.lower, x, y, ops);
      return Some((x, y));
    }
    var r1, r2 := SyncWalk(s1, s2, p, crossings, ops);
    var sampled := !CrossMode(s1, s2, crossings);
    if sampled {
      GridOnInputs(s1, s2, p, crossings, r1, r2, p.upper + 1, p.upper + 1, ops);
    }
    SecondGrid(r1, r2);
    var x := SyncSequence(s1, p, r1, sampled, ops);
    var y := SyncSequence(s2, p, r2, sampled, ops);
    SyncBuild(s1, s2, p, crossings, r1, r2, x, y, ops);
    return Some((x, y));
  }

  /** The start of the walk: a sequence that starts before the intersection
      is entered at its lower bound. */
  method SyncEnter(s1: Sequence, s2: Sequence, p: Period, crossings: bool, ops: Ops)
    returns (i: nat, j: nat, inst1: Instant, inst2: Instant)
    requires s1.Valid() && s2.Valid() && SyncPeriod(s1, s2, p)
    ensures SyncLoop(s1, s2, p, crossings, i, j, inst1, inst2, [], [], ops)
    ensures SyncCover(s1, s2, p, crossings, i, j, inst1, inst2, [], [], ops)
    ensures inst1.t <= p.upper
  {
    inst1 := s1.instants[0];
    inst2 := s2.instants[0];
    i, j := 0, 0;
    if inst1.t < p.lower {
      inst1 := AtTimestamp(s1, p.lower, ops).value;
      var n := FindTimestamp(s1, p.lower);
      i := n;
    } else if inst2.t < p.lower {
      inst2 := AtTimestamp(s2, p.lower, ops).value;
      var n := FindTimestamp(s2, p.lower);
      j := n;
    }
    SyncStart(s1, s2, p, crossings, i, j, inst1, inst2, ops);
  }

  /** The synchronization loop: the grid from the lower to the upper bound
      of the intersection. The source's guard (both indexes in range, one
      current instant within the upper bound) holds at every round; the round
      that leaves a sequence's last instant behind ends the walk. */
  method SyncWalk(s1: Sequence, s2: Sequence, p: Period, crossings: bool, ops: Ops)
    returns (r1: seq<Instant>, r2: seq<Instant>)
    requires s1.Valid() && s2.Valid() && SyncPeriod(s1, s2, p)
    ensures SyncDone(s1, s2, p, crossings, r1, r2, ops)
  {
    var i, j, inst1, inst2 := SyncEnter(s1, s2, p, crossings, ops);
    r1, r2 := [], [];
    var done := false;
    while !done
      invariant !done ==> SyncLoop(s1, s2, p, crossings, i, j, inst1, inst2, r1, r2, ops)
      invariant !done ==> SyncCover(s1, s2, p, crossings, i, j, inst1, inst2, r1, r2, ops)
      invariant !done ==> inst1.t <= p.upper || inst2.t <= p.upper
      invariant done ==> SyncDone(s1, s2, p, crossings, r1, r2, ops)
      decreases if done then 0 else 1 + |s1.instants| - i + |s2.instants| - j
    {
      i, j, inst1, inst2, r1, r2, done := SyncRound(s1, s2, p, crossings, i, j, inst1, inst2, r1, r2, ops);
    }
  }
}
