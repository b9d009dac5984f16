/** Gluing sequences: tsequence_join, the sequence-array normalizer
    tsequencearr_normalize, and tsequence_append_tinstant. */
module TSequenceJoin {
  import opened TemporalBase
  import opened Periods
  import opened TSequence
  import opened TSequenceSearch

  /** tsequence_join: the instants of s1 (without its last one when
      removeLast) followed by those of s2 (without its first one when
      removeFirst), spanning from the lower bound of s1 to the upper bound of
      s2. */
  function Join(s1: Sequence, s2: Sequence, removeLast: bool, removeFirst: bool): (r: Sequence)
    requires s1.Valid() && s2.Valid() && s1.linear == s2.linear
    requires removeLast ==> |s1.instants| >= 2
    ensures |r.instants| == |s1.instants| + |s2.instants|
                            - (if removeLast then 1 else 0) - (if removeFirst then 1 else 0)
    ensures r.instants[0] == s1.instants[0]
    ensures !(removeFirst && |s2.instants| == 1) ==> r.Last() == s2.Last()
    ensures r.lowerInc == s1.lowerInc && r.upperInc == s2.upperInc && r.linear == s1.linear
  {
    var c1 := if removeLast then |s1.instants| - 1 else |s1.instants|;
    var start2 := if removeFirst then 1 else 0;
    Sequence(s1.instants[..c1] + s2.instants[start2..], s1.lowerInc, s2.upperInc, s1.linear)
  }

  /** The bounds of s1 and s2 meet at one timestamp, included on at least one side. */
  predicate Adjacent(s1: Sequence, s2: Sequence)
    requires s1.Valid() && s2.Valid()
  {
    s1.Last().t == s2.First().t && (s1.upperInc || s2.lowerInc)
  }

  /** s1 comes before s2: entirely, or sharing one instant that both
      include, as when sequences are merged. */
  predicate Linked(s1: Sequence, s2: Sequence)
    requires s1.Valid() && s2.Valid()
  {
    Before(s1.Span(), s2.Span()) || (s1.upperInc && s2.lowerInc && s1.Last() == s2.First())
  }

  /** The precondition of the array normalizer on two consecutive inputs:
      valid, one interpolation, and s1 before s2 or sharing its last
      instant with s2. */
  predicate Consecutive(s1: Sequence, s2: Sequence)
  {
    s1.Valid() && s2.Valid() && s1.linear == s2.linear && Linked(s1, s2)
  }

  datatype JoinKind = NoJoin | DropBoth | DropLast | DropFirst

  /** The decision tsequencearr_normalize takes for consecutive s1, s2:
      drop both boundary instants when the last segment of s1 and the first
      segment of s2 continue each other; in step mode with an exclusive upper
      bound on s1, drop its last instant; with equal boundary values, drop the
      first instant of s2.  `stepCollinear` lets the collinearity disjunct
      apply in step mode as well, as the source writes it; the model itself
      uses `false`. */
  function JoinRule(s1: Sequence, s2: Sequence, ops: Ops, stepCollinear: bool): (k: JoinKind)
    requires s1.Valid() && s2.Valid()
    ensures k != NoJoin ==> Adjacent(s1, s2)
    ensures k == DropBoth ==> |s1.instants| >= 2 && |s2.instants| >= 2
    ensures k == DropLast ==> !s1.linear && !s1.upperInc
    ensures k == DropFirst ==> s1.Last().v == s2.First().v
    ensures k == DropBoth && (s1.linear || !stepCollinear) ==> s1.Last().v == s2.First().v
    ensures k == DropBoth && !s1.linear && !stepCollinear ==>
              s1.instants[|s1.instants| - 2].v == s1.Last().v
    ensures Adjacent(s1, s2) && s1.Last().v == s2.First().v ==> k != NoJoin
  {
    var n1 := |s1.instants|;
    var n2 := |s2.instants|;
    var linear := s1.linear;
    var last1 := s1.Last();
    var first1 := s2.First();
    var adjacent := Adjacent(s1, s2);
    if adjacent && n1 >= 2 && n2 >= 2 &&
       (var last2 := s1.instants[n1 - 2];
        var first2 := s2.instants[1];
        || (!linear && last2.v == last1.v && last1.v == first1.v)
        || (last2.v == last1.v && last1.v == first1.v && first1.v == first2.v)
        || ((linear || stepCollinear) && last1.v == first1.v &&
            ops.collinear(last2.v, first1.v, first2.v, last2.t, first1.t, first2.t)))
    then DropBoth
    else if adjacent && !linear && !s1.upperInc then DropLast
    else if adjacent && last1.v == first1.v then DropFirst
    else NoJoin
  }

  /** The join a decision calls for. */
  function ApplyJoin(s1: Sequence, s2: Sequence, k: JoinKind): (r: Sequence)
    requires Consecutive(s1, s2) && k != NoJoin
    requires k == DropBoth ==> |s1.instants| >= 2 && |s2.instants| >= 2
    requires k == DropLast ==> !s1.linear && !s1.upperInc
    ensures r.lowerInc == s1.lowerInc && r.upperInc == s2.upperInc && r.linear == s1.linear
  {
    Join(s1, s2, k == DropBoth || k == DropLast, k == DropBoth || k == DropFirst)
  }

  /** A prefix of s1 followed by a suffix of s2 is in time order when the two
      meet at one timestamp and at least one of the meeting instants goes. */
  lemma JoinIncreasing(s1: Sequence, s2: Sequence, c1: nat, st2: nat)
    requires s1.Valid() && s2.Valid() && s1.Last().t == s2.First().t
    requires 1 <= c1 <= |s1.instants| && st2 <= 1
    requires c1 < |s1.instants| || st2 == 1
    ensures Increasing(s1.instants[..c1] + s2.instants[st2..])
  {
    var a := s1.instants[..c1];
    var b := s2.instants[st2..];
    var r := a + b;
    var n1 := |s1.instants|;
    forall i, i' | 0 <= i < i' < |r| ensures r[i].t < r[i'].t {
      if i' < |a| {
        assert r[i] == s1.instants[i] && r[i'] == s1.instants[i'];
      } else if i >= |a| {
        assert r[i] == s2.instants[i - |a| + st2] && r[i'] == s2.instants[i' - |a| + st2];
      } else {
        var m := i' - |a| + st2;
        assert r[i] == s1.instants[i] && r[i'] == s2.instants[m];
        if i < n1 - 1 {
          assert s1.instants[i].t < s1.instants[n1 - 1].t;
        }
        if m > 0 {
          assert s2.instants[0].t < s2.instants[m].t;
        }
      }
    }
  }

  /** Two adjacent periods, the first ending where the second starts, together cover the
      period from the lower bound of the first to the upper bound of the second. */
  lemma AdjacentUnion(p: Period, q: Period)
    requires p.Valid() && q.Valid()
    requires p.upper == q.lower && (p.upperInc || q.lowerInc)
    ensures forall t :: Period(p.lower, q.upper, p.lowerInc, q.upperInc).Contains(t) <==> p.Contains(t) || q.Contains(t)
  {
  }

  /** The ends of a prefix of A followed by a suffix of B. */
  lemma JoinEnds(A: seq<Instant>, B: seq<Instant>, c1: nat, st2: nat)
    requires 1 <= c1 <= |A| && st2 <= |B|
    ensures var J := A[..c1] + B[st2..];
      && |J| == c1 + |B| - st2 && J[0] == A[0]
      && (|B| > st2 ==> J[|J| - 1] == B[|B| - 1])
      && (|B| == st2 ==> J[|J| - 1] == A[c1 - 1])
      && (|B| - st2 >= 2 ==> J[|J| - 2] == B[|B| - 2])
      && (|B| - st2 == 1 ==> J[|J| - 2] == A[c1 - 1])
  {
  }

  /** A prefix of s1 followed by a suffix of s2, at least one meeting
      instant dropped, with the outer bounds: valid when the instant kept
      before the meeting point carries the boundary value in step mode. */
  lemma PrefixSuffixValid(s1: Sequence, s2: Sequence, c1: nat, st2: nat)
    requires s1.Valid() && s2.Valid() && s1.linear == s2.linear && s1.Last().t == s2.First().t
    requires |s1.instants| - 1 <= c1 <= |s1.instants| && 1 <= c1 && st2 <= 1
    requires c1 < |s1.instants| || st2 == 1
    requires c1 < |s1.instants| && st2 == 1 ==> |s2.instants| >= 2
    requires !s1.linear && st2 == 1 ==> s1.instants[c1 - 1].v == s2.First().v
    ensures var j := Sequence(s1.instants[..c1] + s2.instants[st2..], s1.lowerInc, s2.upperInc, s1.linear);
      && j.Valid()
      && j.Span() == Period(s1.First().t, s2.Last().t, s1.lowerInc, s2.upperInc)
  {
    var A := s1.instants;
    var B := s2.instants;
    JoinIncreasing(s1, s2, c1, st2);
    JoinEnds(A, B, c1, st2);
  }

  /** Joining two consecutive sequences as the normalizer decides yields a
      valid sequence whose period runs from the lower bound of s1 to the upper
      bound of s2. */
  lemma JoinValid(s1: Sequence, s2: Sequence, ops: Ops)
    requires Consecutive(s1, s2) && JoinRule(s1, s2, ops, false) != NoJoin
    ensures var j := ApplyJoin(s1, s2, JoinRule(s1, s2, ops, false));
      && j.Valid()
      && j.Span() == Period(s1.First().t, s2.Last().t, s1.lowerInc, s2.upperInc)
  {
    var k := JoinRule(s1, s2, ops, false);
    var n1 := |s1.instants|;
    var c1 := if k == DropBoth || k == DropLast then n1 - 1 else n1;
    var st2 := if k == DropBoth || k == DropFirst then 1 else 0;
    assert ApplyJoin(s1, s2, k) == Sequence(s1.instants[..c1] + s2.instants[st2..], s1.lowerInc, s2.upperInc, s1.linear);
    PrefixSuffixValid(s1, s2, c1, st2);
  }

  /** The gluing step of tsequencearr_normalize: the join of two consecutive
      sequences when the rule calls for one.  The join is valid, spans from
      the lower bound of s1 to the upper bound of s2 and covers exactly the
      timestamps of s1 and s2. */
  function JoinAdjacent(s1: Sequence, s2: Sequence, ops: Ops): (r: Option<Sequence>)
    requires Consecutive(s1, s2)
    ensures r.None? <==> JoinRule(s1, s2, ops, false) == NoJoin
    ensures r.Some? ==> && r.value.Valid() && r.value.linear == s1.linear
                        && r.value.Span() == Period(s1.First().t, s2.Last().t, s1.lowerInc, s2.upperInc)
                        && r.value.First() == s1.First()
    ensures r.Some? ==> forall t :: r.value.Span().Contains(t) <==> s1.Span().Contains(t) || s2.Span().Contains(t)
  {
    var k := JoinRule(s1, s2, ops, false);
    if k == NoJoin then None
    else
      JoinValid(s1, s2, ops);
      AdjacentUnion(s1.Span(), s2.Span());
      Some(ApplyJoin(s1, s2, k))
  }

  /** The shape of a join: a prefix of s1 missing at most its last instant,
      then a suffix of s2 missing at most its first, at least one of the two
      dropped; in step mode the instant kept before the meeting point carries
      the boundary value. */
  lemma JoinAdjacentShape(s1: Sequence, s2: Sequence, ops: Ops) returns (c1: nat, st2: nat)
    requires Consecutive(s1, s2) && JoinAdjacent(s1, s2, ops).Some?
    ensures |s1.instants| - 1 <= c1 <= |s1.instants| && 1 <= c1 && st2 <= 1
    ensures c1 < |s1.instants| || st2 == 1
    ensures JoinAdjacent(s1, s2, ops).value.instants == s1.instants[..c1] + s2.instants[st2..]
    ensures c1 < |s1.instants| ==> (!s1.upperInc || st2 == 1)
    ensures !s1.linear && c1 < |s1.instants| ==> s1.instants[c1 - 1].v == s1.Last().v
    ensures !s1.linear && st2 == 1 ==> s1.instants[c1 - 1].v == s2.First().v
  {
    var k := JoinRule(s1, s2, ops, false);
    var n1 := |s1.instants|;
    c1 := if k == DropFirst then n1 else n1 - 1;
    st2 := if k == DropLast then 0 else 1;
    ApplyJoinShape(s1, s2, k, c1, st2);
  }

  /** The shape of the join a decision calls for, from what the decision
      guarantees. */
  lemma ApplyJoinShape(s1: Sequence, s2: Sequence, k: JoinKind, c1: nat, st2: nat)
    requires Consecutive(s1, s2) && k != NoJoin && Adjacent(s1, s2)
    requires k == DropBoth ==> && |s1.instants| >= 2 && |s2.instants| >= 2
                               && s1.Last().v == s2.First().v
                               && (!s1.linear ==> s1.instants[|s1.instants| - 2].v == s1.Last().v)
    requires k == DropLast ==> !s1.linear && !s1.upperInc
    requires k == DropFirst ==> s1.Last().v == s2.First().v
    requires c1 == (if k == DropFirst then |s1.instants| else |s1.instants| - 1)
    requires st2 == (if k == DropLast then 0 else 1)
    ensures |s1.instants| - 1 <= c1 <= |s1.instants| && 1 <= c1 && st2 <= 1
    ensures c1 < |s1.instants| || st2 == 1
    ensures ApplyJoin(s1, s2, k).instants == s1.instants[..c1] + s2.instants[st2..]
    ensures c1 < |s1.instants| ==> (!s1.upperInc || st2 == 1)
    ensures !s1.linear && c1 < |s1.instants| ==> s1.instants[c1 - 1].v == s1.Last().v
    ensures !s1.linear && st2 == 1 ==> s1.instants[c1 - 1].v == s2.First().v
  {
    assert s1.instants[..|s1.instants|] == s1.instants;
    assert s2.instants[0..] == s2.instants;
  }

  /** In a prefix of A followed by a suffix of B, the instant that holds
      step value at a time t up to the meeting point carries the value A
      holds there. */
  lemma StepJoinLeft(A: seq<Instant>, B: seq<Instant>, J: seq<Instant>, c1: nat, st2: nat, kA: nat, t: Time)
    returns (kJ: nat)
    requires Increasing(A) && Increasing(B) && |A| >= 1 && |B| >= 1 && A[|A| - 1].t == B[0].t
    requires |A| - 1 <= c1 <= |A| && 1 <= c1 && st2 <= 1 && (c1 < |A| || st2 == 1)
    requires kA < |A| && A[kA].t <= t && (kA == |A| - 1 || t < A[kA + 1].t) && t <= A[|A| - 1].t
    requires kA == c1 ==> A[c1 - 1].v == A[kA].v
    requires c1 < |A| && t == A[|A| - 1].t ==> st2 == 1
    requires J == A[..c1] + B[st2..]
    ensures kJ < |J| && J[kJ].v == A[kA].v && J[kJ].t <= t && (kJ == |J| - 1 || t < J[kJ + 1].t)
  {
    kJ := if kA < c1 then kA else c1 - 1;
    assert J[kJ] == A[kJ];
    if kJ < |J| - 1 {
      if kJ + 1 < c1 {
        assert J[kJ + 1] == A[kJ + 1];
      } else {
        assert J[kJ + 1] == B[st2];
        if st2 == 1 {
          assert B[0].t < B[1].t;
        }
      }
    }
  }

  /** The same after the meeting point: the instant found carries the value
      B holds there. */
  lemma StepJoinRight(A: seq<Instant>, B: seq<Instant>, J: seq<Instant>, c1: nat, st2: nat, kB: nat, t: Time)
    returns (kJ: nat)
    requires Increasing(A) && Increasing(B) && |A| >= 1 && |B| >= 1 && A[|A| - 1].t == B[0].t
    requires |A| - 1 <= c1 <= |A| && 1 <= c1 && st2 <= 1 && (c1 < |A| || st2 == 1)
    requires kB < |B| && B[kB].t <= t && (kB == |B| - 1 || t < B[kB + 1].t) && B[0].t <= t
    requires st2 == 1 ==> A[c1 - 1].v == B[0].v
    requires J == A[..c1] + B[st2..]
    ensures kJ < |J| && J[kJ].v == B[kB].v && J[kJ].t <= t && (kJ == |J| - 1 || t < J[kJ + 1].t)
  {
    if kB < st2 {
      kJ := c1 - 1;
      assert J[c1 - 1] == A[c1 - 1];
      assert A[c1 - 1].t <= A[|A| - 1].t;
      if c1 < |J| {
        assert J[c1] == B[1];
      }
    } else {
      kJ := c1 + kB - st2;
      assert J[kJ] == B[kB];
      if kJ < |J| - 1 {
        assert J[kJ + 1] == B[kB + 1];
      }
    }
  }

  /** The step-mode value of a sequence j made of a prefix of s1 and a
      suffix of s2, at a timestamp of its period: the value of s1 where s1 is
      defined and of s2 elsewhere, provided the instants kept before the
      meeting point carry the boundary value. */
  lemma StepPrefixSuffixValue(s1: Sequence, s2: Sequence, j: Sequence, c1: nat, st2: nat, t: Time, ops: Ops)
    requires s1.Valid() && s2.Valid() && j.Valid()
    requires !s1.linear && !s2.linear && !j.linear
    requires s1.Last().t == s2.First().t
    requires |s1.instants| - 1 <= c1 <= |s1.instants| && 1 <= c1 && st2 <= 1
    requires c1 < |s1.instants| || st2 == 1
    requires j.instants == s1.instants[..c1] + s2.instants[st2..]
    requires c1 < |s1.instants| ==> (!s1.upperInc || st2 == 1) && s1.instants[c1 - 1].v == s1.Last().v
    requires st2 == 1 ==> s1.instants[c1 - 1].v == s2.First().v
    requires j.Span().Contains(t) && (s1.Span().Contains(t) || s2.Span().Contains(t))
    ensures ValueAtTimestamp(j, t, ops) ==
            if s1.Span().Contains(t) then ValueAtTimestamp(s1, t, ops) else ValueAtTimestamp(s2, t, ops)
  {
    var A := s1.instants;
    var B := s2.instants;
    if s1.Span().Contains(t) {
      var kA := StepIndex(A, t);
      var kJ := StepJoinLeft(A, B, j.instants, c1, st2, kA, t);
      ValueAtInstants(s1, t, kA, ops);
      ValueAtInstants(j, t, kJ, ops);
    } else {
      var kB := StepIndex(B, t);
      var kJ := StepJoinRight(A, B, j.instants, c1, st2, kB, t);
      ValueAtInstants(s2, t, kB, ops);
      ValueAtInstants(j, t, kJ, ops);
    }
  }

  /** The step-mode value of a join, at a timestamp of its period, is the
      value of s1 where s1 is defined and of s2 elsewhere. */
  lemma JoinStepValues(s1: Sequence, s2: Sequence, ops: Ops, t: Time)
    requires Consecutive(s1, s2) && !s1.linear && JoinAdjacent(s1, s2, ops).Some?
    requires JoinAdjacent(s1, s2, ops).value.Span().Contains(t)
    ensures ValueAtTimestamp(JoinAdjacent(s1, s2, ops).value, t, ops) ==
            if s1.Span().Contains(t) then ValueAtTimestamp(s1, t, ops) else ValueAtTimestamp(s2, t, ops)
  {
    var c1, st2 := JoinAdjacentShape(s1, s2, ops);
    StepPrefixSuffixValue(s1, s2, JoinAdjacent(s1, s2, ops).value, c1, st2, t, ops);
  }

  /** A chain of sequences each entirely before the next, with `cur` in
      front of `rest`: what the array normalizer returns. */
  predicate Chain(cur: Sequence, rest: seq<Sequence>)
  {
    && cur.Valid()
    && (forall i | 0 <= i < |rest| :: rest[i].Valid() && rest[i].linear == cur.linear)
    && (rest != [] ==> Before(cur.Span(), rest[0].Span()))
    && (forall i | 0 < i < |rest| :: Before(rest[i - 1].Span(), rest[i].Span()))
  }

  /** The input the array normalizer expects, with `cur` in front of
      `rest`: each sequence before the next or sharing its last instant,
      included in both, with the next. */
  predicate LinkedChain(cur: Sequence, rest: seq<Sequence>)
  {
    && cur.Valid()
    && (forall i | 0 <= i < |rest| :: rest[i].Valid() && rest[i].linear == cur.linear)
    && (rest != [] ==> Linked(cur, rest[0]))
    && (forall i | 0 < i < |rest| :: Linked(rest[i - 1], rest[i]))
  }

  /** A chain is a linked chain. */
  lemma ChainLinked(cur: Sequence, rest: seq<Sequence>)
    requires Chain(cur, rest)
    ensures LinkedChain(cur, rest)
  {
  }

  /** Some sequence of `ss` has t in its period. */
  predicate Covers(ss: seq<Sequence>, t: Time)
    requires forall i | 0 <= i < |ss| :: ss[i].Valid()
  {
    exists i | 0 <= i < |ss| :: ss[i].Span().Contains(t)
  }

  /** Appending a sequence adds its period to the coverage. */
  lemma CoversSnoc(rs: seq<Sequence>, x: Sequence)
    requires AllValid(rs) && x.Valid()
    ensures AllValid(rs + [x])
    ensures forall t :: Covers(rs + [x], t) <==> Covers(rs, t) || x.Span().Contains(t)
  {
    var r := rs + [x];
    assert forall i | 0 <= i < |rs| :: r[i] == rs[i];
    assert r[|rs|] == x;
    forall t ensures Covers(r, t) <==> Covers(rs, t) || x.Span().Contains(t) {
      if Covers(r, t) {
        var i :| 0 <= i < |r| && r[i].Span().Contains(t);
      }
      if Covers(rs, t) {
        var i :| 0 <= i < |rs| && rs[i].Span().Contains(t);
        assert r[i].Span().Contains(t);
      }
    }
  }

  /** A join ends with the last instant of s2. */
  lemma JoinLast(s1: Sequence, s2: Sequence, ops: Ops)
    requires Consecutive(s1, s2) && JoinAdjacent(s1, s2, ops).Some?
    ensures JoinAdjacent(s1, s2, ops).value.Last() == s2.Last()
  {
    var c1, st2 := JoinAdjacentShape(s1, s2, ops);
    JoinEnds(s1.instants, s2.instants, c1, st2);
  }

  /** Joining the front of a linked chain with its successor leaves a
      linked chain. */
  lemma ChainAfterJoin(cur: Sequence, rest: seq<Sequence>, ops: Ops)
    requires LinkedChain(cur, rest) && rest != [] && JoinAdjacent(cur, rest[0], ops).Some?
    ensures LinkedChain(JoinAdjacent(cur, rest[0], ops).value, rest[1..])
  {
    if |rest| > 1 {
      JoinLast(cur, rest[0], ops);
      assert Linked(rest[0], rest[1]);
    }
  }

  /** Two linked sequences that do not join lie one entirely before the
      other: a shared instant always joins. */
  lemma UnjoinedBefore(s1: Sequence, s2: Sequence, ops: Ops)
    requires Consecutive(s1, s2) && JoinAdjacent(s1, s2, ops).None?
    ensures Before(s1.Span(), s2.Span())
  {
  }

  /** The array normalizer as a function: `cur` is the sequence being grown
      (seq1), `rest` the inputs not yet read.  The output is a chain with
      the same coverage, never longer than the input. */
  function NormalizeSeqsFrom(cur: Sequence, rest: seq<Sequence>, ops: Ops): (r: seq<Sequence>)
    requires LinkedChain(cur, rest)
    ensures 1 <= |r| <= |rest| + 1
    ensures Chain(r[0], r[1..])
    ensures r[0].First() == cur.First() && r[0].lowerInc == cur.lowerInc && r[0].linear == cur.linear
    ensures forall t :: Covers(r, t) <==> cur.Span().Contains(t) || Covers(rest, t)
    decreases |rest|
  {
    if rest == [] then
      CoversOne(cur);
      [cur]
    else
      match JoinAdjacent(cur, rest[0], ops)
      case None =>
        var tail := NormalizeSeqsFrom(rest[0], rest[1..], ops);
        UnjoinedBefore(cur, rest[0], ops);
        ChainCons(cur, tail);
        CoversCons(cur, tail, rest);
        [cur] + tail
      case Some(j) =>
        ChainAfterJoin(cur, rest, ops);
        var r := NormalizeSeqsFrom(j, rest[1..], ops);
        CoversJoined(j, cur, rest);
        r
  }

  lemma CoversOne(cur: Sequence)
    requires cur.Valid()
    ensures forall t :: Covers([cur], t) <==> cur.Span().Contains(t)
  {
    forall t ensures Covers([cur], t) <==> cur.Span().Contains(t) {
      if cur.Span().Contains(t) {
        assert [cur][0] == cur;
      }
    }
  }

  lemma ChainCons(cur: Sequence, tail: seq<Sequence>)
    requires cur.Valid() && tail != [] && Chain(tail[0], tail[1..]) && tail[0].linear == cur.linear
    requires Before(cur.Span(), tail[0].Span())
    ensures ([cur] + tail)[0] == cur && ([cur] + tail)[1..] == tail
    ensures Chain(cur, tail)
  {
    assert ([cur] + tail)[1..] == tail;
    forall i | 0 < i < |tail| ensures Before(tail[i - 1].Span(), tail[i].Span()) {
      if i > 1 {
        assert tail[i - 1] == tail[1..][i - 2] && tail[i] == tail[1..][i - 1];
      } else {
        assert tail[1] == tail[1..][0];
      }
    }
    forall i | 0 <= i < |tail| ensures tail[i].Valid() && tail[i].linear == cur.linear {
      if i > 0 {
        assert tail[i] == tail[1..][i - 1];
      }
    }
  }

  lemma CoversCons(cur: Sequence, tail: seq<Sequence>, rest: seq<Sequence>)
    requires cur.Valid() && rest != []
    requires forall i | 0 <= i < |rest| :: rest[i].Valid()
    requires forall i | 0 <= i < |tail| :: tail[i].Valid()
    requires forall t :: Covers(tail, t) <==> rest[0].Span().Contains(t) || Covers(rest[1..], t)
    ensures forall t :: Covers([cur] + tail, t) <==> cur.Span().Contains(t) || Covers(rest, t)
  {
    forall t ensures Covers([cur] + tail, t) <==> cur.Span().Contains(t) || Covers(rest, t) {
      var r := [cur] + tail;
      if Covers(r, t) {
        var i :| 0 <= i < |r| && r[i].Span().Contains(t);
        if i > 0 {
          assert r[i] == tail[i - 1];
          if !rest[0].Span().Contains(t) {
            var m :| 0 <= m < |rest[1..]| && rest[1..][m].Span().Contains(t);
            assert rest[m + 1] == rest[1..][m];
          }
        }
      }
      if Covers(rest, t) {
        var m :| 0 <= m < |rest| && rest[m].Span().Contains(t);
        if m > 0 {
          assert rest[1..][m - 1] == rest[m];
        }
        assert Covers(tail, t);
        var i :| 0 <= i < |tail| && tail[i].Span().Contains(t);
        assert r[i + 1] == tail[i];
      }
      if cur.Span().Contains(t) {
        assert r[0] == cur;
      }
    }
  }

  lemma CoversJoined(j: Sequence, cur: Sequence, rest: seq<Sequence>)
    requires cur.Valid() && j.Valid() && rest != []
    requires forall i | 0 <= i < |rest| :: rest[i].Valid()
    requires forall t :: j.Span().Contains(t) <==> cur.Span().Contains(t) || rest[0].Span().Contains(t)
    ensures forall t :: j.Span().Contains(t) || Covers(rest[1..], t) <==> cur.Span().Contains(t) || Covers(rest, t)
  {
    forall t ensures j.Span().Contains(t) || Covers(rest[1..], t) <==> cur.Span().Contains(t) || Covers(rest, t) {
      if Covers(rest[1..], t) {
        var m :| 0 <= m < |rest[1..]| && rest[1..][m].Span().Contains(t);
        assert rest[m + 1] == rest[1..][m];
      }
      if Covers(rest, t) {
        var m :| 0 <= m < |rest| && rest[m].Span().Contains(t);
        if m > 0 {
          assert rest[1..][m - 1] == rest[m];
        }
      }
    }
  }

  /** One of the sequences of `ss` takes value v at t. */
  predicate TakesValue(ss: seq<Sequence>, t: Time, v: Value, ops: Ops)
  {
    exists j | 0 <= j < |ss| :: ss[j].Valid() && ValueAtTimestamp(ss[j], t, ops) == Some(v)
  }

  /** The first sequence of an array takes the value, or one of the others. */
  lemma TakesFront(ss: seq<Sequence>, t: Time, v: Value, ops: Ops)
    requires |ss| >= 1 && TakesValue(ss, t, v, ops)
    ensures (ss[0].Valid() && ValueAtTimestamp(ss[0], t, ops) == Some(v)) || TakesValue(ss[1..], t, v, ops)
  {
    var j :| 0 <= j < |ss| && ss[j].Valid() && ValueAtTimestamp(ss[j], t, ops) == Some(v);
    if j > 0 {
      assert ss[1..][j - 1] == ss[j];
    }
  }

  /** A sequence in front of an array adds the values it takes. */
  lemma TakesCons(x: Sequence, ss: seq<Sequence>, t: Time, v: Value, ops: Ops)
    requires (x.Valid() && ValueAtTimestamp(x, t, ops) == Some(v)) || TakesValue(ss, t, v, ops)
    ensures TakesValue([x] + ss, t, v, ops)
  {
    if !(x.Valid() && ValueAtTimestamp(x, t, ops) == Some(v)) {
      var j :| 0 <= j < |ss| && ss[j].Valid() && ValueAtTimestamp(ss[j], t, ops) == Some(v);
      assert ([x] + ss)[j + 1] == ss[j];
    } else {
      assert ([x] + ss)[0] == x;
    }
  }

  /** Step mode: the join of two linked sequences takes every value either
      of them takes. */
  lemma JoinTakes(s1: Sequence, s2: Sequence, ops: Ops, t: Time, v: Value)
    requires Consecutive(s1, s2) && !s1.linear && JoinAdjacent(s1, s2, ops).Some?
    requires ValueAtTimestamp(s1, t, ops) == Some(v) || ValueAtTimestamp(s2, t, ops) == Some(v)
    ensures ValueAtTimestamp(JoinAdjacent(s1, s2, ops).value, t, ops) == Some(v)
  {
    JoinStepValues(s1, s2, ops, t);
    if s1.Span().Contains(t) && s2.Span().Contains(t) {
      ValueAtInstants(s1, t, |s1.instants| - 1, ops);
      ValueAtInstants(s2, t, 0, ops);
    }
  }

  /** Step mode: whatever value one of the inputs takes at a timestamp, one
      of the normalized sequences takes it there too. */
  lemma {:induction false} NormalizeSeqsKeepValues(cur: Sequence, rest: seq<Sequence>, ops: Ops, t: Time, v: Value)
    requires LinkedChain(cur, rest) && !cur.linear
    requires ValueAtTimestamp(cur, t, ops) == Some(v) || TakesValue(rest, t, v, ops)
    ensures TakesValue(NormalizeSeqsFrom(cur, rest, ops), t, v, ops)
    decreases |rest|
  {
    if rest == [] {
      TakesCons(cur, [], t, v, ops);
      assert [cur] + [] == [cur];
    } else {
      if ValueAtTimestamp(cur, t, ops) != Some(v) {
        TakesFront(rest, t, v, ops);
      }
      match JoinAdjacent(cur, rest[0], ops)
      case None =>
        if ValueAtTimestamp(cur, t, ops) != Some(v) {
          NormalizeSeqsKeepValues(rest[0], rest[1..], ops, t, v);
        }
        TakesCons(cur, NormalizeSeqsFrom(rest[0], rest[1..], ops), t, v, ops);
      case Some(j) =>
        ChainAfterJoin(cur, rest, ops);
        if ValueAtTimestamp(cur, t, ops) == Some(v) || ValueAtTimestamp(rest[0], t, ops) == Some(v) {
          JoinTakes(cur, rest[0], ops, t, v);
        }
        NormalizeSeqsKeepValues(j, rest[1..], ops, t, v);
    }
  }

  /** One step of the array normalizer: seq1 is either emitted, when it
      does not glue to the next input, or replaced by the join. */
  lemma NormalizeSeqsStep(result: seq<Sequence>, seq1: Sequence, rest: seq<Sequence>,
                          whole: seq<Sequence>, ops: Ops)
    requires LinkedChain(seq1, rest) && rest != []
    requires result + NormalizeSeqsFrom(seq1, rest, ops) == whole
    ensures JoinAdjacent(seq1, rest[0], ops).None? ==>
              && LinkedChain(rest[0], rest[1..])
              && (result + [seq1]) + NormalizeSeqsFrom(rest[0], rest[1..], ops) == whole
    ensures JoinAdjacent(seq1, rest[0], ops).Some? ==>
              && LinkedChain(JoinAdjacent(seq1, rest[0], ops).value, rest[1..])
              && result + NormalizeSeqsFrom(JoinAdjacent(seq1, rest[0], ops).value, rest[1..], ops) == whole
  {
    if JoinAdjacent(seq1, rest[0], ops).None? {
      var tail := NormalizeSeqsFrom(rest[0], rest[1..], ops);
      assert (result + [seq1]) + tail == result + ([seq1] + tail);
    } else {
      ChainAfterJoin(seq1, rest, ops);
    }
  }

  /** tsequencearr_normalize: seq1 is re-bound to the join of itself and
      the next input while they glue together, and emitted otherwise. */
  method NormalizeSeqs(sequences: seq<Sequence>, ops: Ops) returns (result: seq<Sequence>)
    requires |sequences| >= 1 && LinkedChain(sequences[0], sequences[1..])
    ensures result == NormalizeSeqsFrom(sequences[0], sequences[1..], ops)
  {
    var seq1 := sequences[0];
    result := [];
    var i := 1;
    while i < |sequences|
      invariant 1 <= i <= |sequences|
      invariant LinkedChain(seq1, sequences[i..])
      invariant result + NormalizeSeqsFrom(seq1, sequences[i..], ops) == NormalizeSeqsFrom(sequences[0], sequences[1..], ops)
    {
      var seq2 := sequences[i];
      assert sequences[i..][0] == seq2 && sequences[i..][1..] == sequences[i + 1..];
      NormalizeSeqsStep(result, seq1, sequences[i..], NormalizeSeqsFrom(sequences[0], sequences[1..], ops), ops);
      var joined := JoinAdjacent(seq1, seq2, ops);
      if joined.None? {
        result := result + [seq1];
        seq1 := seq2;
      } else {
        seq1 := joined.value;
      }
      i := i + 1;
    }
    result := result + [seq1];
  }

  /** Two step sequences sharing the instant 2@2, included in both, as
      when merging: the normalizer accepts them and keeps one copy of the
      shared instant. */
  lemma SharedInstantExample(ops: Ops)
    ensures var s1 := Sequence([Instant(1, 1), Instant(2, 2)], true, true, false);
            var s2 := Sequence([Instant(2, 2), Instant(3, 3)], true, true, false);
            && LinkedChain(s1, [s2])
            && NormalizeSeqsFrom(s1, [s2], ops) == [Sequence([Instant(1, 1), Instant(2, 2), Instant(3, 3)], true, true, false)]
  {
    var s1 := Sequence([Instant(1, 1), Instant(2, 2)], true, true, false);
    var s2 := Sequence([Instant(2, 2), Instant(3, 3)], true, true, false);
    assert JoinRule(s1, s2, ops, false) == DropFirst;
    assert Join(s1, s2, false, true).instants == [Instant(1, 1), Instant(2, 2), Instant(3, 3)];
  }

  /** The source's collinearity disjunct is not restricted to linear
      interpolation: on the step sequences [1@1, 2@2] and (2@2, 3@3], with
      1@1, 2@2, 3@3 collinear, it drops both boundary instants and the join
      [1@1, 3@3] takes value 1 at time 2, where the input took value 2.  The
      guarded rule drops only the first instant of the second sequence. */
  lemma StepCollinearJoinExample(ops: Ops)
    requires ops.collinear(1, 2, 3, 1, 2, 3)
    ensures var s1 := Sequence([Instant(1, 1), Instant(2, 2)], true, true, false);
            var s2 := Sequence([Instant(2, 2), Instant(3, 3)], false, true, false);
            && Consecutive(s1, s2)
            && JoinRule(s1, s2, ops, true) == DropBoth
            && Join(s1, s2, true, true).instants == [Instant(1, 1), Instant(3, 3)]
            && ValueAtTimestamp(s1, 2, ops) == Some(2)
            && ValueAtTimestamp(Join(s1, s2, true, true), 2, ops) == Some(1)
            && JoinRule(s1, s2, ops, false) == DropFirst
            && ApplyJoin(s1, s2, DropFirst).instants == [Instant(1, 1), Instant(2, 2), Instant(3, 3)]
  {
    var s1 := Sequence([Instant(1, 1), Instant(2, 2)], true, true, false);
    var s2 := Sequence([Instant(2, 2), Instant(3, 3)], false, true, false);
    var j := Join(s1, s2, true, true);
    assert j.instants == [Instant(1, 1), Instant(3, 3)];
    ValueAtInstants(s1, 2, 1, ops);
    ValueAtInstants(j, 2, 0, ops);
  }

  /** tsequence_append_tinstant: fails unless inst is later than the last
      instant; otherwise inst replaces the last instant when that one is
      redundant between its predecessor and inst, and is appended after it
      otherwise.  The period becomes [lower, inst.t]. */
  function Append(s: Sequence, inst: Instant, ops: Ops): (r: Result<Sequence>)
    requires s.Valid()
    ensures r.Failure? <==> inst.t <= s.Last().t
    ensures r.Failure? ==> r.error == NonMonotonicTime
    ensures r.Success? ==>
      && r.value.Valid()
      && r.value.Last() == inst
      && r.value.Span() == Period(s.First().t, inst.t, s.lowerInc, true)
      && r.value.linear == s.linear
      && (|r.value.instants| == |s.instants| || |r.value.instants| == |s.instants| + 1)
      && r.value.instants[..|r.value.instants| - 1] == s.instants[..|r.value.instants| - 1]
  {
    var n := |s.instants|;
    if inst.t <= s.instants[n - 1].t then Failure(NonMonotonicTime)
    else
      // the source spells out the three disjuncts of the normalizer's rule
      var replace := n > 1 && Redundant(s.linear, ops, s.instants[n - 2], s.instants[n - 1], inst);
      var k := if replace then n - 1 else n;
      PrefixAppend(s.instants, k, inst);
      Success(Sequence(s.instants[..k] + [inst], s.lowerInc, true, s.linear))
  }

  /** Normal form is kept by dropping the first instant. */
  lemma NormalTail(linear: bool, ops: Ops, kept: Instant, pending: Instant, rest: seq<Instant>)
    requires rest != [] && IsNormal([kept, pending] + rest, linear, ops)
    ensures !Redundant(linear, ops, kept, pending, rest[0])
    ensures IsNormal([pending, rest[0]] + rest[1..], linear, ops)
  {
    var w := [kept, pending] + rest;
    var w' := [pending, rest[0]] + rest[1..];
    assert w[0] == kept && w[1] == pending && w[2] == rest[0];
    forall i | 0 < i < |w'| - 1 ensures !Redundant(linear, ops, w'[i - 1], w'[i], w'[i + 1]) {
      assert w'[i - 1] == w[i] && w'[i] == w[i + 1] && w'[i + 1] == w[i + 2];
    }
  }

  /** One step of the scan over an extended array that keeps `pending`. */
  lemma ScanKeepsAppend(linear: bool, ops: Ops, kept: Instant, pending: Instant, rest: seq<Instant>, x: Instant)
    requires rest != [] && !Redundant(linear, ops, kept, pending, rest[0])
    ensures Scan(linear, ops, kept, pending, rest + [x]) ==
            [pending] + Scan(linear, ops, pending, rest[0], rest[1..] + [x])
  {
    assert (rest + [x])[0] == rest[0] && (rest + [x])[1..] == rest[1..] + [x];
  }

  lemma SlicesCons(pending: Instant, r0: Instant, rs: seq<Instant>, x: Instant)
    ensures [pending] + (([r0] + rs)[..|rs|] + [x]) == ([pending] + ([r0] + rs))[..|rs| + 1] + [x]
    ensures [pending] + ([r0] + rs + [x]) == [pending] + ([r0] + rs) + [x]
    ensures [pending, r0] + rs == [pending] + ([r0] + rs)
  {
  }

  /** A prefix of an increasing array followed by a later instant is
      increasing. */
  lemma PrefixAppend(S: seq<Instant>, k: nat, x: Instant)
    requires Increasing(S) && 1 <= k <= |S| && S[|S| - 1].t < x.t
    ensures Increasing(S[..k] + [x])
    ensures (S[..k] + [x])[..k] == S[..k]
  {
    var r := S[..k] + [x];
    forall i, j | 0 <= i < j < |r| ensures r[i].t < r[j].t {
      assert r[i] == S[i];
      if j < k {
        assert r[j] == S[j];
      } else {
        assert S[i].t <= S[|S| - 1].t;
      }
    }
  }

  /** The normalizer's scan over a normal array extended by one instant x
      keeps the array and decides only about its last instant `last`, whose
      predecessor is `prev`. */
  lemma {:induction false} ScanAppendOne(linear: bool, ops: Ops, kept: Instant, pending: Instant,
                                         rest: seq<Instant>, x: Instant, prev: Instant, last: Instant)
    requires IsNormal([kept, pending] + rest, linear, ops)
    requires prev == ([kept, pending] + rest)[|rest|] && last == ([pending] + rest)[|rest|]
    ensures Redundant(linear, ops, prev, last, x) ==>
      Scan(linear, ops, kept, pending, rest + [x]) == ([pending] + rest)[..|rest|] + [x]
    ensures !Redundant(linear, ops, prev, last, x) ==>
      Scan(linear, ops, kept, pending, rest + [x]) == [pending] + rest + [x]
    decreases |rest|
  {
    if rest == [] {
      assert rest + [x] == [x];
    } else {
      var r0 := rest[0];
      var rs := rest[1..];
      assert rest == [r0] + rs;
      NormalTail(linear, ops, kept, pending, rest);
      assert ([pending, r0] + rs)[|rs|] == ([kept, pending] + rest)[|rest|];
      ScanKeepsAppend(linear, ops, kept, pending, rest, x);
      ScanAppendOne(linear, ops, pending, r0, rs, x, prev, last);
      SlicesCons(pending, r0, rs, x);
    }
  }

  lemma SlicesAppend(S: seq<Instant>, x: Instant)
    requires |S| >= 2
    ensures (S + [x])[0] == S[0] && (S + [x])[1] == S[1] && (S + [x])[2..] == S[2..] + [x]
    ensures [S[0], S[1]] + S[2..] == S
    ensures ([S[0], S[1]] + S[2..])[|S[2..]|] == S[|S| - 2] && ([S[1]] + S[2..])[|S[2..]|] == S[|S| - 1]
    ensures [S[0]] + (([S[1]] + S[2..])[..|S[2..]|] + [x]) == S[..|S| - 1] + [x]
    ensures [S[0]] + ([S[1]] + S[2..] + [x]) == S + [x]
  {
    assert [S[1]] + S[2..] == S[1..];
  }

  /** Normalizing a normal array extended by one instant decides only
      about the array's last instant. */
  lemma NormalizeAppendOne(S: seq<Instant>, x: Instant, linear: bool, ops: Ops)
    requires |S| >= 1 && IsNormal(S, linear, ops)
    ensures Normalize(S + [x], linear, ops) ==
      if |S| > 1 && Redundant(linear, ops, S[|S| - 2], S[|S| - 1], x) then S[..|S| - 1] + [x] else S + [x]
  {
    var n := |S|;
    if n == 1 {
      assert (S + [x])[2..] == [];
    } else {
      var sc := Scan(linear, ops, S[0], S[1], S[2..] + [x]);
      assert Normalize(S + [x], linear, ops) == [S[0]] + sc by {
        SlicesAppend(S, x);
      }
      if Redundant(linear, ops, S[n - 2], S[n - 1], x) {
        assert sc == ([S[1]] + S[2..])[..|S[2..]|] + [x] by {
          SlicesAppend(S, x);
          ScanAppendOne(linear, ops, S[0], S[1], S[2..], x, S[n - 2], S[n - 1]);
        }
        SlicesAppend(S, x);
      } else {
        assert sc == [S[1]] + S[2..] + [x] by {
          SlicesAppend(S, x);
          ScanAppendOne(linear, ops, S[0], S[1], S[2..], x, S[n - 2], S[n - 1]);
        }
        SlicesAppend(S, x);
      }
    }
  }

  /** Appending to a sequence in normal form gives what normalizing the
      extended array gives: append applies the normalizer's rule once. */
  lemma AppendNormalizes(s: Sequence, inst: Instant, ops: Ops)
    requires s.Valid() && IsNormal(s.instants, s.linear, ops) && s.Last().t < inst.t
    ensures Append(s, inst, ops).value.instants == Normalize(s.instants + [inst], s.linear, ops)
  {
    NormalizeAppendOne(s.instants, inst, s.linear, ops);
  }

  /** In step mode appending to a normal sequence keeps it normal. */
  lemma AppendStepNormal(s: Sequence, inst: Instant, ops: Ops)
    requires s.Valid() && !s.linear && IsNormal(s.instants, false, ops) && s.Last().t < inst.t
    ensures IsNormal(Append(s, inst, ops).value.instants, false, ops)
  {
    AppendNormalizes(s, inst, ops);
    NormalizeStepIsNormal(s.instants + [inst], ops);
  }
}
