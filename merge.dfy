/** The order tsequence_merge_array sorts its inputs into (tsequencearr_sort
    is not part of this model; an insertion sort stands in for it). */
module TSequenceSort {
  import opened TemporalBase
  import opened Periods
  import opened TSequence

  /** The sort key: the period of a sequence (of its first and last
      instants; an empty array, which no valid sequence has, gets a fixed
      key). */
  function Key(s: Sequence): (p: Period)
    ensures s.Valid() ==> p == s.Span()
  {
    if |s.instants| == 0 then Period(0, 0, true, true)
    else Period(s.instants[0].t, s.instants[|s.instants| - 1].t, s.lowerInc, s.upperInc)
  }

  /** Ordered by period_cmp_internal on the sequences' periods. */
  predicate SortedByPeriod(ss: seq<Sequence>)
  {
    forall i | 0 < i < |ss| :: PeriodCmp(Key(ss[i - 1]), Key(ss[i])) <= 0
  }

  /** A sequence put in front of a sorted array whose first element it does
      not follow. */
  lemma ConsSorted(y: Sequence, rest: seq<Sequence>)
    requires SortedByPeriod(rest)
    requires rest != [] ==> PeriodCmp(Key(y), Key(rest[0])) <= 0
    ensures SortedByPeriod([y] + rest)
  {
    var r := [y] + rest;
    forall i | 1 < i < |r| ensures PeriodCmp(Key(r[i - 1]), Key(r[i])) <= 0 {
      assert r[i - 1] == rest[i - 2] && r[i] == rest[i - 1];
    }
  }

  /** A sequence put in front of the insertion into the rest of a sorted
      array, when it precedes both the inserted one and the rest. */
  lemma InsertBehind(y: Sequence, x: Sequence, rest: seq<Sequence>, tail: seq<Sequence>)
    requires SortedByPeriod(tail) && tail != []
    requires PeriodCmp(Key(y), Key(x)) <= 0
    requires rest != [] ==> PeriodCmp(Key(y), Key(rest[0])) <= 0
    requires Key(tail[0]) == Key(x) || (rest != [] && Key(tail[0]) == Key(rest[0]))
    ensures SortedByPeriod([y] + tail)
  {
    ConsSorted(y, tail);
  }

  /** One insertion step of the sort: x goes before the first element it
      does not follow. */
  function InsertByPeriod(x: Sequence, ss: seq<Sequence>): (r: seq<Sequence>)
    ensures |r| == |ss| + 1
    ensures r[0] == x || (ss != [] && r[0] == ss[0])
  {
    if ss == [] || PeriodCmp(Key(x), Key(ss[0])) <= 0 then [x] + ss
    else [ss[0]] + InsertByPeriod(x, ss[1..])
  }

  /** Inserting into a sorted array keeps it sorted. */
  lemma {:induction false} InsertSorted(x: Sequence, ss: seq<Sequence>)
    requires SortedByPeriod(ss)
    ensures SortedByPeriod(InsertByPeriod(x, ss))
  {
    if ss == [] || PeriodCmp(Key(x), Key(ss[0])) <= 0 {
      ConsSorted(x, ss);
    } else {
      PeriodCmpAntisymmetric(Key(x), Key(ss[0]));
      assert SortedByPeriod(ss[1..]) by {
        forall i | 0 < i < |ss[1..]| ensures PeriodCmp(Key(ss[1..][i - 1]), Key(ss[1..][i])) <= 0 {
          assert ss[1..][i - 1] == ss[i] && ss[1..][i] == ss[i + 1];
        }
      }
      InsertSorted(x, ss[1..]);
      InsertBehind(ss[0], x, ss[1..], InsertByPeriod(x, ss[1..]));
    }
  }

  /** Inserting adds exactly the inserted element. */
  lemma {:induction false} InsertMultiset(x: Sequence, ss: seq<Sequence>)
    ensures multiset(InsertByPeriod(x, ss)) == multiset(ss) + multiset{x}
  {
    if ss != [] && PeriodCmp(Key(x), Key(ss[0])) > 0 {
      InsertMultiset(x, ss[1..]);
      assert ss == [ss[0]] + ss[1..];
    }
  }

  /** The order tsequencearr_sort establishes (its code is not part of this
      model): the same inputs, sorted by period. */
  function SortByPeriod(ss: seq<Sequence>): (r: seq<Sequence>)
    ensures SortedByPeriod(r)
    ensures multiset(r) == multiset(ss)
    ensures |r| == |ss|
  {
    if ss == [] then []
    else
      assert ss == [ss[0]] + ss[1..];
      InsertSorted(ss[0], SortByPeriod(ss[1..]));
      InsertMultiset(ss[0], SortByPeriod(ss[1..]));
      InsertByPeriod(ss[0], SortByPeriod(ss[1..]))
  }

  /** Sorting keeps the inputs valid. */
  lemma SortValid(ss: seq<Sequence>)
    requires AllValid(ss)
    ensures AllValid(SortByPeriod(ss))
  {
    var r := SortByPeriod(ss);
    forall i | 0 <= i < |r| ensures r[i].Valid() {
      assert r[i] in multiset(ss);
    }
  }
}

/** Merging an array of sequences (tsequence_merge_array): the inputs are
    sorted by period, consecutive inputs are checked against each other, and
    every maximal stretch of inputs that touch at a shared instant is glued
    into one output sequence. */
module TSequenceMerge {
  import opened TemporalBase
  import opened Periods
  import opened TSequence
  import opened TSequenceSearch
  import opened TSequenceJoin
  import opened TSequenceSort

  /** The checks the first pass makes on two consecutive sorted inputs, in
      the order it makes them. */
  function PairError(a: Sequence, b: Sequence): Option<Error>
    requires a.Valid() && b.Valid()
  {
    if a.linear != b.linear then Some(MixedInterpolation)
    else if a.Last().t > b.First().t then Some(OverlappingTime)
    else if a.Last().t == b.First().t && b.lowerInc && a.Last().v != b.First().v && a.upperInc then
      Some(ConflictingValues)
    else None
  }

  /** b continues the output sequence a belongs to: it starts, with an
      inclusive lower bound, at the timestamp where a ends. */
  predicate Touching(a: Sequence, b: Sequence)
  {
    |a.instants| > 0 && |b.instants| > 0 && a.Last().t == b.First().t && b.lowerInc
  }

  /** The pairs before input j pass the checks. */
  predicate PairsPass(ss: seq<Sequence>, j: nat)
    requires AllValid(ss) && j <= |ss|
  {
    forall k | 1 <= k < j :: PairError(ss[k - 1], ss[k]).None?
  }

  /** The error the first pass reports on the first i sorted inputs: the
      first failing pair's. */
  function ErrorUpTo(ss: seq<Sequence>, i: nat): (r: Option<Error>)
    requires AllValid(ss) && 1 <= i <= |ss|
  {
    if i == 1 then None
    else
      var e := ErrorUpTo(ss, i - 1);
      if e.Some? then e else PairError(ss[i - 2], ss[i - 1])
  }

  /** The first pass reports no error exactly when every pair passes. */
  lemma {:induction false} ErrorUpToNone(ss: seq<Sequence>, i: nat)
    requires AllValid(ss) && 1 <= i <= |ss|
    ensures ErrorUpTo(ss, i).None? <==> PairsPass(ss, i)
  {
    if i > 1 {
      ErrorUpToNone(ss, i - 1);
      if ErrorUpTo(ss, i - 1).Some? {
        var k :| 1 <= k < i - 1 && PairError(ss[k - 1], ss[k]).Some?;
      }
    }
  }

  /** Without an error on the first j inputs there is none on fewer. */
  lemma ErrorUpToPrefix(ss: seq<Sequence>, i: nat, j: nat)
    requires AllValid(ss) && 1 <= i <= j <= |ss| && ErrorUpTo(ss, j).None?
    ensures ErrorUpTo(ss, i).None?
  {
    if ErrorUpTo(ss, i).Some? {
      ErrorUpToStays(ss, i, j);
    }
  }

  /** A reported error is the error of the first failing pair. */
  lemma {:induction false} ErrorUpToFirst(ss: seq<Sequence>, i: nat)
    requires AllValid(ss) && 1 <= i <= |ss| && ErrorUpTo(ss, i).Some?
    ensures exists j | 1 <= j < i :: PairError(ss[j - 1], ss[j]) == ErrorUpTo(ss, i) && PairsPass(ss, j)
  {
    if ErrorUpTo(ss, i - 1).Some? {
      ErrorUpToFirst(ss, i - 1);
    } else {
      ErrorUpToNone(ss, i - 1);
      assert PairError(ss[i - 2], ss[i - 1]) == ErrorUpTo(ss, i) && PairsPass(ss, i - 1);
    }
  }

  /** Once reported, an error stays the reported one. */
  lemma {:induction false} ErrorUpToStays(ss: seq<Sequence>, i: nat, j: nat)
    requires AllValid(ss) && 1 <= i <= j <= |ss| && ErrorUpTo(ss, i).Some?
    ensures ErrorUpTo(ss, j) == ErrorUpTo(ss, i)
    decreases j
  {
    if j > i {
      ErrorUpToStays(ss, i, j - 1);
    }
  }
  /** When every pair passes, no prefix reports an error. */
  lemma PassesUpTo(ss: seq<Sequence>, i: nat)
    requires AllValid(ss) && 1 <= i <= |ss| && PairsPass(ss, |ss|)
    ensures ErrorUpTo(ss, i).None?
  {
    ErrorUpToNone(ss, i);
  }


  /** Gluing two touching inputs: a's instants, without its last one when a
      excludes its upper bound, then b's, without its first one when a
      includes it.  Exactly one copy of the shared instant is kept. */
  function Glue(a: Sequence, b: Sequence): Sequence
  {
    var n1 := |a.instants|;
    var c1 := if a.upperInc || n1 == 0 then n1 else n1 - 1;
    var st2 := if a.upperInc && |b.instants| > 0 then 1 else 0;
    Sequence(a.instants[..c1] + b.instants[st2..], a.lowerInc, b.upperInc, a.linear)
  }

  /** Two touching inputs that pass the checks glue into a valid sequence
      spanning both, with one instant fewer than the two together. */
  lemma GlueValid(a: Sequence, b: Sequence)
    requires a.Valid() && b.Valid() && Touching(a, b) && PairError(a, b).None?
    ensures var r := Glue(a, b);
            && r.Valid()
            && r.Span() == Period(a.First().t, b.Last().t, a.lowerInc, b.upperInc)
            && |r.instants| == |a.instants| + |b.instants| - 1
            && r.First() == a.First() && r.Last() == b.Last()
            && r.lowerInc == a.lowerInc && r.upperInc == b.upperInc && r.linear == a.linear
  {
    var n1 := |a.instants|;
    PrefixSuffixValid(a, b, if a.upperInc then n1 else n1 - 1, if a.upperInc then 1 else 0);
  }

  /** The glued sequence covers exactly the timestamps of its two parts. */
  lemma GlueCovers(a: Sequence, b: Sequence)
    requires a.Valid() && b.Valid() && Touching(a, b) && PairError(a, b).None?
    ensures Glue(a, b).Valid()
    ensures forall t :: Glue(a, b).Span().Contains(t) <==> a.Span().Contains(t) || b.Span().Contains(t)
  {
    GlueValid(a, b);
    AdjacentUnion(a.Span(), b.Span());
  }

  /** The last of the output sequences rs built so far ends like input a:
      same last instant, upper bound and interpolation. */
  predicate EndsLike(rs: seq<Sequence>, a: Sequence)
    requires AllValid(rs) && a.Valid()
  {
    && |rs| >= 1
    && rs[|rs| - 1].Last() == a.Last()
    && rs[|rs| - 1].upperInc == a.upperInc
    && rs[|rs| - 1].linear == a.linear
  }

  /** The step of the first pass for input b, whose predecessor a ended the
      last of the output sequences built so far: b either continues that
      sequence or starts a new one. */
  function Extend(prev: seq<Sequence>, a: Sequence, b: Sequence): (r: seq<Sequence>)
    requires |prev| >= 1
    ensures |prev| <= |r| <= |prev| + 1
    ensures forall k | 0 <= k < |prev| - 1 :: r[k] == prev[k]
    ensures Touching(a, b) ==> r == prev[..|prev| - 1] + [Glue(prev[|prev| - 1], b)]
    ensures !Touching(a, b) ==> r == prev + [b]
  {
    if Touching(a, b) then prev[..|prev| - 1] + [Glue(prev[|prev| - 1], b)] else prev + [b]
  }

  /** A step of the first pass on inputs that pass the checks keeps the
      output sequences valid. */
  lemma ExtendValid(prev: seq<Sequence>, a: Sequence, b: Sequence)
    requires AllValid(prev) && a.Valid() && b.Valid() && PairError(a, b).None? && EndsLike(prev, a)
    ensures var r := Extend(prev, a, b);
            && AllValid(r) && EndsLike(r, b)
            && (Touching(a, b) ==>
                  && |r[|r| - 1].instants| == |prev[|prev| - 1].instants| + |b.instants| - 1
                  && r[|r| - 1].lowerInc == prev[|prev| - 1].lowerInc)
  {
    var r := Extend(prev, a, b);
    if Touching(a, b) {
      GlueValid(prev[|prev| - 1], b);
      assert r[|r| - 1] == Glue(prev[|prev| - 1], b);
      assert forall k | 0 <= k < |r| - 1 :: r[k] == prev[k];
    } else {
      assert forall k | 0 <= k < |prev| :: r[k] == prev[k];
    }
  }

  /** The output sequences, before normalization, that the merge builds from
      the first i sorted inputs. */
  function RunsUpTo(ss: seq<Sequence>, i: nat): (r: seq<Sequence>)
    requires 1 <= i <= |ss|
    ensures 1 <= |r| <= i
  {
    if i == 1 then [ss[0]]
    else Extend(RunsUpTo(ss, i - 1), ss[i - 2], ss[i - 1])
  }

  /** Without an error, the output sequences are valid and the last one ends
      like the last input. */
  lemma {:induction false} RunsValid(ss: seq<Sequence>, i: nat)
    requires AllValid(ss) && 1 <= i <= |ss| && ErrorUpTo(ss, i).None?
    ensures AllValid(RunsUpTo(ss, i)) && EndsLike(RunsUpTo(ss, i), ss[i - 1])
  {
    if i > 1 {
      RunsValid(ss, i - 1);
      ExtendValid(RunsUpTo(ss, i - 1), ss[i - 2], ss[i - 1]);
    }
  }

  /** The first pass checks the interpolation of every consecutive pair, so
      without an error all inputs share one interpolation. */
  lemma {:induction false} SameInterpolation(ss: seq<Sequence>, i: nat)
    requires AllValid(ss) && 1 <= i <= |ss| && ErrorUpTo(ss, i).None?
    ensures forall k | 0 <= k < i :: ss[k].linear == ss[0].linear
  {
    if i > 1 {
      SameInterpolation(ss, i - 1);
    }
  }

  /** Every output sequence keeps the interpolation of the inputs. */
  lemma {:induction false} RunsLinear(ss: seq<Sequence>, i: nat)
    requires AllValid(ss) && 1 <= i <= |ss| && ErrorUpTo(ss, i).None?
    ensures forall g | 0 <= g < |RunsUpTo(ss, i)| :: RunsUpTo(ss, i)[g].linear == ss[0].linear
  {
    if i > 1 {
      RunsLinear(ss, i - 1);
      SameInterpolation(ss, i);
      var prev := RunsUpTo(ss, i - 1);
      assert prev[|prev| - 1].linear == ss[0].linear;
    }
  }

  /** One step of the first pass adds exactly the timestamps of the new
      input to those covered. */
  lemma ExtendCovers(prev: seq<Sequence>, a: Sequence, b: Sequence, t: Time)
    requires AllValid(prev) && a.Valid() && b.Valid() && PairError(a, b).None? && EndsLike(prev, a)
    ensures AllValid(Extend(prev, a, b))
    ensures Covers(Extend(prev, a, b), t) <==> Covers(prev, t) || b.Span().Contains(t)
  {
    ExtendValid(prev, a, b);
    if Touching(a, b) {
      var init := prev[..|prev| - 1];
      var last := prev[|prev| - 1];
      assert prev == init + [last];
      assert AllValid(init);
      CoversSnoc(init, last);
      CoversSnoc(init, Glue(last, b));
      GlueCovers(last, b);
    } else {
      CoversSnoc(prev, b);
    }
  }

  /** Timestamp t lies in the period of one of the first i inputs. */
  predicate CoversUpTo(ss: seq<Sequence>, i: nat, t: Time)
    requires AllValid(ss) && i <= |ss|
  {
    exists k | 0 <= k < i :: ss[k].Span().Contains(t)
  }

  lemma CoversUpToSnoc(ss: seq<Sequence>, i: nat, t: Time)
    requires AllValid(ss) && 1 <= i <= |ss|
    ensures CoversUpTo(ss, i, t) <==> CoversUpTo(ss, i - 1, t) || ss[i - 1].Span().Contains(t)
  {
    if CoversUpTo(ss, i, t) && !ss[i - 1].Span().Contains(t) {
      var k :| 0 <= k < i && ss[k].Span().Contains(t);
      assert k < i - 1;
    }
  }

  /** Without an error up to input i, there is none up to input i - 1 nor
      between inputs i - 2 and i - 1. */
  lemma ErrorUpToPrev(ss: seq<Sequence>, i: nat)
    requires AllValid(ss) && 2 <= i <= |ss| && ErrorUpTo(ss, i).None?
    ensures ErrorUpTo(ss, i - 1).None? && PairError(ss[i - 2], ss[i - 1]).None?
  {
  }

  /** The output sequences cover exactly the timestamps of the inputs. */
  lemma {:induction false} RunsCover(ss: seq<Sequence>, i: nat, t: Time)
    requires AllValid(ss) && 1 <= i <= |ss| && ErrorUpTo(ss, i).None?
    ensures AllValid(RunsUpTo(ss, i))
    ensures Covers(RunsUpTo(ss, i), t) <==> CoversUpTo(ss, i, t)
  {
    CoversUpToSnoc(ss, i, t);
    if i == 1 {
      assert RunsUpTo(ss, 1)[0] == ss[0];
    } else {
      ErrorUpToPrev(ss, i);
      RunsCover(ss, i - 1, t);
      RunsValid(ss, i - 1);
      ExtendCovers(RunsUpTo(ss, i - 1), ss[i - 2], ss[i - 1], t);
    }
  }

  /** Consecutive output sequences are ordered in time and do not touch, so
      none of them could have been glued to the next. */
  predicate Separated(rs: seq<Sequence>)
    requires AllValid(rs)
  {
    forall g | 0 < g < |rs| :: Before(rs[g - 1].Span(), rs[g].Span()) && !Touching(rs[g - 1], rs[g])
  }

  lemma SeparatedSnoc(rs: seq<Sequence>, x: Sequence)
    requires AllValid(rs) && x.Valid() && Separated(rs) && |rs| >= 1
    requires Before(rs[|rs| - 1].Span(), x.Span()) && !Touching(rs[|rs| - 1], x)
    ensures AllValid(rs + [x]) && Separated(rs + [x])
  {
    var r := rs + [x];
    forall k | 0 <= k < |r| ensures r[k].Valid() {
      if k < |rs| {
        assert r[k] == rs[k];
      }
    }
    forall g | 0 < g < |r| ensures Before(r[g - 1].Span(), r[g].Span()) && !Touching(r[g - 1], r[g]) {
      if g < |rs| {
        assert r[g - 1] == rs[g - 1] && r[g] == rs[g];
      } else {
        assert r[g - 1] == rs[|rs| - 1] && r[g] == x;
      }
    }
  }

  /** Replacing the last output sequence by one that starts the same way
      keeps the outputs separated. */
  lemma SeparatedReplaceLast(rs: seq<Sequence>, y: Sequence)
    requires AllValid(rs) && y.Valid() && Separated(rs) && |rs| >= 1
    requires y.First() == rs[|rs| - 1].First() && y.lowerInc == rs[|rs| - 1].lowerInc
    ensures AllValid(rs[..|rs| - 1] + [y]) && Separated(rs[..|rs| - 1] + [y])
  {
    var r := rs[..|rs| - 1] + [y];
    assert forall k | 0 <= k < |rs| - 1 :: r[k] == rs[k];
    assert r[|rs| - 1] == y;
  }

  lemma ExtendSeparated(prev: seq<Sequence>, a: Sequence, b: Sequence)
    requires AllValid(prev) && a.Valid() && b.Valid() && PairError(a, b).None? && EndsLike(prev, a)
    requires Separated(prev)
    ensures AllValid(Extend(prev, a, b)) && Separated(Extend(prev, a, b))
  {
    ExtendValid(prev, a, b);
    var last := prev[|prev| - 1];
    if Touching(a, b) {
      GlueValid(last, b);
      SeparatedReplaceLast(prev, Glue(last, b));
    } else {
      SeparatedSnoc(prev, b);
    }
  }

  lemma {:induction false} RunsSeparated(ss: seq<Sequence>, i: nat)
    requires AllValid(ss) && 1 <= i <= |ss| && ErrorUpTo(ss, i).None?
    ensures AllValid(RunsUpTo(ss, i)) && Separated(RunsUpTo(ss, i))
  {
    RunsValid(ss, i);
    if i > 1 {
      RunsSeparated(ss, i - 1);
      RunsValid(ss, i - 1);
      ExtendSeparated(RunsUpTo(ss, i - 1), ss[i - 2], ss[i - 1]);
    }
  }

  /** An output sequence, once the next input does not continue it, is final:
      later inputs only add to or extend later output sequences. */
  lemma {:induction false} RunsPrefix(ss: seq<Sequence>, i: nat, j: nat)
    requires 1 <= i <= j <= |ss|
    requires i == j || !Touching(ss[i - 1], ss[i])
    ensures |RunsUpTo(ss, i)| <= |RunsUpTo(ss, j)|
    ensures i < j ==> |RunsUpTo(ss, i)| < |RunsUpTo(ss, j)|
    ensures forall g | 0 <= g < |RunsUpTo(ss, i)| :: RunsUpTo(ss, j)[g] == RunsUpTo(ss, i)[g]
    decreases j
  {
    if i < j {
      RunsPrefix(ss, i, j - 1);
    }
  }

  /** Taking one more element of a sequence appends it. */
  lemma TakeSnoc<T>(s: seq<T>, i: nat)
    requires 1 <= i <= |s|
    ensures s[..i] == s[..i - 1] + [s[i - 1]]
  {
  }

  /** countinst holds the instant counts of the output sequences built from
      the first i inputs. */
  predicate Counted(ss: seq<Sequence>, i: nat, countinst: seq<nat>)
    requires 1 <= i <= |ss|
  {
    var p := RunsUpTo(ss, i);
    |countinst| == |p| && forall g | 0 <= g < |countinst| :: countinst[g] == |p[g].instants|
  }

  /** An input continuing the last output sequence adds all its instants but
      the shared one to the last count. */
  lemma CountTouching(ss: seq<Sequence>, i: nat, countinst: seq<nat>)
    requires AllValid(ss) && 1 <= i < |ss| && ErrorUpTo(ss, i).None? && PairError(ss[i - 1], ss[i]).None?
    requires Touching(ss[i - 1], ss[i]) && Counted(ss, i, countinst)
    ensures ErrorUpTo(ss, i + 1).None?
    ensures |countinst| >= 1 && countinst[|countinst| - 1] + |ss[i].instants| - 1 >= 0
    ensures Counted(ss, i + 1, countinst[..|countinst| - 1] + [countinst[|countinst| - 1] + |ss[i].instants| - 1])
  {
    RunsValid(ss, i);
    ExtendValid(RunsUpTo(ss, i), ss[i - 1], ss[i]);
  }

  /** Any other input starts a new output sequence and a new count. */
  lemma CountApart(ss: seq<Sequence>, i: nat, countinst: seq<nat>)
    requires AllValid(ss) && 1 <= i < |ss| && ErrorUpTo(ss, i).None? && PairError(ss[i - 1], ss[i]).None?
    requires !Touching(ss[i - 1], ss[i]) && Counted(ss, i, countinst)
    ensures ErrorUpTo(ss, i + 1).None?
    ensures Counted(ss, i + 1, countinst + [|ss[i].instants|])
  {
    assert RunsUpTo(ss, i + 1) == RunsUpTo(ss, i) + [ss[i]];
  }

  /** The first failing pair decides the error of the whole first pass. */
  lemma ErrorAt(ss: seq<Sequence>, i: nat, count: nat)
    requires AllValid(ss) && 1 <= i < count == |ss| && ErrorUpTo(ss, i).None?
    requires PairError(ss[i - 1], ss[i]).Some?
    ensures ErrorUpTo(ss, count) == PairError(ss[i - 1], ss[i])
  {
    ErrorUpToStays(ss, i + 1, count);
  }

  /** The first pass of tsequence_merge_array: it checks every consecutive
      pair of sorted inputs, stopping at the first failure, and counts the
      instants of every output sequence. */
  method CountInstants(ss: seq<Sequence>, count: nat) returns (err: Option<Error>, countinst: seq<nat>)
    requires 1 <= count == |ss| && AllValid(ss)
    ensures err == ErrorUpTo(ss, count)
    ensures err.None? ==> Counted(ss, count, countinst)
  {
    countinst := [|ss[0].instants|];
    var i := 1;
    while i < count
      invariant 1 <= i <= count
      invariant ErrorUpTo(ss, i).None?
      invariant Counted(ss, i, countinst)
    {
      err, countinst := CountRound(ss, i, countinst);
      if err.Some? {
        return;
      }
      i := i + 1;
    }
    err := None;
  }

  /** One round of the first pass, on the pair ss[i - 1], ss[i]: an error
      ends the pass, otherwise the counts take in ss[i]. */
  method CountRound(ss: seq<Sequence>, i: nat, countinst: seq<nat>) returns (err: Option<Error>, countinst': seq<nat>)
    requires AllValid(ss) && 1 <= i < |ss| && ErrorUpTo(ss, i).None? && Counted(ss, i, countinst)
    ensures err == PairError(ss[i - 1], ss[i])
    ensures err.Some? ==> err == ErrorUpTo(ss, |ss|)
    ensures err.None? ==> ErrorUpTo(ss, i + 1).None? && Counted(ss, i + 1, countinst')
  {
    var prev := ss[i - 1];
    var cur := ss[i];
    if prev.linear != cur.linear {
      ErrorAt(ss, i, |ss|);
      return Some(MixedInterpolation), countinst;
    }
    var inst1 := prev.Last();
    var inst2 := cur.First();
    if inst1.t > inst2.t {
      ErrorAt(ss, i, |ss|);
      return Some(OverlappingTime), countinst;
    }
    if inst1.t == inst2.t && cur.lowerInc {
      if inst1.v != inst2.v && prev.upperInc && cur.lowerInc {
        ErrorAt(ss, i, |ss|);
        return Some(ConflictingValues), countinst;
      }
      CountTouching(ss, i, countinst);
      countinst' := countinst[..|countinst| - 1] + [countinst[|countinst| - 1] + |cur.instants| - 1];
    } else {
      CountApart(ss, i, countinst);
      countinst' := countinst + [|cur.instants|];
    }
    err := None;
  }

  /** The last instant of s when s excludes its upper bound: the instant the
      fill pass holds back until the output sequence is complete. */
  function Tail(s: Sequence): seq<Instant>
  {
    if s.upperInc || |s.instants| == 0 then [] else [s.Last()]
  }

  /** The instants of input s the fill pass copies, from `start`: all of them
      but the last when s excludes its upper bound. */
  function End(s: Sequence): nat
  {
    if s.upperInc || |s.instants| == 0 then |s.instants| else |s.instants| - 1
  }

  /** Where the fill pass starts copying input s that follows prev in its
      output sequence: at the first instant unless prev already supplied
      the shared one. */
  function Start(prev: Sequence, s: Sequence): nat
  {
    if s.lowerInc && !prev.upperInc then 0 else 1
  }

  /** After the inputs before l, output sequence g is under construction:
      its instants are the buffer followed by the held-back last instant. */
  predicate Filling(ss: seq<Sequence>, l: nat, g: nat, buf: seq<Instant>, lowerinc: bool)
    requires 1 <= l <= |ss|
  {
    var p := RunsUpTo(ss, l);
    && |p| == g + 1
    && buf + Tail(ss[l - 1]) == p[g].instants
    && p[g].lowerInc == lowerinc
  }

  /** The fill pass starts output sequence g with input l. */
  lemma FillFirst(ss: seq<Sequence>, l: nat, g: nat)
    requires AllValid(ss) && l < |ss| && Boundary(ss, l, g)
    ensures Filling(ss, l + 1, g, ss[l].instants[0..End(ss[l])], ss[l].lowerInc)
    ensures End(ss[l]) >= 1
  {
    var s := ss[l];
    assert s.instants[0..End(s)] + Tail(s) == s.instants;
  }

  /** Gluing on the buffer: the instants copied from b, which continues
      output sequence r after input a, start after the shared instant when
      the buffer already holds it. */
  lemma GlueFill(r: Sequence, a: Sequence, b: Sequence, buf: seq<Instant>)
    requires |r.instants| >= 1 && r.upperInc == a.upperInc
    requires |b.instants| >= 1 && b.lowerInc && (|b.instants| == 1 ==> b.upperInc)
    requires buf + Tail(r) == r.instants
    ensures Start(a, b) <= End(b)
    ensures buf + b.instants[Start(a, b)..End(b)] + Tail(b) == Glue(r, b).instants
  {
    var n1 := |r.instants|;
    var start := Start(a, b);
    if r.upperInc {
      assert buf == r.instants[..n1];
    } else {
      assert buf == r.instants[..n1 - 1];
    }
    assert b.instants[start..End(b)] + Tail(b) == b.instants[start..];
  }

  /** The fill pass continues output sequence g with input l, which touches
      its predecessor. */
  lemma FillNext(ss: seq<Sequence>, l: nat, g: nat, buf: seq<Instant>, lowerinc: bool)
    requires AllValid(ss) && 1 <= l < |ss| && ErrorUpTo(ss, l + 1).None?
    requires Touching(ss[l - 1], ss[l]) && Filling(ss, l, g, buf, lowerinc)
    ensures Start(ss[l - 1], ss[l]) <= End(ss[l])
    ensures Filling(ss, l + 1, g, buf + ss[l].instants[Start(ss[l - 1], ss[l])..End(ss[l])], lowerinc)
  {
    RunsValid(ss, l);
    var p := RunsUpTo(ss, l);
    assert Tail(p[g]) == Tail(ss[l - 1]);
    GlueFill(p[g], ss[l - 1], ss[l], buf);
  }

  /** When no further input continues it, output sequence g is complete and
      is the final output sequence g of the first pass. */
  lemma FillClose(ss: seq<Sequence>, l: nat, g: nat, buf: seq<Instant>, lowerinc: bool)
    requires AllValid(ss) && 1 <= l <= |ss| && PairsPass(ss, |ss|)
    requires Filling(ss, l, g, buf, lowerinc)
    requires l == |ss| || !Touching(ss[l - 1], ss[l])
    ensures ss[l - 1].upperInc ==> GroupDone(ss, g, buf, lowerinc, true)
    ensures !ss[l - 1].upperInc ==> GroupDone(ss, g, buf + [ss[l - 1].Last()], lowerinc, false)
    ensures Boundary(ss, l, g + 1)
  {
    assert buf + [] == buf;
    var n := |ss|;
    PassesUpTo(ss, l);
    PassesUpTo(ss, n);
    RunsValid(ss, l);
    RunsValid(ss, n);
    RunsPrefix(ss, l, n);
    SameInterpolation(ss, n);
  }

  /** An output sequence as tsequence_make builds it with NORMALIZE: valid,
      with the same period and interpolation, from a subset of the instants. */
  function NormalizeRun(g: Sequence, ops: Ops): (r: Sequence)
    requires g.Valid()
    ensures r.Valid() && r.Span() == g.Span() && r.linear == g.linear
    ensures SubseqOf(r.instants, g.instants)
  {
    Make(g.instants, g.lowerInc, g.upperInc, g.linear, true, ops).value
  }

  /** Every output sequence normalized, in order. */
  function NormalizeRuns(rs: seq<Sequence>, ops: Ops): (r: seq<Sequence>)
    requires AllValid(rs)
    ensures |r| == |rs| && AllValid(r)
    ensures forall g | 0 <= g < |rs| :: r[g] == NormalizeRun(rs[g], ops)
  {
    seq(|rs|, g requires 0 <= g < |rs| && rs[g].Valid() => NormalizeRun(rs[g], ops))
  }

  lemma NormalizeRunsSnoc(rs: seq<Sequence>, g: nat, ops: Ops)
    requires AllValid(rs) && g < |rs|
    ensures AllValid(rs[..g]) && AllValid(rs[..g + 1])
    ensures NormalizeRuns(rs[..g + 1], ops) == NormalizeRuns(rs[..g], ops) + [NormalizeRun(rs[g], ops)]
  {
    assert AllValid(rs[..g + 1]);
  }

  /** Separated output sequences of one interpolation form the ordered
      chain the sequence-set constructor expects. */
  lemma SeparatedChain(rs: seq<Sequence>)
    requires |rs| >= 1 && AllValid(rs) && Separated(rs)
    requires forall g | 0 <= g < |rs| :: rs[g].linear == rs[0].linear
    ensures Chain(rs[0], rs[1..])
  {
    var rest := rs[1..];
    forall i | 0 < i < |rest| ensures Before(rest[i - 1].Span(), rest[i].Span()) {
      assert rest[i - 1] == rs[i] && rest[i] == rs[i + 1];
    }
    if rest != [] {
      assert Before(rs[0].Span(), rs[1].Span());
    }
  }

  /** The normalized output sequences of inputs that pass the checks form a
      chain. */
  lemma MergeChain(ss: seq<Sequence>, ops: Ops)
    requires |ss| >= 1 && AllValid(ss) && PairsPass(ss, |ss|)
    ensures AllValid(RunsUpTo(ss, |ss|))
    ensures var out := NormalizeRuns(RunsUpTo(ss, |ss|), ops);
            && |out| >= 1 && Chain(out[0], out[1..]) && LinkedChain(out[0], out[1..])
            && out[0].linear == ss[0].linear
  {
    var n := |ss|;
    PassesUpTo(ss, n);
    RunsSeparated(ss, n);
    RunsLinear(ss, n);
    var rs := RunsUpTo(ss, n);
    NormalizeRunsSeparated(rs, ops);
    SeparatedChain(NormalizeRuns(rs, ops));
    ChainLinked(NormalizeRuns(rs, ops)[0], NormalizeRuns(rs, ops)[1..]);
  }

  /** tsequence_merge_array: the inputs sorted by period, then either the
      error of the first failing consecutive pair, or the normalized output
      sequences; several of them are made into a sequence set, whose
      constructor joins those that glue together (tsequencearr_normalize). */
  function Merge(sequences: seq<Sequence>, ops: Ops): (r: Result<seq<Sequence>>)
    requires |sequences| >= 1 && AllValid(sequences)
  {
    SortValid(sequences);
    var ss := SortByPeriod(sequences);
    var e := ErrorUpTo(ss, |sequences|);
    if e.Some? then Failure(e.value)
    else
      ErrorUpToNone(ss, |sequences|);
      MergeChain(ss, ops);
      var out := NormalizeRuns(RunsUpTo(ss, |ss|), ops);
      if |out| == 1 then Success(out)
      else Success(NormalizeSeqsFrom(out[0], out[1..], ops))
  }

  /** The inputs before l are exactly those of the first g output
      sequences. */
  predicate Boundary(ss: seq<Sequence>, l: nat, g: nat)
  {
    && l <= |ss|
    && (if l == 0 then g == 0
        else |RunsUpTo(ss, l)| == g && (l == |ss| || !Touching(ss[l - 1], ss[l])))
  }

  /** Output sequence g, as the first pass decided it, is the sequence with
      these instants, bounds and interpolation. */
  predicate GroupDone(ss: seq<Sequence>, g: nat, instants: seq<Instant>, lowerinc: bool, upperinc: bool)
    requires |ss| >= 1
  {
    var all := RunsUpTo(ss, |ss|);
    g < |all| && all[g] == Sequence(instants, lowerinc, upperinc, ss[0].linear)
  }

  /** Every input after lo and before hi continues the output sequence
      started by input lo. */
  predicate TouchingFrom(ss: seq<Sequence>, lo: nat, hi: nat)
    requires lo < hi <= |ss|
  {
    forall k | lo < k < hi :: Touching(ss[k - 1], ss[k])
  }

  /** The instants the fill pass has copied into the buffer of the output
      sequence started by input lo once it has read the inputs before hi:
      each input without the instant its predecessor already supplied and
      without its last instant when it excludes its upper bound. */
  function Copied(ss: seq<Sequence>, lo: nat, hi: nat): seq<Instant>
    requires AllValid(ss) && lo < hi <= |ss|
    decreases hi
  {
    if hi == lo + 1 then ss[lo].instants[0..End(ss[lo])]
    else Copied(ss, lo, hi - 1) + ss[hi - 1].instants[Start(ss[hi - 2], ss[hi - 1])..End(ss[hi - 1])]
  }

  /** The copied instants, followed by the held-back last instant, are
      those of the output sequence the first pass built. */
  lemma {:induction false} CopiedFilling(ss: seq<Sequence>, lo: nat, hi: nat, g: nat)
    requires AllValid(ss) && lo < hi <= |ss| && ErrorUpTo(ss, hi).None?
    requires Boundary(ss, lo, g) && TouchingFrom(ss, lo, hi)
    ensures Filling(ss, hi, g, Copied(ss, lo, hi), ss[lo].lowerInc)
    decreases hi
  {
    if hi == lo + 1 {
      FillFirst(ss, lo, g);
    } else {
      CopiedFilling(ss, lo, hi - 1, g);
      FillNext(ss, hi - 1, g, Copied(ss, lo, hi - 1), ss[lo].lowerInc);
    }
  }

  /** The inner loop of the second pass of tsequence_merge_array: input lo
      and the inputs after it that continue its output sequence are copied
      into one buffer. */
  method CopyTouching(ss: seq<Sequence>, lo: nat) returns (buf: seq<Instant>, hi: nat)
    requires AllValid(ss) && lo < |ss|
    ensures lo < hi <= |ss| && TouchingFrom(ss, lo, hi) && buf == Copied(ss, lo, hi)
    ensures hi == |ss| || !Touching(ss[hi - 1], ss[hi])
  {
    buf := ss[lo].instants[0..End(ss[lo])];
    hi := lo + 1;
    while hi < |ss| && Touching(ss[hi - 1], ss[hi])
      invariant lo < hi <= |ss| && TouchingFrom(ss, lo, hi)
      invariant buf == Copied(ss, lo, hi)
    {
      buf := buf + ss[hi].instants[Start(ss[hi - 1], ss[hi])..End(ss[hi])];
      hi := hi + 1;
    }
  }

  /** The body of the second pass of tsequence_merge_array for one output
      sequence: the inputs from lo on that belong to it are copied into one
      buffer, each shared instant once and the last instant of an input with
      an exclusive upper bound only at the end. */
  method FillGroup(ss: seq<Sequence>, lo: nat, g: nat)
      returns (instants: seq<Instant>, lowerinc: bool, upperinc: bool, hi: nat)
    requires AllValid(ss) && lo < |ss| && PairsPass(ss, |ss|) && Boundary(ss, lo, g)
    ensures lo < hi && Boundary(ss, hi, g + 1)
    ensures GroupDone(ss, g, instants, lowerinc, upperinc)
  {
    lowerinc := ss[lo].lowerInc;
    instants, hi := CopyTouching(ss, lo);
    PassesUpTo(ss, hi);
    CopiedFilling(ss, lo, hi, g);
    FillClose(ss, hi, g, instants, lowerinc);
    upperinc := ss[hi - 1].upperInc;
    if !upperinc {
      instants := instants + [ss[hi - 1].Last()];
    }
  }

  /** The second pass has made the first g output sequences, from the
      inputs before l. */
  predicate Filled(ss: seq<Sequence>, l: nat, g: nat, runs: seq<Sequence>, ops: Ops)
    requires |ss| >= 1
  {
    var all := RunsUpTo(ss, |ss|);
    && AllValid(all) && g <= |all| && Boundary(ss, l, g)
    && AllValid(all[..g]) && runs == NormalizeRuns(all[..g], ops)
  }

  lemma FillStart(ss: seq<Sequence>, ops: Ops)
    requires |ss| >= 1 && AllValid(ss) && PairsPass(ss, |ss|)
    ensures Filled(ss, 0, 0, [], ops)
  {
    var n := |ss|;
    PassesUpTo(ss, n);
    RunsValid(ss, n);
  }

  /** While output sequences remain to be made, inputs remain to be read. */
  lemma FillOpen(ss: seq<Sequence>, l: nat, g: nat, runs: seq<Sequence>, ops: Ops)
    requires |ss| >= 1 && Filled(ss, l, g, runs, ops) && g < |RunsUpTo(ss, |ss|)|
    ensures l < |ss|
  {
  }

  /** Making the filled buffer of output sequence g extends the normalized
      output by one sequence. */
  lemma FillStep(ss: seq<Sequence>, l: nat, g: nat, runs: seq<Sequence>, ops: Ops,
                 instants: seq<Instant>, lowerinc: bool, upperinc: bool, hi: nat)
    requires |ss| >= 1 && Filled(ss, l, g, runs, ops)
    requires GroupDone(ss, g, instants, lowerinc, upperinc) && Boundary(ss, hi, g + 1)
    ensures |instants| > 0 && Make(instants, lowerinc, upperinc, ss[0].linear, true, ops).Success?
    ensures Filled(ss, hi, g + 1, runs + [Make(instants, lowerinc, upperinc, ss[0].linear, true, ops).value], ops)
  {
    NormalizeRunsSnoc(RunsUpTo(ss, |ss|), g, ops);
  }

  /** Once all output sequences are made, they are the normalized output. */
  lemma FillEnd(ss: seq<Sequence>, l: nat, g: nat, runs: seq<Sequence>, ops: Ops)
    requires |ss| >= 1 && Filled(ss, l, g, runs, ops) && g == |RunsUpTo(ss, |ss|)|
    ensures AllValid(RunsUpTo(ss, |ss|))
    ensures runs == NormalizeRuns(RunsUpTo(ss, |ss|), ops)
  {
    var all := RunsUpTo(ss, |ss|);
    assert all[..g] == all;
  }

  /** One round of the second pass of tsequence_merge_array: output
      sequence g is filled from the inputs from l on and made into a
      normalized sequence. */
  method MakeGroup(ss: seq<Sequence>, l: nat, g: nat, runs: seq<Sequence>, ops: Ops)
      returns (newseq: Sequence, hi: nat)
    requires |ss| >= 1 && AllValid(ss) && PairsPass(ss, |ss|)
    requires Filled(ss, l, g, runs, ops) && g < |RunsUpTo(ss, |ss|)|
    ensures l < hi && Filled(ss, hi, g + 1, runs + [newseq], ops)
  {
    FillOpen(ss, l, g, runs, ops);
    var instants, lowerinc, upperinc;
    instants, lowerinc, upperinc, hi := FillGroup(ss, l, g);
    FillStep(ss, l, g, runs, ops, instants, lowerinc, upperinc, hi);
    var made := Make(instants, lowerinc, upperinc, ss[0].linear, true, ops);
    newseq := made.value;
  }

  /** The second pass of tsequence_merge_array, with the group boundaries
      the first pass decided: every output sequence is filled and made into
      a normalized sequence. */
  method FillRuns(ss: seq<Sequence>, countinst: seq<nat>, ops: Ops) returns (runs: seq<Sequence>)
    requires |ss| >= 1 && AllValid(ss) && PairsPass(ss, |ss|)
    requires Counted(ss, |ss|, countinst)
    ensures AllValid(RunsUpTo(ss, |ss|))
    ensures runs == NormalizeRuns(RunsUpTo(ss, |ss|), ops)
  {
    runs := [];
    var l := 0;
    var g := 0;
    FillStart(ss, ops);
    while g < |countinst|
      invariant g <= |countinst| == |RunsUpTo(ss, |ss|)|
      invariant Filled(ss, l, g, runs, ops)
    {
      var newseq, hi := MakeGroup(ss, l, g, runs, ops);
      runs := runs + [newseq];
      l := hi;
      g := g + 1;
    }
    FillEnd(ss, l, g, runs, ops);
  }

  /** tsequence_merge_array: sort, check and count, then fill. */
  method MergeArray(sequences: seq<Sequence>, ops: Ops) returns (r: Result<seq<Sequence>>)
    requires |sequences| >= 1 && AllValid(sequences)
    ensures r == Merge(sequences, ops)
  {
    SortValid(sequences);
    var ss := SortByPeriod(sequences);
    var count := |ss|;
    var err, countinst := CountInstants(ss, count);
    if err.Some? {
      return Failure(err.value);
    }
    ErrorUpToNone(ss, count);
    var runs := FillRuns(ss, countinst, ops);
    if |runs| == 1 {
      return Success(runs);
    }
    MergeChain(ss, ops);
    var normalized := NormalizeSeqs(runs, ops);
    return Success(normalized);
  }

  /** tsequence_merge: the merge of two sequences. */
  method MergeTwo(seq1: Sequence, seq2: Sequence, ops: Ops) returns (r: Result<seq<Sequence>>)
    requires seq1.Valid() && seq2.Valid()
    ensures r == Merge([seq1, seq2], ops)
  {
    r := MergeArray([seq1, seq2], ops);
  }

  /** Reordering the inputs does not change what they cover. */
  lemma CoversReorder(a: seq<Sequence>, b: seq<Sequence>)
    requires AllValid(a) && AllValid(b) && multiset(a) == multiset(b)
    ensures forall t :: Covers(a, t) ==> Covers(b, t)
  {
    forall t | Covers(a, t) ensures Covers(b, t) {
      var i :| 0 <= i < |a| && a[i].Span().Contains(t);
      assert a[i] in multiset(b);
      var j :| 0 <= j < |b| && b[j] == a[i];
    }
  }

  /** Normalizing keeps every period, so coverage and separation too. */
  lemma NormalizeRunsCover(rs: seq<Sequence>, ops: Ops, t: Time)
    requires AllValid(rs)
    ensures Covers(NormalizeRuns(rs, ops), t) <==> Covers(rs, t)
  {
    var r := NormalizeRuns(rs, ops);
    if Covers(r, t) {
      var i :| 0 <= i < |r| && r[i].Span().Contains(t);
      assert rs[i].Span().Contains(t);
    }
    if Covers(rs, t) {
      var i :| 0 <= i < |rs| && rs[i].Span().Contains(t);
      assert r[i].Span().Contains(t);
    }
  }

  lemma NormalizeRunsSeparated(rs: seq<Sequence>, ops: Ops)
    requires AllValid(rs) && Separated(rs)
    ensures Separated(NormalizeRuns(rs, ops))
  {
    var r := NormalizeRuns(rs, ops);
    forall g | 0 < g < |r| ensures Before(r[g - 1].Span(), r[g].Span()) && !Touching(r[g - 1], r[g]) {
      assert r[g - 1].Span() == rs[g - 1].Span() && r[g].Span() == rs[g].Span();
    }
  }

  /** tsequence_merge_array fails exactly when, once the inputs are sorted,
      two consecutive ones mix interpolations, overlap in time, or share an
      instant included in both with two different values; the error reported
      is that of the first such pair. */
  lemma MergeFailure(sequences: seq<Sequence>, ops: Ops)
    requires |sequences| >= 1 && AllValid(sequences)
    ensures AllValid(SortByPeriod(sequences))
    ensures var ss := SortByPeriod(sequences);
            Merge(sequences, ops).Failure? <==> exists j | 1 <= j < |ss| :: PairError(ss[j - 1], ss[j]).Some?
    ensures var ss := SortByPeriod(sequences);
            Merge(sequences, ops).Failure? ==>
              exists j | 1 <= j < |ss| :: PairError(ss[j - 1], ss[j]) == Some(Merge(sequences, ops).error) && PairsPass(ss, j)
  {
    SortValid(sequences);
    var ss := SortByPeriod(sequences);
    var n := |ss|;
    ErrorUpToNone(ss, n);
    if ErrorUpTo(ss, n).Some? {
      ErrorUpToFirst(ss, n);
    }
  }

  /** A sequence array covers what its first element and the rest cover. */
  lemma CoversFront(rs: seq<Sequence>)
    requires |rs| >= 1 && AllValid(rs)
    ensures forall t :: Covers(rs, t) <==> rs[0].Span().Contains(t) || Covers(rs[1..], t)
  {
    forall t | Covers(rs, t) ensures rs[0].Span().Contains(t) || Covers(rs[1..], t) {
      var i :| 0 <= i < |rs| && rs[i].Span().Contains(t);
      if i > 0 {
        assert rs[1..][i - 1] == rs[i];
      }
    }
    forall t | Covers(rs[1..], t) ensures Covers(rs, t) {
      var i :| 0 <= i < |rs[1..]| && rs[1..][i].Span().Contains(t);
      assert rs[i + 1] == rs[1..][i];
    }
  }

  /** A successful merge returns between one and as many sequences as it was
      given, ordered in time, with the inputs' interpolation, covering exactly
      the timestamps the inputs cover. */
  lemma MergeSuccess(sequences: seq<Sequence>, ops: Ops)
    requires |sequences| >= 1 && AllValid(sequences) && Merge(sequences, ops).Success?
    ensures var out := Merge(sequences, ops).value;
            && 1 <= |out| <= |sequences|
            && Chain(out[0], out[1..])
            && out[0].linear == sequences[0].linear
            && (forall t :: Covers(out, t) <==> Covers(sequences, t))
  {
    SortValid(sequences);
    var ss := SortByPeriod(sequences);
    var n := |ss|;
    ErrorUpToNone(ss, n);
    MergeChain(ss, ops);
    var rs := RunsUpTo(ss, n);
    var out := NormalizeRuns(rs, ops);
    forall t ensures Covers(out, t) <==> Covers(ss, t) {
      RunsCover(ss, n, t);
      NormalizeRunsCover(rs, ops, t);
    }
    SameInterpolation(ss, n);
    assert sequences[0] in multiset(ss);
    CoversFront(out);
    CoversReorder(ss, sequences);
    CoversReorder(sequences, ss);
  }

  /** Step mode: the glued sequence takes the value of each part at every
      timestamp of that part. */
  lemma GlueStepValues(a: Sequence, b: Sequence, ops: Ops, t: Time)
    requires a.Valid() && b.Valid() && Touching(a, b) && PairError(a, b).None? && !a.linear
    ensures Glue(a, b).Valid()
    ensures a.Span().Contains(t) ==> ValueAtTimestamp(Glue(a, b), t, ops) == ValueAtTimestamp(a, t, ops)
    ensures b.Span().Contains(t) ==> ValueAtTimestamp(Glue(a, b), t, ops) == ValueAtTimestamp(b, t, ops)
  {
    GlueCovers(a, b);
    var n1 := |a.instants|;
    var c1 := if a.upperInc then n1 else n1 - 1;
    var st2 := if a.upperInc then 1 else 0;
    if a.Span().Contains(t) || b.Span().Contains(t) {
      StepPrefixSuffixValue(a, b, Glue(a, b), c1, st2, t, ops);
      if a.Span().Contains(t) && b.Span().Contains(t) {
        ValueAtInstants(a, t, n1 - 1, ops);
        ValueAtInstants(b, t, 0, ops);
      }
    }
  }

  /** Step mode: a step of the first pass keeps every value the output
      sequences took, and adds those of the new input. */
  lemma ExtendTakes(prev: seq<Sequence>, a: Sequence, b: Sequence, ops: Ops, t: Time, v: Value)
    requires AllValid(prev) && a.Valid() && b.Valid() && PairError(a, b).None? && EndsLike(prev, a) && !b.linear
    requires TakesValue(prev, t, v, ops) || ValueAtTimestamp(b, t, ops) == Some(v)
    ensures TakesValue(Extend(prev, a, b), t, v, ops)
  {
    var r := Extend(prev, a, b);
    var last := prev[|prev| - 1];
    if Touching(a, b) {
      GlueStepValues(last, b, ops, t);
      assert r[|r| - 1] == Glue(last, b);
      if ValueAtTimestamp(b, t, ops) != Some(v) {
        var g :| 0 <= g < |prev| && prev[g].Valid() && ValueAtTimestamp(prev[g], t, ops) == Some(v);
        if g < |prev| - 1 {
          assert r[g] == prev[g];
        }
      }
    } else if ValueAtTimestamp(b, t, ops) == Some(v) {
      assert r[|prev|] == b;
    } else {
      var g :| 0 <= g < |prev| && prev[g].Valid() && ValueAtTimestamp(prev[g], t, ops) == Some(v);
      assert r[g] == prev[g];
    }
  }

  /** Step mode: the output sequences for the first i inputs take every
      value those for the first i - 1 took, and those of input i - 1. */
  lemma RunsStepTakes(ss: seq<Sequence>, i: nat, ops: Ops, t: Time, v: Value)
    requires AllValid(ss) && 2 <= i <= |ss| && ErrorUpTo(ss, i).None? && !ss[0].linear
    requires TakesValue(RunsUpTo(ss, i - 1), t, v, ops) || ValueAtTimestamp(ss[i - 1], t, ops) == Some(v)
    ensures TakesValue(RunsUpTo(ss, i), t, v, ops)
  {
    ErrorUpToPrev(ss, i);
    RunsValid(ss, i - 1);
    SameInterpolation(ss, i);
    ExtendTakes(RunsUpTo(ss, i - 1), ss[i - 2], ss[i - 1], ops, t, v);
  }

  /** Step mode: at a timestamp one of the first i inputs covers, one of the
      output sequences takes the value that input takes there. */
  lemma {:induction false} RunsTakeValues(ss: seq<Sequence>, i: nat, k: nat, ops: Ops, t: Time)
    requires AllValid(ss) && 1 <= i <= |ss| && ErrorUpTo(ss, i).None? && !ss[0].linear
    requires k < i && ss[k].Span().Contains(t)
    ensures TakesValue(RunsUpTo(ss, i), t, ValueAtTimestamp(ss[k], t, ops).value, ops)
  {
    if i == 1 {
      assert RunsUpTo(ss, 1)[0] == ss[0];
    } else {
      if k < i - 1 {
        ErrorUpToPrev(ss, i);
        RunsTakeValues(ss, i - 1, k, ops, t);
      }
      RunsStepTakes(ss, i, ops, t, ValueAtTimestamp(ss[k], t, ops).value);
    }
  }

  /** Step mode: normalizing an output sequence keeps its value everywhere. */
  lemma NormalizeRunStepValue(g: Sequence, ops: Ops, t: Time)
    requires g.Valid() && !g.linear
    ensures ValueAtTimestamp(NormalizeRun(g, ops), t, ops) == ValueAtTimestamp(g, t, ops)
  {
    if |g.instants| >= 2 {
      NormalizeStepValues(g, ops, t);
    }
  }

  lemma NormalizeRunsTake(rs: seq<Sequence>, ops: Ops, t: Time, v: Value)
    requires AllValid(rs) && (forall g | 0 <= g < |rs| :: !rs[g].linear) && TakesValue(rs, t, v, ops)
    ensures TakesValue(NormalizeRuns(rs, ops), t, v, ops)
  {
    var g :| 0 <= g < |rs| && rs[g].Valid() && ValueAtTimestamp(rs[g], t, ops) == Some(v);
    NormalizeRunStepValue(rs[g], ops, t);
    assert NormalizeRuns(rs, ops)[g] == NormalizeRun(rs[g], ops);
  }

  /** Step mode: at every timestamp an input covers, one of the merged
      sequences takes the value that input takes there. */
  lemma MergeStepValues(sequences: seq<Sequence>, ops: Ops, i: nat, t: Time)
    requires |sequences| >= 1 && AllValid(sequences) && Merge(sequences, ops).Success?
    requires i < |sequences| && !sequences[i].linear && sequences[i].Span().Contains(t)
    ensures TakesValue(Merge(sequences, ops).value, t, ValueAtTimestamp(sequences[i], t, ops).value, ops)
  {
    SortValid(sequences);
    var ss := SortByPeriod(sequences);
    var n := |ss|;
    ErrorUpToNone(ss, n);
    MergeChain(ss, ops);
    assert sequences[i] in multiset(ss);
    var k :| 0 <= k < n && ss[k] == sequences[i];
    SameInterpolation(ss, n);
    var v := ValueAtTimestamp(sequences[i], t, ops).value;
    RunsTakeValues(ss, n, k, ops, t);
    RunsLinear(ss, n);
    var rs := RunsUpTo(ss, n);
    NormalizeRunsTake(rs, ops, t, v);
    var out := NormalizeRuns(rs, ops);
    if |out| > 1 {
      TakesFront(out, t, v, ops);
      NormalizeSeqsKeepValues(out[0], out[1..], ops, t, v);
    }
  }

  /** The step example: [1@1, 1@2) and [2@2, 3@3] glue into [1@1, 2@2, 3@3]. */
  const StepLeft := Sequence([Instant(1, 1), Instant(2, 1)], true, false, false)
  const StepRight := Sequence([Instant(2, 2), Instant(3, 3)], true, true, false)
  const StepGlued := Sequence([Instant(1, 1), Instant(2, 2), Instant(3, 3)], true, true, false)

  lemma StepExampleSorted()
    ensures AllValid([StepRight, StepLeft]) && SortByPeriod([StepRight, StepLeft]) == [StepLeft, StepRight]
  {
    assert StepLeft.Valid() && StepRight.Valid();
    assert SortByPeriod([StepLeft]) == [StepLeft];
  }

  lemma StepExampleRuns()
    ensures AllValid([StepLeft, StepRight]) && ErrorUpTo([StepLeft, StepRight], 2).None?
    ensures RunsUpTo([StepLeft, StepRight], 2) == [StepGlued]
  {
    assert StepLeft.Valid() && StepRight.Valid();
    assert Touching(StepLeft, StepRight);
    assert Glue(StepLeft, StepRight) == StepGlued;
  }

  lemma StepExampleNormal(ops: Ops)
    ensures StepGlued.Valid() && NormalizeRuns([StepGlued], ops) == [StepGlued]
  {
    assert StepGlued.Valid();
    assert Normalize(StepGlued.instants, false, ops) == StepGlued.instants;
  }

  /** Merging the step sequences [1@1, 1@2) and [2@2, 3@3], given in either
      order, glues them into the one sequence [1@1, 2@2, 3@3]. */
  lemma MergeStepExample(ops: Ops)
    ensures AllValid([StepRight, StepLeft])
    ensures Merge([StepRight, StepLeft], ops) == Success([StepGlued])
  {
    StepExampleSorted();
    StepExampleRuns();
    StepExampleNormal(ops);
  }

  /** The inner loop of the second pass of tsequence_merge_array as written:
      it copies inputs from l on while fewer than `count` instants are
      buffered (m) and inputs remain, starting an input at its second
      instant unless it includes its lower bound and is either the first of
      the group or follows an input excluding its upper bound.  Returns the
      buffer and the next input. */
  function FillAsWritten(ss: seq<Sequence>, l: nat, m: nat, count: nat, buf: seq<Instant>): (r: (seq<Instant>, nat))
    requires AllValid(ss) && l <= |ss| && (m > 0 ==> l > 0)
    ensures l <= r.1 <= |ss|
    ensures m < count && l < |ss| ==> l < r.1
    decreases |ss| - l
  {
    if !(m < count && l < |ss|) then (buf, l)
    else
      var s := ss[l];
      var start := if s.lowerInc && (m == 0 || !ss[l - 1].upperInc) then 0 else 1;
      var end := if s.upperInc then |s.instants| else |s.instants| - 1;
      FillAsWritten(ss, l + 1, m + (end - start), count, buf + s.instants[start..end])
  }

  /** One output sequence of the second pass as written: the buffer, with the
      last instant of the last input read written after it when that input
      excludes its upper bound, is read up to the count the first pass
      computed. */
  function GroupAsWritten(ss: seq<Sequence>, l: nat, count: nat): (r: (seq<Instant>, bool, bool, nat))
    requires AllValid(ss) && l < |ss| && count >= 1
    ensures l < r.3 <= |ss|
  {
    var (buf, next) := FillAsWritten(ss, l, 0, count, []);
    var last := ss[next - 1];
    var full := if last.upperInc then buf else buf + [last.Last()];
    (full[..if count <= |full| then count else |full|], ss[l].lowerInc, last.upperInc, next)
  }

  /** The linear inputs [1@1, 2@2) and [5@5, 6@6] do not touch, so the first
      pass counts two output sequences of two instants each. */
  const ApartLeft := Sequence([Instant(1, 1), Instant(2, 2)], true, false, true)
  const ApartRight := Sequence([Instant(5, 5), Instant(6, 6)], true, true, true)

  /** As written, the first output sequence keeps reading into the second
      input: it is [1@1, 5@5] with both bounds inclusive, which covers time
      3 where no input is defined, and no input is left for the second
      output sequence.  The first pass and the corrected fill give the
      inputs back unchanged. */
  lemma FillAsWrittenOverruns()
    ensures AllValid([ApartLeft, ApartRight])
    ensures ErrorUpTo([ApartLeft, ApartRight], 2).None?
    ensures RunsUpTo([ApartLeft, ApartRight], 2) == [ApartLeft, ApartRight]
    ensures GroupAsWritten([ApartLeft, ApartRight], 0, 2) == ([Instant(1, 1), Instant(5, 5)], true, true, 2)
    ensures !Covers([ApartLeft, ApartRight], 3)
    ensures Sequence([Instant(1, 1), Instant(5, 5)], true, true, true).Span().Contains(3)
  {
    var ss := [ApartLeft, ApartRight];
    assert ApartLeft.Valid() && ApartRight.Valid();
    assert !Touching(ApartLeft, ApartRight);
    assert ss[0] == ApartLeft && ss[1] == ApartRight;
    var empty: seq<Instant> := [];
    assert empty + ss[0].instants[0..1] == [Instant(1, 1)];
    assert FillAsWritten(ss, 0, 0, 2, []) == FillAsWritten(ss, 1, 1, 2, [Instant(1, 1)]);
    assert [Instant(1, 1)] + ss[1].instants[0..2] == [Instant(1, 1), Instant(5, 5), Instant(6, 6)];
    assert FillAsWritten(ss, 1, 1, 2, [Instant(1, 1)]) == FillAsWritten(ss, 2, 3, 2, [Instant(1, 1), Instant(5, 5), Instant(6, 6)]);
    assert [Instant(1, 1), Instant(5, 5), Instant(6, 6)][..2] == [Instant(1, 1), Instant(5, 5)];
    if Covers(ss, 3) {
      var i :| 0 <= i < 2 && ss[i].Span().Contains(3);
    }
  }

  /** An input excluding its lower bound, merged alone: (1@1, 2@2]. */
  const OpenStart := Sequence([Instant(1, 1), Instant(2, 2)], false, true, true)

  /** As written, the first input of an output sequence that excludes its
      lower bound loses its first instant: one instant is copied where the
      first pass counted two, so the output is made from an unset slot.  The
      corrected fill copies the input whole. */
  lemma FillAsWrittenDropsFirst()
    ensures AllValid([OpenStart])
    ensures RunsUpTo([OpenStart], 1) == [OpenStart] && |OpenStart.instants| == 2
    ensures FillAsWritten([OpenStart], 0, 0, 2, []) == ([Instant(2, 2)], 1)
  {
    assert OpenStart.Valid();
    var ss := [OpenStart];
    assert ss[0] == OpenStart;
    var empty: seq<Instant> := [];
    assert empty + ss[0].instants[1..2] == [Instant(2, 2)];
    assert FillAsWritten(ss, 0, 0, 2, []) == FillAsWritten(ss, 1, 1, 2, [Instant(2, 2)]);
  }
}
