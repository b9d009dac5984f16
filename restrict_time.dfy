/** Restriction of a sequence to, and to the complement of, a timestamp, a
    period and a period set.  Every result is a list of valid sequences in
    time order whose periods cover exactly the requested part of the input's
    period, and whose instants lie on the input. */
module TSequenceRestrictTime {
  import opened TemporalBase
  import opened Periods
  import opened TSequence
  import opened TSequenceSearch
  import opened TSequenceJoin

  /** The sequence with both bounds closed: its value function extends the
      sequence's own to the two ends of its period. */
  function Closure(s: Sequence): (c: Sequence)
    requires s.Valid()
    ensures c.Valid() && c.instants == s.instants && c.linear == s.linear
  {
    Sequence(s.instants, true, true, s.linear)
  }

  /** x lies on s: its timestamp is within the (closed) period of s and its
      value is the value of s there. */
  predicate OnSequence(x: Instant, s: Sequence, ops: Ops)
    requires s.Valid()
  {
    ValueAtTimestamp(Closure(s), x.t, ops) == Some(x.v)
  }

  /** Every instant of r lies on s, except the end instant a step sequence
      with an exclusive upper bound repeats from its predecessor. */
  predicate SampledFrom(r: Sequence, s: Sequence, ops: Ops)
    requires s.Valid()
  {
    forall j {:trigger OnSequence(r.instants[j], s, ops)}
      | 0 <= j < |r.instants| && (j < |r.instants| - 1 || r.linear || r.upperInc) ::
      OnSequence(r.instants[j], s, ops)
  }

  /** The result of a restriction: valid sequences of the input's
      interpolation, each entirely before the next. */
  predicate Pieces(rs: seq<Sequence>, linear: bool)
  {
    && AllValid(rs)
    && (forall i | 0 <= i < |rs| :: rs[i].linear == linear)
    && (forall i | 0 < i < |rs| :: Before(rs[i - 1].Span(), rs[i].Span()))
  }

  lemma InstantOn(s: Sequence, k: nat, ops: Ops)
    requires s.Valid() && k < |s.instants|
    ensures OnSequence(s.instants[k], s, ops)
  {
    var a := s.instants;
    assert a[0].t <= a[k].t <= a[|a| - 1].t;
    ValueAtInstants(Closure(s), a[k].t, k, ops);
  }

  /** The value a segment of s gives at t is the value of s at t. */
  lemma SegmentAgree(s: Sequence, n: nat, t: Time, ops: Ops)
    requires s.Valid() && n <= |s.instants| - 2
    requires s.instants[n].t <= t <= s.instants[n + 1].t
    ensures OnSequence(Instant(t, SegmentValue(s.instants[n], s.instants[n + 1], s.linear, t, ops)), s, ops)
  {
    var a := s.instants;
    if t == a[n].t {
      InstantOn(s, n, ops);
    } else if t == a[n + 1].t {
      InstantOn(s, n + 1, ops);
    } else {
      SegmentAgreeInside(s, n, t, ops);
    }
  }

  /** The same, strictly inside the segment. */
  lemma SegmentAgreeInside(s: Sequence, n: nat, t: Time, ops: Ops)
    requires s.Valid() && n <= |s.instants| - 2
    requires s.instants[n].t < t < s.instants[n + 1].t
    ensures OnSequence(Instant(t, SegmentValue(s.instants[n], s.instants[n + 1], s.linear, t, ops)), s, ops)
  {
    var a := s.instants;
    var c := Closure(s);
    assert a[0].t <= a[n].t && a[n + 1].t <= a[|a| - 1].t;
    assert c.Span().Contains(t);
    assert InSegment(c, n, t);
    SegmentOfFound(c, t);
    SegmentUnique(c, n, SegmentOf(c, t), t);
  }

  /** Inside the period of s, its closure takes the same values. */
  lemma ClosureAgree(s: Sequence, t: Time, ops: Ops)
    requires s.Valid() && s.Span().Contains(t)
    ensures OnSequence(Instant(t, ValueAtTimestamp(s, t, ops).value), s, ops)
  {
    if |s.instants| == 1 {
      InstantOn(s, 0, ops);
    } else {
      SegmentOfFound(s, t);
      SegmentAgree(s, SegmentOf(s, t), t, ops);
    }
  }

  lemma SelfSampled(s: Sequence, ops: Ops)
    requires s.Valid()
    ensures SampledFrom(s, s, ops)
  {
    forall j | 0 <= j < |s.instants| {
      InstantOn(s, j, ops);
    }
  }

  lemma IncreasingSnoc(p: seq<Instant>, x: Instant)
    requires Increasing(p) && (p != [] ==> p[|p| - 1].t < x.t)
    ensures Increasing(p + [x])
  {
    var q := p + [x];
    forall i, j | 0 <= i < j < |q| ensures q[i].t < q[j].t {
      if j == |p| {
        assert q[i].t <= p[|p| - 1].t;
      }
    }
  }

  lemma IncreasingCons(x: Instant, p: seq<Instant>)
    requires Increasing(p) && (p != [] ==> x.t < p[0].t)
    ensures Increasing([x] + p)
  {
    var q := [x] + p;
    forall i, j | 0 <= i < j < |q| ensures q[i].t < q[j].t {
      if i == 0 {
        assert p[0].t <= q[j].t;
      } else {
        assert q[i] == p[i - 1] && q[j] == p[j - 1];
      }
    }
  }

  // ---------------------------------------------------------------------
  // Minus a timestamp
  // ---------------------------------------------------------------------

  /** The piece of s before t, where t lies after instant n and at or before
      instant n+1: the instants before t closed by an instant at t, with an
      exclusive upper bound.  At an instant of a step sequence the closing
      value repeats the previous one. */
  function UntilPiece(s: Sequence, n: nat, t: Time, ops: Ops): Sequence
    requires s.Valid() && n <= |s.instants| - 2
    requires s.instants[n].t <= t <= s.instants[n + 1].t && (n > 0 || s.instants[0].t < t)
  {
    var a := s.instants;
    if a[n].t == t then
      Sequence(a[..n] + [if s.linear then a[n] else Instant(t, a[n - 1].v)], s.lowerInc, false, s.linear)
    else
      Sequence(a[..n + 1] + [Instant(t, if s.linear then SegmentValue(a[n], a[n + 1], true, t, ops) else a[n].v)],
               s.lowerInc, false, s.linear)
  }

  /** The piece of s after t, where t lies at or after instant n and before
      instant n+1: an instant at t followed by the later instants, with an
      exclusive lower bound. */
  function FromPiece(s: Sequence, n: nat, t: Time, ops: Ops): Sequence
    requires s.Valid() && n <= |s.instants| - 2
    requires s.instants[n].t <= t < s.instants[n + 1].t
  {
    var a := s.instants;
    Sequence([Instant(t, SegmentValue(a[n], a[n + 1], s.linear, t, ops))] + a[n + 1..], false, s.upperInc, s.linear)
  }

  lemma UntilPieceValid(s: Sequence, n: nat, t: Time, ops: Ops)
    requires s.Valid() && n <= |s.instants| - 2
    requires s.instants[n].t <= t <= s.instants[n + 1].t && (n > 0 || s.instants[0].t < t)
    ensures UntilPiece(s, n, t, ops).Valid() && UntilPiece(s, n, t, ops).linear == s.linear
    ensures UntilPiece(s, n, t, ops).Span() == Period(s.instants[0].t, t, s.lowerInc, false)
    ensures SampledFrom(UntilPiece(s, n, t, ops), s, ops)
  {
    var a := s.instants;
    var r := UntilPiece(s, n, t, ops);
    var b := r.instants;
    var m := if a[n].t == t then n else n + 1;
    assert b == a[..m] + [b[m]];
    assert Increasing(b) by {
      IncreasingSnoc(a[..m], b[m]);
    }
    assert b[|b| - 1].t == t && b[0].t == a[0].t;
    assert forall q | 0 <= q < m :: b[q] == a[q];
    UntilPieceSampled(s, n, t, m, r, ops);
  }

  /** A sequence made of the first m instants of s followed by the instant
      at t (the value of s there, when linear) lies on s except for its
      exclusive end. */
  lemma UntilPieceSampled(s: Sequence, n: nat, t: Time, m: nat, r: Sequence, ops: Ops)
    requires s.Valid() && n <= |s.instants| - 2
    requires s.instants[n].t <= t <= s.instants[n + 1].t
    requires m == (if s.instants[n].t == t then n else n + 1)
    requires |r.instants| == m + 1 && r.linear == s.linear && !r.upperInc
    requires forall q | 0 <= q < m :: r.instants[q] == s.instants[q]
    requires s.linear ==> r.instants[m] == (if s.instants[n].t == t then s.instants[n]
                                            else Instant(t, SegmentValue(s.instants[n], s.instants[n + 1], true, t, ops)))
    ensures SampledFrom(r, s, ops)
  {
    var b := r.instants;
    forall j | 0 <= j < |b| && (j < |b| - 1 || r.linear || r.upperInc) ensures OnSequence(b[j], s, ops) {
      if j < m {
        InstantOn(s, j, ops);
      } else if s.instants[n].t == t {
        InstantOn(s, n, ops);
      } else {
        SegmentAgree(s, n, t, ops);
      }
    }
  }

  lemma FromPieceValid(s: Sequence, n: nat, t: Time, ops: Ops)
    requires s.Valid() && n <= |s.instants| - 2
    requires s.instants[n].t <= t < s.instants[n + 1].t
    ensures FromPiece(s, n, t, ops).Valid() && FromPiece(s, n, t, ops).linear == s.linear
    ensures FromPiece(s, n, t, ops).Span() == Period(t, s.instants[|s.instants| - 1].t, false, s.upperInc)
    ensures SampledFrom(FromPiece(s, n, t, ops), s, ops)
  {
    var a := s.instants;
    var r := FromPiece(s, n, t, ops);
    var b := r.instants;
    assert b == [b[0]] + a[n + 1..];
    assert Increasing(b) by {
      IncreasingCons(b[0], a[n + 1..]);
    }
    assert b[|b| - 1] == a[|a| - 1];
    if !s.linear && !s.upperInc && |b| == 2 {
      assert b[0].v == a[n].v && n == |a| - 2;
    }
    assert forall q | 1 <= q < |b| :: b[q] == a[n + q];
    FromPieceSampled(s, n, t, r, ops);
  }

  /** A sequence made of the value of s at t in segment n followed by the
      later instants of s lies on s. */
  lemma FromPieceSampled(s: Sequence, n: nat, t: Time, r: Sequence, ops: Ops)
    requires s.Valid() && n <= |s.instants| - 2
    requires s.instants[n].t <= t < s.instants[n + 1].t
    requires |r.instants| == |s.instants| - n
    requires r.instants[0] == Instant(t, SegmentValue(s.instants[n], s.instants[n + 1], s.linear, t, ops))
    requires forall q | 1 <= q < |r.instants| :: r.instants[q] == s.instants[n + q]
    ensures SampledFrom(r, s, ops)
  {
    var b := r.instants;
    forall j | 0 <= j < |b| && (j < |b| - 1 || r.linear || r.upperInc) ensures OnSequence(b[j], s, ops) {
      if j == 0 {
        SegmentAgree(s, n, t, ops);
      } else {
        InstantOn(s, n + j, ops);
      }
    }
  }

  /** tsequence_minus_timestamp1: what remains of s once t is removed: s
      itself when t is outside its period, nothing for an instantaneous
      sequence at t, otherwise the pieces before and after t. */
  function MinusTimestamp(s: Sequence, t: Time, ops: Ops): seq<Sequence>
    requires s.Valid()
  {
    var a := s.instants;
    if !s.Span().Contains(t) then [s]
    else if |a| == 1 then []
    else
      SegmentOfFound(s, t);
      var n := SegmentOf(s, t);
      (if n == 0 && a[0].t == t then [] else [UntilPiece(s, n, t, ops)])
      + (if t < a[n + 1].t then [FromPiece(s, n, t, ops)] else [])
  }

  /** At most two valid pieces in time order, each lying on s; nothing is
      removed when t is outside the period. */
  lemma MinusTimestampPieces(s: Sequence, t: Time, ops: Ops)
    requires s.Valid()
    ensures |MinusTimestamp(s, t, ops)| <= 2
    ensures Pieces(MinusTimestamp(s, t, ops), s.linear)
    ensures forall i | 0 <= i < |MinusTimestamp(s, t, ops)| :: SampledFrom(MinusTimestamp(s, t, ops)[i], s, ops)
    ensures !s.Span().Contains(t) ==> MinusTimestamp(s, t, ops) == [s]
  {
    if !s.Span().Contains(t) {
      SelfSampled(s, ops);
    } else if |s.instants| > 1 {
      var b, f := MinusTimestampParts(s, t, ops);
      TwoPieces(b, f, s, ops);
    }
  }

  /** The two parts minus_timestamp1 builds around a timestamp t of the
      period: the piece before t, absent when t starts s, and the piece
      after t, absent when t ends s; both lie on s. */
  lemma MinusTimestampParts(s: Sequence, t: Time, ops: Ops) returns (b: seq<Sequence>, f: seq<Sequence>)
    requires s.Valid() && |s.instants| > 1 && s.Span().Contains(t)
    ensures MinusTimestamp(s, t, ops) == b + f && |b| <= 1 && |f| <= 1
    ensures forall i | 0 <= i < |b| :: b[i].Valid() && b[i].linear == s.linear && SampledFrom(b[i], s, ops)
    ensures forall i | 0 <= i < |f| :: f[i].Valid() && f[i].linear == s.linear && SampledFrom(f[i], s, ops)
    ensures b == [] <==> s.Span().lower == t
    ensures f == [] <==> s.Span().upper == t
    ensures b != [] ==> b[0].Span() == Period(s.Span().lower, t, s.lowerInc, false)
    ensures f != [] ==> f[0].Span() == Period(t, s.Span().upper, false, s.upperInc)
  {
    var a := s.instants;
    SegmentOfFound(s, t);
    var n := SegmentOf(s, t);
    b := if n == 0 && a[0].t == t then [] else [UntilPiece(s, n, t, ops)];
    f := if t < a[n + 1].t then [FromPiece(s, n, t, ops)] else [];
    if b != [] {
      UntilPieceValid(s, n, t, ops);
    }
    if f != [] {
      FromPieceValid(s, n, t, ops);
    }
  }

  /** A piece before t and a piece after t, either possibly absent, make a
      result. */
  lemma TwoPieces(b: seq<Sequence>, f: seq<Sequence>, s: Sequence, ops: Ops)
    requires s.Valid() && |b| <= 1 && |f| <= 1
    requires forall i | 0 <= i < |b| :: b[i].Valid() && b[i].linear == s.linear && SampledFrom(b[i], s, ops)
    requires forall i | 0 <= i < |f| :: f[i].Valid() && f[i].linear == s.linear && SampledFrom(f[i], s, ops)
    requires b != [] && f != [] ==> Before(b[0].Span(), f[0].Span())
    ensures |b + f| <= 2 && Pieces(b + f, s.linear)
    ensures forall i | 0 <= i < |b + f| :: SampledFrom((b + f)[i], s, ops)
  {
    if b == [] {
      assert b + f == f;
    } else if f == [] {
      assert b + f == b;
    } else {
      assert b + f == [b[0], f[0]];
    }
  }

  /** The pieces cover exactly the period of s without t. */
  lemma MinusTimestampCovers(s: Sequence, t: Time, u: Time, ops: Ops)
    requires s.Valid()
    ensures Pieces(MinusTimestamp(s, t, ops), s.linear)
    ensures Covers(MinusTimestamp(s, t, ops), u) <==> s.Span().Contains(u) && u != t
  {
    MinusTimestampPieces(s, t, ops);
    var r := MinusTimestamp(s, t, ops);
    if !s.Span().Contains(t) {
      if s.Span().Contains(u) {
        assert r[0].Span().Contains(u);
      }
    } else if |s.instants| > 1 {
      var b, f := MinusTimestampParts(s, t, ops);
      CoverTwo(b, f, s.Span(), t, u);
    }
  }

  /** The coverage of a piece before t and a piece after t. */
  lemma CoverTwo(b: seq<Sequence>, f: seq<Sequence>, p: Period, t: Time, u: Time)
    requires p.Valid() && p.Contains(t) && p.lower < p.upper && |b| <= 1 && |f| <= 1
    requires AllValid(b) && AllValid(f)
    requires b == [] <==> (p.lower == t)
    requires f == [] <==> (p.upper == t)
    requires b != [] ==> b[0].Span() == Period(p.lower, t, p.lowerInc, false)
    requires f != [] ==> f[0].Span() == Period(t, p.upper, false, p.upperInc)
    ensures AllValid(b + f)
    ensures Covers(b + f, u) <==> p.Contains(u) && u != t
  {
    var r := b + f;
    assert forall i | 0 <= i < |r| :: r[i] in b || r[i] in f;
    if p.Contains(u) && u != t {
      if u < t {
        assert r[0].Span().Contains(u);
      } else {
        assert r[|r| - 1].Span().Contains(u);
      }
    }
    if Covers(r, u) {
      var i :| 0 <= i < |r| && r[i].Span().Contains(u);
      assert r[i] == r[0] || r[i] == r[|r| - 1];
    }
  }

  // ---------------------------------------------------------------------
  // At and minus a period
  // ---------------------------------------------------------------------

  /** The instants at_period builds: the value at the lower bound of the
      intersection, the instants of s strictly inside, and the closing
      instant at the upper bound, in time order. */
  lemma AtPeriodIncreasing(s: Sequence, lo: Time, hi: Time, n: nat, i: nat, first: Instant, mid: seq<Instant>, last: Instant)
    requires s.Valid() && n + 2 <= i <= |s.instants|
    requires s.instants[n].t <= lo < s.instants[n + 1].t && lo < hi
    requires i - 2 == n || s.instants[i - 2].t < hi
    requires first.t == lo && last.t == hi && mid == s.instants[n + 1..i - 1]
    ensures Increasing([first] + mid + [last])
  {
    IncreasingCons(first, mid);
    IncreasingSnoc([first] + mid, last);
  }

  /** Every instant at_period builds lies on s, the closing one unless it
      repeats the previous value. */
  lemma AtPeriodSampled(s: Sequence, r: Sequence, inter: Period, n: nat, i: nat, ops: Ops)
    requires s.Valid() && n + 2 <= i <= |s.instants| && |r.instants| == i - n
    requires s.instants[n].t <= inter.lower <= s.instants[n + 1].t
    requires s.instants[i - 2].t <= inter.upper <= s.instants[i - 1].t
    requires r.linear == s.linear && r.upperInc == inter.upperInc
    requires r.instants[0] == Instant(inter.lower, SegmentValue(s.instants[n], s.instants[n + 1], s.linear, inter.lower, ops))
    requires forall j | 1 <= j < |r.instants| - 1 :: r.instants[j] == s.instants[n + j]
    requires s.linear || inter.upperInc ==>
      r.instants[|r.instants| - 1] == Instant(inter.upper, SegmentValue(s.instants[i - 2], s.instants[i - 1], s.linear, inter.upper, ops))
    ensures SampledFrom(r, s, ops)
  {
    var m := |r.instants|;
    forall j | 0 <= j < m && (j < m - 1 || r.linear || r.upperInc) ensures OnSequence(r.instants[j], s, ops) {
      if j == 0 {
        SegmentAgree(s, n, inter.lower, ops);
      } else if j == m - 1 {
        SegmentAgree(s, i - 2, inter.upper, ops);
      } else {
        InstantOn(s, n + j, ops);
      }
    }
  }

  /** at_period keeps every instant of s strictly inside the intersection. */
  lemma AtPeriodComplete(s: Sequence, b: seq<Instant>, lo: Time, hi: Time, n: nat, i: nat)
    requires s.Valid() && n + 2 <= i <= |s.instants| && |b| == i - n
    requires s.instants[n].t <= lo && hi <= s.instants[i - 1].t
    requires forall j | 1 <= j < |b| - 1 :: b[j] == s.instants[n + j]
    ensures forall k | 0 <= k < |s.instants| && lo < s.instants[k].t < hi :: s.instants[k] in b
  {
    var a := s.instants;
    forall k | 0 <= k < |a| && lo < a[k].t < hi ensures a[k] in b {
      assert n < k < i - 1;
      assert b[k - n] == a[k];
    }
  }

  /** Indexing [x] + m + [y]. */
  lemma Framed(x: Instant, m: seq<Instant>, y: Instant)
    ensures ([x] + m + [y])[0] == x && ([x] + m + [y])[|m| + 1] == y
    ensures forall j | 1 <= j <= |m| :: ([x] + m + [y])[j] == m[j - 1]
  {
  }

  /** tsequence_at_period: the part of s inside p, or None when the two do
      not overlap.  The result's period is their intersection, every instant
      lies on s, and every instant of s strictly inside the intersection is
      kept. */
  method AtPeriod(s: Sequence, p: Period, ops: Ops) returns (r: Option<Sequence>)
    requires s.Valid() && p.Valid()
    ensures r.Some? <==> Overlaps(s.Span(), p)
    ensures r.Some? ==> && r.value.Valid() && r.value.linear == s.linear
                        && r.value.Span() == Intersection(s.Span(), p).value
                        && SampledFrom(r.value, s, ops)
    ensures r.Some? ==> forall k | 0 <= k < |s.instants|
                          && Intersection(s.Span(), p).value.lower < s.instants[k].t < Intersection(s.Span(), p).value.upper ::
                          s.instants[k] in r.value.instants
  {
    if !Overlaps(s.Span(), p) {
      return None;
    }
    var a := s.instants;
    if |a| == 1 {
      SelfSampled(s, ops);
      return Some(s);
    }
    var inter := Intersection(s.Span(), p).value;
    if inter.lower == inter.upper {
      assert inter.Contains(inter.lower);
      var v := ValueAtTimestamp(s, inter.lower, ops).value;
      ClosureAgree(s, inter.lower, ops);
      var single := Sequence([Instant(inter.lower, v)], true, true, s.linear);
      assert single.instants[0] == Instant(inter.lower, v);
      return Some(single);
    }
    var x := AtPeriodScan(s, inter, ops);
    return Some(x);
  }

  /** The general case of at_period: s has two or more instants and the
      intersection is not instantaneous. */
  method AtPeriodScan(s: Sequence, inter: Period, ops: Ops) returns (r: Sequence)
    requires s.Valid() && |s.instants| >= 2 && inter.Valid() && inter.lower < inter.upper
    requires s.instants[0].t <= inter.lower && inter.upper <= s.instants[|s.instants| - 1].t
    requires inter.lower == s.instants[0].t && inter.lowerInc ==> s.lowerInc
    ensures r.Valid() && r.linear == s.linear && r.Span() == inter && SampledFrom(r, s, ops)
    ensures forall k | 0 <= k < |s.instants| && inter.lower < s.instants[k].t < inter.upper :: s.instants[k] in r.instants
  {
    var a := s.instants;
    var n := FindTimestamp(s, inter.lower);
    LowerSegment(s, inter.lower, inter.upper, n);
    if n == -1 {
      // the lower bound is the first instant, excluded
      n := 0;
    }
    var first := Instant(inter.lower, SegmentValue(a[n], a[n + 1], s.linear, inter.lower, ops));
    var instants, inst1, inst2, i := ScanInterior(s, n, inter.lower, inter.upper, first);
    var last := if s.linear || inter.upperInc
                then Instant(inter.upper, SegmentValue(inst1, inst2, s.linear, inter.upper, ops))
                else Instant(inter.upper, instants[|instants| - 1].v);
    instants := instants + [last];
    r := Sequence(instants, inter.lowerInc, inter.upperInc, s.linear);
    AtPeriodBuilt(s, inter, n, i, r, ops);
  }

  /** Where find_timestamp puts the lower bound of the intersection: in a
      segment starting at or before it and ending after it (-1 only when it
      is the excluded first instant). */
  lemma LowerSegment(s: Sequence, lo: Time, hi: Time, n: int)
    requires s.Valid() && |s.instants| >= 2 && lo < hi <= s.instants[|s.instants| - 1].t
    requires s.instants[0].t <= lo && n == SegmentOf(s, lo)
    ensures var m := if n == -1 then 0 else n;
            0 <= m <= |s.instants| - 2 && s.instants[m].t <= lo < s.instants[m + 1].t
  {
    SegmentOfFound(s, lo);
  }

  /** The loop of at_period: from segment n on, walk the segments until the
      one holding hi, collecting the instants in between. */
  method ScanInterior(s: Sequence, n: nat, lo: Time, hi: Time, first: Instant)
    returns (instants: seq<Instant>, inst1: Instant, inst2: Instant, i: nat)
    requires s.Valid() && n <= |s.instants| - 2 && lo < hi <= s.instants[|s.instants| - 1].t
    requires s.instants[n].t <= lo < s.instants[n + 1].t
    ensures n + 2 <= i <= |s.instants| && inst1 == s.instants[i - 2] && inst2 == s.instants[i - 1]
    ensures inst1.t <= hi <= inst2.t && (i - 2 == n || inst1.t < hi)
    ensures instants == [first] + s.instants[n + 1..i - 1]
  {
    var a := s.instants;
    inst1 := a[n];
    inst2 := a[n + 1];
    instants := [first];
    i := n + 2;
    while i < |a|
      invariant n + 2 <= i <= |a|
      invariant inst1 == a[i - 2] && inst2 == a[i - 1]
      invariant i - 2 == n || a[i - 2].t < hi
      invariant instants == [first] + a[n + 1..i - 1]
    {
      if inst1.t <= hi <= inst2.t {
        return;
      }
      inst1 := inst2;
      inst2 := a[i];
      if lo <= inst1.t <= hi {
        assert a[n + 1..i] == a[n + 1..i - 1] + [inst1];
        instants := instants + [inst1];
      }
      i := i + 1;
    }
  }

  /** The sequence at_period returns, from the instants it builds. */
  lemma AtPeriodBuilt(s: Sequence, inter: Period, n: nat, i: nat, r: Sequence, ops: Ops)
    requires s.Valid() && inter.Valid() && inter.lower < inter.upper && n + 2 <= i <= |s.instants|
    requires s.instants[n].t <= inter.lower < s.instants[n + 1].t
    requires s.instants[i - 2].t <= inter.upper <= s.instants[i - 1].t
    requires i - 2 == n || s.instants[i - 2].t < inter.upper
    requires r.lowerInc == inter.lowerInc && r.upperInc == inter.upperInc && r.linear == s.linear
    requires var first := Instant(inter.lower, SegmentValue(s.instants[n], s.instants[n + 1], s.linear, inter.lower, ops));
             var mid := s.instants[n + 1..i - 1];
             r.instants == [first] + mid
               + [if s.linear || inter.upperInc
                  then Instant(inter.upper, SegmentValue(s.instants[i - 2], s.instants[i - 1], s.linear, inter.upper, ops))
                  else Instant(inter.upper, ([first] + mid)[|[first] + mid| - 1].v)]
    ensures r.Valid() && r.Span() == inter && SampledFrom(r, s, ops)
    ensures forall k | 0 <= k < |s.instants| && inter.lower < s.instants[k].t < inter.upper :: s.instants[k] in r.instants
  {
    var a := s.instants;
    var mid := a[n + 1..i - 1];
    var first := r.instants[0];
    var last := r.instants[|r.instants| - 1];
    assert r.instants == [first] + mid + [last];
    Framed(first, mid, last);
    AtPeriodIncreasing(s, inter.lower, inter.upper, n, i, first, mid, last);
    AtPeriodSampled(s, r, inter, n, i, ops);
    AtPeriodComplete(s, r.instants, inter.lower, inter.upper, n, i);
  }

  /** tsequence_minus_period1: the pieces of s outside p, one per period of
      the difference of the two periods (the source returns their count
      after releasing the difference; the model returns the pieces). */
  method MinusPeriod(s: Sequence, p: Period, ops: Ops) returns (r: seq<Sequence>)
    requires s.Valid() && p.Valid()
    ensures |r| <= 2 && Pieces(r, s.linear)
    ensures forall i | 0 <= i < |r| :: SampledFrom(r[i], s, ops)
    ensures forall u :: Covers(r, u) <==> s.Span().Contains(u) && !p.Contains(u)
    ensures forall i | 0 <= i < |r| :: Within(r[i].Span(), s.Span())
    ensures |r| == 2 ==> Before(r[0].Span(), p) && Before(p, r[1].Span())
    ensures !Overlaps(s.Span(), p) ==> r == [s]
  {
    if !Overlaps(s.Span(), p) {
      SelfSampled(s, ops);
      NoOverlapCovers(s, p);
      return [s];
    }
    if |s.instants| == 1 {
      assert Intersection(s.Span(), p).value.Contains(s.instants[0].t);
      return [];
    }
    var ps := Minus(s.Span(), p);
    r := [];
    var i := 0;
    while i < |ps|
      invariant 0 <= i <= |ps| && |r| == i
      invariant forall k | 0 <= k < i :: && r[k].Valid() && r[k].linear == s.linear
                                          && r[k].Span() == ps[k] && SampledFrom(r[k], s, ops)
                                          && Within(r[k].Span(), s.Span())
    {
      IntersectionWithin(s.Span(), ps[i]);
      var x := AtPeriod(s, ps[i], ops);
      r := r + [x.value];
      i := i + 1;
    }
    SpansCover(r, ps, s.Span(), p);
  }

  /** Sequences whose periods are the periods of the difference cover it. */
  lemma SpansCover(r: seq<Sequence>, ps: seq<Period>, sp: Period, p: Period)
    requires |r| == |ps| && forall k | 0 <= k < |r| :: r[k].Valid() && r[k].Span() == ps[k]
    requires forall u :: (exists k | 0 <= k < |ps| :: ps[k].Contains(u)) <==> sp.Contains(u) && !p.Contains(u)
    ensures forall u :: Covers(r, u) <==> sp.Contains(u) && !p.Contains(u)
  {
    forall u ensures Covers(r, u) <==> sp.Contains(u) && !p.Contains(u) {
      if Covers(r, u) {
        var k :| 0 <= k < |r| && r[k].Span().Contains(u);
        assert ps[k].Contains(u);
      }
      if sp.Contains(u) && !p.Contains(u) {
        var k :| 0 <= k < |ps| && ps[k].Contains(u);
        assert r[k].Span().Contains(u);
      }
    }
  }

  /** Without overlap, s keeps all of its period. */
  lemma NoOverlapCovers(s: Sequence, p: Period)
    requires s.Valid() && p.Valid() && !Overlaps(s.Span(), p)
    ensures forall u :: Covers([s], u) <==> s.Span().Contains(u) && !p.Contains(u)
  {
    forall u ensures Covers([s], u) <==> s.Span().Contains(u) && !p.Contains(u) {
      if s.Span().Contains(u) {
        assert [s][0] == s;
      }
    }
  }

  // ---------------------------------------------------------------------
  // At and minus a period set
  // ---------------------------------------------------------------------

  /** Some period of ps[lo..hi] holds t. */
  predicate InRange(ps: seq<Period>, lo: nat, hi: nat, t: Time)
    requires lo <= hi <= |ps|
  {
    exists k | lo <= k < hi :: ps[k].Contains(t)
  }

  /** The bounding period of a non-empty period set. */
  function SetSpan(ps: seq<Period>): Period
    requires |ps| >= 1
  {
    Period(ps[0].lower, ps[|ps| - 1].upper, ps[0].lowerInc, ps[|ps| - 1].upperInc)
  }

  /** Every point of a period set lies in its bounding period. */
  lemma SetSpanContains(ps: seq<Period>, k: nat, t: Time)
    requires ValidSet(ps) && k < |ps| && ps[k].Contains(t)
    ensures SetSpan(ps).Contains(t)
  {
    var m := |ps| - 1;
    if k > 0 {
      assert Before(ps[0], ps[k]);
    }
    if k < m {
      assert Before(ps[k], ps[m]);
    }
  }

  /** q lies entirely before t. */
  predicate EndsBefore(q: Period, t: Time)
  {
    q.upper < t || (q.upper == t && !q.upperInc)
  }

  /** periodset_find_timestamp (periodset.c is not part of this model), as
      at_periodset uses it: the index of the first period of ps that does
      not lie entirely before t. */
  function FindPeriod(ps: seq<Period>, t: Time, k: nat): (loc: nat)
    requires k <= |ps|
    requires forall j | 0 <= j < k :: EndsBefore(ps[j], t)
    ensures k <= loc <= |ps|
    ensures forall j | 0 <= j < loc :: EndsBefore(ps[j], t)
    ensures loc < |ps| ==> !EndsBefore(ps[loc], t)
    decreases |ps| - k
  {
    if k == |ps| || !EndsBefore(ps[k], t) then k else FindPeriod(ps, t, k + 1)
  }

  /** Appending a piece after the last keeps the pieces in order. */
  lemma PiecesSnoc(r: seq<Sequence>, x: Sequence, linear: bool)
    requires Pieces(r, linear) && x.Valid() && x.linear == linear
    requires r != [] ==> Before(r[|r| - 1].Span(), x.Span())
    ensures Pieces(r + [x], linear)
  {
    var q := r + [x];
    assert forall i | 0 <= i < |r| :: q[i] == r[i];
  }

  /** One round of at_periodset: the part of s in ps[i], if any, is added. */
  lemma AtSetStep(r: seq<Sequence>, x: Option<Sequence>, s: Sequence, ps: seq<Period>, i: nat, u: Time)
    requires s.Valid() && i < |ps| && ps[i].Valid() && AllValid(r)
    requires Covers(r, u) <==> s.Span().Contains(u) && InRange(ps, 0, i, u)
    requires x.None? ==> !(s.Span().Contains(u) && ps[i].Contains(u))
    requires x.Some? ==> x.value.Valid() && (x.value.Span().Contains(u) <==> s.Span().Contains(u) && ps[i].Contains(u))
    ensures AllValid(if x.Some? then r + [x.value] else r)
    ensures Covers(if x.Some? then r + [x.value] else r, u) <==> s.Span().Contains(u) && InRange(ps, 0, i + 1, u)
  {
    if x.Some? {
      CoversSnoc(r, x.value);
    }
    if s.Span().Contains(u) && InRange(ps, 0, i + 1, u) && !InRange(ps, 0, i, u) {
      assert ps[i].Contains(u);
    }
    if s.Span().Contains(u) && InRange(ps, 0, i, u) {
      var k :| 0 <= k < i && ps[k].Contains(u);
    }
  }

  /** Periods ending before s starts hold no point of s. */
  lemma AtSetStart(s: Sequence, ps: seq<Period>, loc: nat, u: Time)
    requires s.Valid() && loc <= |ps|
    requires forall j | 0 <= j < loc :: EndsBefore(ps[j], s.instants[0].t)
    ensures !(s.Span().Contains(u) && InRange(ps, 0, loc, u))
  {
    if InRange(ps, 0, loc, u) {
      var k :| 0 <= k < loc && ps[k].Contains(u);
    }
  }

  /** Periods after one that ends past s hold no point of s. */
  lemma AtSetRest(s: Sequence, ps: seq<Period>, i: nat, u: Time)
    requires s.Valid() && ValidSet(ps) && i < |ps| && s.instants[|s.instants| - 1].t < ps[i].upper
    ensures s.Span().Contains(u) && InRange(ps, 0, i + 1, u) <==> s.Span().Contains(u) && InRange(ps, 0, |ps|, u)
  {
    if s.Span().Contains(u) && InRange(ps, 0, |ps|, u) {
      var k :| 0 <= k < |ps| && ps[k].Contains(u);
      assert k <= i;
    }
    if InRange(ps, 0, i + 1, u) {
      var k :| 0 <= k < i + 1 && ps[k].Contains(u);
    }
  }

  /** Outside the bounding period of ps, s has no point of ps. */
  lemma AtSetApart(s: Sequence, ps: seq<Period>, u: Time)
    requires s.Valid() && ValidSet(ps) && |ps| >= 1 && !Overlaps(s.Span(), SetSpan(ps))
    ensures !(s.Span().Contains(u) && InRange(ps, 0, |ps|, u))
  {
    if s.Span().Contains(u) && InRange(ps, 0, |ps|, u) {
      var k :| 0 <= k < |ps| && ps[k].Contains(u);
      SetSpanContains(ps, k, u);
      assert false;
    }
  }

  /** tsequence_at_periodset: the parts of s inside the periods of ps, from
      the first period not before s until one that ends after s. */
  method AtPeriodSet(s: Sequence, ps: seq<Period>, ops: Ops) returns (r: seq<Sequence>)
    requires s.Valid() && ValidSet(ps) && |ps| >= 1
    ensures Pieces(r, s.linear)
    ensures forall i | 0 <= i < |r| :: SampledFrom(r[i], s, ops)
    ensures forall u :: Covers(r, u) <==> s.Span().Contains(u) && InRange(ps, 0, |ps|, u)
  {
    assert SetSpan(ps).Valid() by {
      if |ps| > 1 {
        assert Before(ps[0], ps[|ps| - 1]);
      }
    }
    if !Overlaps(s.Span(), SetSpan(ps)) {
      forall u ensures !(s.Span().Contains(u) && InRange(ps, 0, |ps|, u)) {
        AtSetApart(s, ps, u);
      }
      return [];
    }
    var a := s.instants;
    if |a| == 1 {
      if !InRange(ps, 0, |ps|, a[0].t) {
        return [];
      }
      SelfSampled(s, ops);
      r := [s];
      forall u ensures Covers(r, u) <==> s.Span().Contains(u) && InRange(ps, 0, |ps|, u) {
        if s.Span().Contains(u) {
          assert r[0].Span().Contains(u);
        }
      }
      return;
    }
    var loc := FindPeriod(ps, a[0].t, 0);
    r := [];
    forall u ensures Covers(r, u) <==> s.Span().Contains(u) && InRange(ps, 0, loc, u) {
      AtSetStart(s, ps, loc, u);
    }
    var lastK: nat := 0;
    var i := loc;
    while i < |ps|
      invariant loc <= i <= |ps|
      invariant AtSetState(s, ps, i, r, lastK, ops)
    {
      var done;
      r, lastK, done := AtSetRound(s, ps, i, r, lastK, ops);
      if done {
        return;
      }
      i := i + 1;
    }
  }

  /** What the at_periodset loop keeps before period i: the pieces found so
      far are in order, sampled from s, cover s on the periods before i, and
      the last one lies in period lastK. */
  ghost predicate AtSetState(s: Sequence, ps: seq<Period>, i: nat, r: seq<Sequence>, lastK: nat, ops: Ops)
    requires s.Valid() && ValidSet(ps) && i <= |ps|
  {
    && Pieces(r, s.linear) && (forall k | 0 <= k < |r| :: SampledFrom(r[k], s, ops))
    && (forall u :: Covers(r, u) <==> s.Span().Contains(u) && InRange(ps, 0, i, u))
    && (r != [] ==> lastK < i && Within(r[|r| - 1].Span(), ps[lastK]))
  }

  /** One round of the at_periodset loop: the part of s in ps[i] is added,
      and the loop stops when ps[i] ends after s. */
  method AtSetRound(s: Sequence, ps: seq<Period>, i: nat, r: seq<Sequence>, lastK: nat, ops: Ops)
    returns (r': seq<Sequence>, lastK': nat, done: bool)
    requires s.Valid() && ValidSet(ps) && i < |ps|
    requires AtSetState(s, ps, i, r, lastK, ops)
    ensures AtSetState(s, ps, i + 1, r', lastK', ops)
    ensures Pieces(r', s.linear) && forall k | 0 <= k < |r'| :: SampledFrom(r'[k], s, ops)
    ensures done ==> forall u :: Covers(r', u) <==> s.Span().Contains(u) && InRange(ps, 0, |ps|, u)
  {
    var x := AtPeriod(s, ps[i], ops);
    r', lastK' := r, lastK;
    if x.Some? {
      r', lastK' := r + [x.value], i;
    }
    AtSetAdded(s, ps, i, r, lastK, x, r', lastK', ops);
    done := s.instants[|s.instants| - 1].t < ps[i].upper;
    if done {
      forall u ensures Covers(r', u) <==> s.Span().Contains(u) && InRange(ps, 0, |ps|, u) {
        AtSetRest(s, ps, i, u);
      }
    }
  }

  /** Adding the part of s in ps[i], if any, keeps the pieces in order and
      on s, and extends the coverage by ps[i]. */
  lemma AtSetAdded(s: Sequence, ps: seq<Period>, i: nat, r: seq<Sequence>, lastK: nat, x: Option<Sequence>,
                   r': seq<Sequence>, lastK': nat, ops: Ops)
    requires s.Valid() && ValidSet(ps) && i < |ps|
    requires AtSetState(s, ps, i, r, lastK, ops)
    requires x.None? ==> forall u :: !(s.Span().Contains(u) && ps[i].Contains(u))
    requires x.Some? ==> && x.value.Valid() && x.value.linear == s.linear && Within(x.value.Span(), ps[i])
                         && (forall u :: x.value.Span().Contains(u) <==> s.Span().Contains(u) && ps[i].Contains(u))
                         && SampledFrom(x.value, s, ops)
    requires r' == (if x.Some? then r + [x.value] else r) && lastK' == (if x.Some? then i else lastK)
    ensures AtSetState(s, ps, i + 1, r', lastK', ops)
  {
    if x.Some? {
      AtSetOrdered(s, ps, i, r, lastK, x.value, ops);
    }
    AtSetCovered(s, ps, i, r, x, r');
  }

  /** A piece within ps[i] goes after the pieces found in earlier periods. */
  lemma AtSetOrdered(s: Sequence, ps: seq<Period>, i: nat, r: seq<Sequence>, lastK: nat, x: Sequence, ops: Ops)
    requires s.Valid() && ValidSet(ps) && i < |ps|
    requires Pieces(r, s.linear) && forall k | 0 <= k < |r| :: SampledFrom(r[k], s, ops)
    requires r != [] ==> lastK < i && Within(r[|r| - 1].Span(), ps[lastK])
    requires x.Valid() && x.linear == s.linear && Within(x.Span(), ps[i]) && SampledFrom(x, s, ops)
    ensures Pieces(r + [x], s.linear) && forall k | 0 <= k < |r| + 1 :: SampledFrom((r + [x])[k], s, ops)
  {
    if r != [] {
      BeforeWithin(ps[lastK], ps[i], r[|r| - 1].Span(), x.Span());
    }
    PiecesSnoc(r, x, s.linear);
    assert forall k | 0 <= k < |r| :: (r + [x])[k] == r[k];
  }

  /** The coverage after adding the part of s in ps[i], if any. */
  lemma AtSetCovered(s: Sequence, ps: seq<Period>, i: nat, r: seq<Sequence>, x: Option<Sequence>, r': seq<Sequence>)
    requires s.Valid() && i < |ps| && ps[i].Valid() && AllValid(r)
    requires forall u :: Covers(r, u) <==> s.Span().Contains(u) && InRange(ps, 0, i, u)
    requires x.None? ==> forall u :: !(s.Span().Contains(u) && ps[i].Contains(u))
    requires x.Some? ==> && x.value.Valid()
                         && (forall u :: x.value.Span().Contains(u) <==> s.Span().Contains(u) && ps[i].Contains(u))
    requires r' == if x.Some? then r + [x.value] else r
    ensures AllValid(r')
    ensures forall u :: Covers(r', u) <==> s.Span().Contains(u) && InRange(ps, 0, i + 1, u)
  {
    forall u ensures Covers(r', u) <==> s.Span().Contains(u) && InRange(ps, 0, i + 1, u) {
      AtSetStep(r, x, s, ps, i, u);
    }
  }

  /** tsequence_minus_periodset: the parts of s outside the periods
      ps[from..], taking the periods out of the remainder one at a time. */
  method MinusPeriodSet(s: Sequence, ps: seq<Period>, from: nat, ops: Ops) returns (r: seq<Sequence>)
    requires s.Valid() && ValidSet(ps) && from <= |ps|
    ensures Pieces(r, s.linear)
    ensures from < |ps| ==> forall u :: Covers(r, u) <==> s.Span().Contains(u) && !InRange(ps, from, |ps|, u)
    ensures from == |ps| ==> r == []
  {
    var curr := s;
    r := [];
    var i := from;
    while i < |ps|
      invariant from <= i <= |ps|
      invariant i < |ps| ==> MinusSetState(s, ps, from, i, r, curr)
      invariant i == |ps| ==> from == |ps| && r == []
    {
      var stop;
      r, curr, stop := MinusSetRound(s, ps, from, i, r, curr, ops);
      if stop {
        return;
      }
      if i == |ps| - 1 {
        MinusSetLast(s, ps, from, r, curr);
        return r + [curr];
      }
      i := i + 1;
    }
  }

  /** With no period left, the remainder is the last piece. */
  lemma MinusSetLast(s: Sequence, ps: seq<Period>, from: nat, r: seq<Sequence>, curr: Sequence)
    requires from <= |ps| && MinusSetState(s, ps, from, |ps|, r, curr)
    ensures Pieces(r + [curr], s.linear)
    ensures forall u :: Covers(r + [curr], u) <==> s.Span().Contains(u) && !InRange(ps, from, |ps|, u)
  {
    PiecesSnoc(r, curr, s.linear);
    CoversSnoc(r, curr);
    forall u ensures !InRange(ps, |ps|, |ps|, u) {
    }
  }

  /** The remaining periods start after the remainder of the sequence
      (the early exit of minus_periodset). */
  predicate EndsFirst(c: Period, q: Period)
  {
    c.upper < q.lower || (c.upper == q.lower && c.upperInc && !q.lowerInc)
  }

  /** A period before ps[i] meets none of ps[i..]. */
  lemma BeforeRest(c: Period, ps: seq<Period>, i: nat, u: Time)
    requires ValidSet(ps) && i < |ps| && Before(c, ps[i]) && c.Contains(u)
    ensures !InRange(ps, i, |ps|, u)
  {
    if InRange(ps, i, |ps|, u) {
      var k :| i <= k < |ps| && ps[k].Contains(u);
      if k > i {
        BeforeTrans(c, ps[i], ps[k]);
      }
      BeforeDisjoint(c, ps[k], u);
    }
  }

  lemma RangeSplit(ps: seq<Period>, i: nat, u: Time)
    requires i < |ps|
    ensures InRange(ps, i, |ps|, u) <==> ps[i].Contains(u) || InRange(ps, i + 1, |ps|, u)
  {
    if InRange(ps, i, |ps|, u) {
      var k :| i <= k < |ps| && ps[k].Contains(u);
      if k > i {
        assert InRange(ps, i + 1, |ps|, u);
      }
    }
    if InRange(ps, i + 1, |ps|, u) {
      var k :| i + 1 <= k < |ps| && ps[k].Contains(u);
    }
  }

  /** The state of the minus_periodset loop before round i: the pieces r
      emitted so far, followed by the remainder curr with ps[i..] still to
      be taken out, cover exactly the points of s outside ps[from..]. */
  ghost predicate MinusSetState(s: Sequence, ps: seq<Period>, from: nat, i: nat, r: seq<Sequence>, curr: Sequence)
    requires from <= i <= |ps|
  {
    && s.Valid() && curr.Valid() && curr.linear == s.linear && Pieces(r, s.linear)
    && (r != [] ==> Before(r[|r| - 1].Span(), curr.Span()))
    && forall u :: (s.Span().Contains(u) && !InRange(ps, from, |ps|, u))
                   <==> Covers(r, u) || (curr.Span().Contains(u) && !InRange(ps, i, |ps|, u))
  }

  /** Pointwise step of a round where the remainder loses ps[i] and keeps
      piece m0, and the earlier piece e (if any) is emitted. */
  lemma MinusSetCover(r: seq<Sequence>, e: seq<Sequence>, curr: Sequence, c: Sequence, m: seq<Sequence>,
                      ps: seq<Period>, i: nat, u: Time)
    requires ValidSet(ps) && i < |ps| && AllValid(r) && AllValid(e) && AllValid(m) && curr.Valid() && c.Valid()
    requires |e| <= 1 && (|e| == 1 ==> Before(e[0].Span(), ps[i]))
    requires Covers(m, u) <==> curr.Span().Contains(u) && !ps[i].Contains(u)
    requires Covers(m, u) <==> Covers(e, u) || c.Span().Contains(u)
    requires Covers(r + e, u) <==> Covers(r, u) || Covers(e, u)
    ensures Covers(r, u) || (curr.Span().Contains(u) && !InRange(ps, i, |ps|, u))
            <==> Covers(r + e, u) || (c.Span().Contains(u) && !InRange(ps, i + 1, |ps|, u))
  {
    RangeSplit(ps, i, u);
    if Covers(e, u) {
      var k :| 0 <= k < |e| && e[k].Span().Contains(u);
      BeforeRest(e[0].Span(), ps, i, u);
    }
  }

  lemma CoversPair(m: seq<Sequence>, u: Time)
    requires AllValid(m) && |m| == 2
    ensures Covers(m, u) <==> Covers(m[..1], u) || m[1].Span().Contains(u)
  {
    CoversSnoc(m[..1], m[1]);
    assert m[..1] + [m[1]] == m;
  }

  /** After a round whose remainder splits into one or two pieces m, the
      first of two is emitted and the last becomes the new remainder. */
  lemma MinusSetAdvance(s: Sequence, ps: seq<Period>, from: nat, i: nat, r: seq<Sequence>, curr: Sequence,
                        m: seq<Sequence>, e: seq<Sequence>, c: Sequence)
    requires ValidSet(ps) && from <= i < |ps| && MinusSetState(s, ps, from, i, r, curr)
    requires 1 <= |m| <= 2 && Pieces(m, curr.linear)
    requires forall u :: Covers(m, u) <==> curr.Span().Contains(u) && !ps[i].Contains(u)
    requires forall k | 0 <= k < |m| :: Within(m[k].Span(), curr.Span())
    requires |m| == 2 ==> Before(m[0].Span(), ps[i]) && Before(ps[i], m[1].Span())
    requires e == (if |m| == 1 then [] else [m[0]]) && c == m[|m| - 1]
    ensures MinusSetState(s, ps, from, i + 1, r + e, c)
  {
    AdvanceOrdered(r, e, curr, m, c, ps[i], s.linear);
    AdvanceCovered(r, e, curr, m, c, ps, i);
  }

  /** The remainder's pieces are valid, in order, and within it. */
  lemma AdvanceOrdered(r: seq<Sequence>, e: seq<Sequence>, curr: Sequence, m: seq<Sequence>, c: Sequence,
                       p: Period, linear: bool)
    requires Pieces(r, linear) && curr.Valid() && curr.linear == linear && p.Valid()
    requires r != [] ==> Before(r[|r| - 1].Span(), curr.Span())
    requires 1 <= |m| <= 2 && Pieces(m, linear)
    requires forall k | 0 <= k < |m| :: Within(m[k].Span(), curr.Span())
    requires |m| == 2 ==> Before(m[0].Span(), p) && Before(p, m[1].Span())
    requires e == (if |m| == 1 then [] else [m[0]]) && c == m[|m| - 1]
    ensures c.Valid() && c.linear == linear && Pieces(r + e, linear)
    ensures r + e != [] ==> Before((r + e)[|r + e| - 1].Span(), c.Span())
  {
    AdvancePieces(r, e, curr, c, p, linear);
  }

  /** Pointwise coverage carried over a round. */
  lemma AdvanceCovered(r: seq<Sequence>, e: seq<Sequence>, curr: Sequence, m: seq<Sequence>, c: Sequence,
                       ps: seq<Period>, i: nat)
    requires ValidSet(ps) && i < |ps| && AllValid(r) && curr.Valid()
    requires 1 <= |m| <= 2 && AllValid(m) && e == (if |m| == 1 then [] else [m[0]]) && c == m[|m| - 1]
    requires forall u :: Covers(m, u) <==> curr.Span().Contains(u) && !ps[i].Contains(u)
    requires |m| == 2 ==> Before(m[0].Span(), ps[i])
    ensures forall u :: Covers(r, u) || (curr.Span().Contains(u) && !InRange(ps, i, |ps|, u))
                        <==> Covers(r + e, u) || (c.Span().Contains(u) && !InRange(ps, i + 1, |ps|, u))
  {
    forall u ensures Covers(r, u) || (curr.Span().Contains(u) && !InRange(ps, i, |ps|, u))
                     <==> Covers(r + e, u) || (c.Span().Contains(u) && !InRange(ps, i + 1, |ps|, u)) {
      AdvanceCover(r, e, curr, m, ps, i, u);
    }
  }

  lemma AdvanceCover(r: seq<Sequence>, e: seq<Sequence>, curr: Sequence, m: seq<Sequence>, ps: seq<Period>, i: nat, u: Time)
    requires ValidSet(ps) && i < |ps| && AllValid(r) && curr.Valid()
    requires 1 <= |m| <= 2 && AllValid(m) && e == (if |m| == 1 then [] else [m[0]])
    requires Covers(m, u) <==> curr.Span().Contains(u) && !ps[i].Contains(u)
    requires |m| == 2 ==> Before(m[0].Span(), ps[i])
    ensures Covers(r, u) || (curr.Span().Contains(u) && !InRange(ps, i, |ps|, u))
            <==> Covers(r + e, u) || (m[|m| - 1].Span().Contains(u) && !InRange(ps, i + 1, |ps|, u))
  {
    var c := m[|m| - 1];
    if |m| == 1 {
      CoversOne(m[0]);
      assert !Covers(e, u);
      assert r + e == r;
    } else {
      CoversPair(m, u);
      assert m[..1] == e;
      CoversSnoc(r, e[0]);
      CoversOne(e[0]);
      assert r + e == r + [e[0]];
    }
    MinusSetCover(r, e, curr, c, m, ps, i, u);
  }

  /** The emitted pieces stay in order, before the new remainder. */
  lemma AdvancePieces(r: seq<Sequence>, e: seq<Sequence>, curr: Sequence, c: Sequence, p: Period, linear: bool)
    requires Pieces(r, linear) && curr.Valid() && c.Valid() && c.linear == linear && p.Valid()
    requires r != [] ==> Before(r[|r| - 1].Span(), curr.Span())
    requires Within(c.Span(), curr.Span())
    requires |e| <= 1
    requires |e| == 1 ==> && e[0].Valid() && e[0].linear == linear && Within(e[0].Span(), curr.Span())
                          && Before(e[0].Span(), p) && Before(p, c.Span())
    ensures Pieces(r + e, linear)
    ensures r + e != [] ==> Before((r + e)[|r + e| - 1].Span(), c.Span())
  {
    if r != [] {
      BeforeWithin(r[|r| - 1].Span(), curr.Span(), r[|r| - 1].Span(), c.Span());
    }
    if e == [] {
      assert r + e == r;
    } else {
      if r != [] {
        BeforeWithin(r[|r| - 1].Span(), curr.Span(), r[|r| - 1].Span(), e[0].Span());
      }
      PiecesSnoc(r, e[0], linear);
      assert r + e == r + [e[0]];
      BeforeTrans(e[0].Span(), p, c.Span());
    }
  }

  /** One round of the minus_periodset loop on period ps[i]. */
  method MinusSetRound(s: Sequence, ps: seq<Period>, from: nat, i: nat, r: seq<Sequence>, curr: Sequence, ops: Ops)
    returns (r': seq<Sequence>, curr': Sequence, stop: bool)
    requires ValidSet(ps) && from <= i < |ps| && MinusSetState(s, ps, from, i, r, curr)
    ensures stop ==> Pieces(r', s.linear)
    ensures stop ==> forall u :: (s.Span().Contains(u) && !InRange(ps, from, |ps|, u)) <==> Covers(r', u)
    ensures !stop ==> MinusSetState(s, ps, from, i + 1, r', curr')
  {
    var p1 := ps[i];
    if EndsFirst(curr.Span(), p1) {
      forall u | curr.Span().Contains(u) ensures !InRange(ps, i, |ps|, u) {
        BeforeRest(curr.Span(), ps, i, u);
      }
      PiecesSnoc(r, curr, s.linear);
      CoversSnoc(r, curr);
      return r + [curr], curr, true;
    }
    var m := MinusPeriod(curr, p1, ops);
    if |m| == 0 {
      forall u | curr.Span().Contains(u) ensures InRange(ps, i, |ps|, u) {
        assert !Covers(m, u);
        assert p1.Contains(u);
      }
      return r, curr, true;
    }
    var e: seq<Sequence> := if |m| == 1 then [] else [m[0]];
    curr' := m[|m| - 1];
    MinusSetAdvance(s, ps, from, i, r, curr, m, e, curr');
    r' := r + e;
    stop := false;
  }
}
