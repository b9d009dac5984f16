/** Restriction of a step sequence to the complement of a base value
    (the stepwise branch of tsequence_minus_value).  The instants that do
    not take the value are buffered; an instant that takes it closes the
    buffer into a piece that ends, exclusively, where the value starts. */
module TSequenceMinusValue {
  import opened TemporalBase
  import opened Periods
  import opened TSequence
  import opened TSequenceSearch
  import opened TSequenceJoin
  import opened TSequenceRestrictTime
  import opened TSequenceRestrictValue

  /** The points of s's period before instant k (all of them once k is past
      the last instant). */
  predicate Left(s: Sequence, k: nat, t: Time)
    requires s.Valid() && k <= |s.instants|
  {
    s.Span().Contains(t) && (k == |s.instants| || t < s.instants[k].t)
  }

  /** Between instant k0 and instant e a step sequence only holds the values
      of the instants k0 .. e - 1; if none of them is the value, s does not
      take it there. */
  lemma NonValueRun(s: Sequence, value: Value, k0: nat, e: nat, t: Time, ops: Ops)
    requires s.Valid() && !s.linear && k0 < e <= |s.instants|
    requires forall j | k0 <= j < e :: s.instants[j].v != value
    requires s.Span().Contains(t) && s.instants[k0].t <= t
    requires e == |s.instants| || t < s.instants[e].t
    ensures !HasValue(s, t, value, ops)
  {
    var a := s.instants;
    var j := StepIndex(a, t);
    StepValueAt(s, t, ops);
  }

  /** The buffer holds the instants k0 .. i - 1, none of which takes the
      value; the instant before them takes it, and the lower bound is the
      sequence's own only while nothing precedes them. */
  predicate MinusShape(s: Sequence, value: Value, i: nat, k0: nat, buf: seq<Instant>, lowerInc: bool)
    requires s.Valid()
  {
    && k0 <= i <= |s.instants|
    && buf == s.instants[k0..i]
    && (forall j | k0 <= j < i :: s.instants[j].v != value)
    && (k0 > 0 ==> s.instants[k0 - 1].v == value)
    && lowerInc == (if k0 == 0 then s.lowerInc else true)
  }

  /** The pieces emitted so far are in order, sampled from s, and end, open,
      no later than the instant before the buffer. */
  ghost predicate MinusOrder(s: Sequence, k0: nat, r: seq<Sequence>, ops: Ops)
    requires s.Valid() && k0 <= |s.instants|
  {
    && Pieces(r, false)
    && (forall k | 0 <= k < |r| :: SampledFrom(r[k], s, ops))
    && (r != [] ==> 1 <= k0 && r[|r| - 1].Span().upper <= s.instants[k0 - 1].t && !r[|r| - 1].upperInc)
  }

  /** The pieces emitted so far cover exactly the points before the buffer
      where s does not take the value. */
  ghost predicate MinusCovers(s: Sequence, value: Value, k0: nat, r: seq<Sequence>, ops: Ops)
    requires s.Valid() && k0 <= |s.instants| && AllValid(r)
  {
    forall t :: Covers(r, t) <==> Left(s, k0, t) && !HasValue(s, t, value, ops)
  }

  /** The state of the minus_value loop after the instants 0 .. i - 1, with
      the buffer starting at instant k0. */
  ghost predicate MinusLoop(s: Sequence, value: Value, i: nat, k0: nat, buf: seq<Instant>, lowerInc: bool,
                            r: seq<Sequence>, ops: Ops)
    requires s.Valid()
  {
    && MinusShape(s, value, i, k0, buf, lowerInc)
    && MinusOrder(s, k0, r, ops)
    && MinusCovers(s, value, k0, r, ops)
  }

  lemma MinusStart(s: Sequence, value: Value, ops: Ops)
    requires s.Valid()
    ensures MinusLoop(s, value, 0, 0, [], s.lowerInc, [], ops)
  {
    forall t ensures !Covers([], t) && !Left(s, 0, t) {
    }
  }

  lemma SliceIncreasing(a: seq<Instant>, lo: nat, hi: nat)
    requires Increasing(a) && lo <= hi <= |a|
    ensures Increasing(a[lo..hi])
  {
    forall m, n | 0 <= m < n < hi - lo ensures a[lo..hi][m].t < a[lo..hi][n].t {
      assert a[lo..hi][m] == a[lo + m] && a[lo..hi][n] == a[lo + n];
    }
  }

  lemma SliceOn(s: Sequence, lo: nat, hi: nat, ops: Ops)
    requires s.Valid() && lo <= hi <= |s.instants|
    ensures forall j | 0 <= j < hi - lo :: OnSequence(s.instants[lo..hi][j], s, ops)
  {
    forall j | 0 <= j < hi - lo ensures OnSequence(s.instants[lo..hi][j], s, ops) {
      assert s.instants[lo..hi][j] == s.instants[lo + j];
      InstantOn(s, lo + j, ops);
    }
  }

  /** The piece closed at a value instant i: the buffer, then the buffer's
      last value carried up to instant i, exclusive there. */
  lemma ClosedPiece(s: Sequence, value: Value, i: nat, k0: nat, buf: seq<Instant>, lowerInc: bool, piece: Sequence, ops: Ops)
    requires s.Valid() && !s.linear && i < |s.instants| && MinusShape(s, value, i, k0, buf, lowerInc) && k0 < i
    requires piece == Sequence(buf + [Instant(s.instants[i].t, buf[|buf| - 1].v)], lowerInc, false, false)
    ensures piece.Valid()
    ensures piece.Span() == Period(s.instants[k0].t, s.instants[i].t, lowerInc, false)
    ensures SampledFrom(piece, s, ops)
  {
    var a := s.instants;
    SliceIncreasing(a, k0, i);
    assert buf[|buf| - 1] == a[i - 1];
    IncreasingSnoc(buf, Instant(a[i].t, buf[|buf| - 1].v));
    SliceOn(s, k0, i, ops);
    forall j | 0 <= j < |piece.instants| - 1 ensures OnSequence(piece.instants[j], s, ops) {
      assert piece.instants[j] == buf[j];
    }
  }

  /** The coverage after closing the buffer at value instant i. */
  lemma ClosedCover(s: Sequence, value: Value, i: nat, k0: nat, r: seq<Sequence>, piece: Sequence, t: Time, ops: Ops)
    requires s.Valid() && !s.linear && k0 < i < |s.instants| && AllValid(r) && piece.Valid()
    requires forall j | k0 <= j < i :: s.instants[j].v != value
    requires s.instants[i].v == value
    requires k0 > 0 ==> s.instants[k0 - 1].v == value
    requires piece.Span() == Period(s.instants[k0].t, s.instants[i].t, if k0 == 0 then s.lowerInc else true, false)
    requires Covers(r, t) <==> Left(s, k0, t) && !HasValue(s, t, value, ops)
    ensures Covers(r + [piece], t) <==> Left(s, i + 1, t) && !HasValue(s, t, value, ops)
  {
    var a := s.instants;
    CoversSnoc(r, piece);
    if s.Span().Contains(t) && a[k0].t <= t < a[i].t {
      NonValueRun(s, value, k0, i, t, ops);
    }
    if s.Span().Contains(t) && a[i].t <= t && (i + 1 == |a| || t < a[i + 1].t) {
      ValueAtInstants(s, t, i, ops);
    }
    if k0 > 0 && t == a[k0].t {
      assert a[0].t < t < a[|a| - 1].t;
    }
  }

  /** A piece starting at the buffer and ending, open, at instant i keeps
      the pieces in order. */
  lemma ClosedOrder(s: Sequence, i: nat, k0: nat, r: seq<Sequence>, piece: Sequence, ops: Ops)
    requires s.Valid() && k0 < i < |s.instants| && MinusOrder(s, k0, r, ops)
    requires piece.Valid() && !piece.linear && !piece.upperInc && SampledFrom(piece, s, ops)
    requires piece.Span().lower == s.instants[k0].t && piece.Span().upper == s.instants[i].t
    ensures MinusOrder(s, i + 1, r + [piece], ops)
  {
    if r != [] {
      assert s.instants[k0 - 1].t < s.instants[k0].t;
      assert Before(r[|r| - 1].Span(), piece.Span());
    }
    PiecesSnoc(r, piece, false);
    SampledSnoc(r, piece, s, ops);
  }

  lemma ClosedCovers(s: Sequence, value: Value, i: nat, k0: nat, r: seq<Sequence>, piece: Sequence, ops: Ops)
    requires s.Valid() && !s.linear && k0 < i < |s.instants| && AllValid(r) && piece.Valid()
    requires forall j | k0 <= j < i :: s.instants[j].v != value
    requires s.instants[i].v == value
    requires k0 > 0 ==> s.instants[k0 - 1].v == value
    requires piece.Span() == Period(s.instants[k0].t, s.instants[i].t, if k0 == 0 then s.lowerInc else true, false)
    requires MinusCovers(s, value, k0, r, ops)
    ensures AllValid(r + [piece]) && MinusCovers(s, value, i + 1, r + [piece], ops)
  {
    CoversSnoc(r, piece);
    forall t ensures Covers(r + [piece], t) <==> Left(s, i + 1, t) && !HasValue(s, t, value, ops) {
      ClosedCover(s, value, i, k0, r, piece, t, ops);
    }
  }

  /** A value instant i closes a non-empty buffer into a piece. */
  lemma ClosedStep(s: Sequence, value: Value, i: nat, k0: nat, buf: seq<Instant>, lowerInc: bool,
                   r: seq<Sequence>, piece: Sequence, ops: Ops)
    requires s.Valid() && !s.linear && i < |s.instants| && k0 < i
    requires MinusLoop(s, value, i, k0, buf, lowerInc, r, ops)
    requires s.instants[i].v == value
    requires piece == Sequence(buf + [Instant(s.instants[i].t, buf[|buf| - 1].v)], lowerInc, false, false)
    ensures MinusLoop(s, value, i + 1, i + 1, [], true, r + [piece], ops)
  {
    ClosedPiece(s, value, i, k0, buf, lowerInc, piece, ops);
    ClosedOrder(s, i, k0, r, piece, ops);
    ClosedCovers(s, value, i, k0, r, piece, ops);
  }

  /** A value instant i with an empty buffer only moves the walked part. */
  lemma SkipStep(s: Sequence, value: Value, i: nat, r: seq<Sequence>, ops: Ops)
    requires s.Valid() && !s.linear && 0 < i < |s.instants| && MinusLoop(s, value, i, i, [], true, r, ops)
    requires s.instants[i].v == value
    ensures MinusLoop(s, value, i + 1, i + 1, [], true, r, ops)
  {
    var a := s.instants;
    if r != [] {
      assert a[i - 1].t < a[i].t;
    }
    forall t ensures Covers(r, t) <==> Left(s, i + 1, t) && !HasValue(s, t, value, ops) {
      if s.Span().Contains(t) && a[i].t <= t && (i + 1 == |a| || t < a[i + 1].t) {
        ValueAtInstants(s, t, i, ops);
      }
    }
  }

  /** The state after the first instant, when it takes the value. */
  lemma SkipFirst(s: Sequence, value: Value, ops: Ops)
    requires s.Valid() && !s.linear && s.instants[0].v == value
    ensures MinusLoop(s, value, 1, 1, [], true, [], ops)
  {
    forall t ensures !Covers([], t) && !(Left(s, 1, t) && !HasValue(s, t, value, ops)) {
      if Left(s, 1, t) {
        ValueAtInstants(s, t, 0, ops);
      }
    }
  }

  /** An instant that does not take the value joins the buffer. */
  lemma PushStep(s: Sequence, value: Value, i: nat, k0: nat, buf: seq<Instant>, lowerInc: bool,
                 r: seq<Sequence>, ops: Ops)
    requires s.Valid() && i < |s.instants| && MinusLoop(s, value, i, k0, buf, lowerInc, r, ops)
    requires s.instants[i].v != value
    ensures MinusLoop(s, value, i + 1, k0, buf + [s.instants[i]], lowerInc, r, ops)
  {
    assert s.instants[k0..i + 1] == buf + [s.instants[i]];
  }

  /** One round of the stepwise minus_value loop on instant i. */
  method MinusValueRound(s: Sequence, value: Value, i: nat, ghost k0: nat, buf: seq<Instant>, lowerInc: bool,
                         r: seq<Sequence>, ops: Ops)
    returns (ghost k0': nat, buf': seq<Instant>, lowerInc': bool, r': seq<Sequence>)
    requires s.Valid() && !s.linear && i < |s.instants| && MinusLoop(s, value, i, k0, buf, lowerInc, r, ops)
    ensures MinusLoop(s, value, i + 1, k0', buf', lowerInc', r', ops)
  {
    var inst := s.instants[i];
    if inst.v == value {
      if |buf| > 0 {
        var piece := Sequence(buf + [Instant(inst.t, buf[|buf| - 1].v)], lowerInc, false, false);
        ClosedStep(s, value, i, k0, buf, lowerInc, r, piece, ops);
        r' := r + [piece];
      } else if i == 0 {
        SkipFirst(s, value, ops);
        r' := r;
      } else {
        SkipStep(s, value, i, r, ops);
        r' := r;
      }
      k0', buf', lowerInc' := i + 1, [], true;
    } else {
      PushStep(s, value, i, k0, buf, lowerInc, r, ops);
      k0', buf', lowerInc', r' := k0, buf + [inst], lowerInc, r;
    }
  }

  /** The piece left in the buffer when the instants run out. */
  lemma FinalPiece(s: Sequence, value: Value, k0: nat, buf: seq<Instant>, lowerInc: bool, piece: Sequence, ops: Ops)
    requires s.Valid() && !s.linear && |s.instants| >= 2
    requires MinusShape(s, value, |s.instants|, k0, buf, lowerInc) && k0 < |s.instants|
    requires piece == Sequence(buf, lowerInc, s.upperInc, false)
    ensures piece.Valid()
    ensures piece.Span() == Period(s.instants[k0].t, s.instants[|s.instants| - 1].t, lowerInc, s.upperInc)
  {
    var a := s.instants;
    assert buf[|buf| - 1] == a[|a| - 1];
    if |buf| == 1 {
      assert a[|a| - 2].v == value && a[|a| - 1].v != value;
      assert lowerInc && s.upperInc;
    } else {
      assert buf[|buf| - 2] == a[|a| - 2];
    }
    SliceIncreasing(a, k0, |a|);
  }

  /** The coverage once the final piece is emitted. */
  lemma FinalCover(s: Sequence, value: Value, k0: nat, r: seq<Sequence>, piece: Sequence, t: Time, ops: Ops)
    requires s.Valid() && !s.linear && 0 < k0 < |s.instants| && AllValid(r) && piece.Valid()
    requires forall j | k0 <= j < |s.instants| :: s.instants[j].v != value
    requires piece.Span() == Period(s.instants[k0].t, s.instants[|s.instants| - 1].t, true, s.upperInc)
    requires Covers(r, t) <==> Left(s, k0, t) && !HasValue(s, t, value, ops)
    ensures Covers(r + [piece], t) <==> s.Span().Contains(t) && !HasValue(s, t, value, ops)
  {
    var a := s.instants;
    CoversSnoc(r, piece);
    if s.Span().Contains(t) && a[k0].t <= t {
      NonValueRun(s, value, k0, |a|, t, ops);
    }
  }

  /** The final piece of a buffer that started at the first instant: it is
      the whole sequence. */
  lemma FinalCoverAll(s: Sequence, value: Value, piece: Sequence, t: Time, ops: Ops)
    requires s.Valid() && !s.linear && piece.Valid()
    requires forall j | 0 <= j < |s.instants| :: s.instants[j].v != value
    requires piece.Span() == s.Span()
    ensures Covers([] + [piece], t) <==> s.Span().Contains(t) && !HasValue(s, t, value, ops)
  {
    CoversSnoc([], piece);
    if s.Span().Contains(t) {
      NonValueRun(s, value, 0, |s.instants|, t, ops);
    }
  }

  lemma FinalOrder(s: Sequence, k0: nat, r: seq<Sequence>, piece: Sequence, ops: Ops)
    requires s.Valid() && k0 < |s.instants| && MinusOrder(s, k0, r, ops)
    requires piece.Valid() && !piece.linear && piece.instants == s.instants[k0..|s.instants|]
    ensures Pieces(r + [piece], false)
    ensures forall k | 0 <= k < |r + [piece]| :: SampledFrom((r + [piece])[k], s, ops)
  {
    SliceOn(s, k0, |s.instants|, ops);
    if r != [] {
      assert s.instants[k0 - 1].t < s.instants[k0].t;
      assert Before(r[|r| - 1].Span(), piece.Span());
    }
    PiecesSnoc(r, piece, false);
    SampledSnoc(r, piece, s, ops);
  }

  lemma FinalCovers(s: Sequence, value: Value, k0: nat, r: seq<Sequence>, piece: Sequence, ops: Ops)
    requires s.Valid() && !s.linear && k0 < |s.instants| && AllValid(r) && piece.Valid()
    requires forall j | k0 <= j < |s.instants| :: s.instants[j].v != value
    requires k0 > 0 ==> piece.Span() == Period(s.instants[k0].t, s.instants[|s.instants| - 1].t, true, s.upperInc)
    requires k0 == 0 ==> r == [] && piece.Span() == s.Span()
    requires MinusCovers(s, value, k0, r, ops)
    ensures forall t :: Covers(r + [piece], t) <==> s.Span().Contains(t) && !HasValue(s, t, value, ops)
  {
    if k0 == 0 {
      forall t ensures Covers(r + [piece], t) <==> s.Span().Contains(t) && !HasValue(s, t, value, ops) {
        FinalCoverAll(s, value, piece, t, ops);
      }
    } else {
      forall t ensures Covers(r + [piece], t) <==> s.Span().Contains(t) && !HasValue(s, t, value, ops) {
        FinalCover(s, value, k0, r, piece, t, ops);
      }
    }
  }

  /** Emitting the buffer left at the end completes the result. */
  lemma FinishStep(s: Sequence, value: Value, k0: nat, buf: seq<Instant>, lowerInc: bool,
                   r: seq<Sequence>, piece: Sequence, ops: Ops)
    requires s.Valid() && !s.linear && |s.instants| >= 2 && k0 < |s.instants|
    requires MinusLoop(s, value, |s.instants|, k0, buf, lowerInc, r, ops)
    requires piece == Sequence(buf, lowerInc, s.upperInc, false)
    ensures Pieces(r + [piece], false)
    ensures forall k | 0 <= k < |r + [piece]| :: SampledFrom((r + [piece])[k], s, ops)
    ensures forall t :: Covers(r + [piece], t) <==> s.Span().Contains(t) && !HasValue(s, t, value, ops)
  {
    FinalPiece(s, value, k0, buf, lowerInc, piece, ops);
    FinalOrder(s, k0, r, piece, ops);
    FinalCovers(s, value, k0, r, piece, ops);
  }

  /** An instantaneous sequence: nothing is left when it takes the value,
      and all of it otherwise. */
  lemma MinusSingle(s: Sequence, value: Value, r: seq<Sequence>, ops: Ops)
    requires s.Valid() && |s.instants| == 1
    requires r == if s.instants[0].v == value then [] else [s]
    ensures Pieces(r, s.linear)
    ensures forall k | 0 <= k < |r| :: SampledFrom(r[k], s, ops)
    ensures forall t :: Covers(r, t) <==> s.Span().Contains(t) && !HasValue(s, t, value, ops)
  {
    SelfSampled(s, ops);
    CoversOne(s);
    forall t | s.Span().Contains(t) ensures HasValue(s, t, value, ops) <==> s.instants[0].v == value {
      ValueAtInstants(s, t, 0, ops);
    }
  }

  /** tsequence_minus_value in step mode: the pieces of s where it does not
      take value.  The bounding-box shortcut is not modelled. */
  method MinusValueStep(s: Sequence, value: Value, ops: Ops) returns (r: seq<Sequence>)
    requires s.Valid() && !s.linear
    ensures Pieces(r, false)
    ensures forall k | 0 <= k < |r| :: SampledFrom(r[k], s, ops)
    ensures forall t :: Covers(r, t) <==> s.Span().Contains(t) && !HasValue(s, t, value, ops)
  {
    var a := s.instants;
    if |a| == 1 {
      r := if a[0].v == value then [] else [s];
      MinusSingle(s, value, r, ops);
      return;
    }
    var lowerInc := s.lowerInc;
    var buf: seq<Instant> := [];
    ghost var k0: nat := 0;
    r := [];
    MinusStart(s, value, ops);
    var i := 0;
    while i < |a|
      invariant i <= |a| && MinusLoop(s, value, i, k0, buf, lowerInc, r, ops)
    {
      k0, buf, lowerInc, r := MinusValueRound(s, value, i, k0, buf, lowerInc, r, ops);
      i := i + 1;
    }
    if |buf| > 0 {
      var piece := Sequence(buf, lowerInc, s.upperInc, false);
      FinishStep(s, value, k0, buf, lowerInc, r, piece, ops);
      r := r + [piece];
    }
  }
}
