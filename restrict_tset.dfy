/** Restriction of a sequence to the complement of a timestamp set: a
    merge-scan over the instants of the sequence and the timestamps of the
    set that cuts the sequence at every timestamp of the set it contains. */
module TSequenceMinusTimestampSet {
  import opened TemporalBase
  import opened Periods
  import opened TSequence
  import opened TSequenceSearch
  import opened TSequenceJoin
  import opened TSequenceRestrictTime

  /** A timestamp set: a non-empty array of strictly increasing timestamps. */
  predicate ValidTimestamps(ts: seq<Time>)
  {
    |ts| >= 1 && forall i, j | 0 <= i < j < |ts| :: ts[i] < ts[j]
  }

  /** timestampset_bbox (timestampset.c is not part of this model): the
      closed period from the first to the last timestamp. */
  function TimestampBox(ts: seq<Time>): (p: Period)
    requires ValidTimestamps(ts)
    ensures p.Valid()
    ensures forall k | 0 <= k < |ts| :: p.Contains(ts[k])
  {
    var p := Period(ts[0], ts[|ts| - 1], true, true);
    assert forall k | 0 < k < |ts| - 1 :: ts[0] < ts[k] < ts[|ts| - 1];
    p
  }

  /** t is one of the first j timestamps. */
  predicate Removed(ts: seq<Time>, j: nat, t: Time)
    requires j <= |ts|
  {
    exists m | 0 <= m < j :: ts[m] == t
  }

  /** The instant the scan inserts at a removed timestamp t inside the
      segment from x to y: the linear blend, or in step mode the value of x. */
  function CutInstant(x: Instant, y: Instant, linear: bool, t: Time, ops: Ops): (c: Instant)
    requires x.t <= t <= y.t
    ensures c.t == t && (!linear ==> c.v == x.v)
  {
    Instant(t, if linear then SegmentValue(x, y, true, t, ops) else x.v)
  }

  /** The instant ending a piece at the timestamp of instant y: y itself, or
      in step mode y's timestamp with the value in force before it. */
  function EndInstant(x: Instant, y: Instant, linear: bool): (c: Instant)
    ensures c.t == y.t && (linear ==> c == y) && (!linear ==> c.v == x.v)
  {
    if linear then y else Instant(y.t, x.v)
  }

  // ---------------------------------------------------------------------
  // The state of the scan
  // ---------------------------------------------------------------------

  /** The buffer under construction is s.instants[i - |buf| .. i], except
      that its first instant may sit later inside its segment (a cut), with
      the segment's value in step mode. */
  predicate BufferOn(a: seq<Instant>, i: nat, buf: seq<Instant>, linear: bool)
    requires 1 <= |buf| <= i <= |a|
  {
    var k0 := i - |buf|;
    && a[k0].t <= buf[0].t
    && (k0 + 1 < |a| ==> buf[0].t < a[k0 + 1].t)
    && (k0 + 1 == |a| ==> buf[0] == a[k0])
    && (!linear ==> buf[0].v == a[k0].v)
    && (forall q | 1 <= q < |buf| :: buf[q] == a[k0 + q])
  }

  /** The scan before a round: instants before i and timestamps before j
      are consumed, and the buffer's lower bound is closed exactly when its
      first timestamp is in s and was not removed. */
  predicate ScanShape(s: Sequence, ts: seq<Time>, i: nat, j: nat, buf: seq<Instant>, lowerInc: bool)
  {
    var a := s.instants;
    && s.Valid() && |a| >= 2 && ValidTimestamps(ts)
    && 1 <= i <= |a| && j <= |ts| && 1 <= |buf| <= i
    && BufferOn(a, i, buf, s.linear)
    && (forall m | 0 <= m < j :: ts[m] <= buf[0].t)
    && (j < |ts| && |buf| >= 2 ==> buf[|buf| - 1].t < ts[j])
    && (|buf| == 1 && i == |a| ==> buf[0].t in ts)
    && (lowerInc <==> s.Span().Contains(buf[0].t) && !Removed(ts, j, buf[0].t))
  }

  /** The pieces emitted before timestamp b: in order, ending before b, on s
      in step mode, and covering exactly the points of s before b that are
      not in ts. */
  ghost predicate ScanOutput(s: Sequence, ts: seq<Time>, b: Time, r: seq<Sequence>, ops: Ops)
    requires s.Valid()
  {
    && Pieces(r, s.linear)
    && (r != [] ==> r[|r| - 1].Span().upper <= b && !r[|r| - 1].upperInc)
    && (!s.linear ==> forall k | 0 <= k < |r| :: SampledFrom(r[k], s, ops))
    && (forall u :: Covers(r, u) <==> s.Span().Contains(u) && u < b && u !in ts)
  }

  ghost predicate ScanState(s: Sequence, ts: seq<Time>, i: nat, j: nat, buf: seq<Instant>, lowerInc: bool,
                            r: seq<Sequence>, ops: Ops)
  {
    ScanShape(s, ts, i, j, buf, lowerInc) && ScanOutput(s, ts, buf[0].t, r, ops)
  }

  // ---------------------------------------------------------------------
  // Facts about the buffer
  // ---------------------------------------------------------------------

  /** The buffer is increasing, its last instant is at or after a[i - 1]
      and before a[i], and in step mode carries the value of a[i - 1]. */
  lemma BufferFacts(a: seq<Instant>, i: nat, buf: seq<Instant>, linear: bool)
    requires Increasing(a) && 1 <= |buf| <= i <= |a| && BufferOn(a, i, buf, linear)
    ensures Increasing(buf)
    ensures a[i - 1].t <= buf[|buf| - 1].t
    ensures i < |a| ==> buf[|buf| - 1].t < a[i].t
    ensures !linear ==> buf[|buf| - 1].v == a[i - 1].v
    ensures a[0].t <= buf[0].t && buf[|buf| - 1].t <= a[|a| - 1].t
  {
    var k0 := i - |buf|;
    forall p, q | 0 <= p < q < |buf| ensures buf[p].t < buf[q].t {
      assert buf[q] == a[k0 + q];
      if p > 0 {
        assert buf[p] == a[k0 + p];
      }
    }
    if |buf| > 1 {
      assert buf[|buf| - 1] == a[i - 1];
    }
  }

  /** In step mode the first instant of the buffer lies on s. */
  lemma BufferHeadOn(s: Sequence, i: nat, buf: seq<Instant>, ops: Ops)
    requires s.Valid() && !s.linear && 1 <= |buf| <= i <= |s.instants| && BufferOn(s.instants, i, buf, s.linear)
    ensures OnSequence(buf[0], s, ops)
  {
    var a := s.instants;
    var k0 := i - |buf|;
    assert a[0].t <= a[k0].t;
    BufferFacts(a, i, buf, s.linear);
    ValueAtInstants(Closure(s), buf[0].t, k0, ops);
  }

  /** A step piece made of the buffer and a closing instant lies on s. */
  lemma PieceSampled(s: Sequence, i: nat, buf: seq<Instant>, piece: Sequence, ops: Ops)
    requires s.Valid() && !s.linear && 1 <= |buf| <= i <= |s.instants| && BufferOn(s.instants, i, buf, s.linear)
    requires !piece.linear && |piece.instants| == |buf| + 1 && !piece.upperInc
    requires forall q | 0 <= q < |buf| :: piece.instants[q] == buf[q]
    ensures SampledFrom(piece, s, ops)
  {
    var k0 := i - |buf|;
    forall q | 0 <= q < |buf| ensures OnSequence(piece.instants[q], s, ops) {
      if q == 0 {
        BufferHeadOn(s, i, buf, ops);
      } else {
        InstantOn(s, k0 + q, ops);
      }
    }
  }

  // ---------------------------------------------------------------------
  // Emitting a piece
  // ---------------------------------------------------------------------

  /** A piece from the buffer's first timestamp b to the removed timestamp
      ts[j] covers what lies between them and is not removed. */
  lemma EmitCover(s: Sequence, ts: seq<Time>, j: nat, b: Time, r: seq<Sequence>, piece: Sequence, u: Time)
    requires s.Valid() && ValidTimestamps(ts) && j < |ts| && AllValid(r) && piece.Valid()
    requires piece.instants[0].t == b && piece.Last().t == ts[j] && b < ts[j] && !piece.upperInc
    requires piece.lowerInc <==> s.Span().Contains(b) && !Removed(ts, j, b)
    requires forall m | 0 <= m < j :: ts[m] <= b
    requires s.instants[0].t <= b && ts[j] <= s.instants[|s.instants| - 1].t
    requires Covers(r, u) <==> s.Span().Contains(u) && u < b && u !in ts
    requires Covers(r + [piece], u) <==> Covers(r, u) || piece.Span().Contains(u)
    ensures Covers(r + [piece], u) <==> s.Span().Contains(u) && u < ts[j] && u !in ts
  {
    if u in ts {
      var m :| 0 <= m < |ts| && ts[m] == u;
      if m > j {
        assert ts[j] < ts[m];
      } else if m < j && u == b {
        assert Removed(ts, j, b);
      }
    }
  }

  /** Emitting a piece that closes at ts[j] moves the covered front to ts[j]. */
  lemma EmitOutput(s: Sequence, ts: seq<Time>, j: nat, b: Time, r: seq<Sequence>, piece: Sequence, ops: Ops)
    requires s.Valid() && ValidTimestamps(ts) && j < |ts| && ScanOutput(s, ts, b, r, ops)
    requires piece.Valid() && piece.linear == s.linear && |piece.instants| >= 2
    requires piece.instants[0].t == b && piece.Last().t == ts[j] && !piece.upperInc
    requires piece.lowerInc <==> s.Span().Contains(b) && !Removed(ts, j, b)
    requires forall m | 0 <= m < j :: ts[m] <= b
    requires s.instants[0].t <= b && ts[j] <= s.instants[|s.instants| - 1].t
    requires !s.linear ==> SampledFrom(piece, s, ops)
    ensures ScanOutput(s, ts, ts[j], r + [piece], ops)
  {
    if r != [] {
      assert Before(r[|r| - 1].Span(), piece.Span());
    }
    PiecesSnoc(r, piece, s.linear);
    CoversSnoc(r, piece);
    var r' := r + [piece];
    assert forall k | 0 <= k < |r| :: r'[k] == r[k];
    forall u ensures Covers(r', u) <==> s.Span().Contains(u) && u < ts[j] && u !in ts {
      EmitCover(s, ts, j, b, r, piece, u);
    }
  }

  // ---------------------------------------------------------------------
  // The rounds of the scan
  // ---------------------------------------------------------------------

  lemma ScanStart(s: Sequence, ts: seq<Time>, ops: Ops)
    requires s.Valid() && |s.instants| >= 2 && ValidTimestamps(ts)
    ensures ScanState(s, ts, 1, 0, [s.instants[0]], s.lowerInc, [], ops)
  {
    assert s.instants[0].t < s.instants[1].t;
  }

  /** An instant before the next timestamp joins the buffer. */
  lemma PushStep(s: Sequence, ts: seq<Time>, i: nat, j: nat, buf: seq<Instant>, lowerInc: bool, r: seq<Sequence>, ops: Ops)
    requires ScanState(s, ts, i, j, buf, lowerInc, r, ops) && i < |s.instants| && j < |ts|
    requires s.instants[i].t < ts[j]
    ensures ScanState(s, ts, i + 1, j, buf + [s.instants[i]], lowerInc, r, ops)
  {
    var buf' := buf + [s.instants[i]];
    assert buf'[0] == buf[0];
    assert forall q | 1 <= q < |buf| :: buf'[q] == buf[q];
  }

  /** A timestamp at or before the buffer's single instant is passed over;
      it opens the buffer's lower bound only when it is that instant's. */
  lemma SkipStep(s: Sequence, ts: seq<Time>, i: nat, j: nat, buf: seq<Instant>, lowerInc: bool, r: seq<Sequence>, ops: Ops)
    requires ScanState(s, ts, i, j, buf, lowerInc, r, ops) && i < |s.instants| && j < |ts|
    requires ts[j] < s.instants[i].t && ts[j] <= buf[|buf| - 1].t
    ensures ScanState(s, ts, i, j + 1, buf, lowerInc && buf[|buf| - 1].t != ts[j], r, ops)
  {
    assert |buf| == 1;
    if Removed(ts, j + 1, buf[0].t) && !Removed(ts, j, buf[0].t) {
      var m :| 0 <= m < j + 1 && ts[m] == buf[0].t;
    }
  }

  /** An instant at the next timestamp closes a piece there and restarts
      the buffer from it. */
  lemma EqualStep(s: Sequence, ts: seq<Time>, i: nat, j: nat, buf: seq<Instant>, lowerInc: bool, r: seq<Sequence>,
                  piece: Sequence, ops: Ops)
    requires ScanState(s, ts, i, j, buf, lowerInc, r, ops) && i < |s.instants| && j < |ts|
    requires s.instants[i].t == ts[j]
    requires piece == Sequence(buf + [EndInstant(buf[|buf| - 1], s.instants[i], s.linear)], lowerInc, false, s.linear)
    ensures ScanState(s, ts, i + 1, j + 1, [s.instants[i]], false, r + [piece], ops)
  {
    var a := s.instants;
    BufferFacts(a, i, buf, s.linear);
    var x := EndInstant(buf[|buf| - 1], a[i], s.linear);
    assert Increasing(buf + [x]);
    assert piece.Valid();
    if !s.linear {
      PieceSampled(s, i, buf, piece, ops);
    }
    EmitOutput(s, ts, j, buf[0].t, r, piece, ops);
    EqualShape(s, ts, i, j, buf, lowerInc);
  }

  /** The scan's shape after an instant at the next timestamp: the buffer
      restarts from that instant, whose timestamp is now removed. */
  lemma EqualShape(s: Sequence, ts: seq<Time>, i: nat, j: nat, buf: seq<Instant>, lowerInc: bool)
    requires ScanShape(s, ts, i, j, buf, lowerInc) && i < |s.instants| && j < |ts|
    requires s.instants[i].t == ts[j]
    ensures ScanShape(s, ts, i + 1, j + 1, [s.instants[i]], false)
  {
    BufferFacts(s.instants, i, buf, s.linear);
    assert Removed(ts, j + 1, s.instants[i].t);
  }

  /** A timestamp strictly inside the buffer's last segment closes a piece
      at a cut instant there and restarts the buffer from the cut. */
  lemma CutStep(s: Sequence, ts: seq<Time>, i: nat, j: nat, buf: seq<Instant>, lowerInc: bool, r: seq<Sequence>,
                x: Instant, piece: Sequence, ops: Ops)
    requires ScanState(s, ts, i, j, buf, lowerInc, r, ops) && i < |s.instants| && j < |ts|
    requires buf[|buf| - 1].t < ts[j] < s.instants[i].t
    requires x == CutInstant(buf[|buf| - 1], s.instants[i], s.linear, ts[j], ops)
    requires piece == Sequence(buf + [x], lowerInc, false, s.linear)
    ensures ScanState(s, ts, i, j + 1, [x], false, r + [piece], ops)
  {
    var a := s.instants;
    BufferFacts(a, i, buf, s.linear);
    assert Increasing(buf + [x]);
    assert piece.Valid();
    if !s.linear {
      PieceSampled(s, i, buf, piece, ops);
    }
    EmitOutput(s, ts, j, buf[0].t, r, piece, ops);
    CutShape(s, ts, i, j, buf, lowerInc, x, ops);
  }

  /** The scan's shape after a cut at the next timestamp: the buffer
      restarts from the cut instant, whose timestamp is now removed. */
  lemma CutShape(s: Sequence, ts: seq<Time>, i: nat, j: nat, buf: seq<Instant>, lowerInc: bool, x: Instant, ops: Ops)
    requires ScanShape(s, ts, i, j, buf, lowerInc) && i < |s.instants| && j < |ts|
    requires buf[|buf| - 1].t < ts[j] < s.instants[i].t
    requires x == CutInstant(buf[|buf| - 1], s.instants[i], s.linear, ts[j], ops)
    ensures ScanShape(s, ts, i, j + 1, [x], false)
  {
    BufferFacts(s.instants, i, buf, s.linear);
    assert Removed(ts, j + 1, x.t);
  }

  /** What is left when the scan stops is the buffer followed by the
      remaining instants: s from the buffer's first instant on. */
  lemma RestShape(a: seq<Instant>, i: nat, buf: seq<Instant>, linear: bool)
    requires Increasing(a) && 1 <= |buf| <= i <= |a| && BufferOn(a, i, buf, linear)
    ensures var c := buf + a[i..]; |c| == |a| - (i - |buf|) && c[0] == buf[0]
    ensures var c := buf + a[i..]; forall q | 1 <= q < |c| :: c[q] == a[i - |buf| + q]
    ensures Increasing(buf + a[i..])
  {
    var c := buf + a[i..];
    var k0 := i - |buf|;
    forall q | 1 <= q < |c| ensures c[q] == a[k0 + q] {
      if q >= |buf| {
        assert c[q] == a[i..][q - |buf|];
      }
    }
    BufferFacts(a, i, buf, linear);
    forall p, q | 0 <= p < q < |c| ensures c[p].t < c[q].t {
      if p > 0 {
        assert c[p] == a[k0 + p];
      }
    }
  }

  /** The last piece covers the rest of s minus the timestamps. */
  lemma FinishCover(s: Sequence, ts: seq<Time>, i: nat, j: nat, buf: seq<Instant>, lowerInc: bool, last: Sequence, u: Time)
    requires ScanShape(s, ts, i, j, buf, lowerInc) && (i == |s.instants| || j == |ts|)
    requires last.Valid() && last.instants[0] == buf[0] && last.Last() == s.instants[|s.instants| - 1]
    requires last.lowerInc == lowerInc && last.upperInc == s.upperInc
    requires |buf| == 1 ==> i < |s.instants|
    requires buf[0].t <= u
    ensures last.Span().Contains(u) <==> s.Span().Contains(u) && u !in ts
  {
    var a := s.instants;
    BufferFacts(a, i, buf, s.linear);
    if u in ts {
      var m :| 0 <= m < |ts| && ts[m] == u;
      if m < j {
        assert Removed(ts, j, u);
      } else if j < |ts| {
        assert buf[|buf| - 1] == a[|a| - 1];
        assert ts[j] <= ts[m];
      }
    } else if u == buf[0].t && Removed(ts, j, u) {
      var m :| 0 <= m < j && ts[m] == u;
    }
  }

  /** The rest of s from the buffer on is a valid sequence, on s in step
      mode. */
  lemma RestPiece(s: Sequence, i: nat, buf: seq<Instant>, lowerInc: bool, last: Sequence, ops: Ops)
    requires s.Valid() && 1 <= |buf| <= i <= |s.instants| && BufferOn(s.instants, i, buf, s.linear)
    requires |buf + s.instants[i..]| >= 2
    requires last == Sequence(buf + s.instants[i..], lowerInc, s.upperInc, s.linear)
    ensures last.Valid() && last.instants[0] == buf[0] && last.Last() == s.Last()
    ensures !s.linear ==> SampledFrom(last, s, ops)
  {
    var c := last.instants;
    RestShape(s.instants, i, buf, s.linear);
    RestValid(s, i - |buf|, last);
    if !s.linear {
      RestOn(s, i, buf, c, ops);
    }
  }

  /** The instants of s from k0 on, the first possibly moved later inside
      its segment, make a valid sequence ending where s ends. */
  lemma RestValid(s: Sequence, k0: nat, last: Sequence)
    requires s.Valid() && k0 < |s.instants| && |last.instants| >= 2 && Increasing(last.instants)
    requires |last.instants| == |s.instants| - k0 && last.upperInc == s.upperInc && last.linear == s.linear
    requires forall q | 1 <= q < |last.instants| :: last.instants[q] == s.instants[k0 + q]
    requires !s.linear ==> last.instants[0].v == s.instants[k0].v
    ensures last.Valid() && last.Last() == s.Last()
  {
    var a := s.instants;
    var c := last.instants;
    assert c[|c| - 1] == a[|a| - 1];
    if !s.linear && !s.upperInc {
      assert c[|c| - 2].v == a[|a| - 2].v;
    }
  }

  /** In step mode every instant of the rest lies on s. */
  lemma RestOn(s: Sequence, i: nat, buf: seq<Instant>, c: seq<Instant>, ops: Ops)
    requires s.Valid() && !s.linear && 1 <= |buf| <= i <= |s.instants| && BufferOn(s.instants, i, buf, s.linear)
    requires |c| == |s.instants| - (i - |buf|) && c[0] == buf[0]
    requires forall q | 1 <= q < |c| :: c[q] == s.instants[i - |buf| + q]
    ensures forall q | 0 <= q < |c| :: OnSequence(c[q], s, ops)
  {
    forall q | 0 <= q < |c| ensures OnSequence(c[q], s, ops) {
      if q == 0 {
        BufferHeadOn(s, i, buf, ops);
      } else {
        InstantOn(s, i - |buf| + q, ops);
      }
    }
  }

  /** Closing the scan with the rest of s as a last piece. */
  lemma ScanFinish(s: Sequence, ts: seq<Time>, i: nat, j: nat, buf: seq<Instant>, lowerInc: bool, r: seq<Sequence>,
                   last: Sequence, ops: Ops)
    requires ScanState(s, ts, i, j, buf, lowerInc, r, ops) && (i == |s.instants| || j == |ts|)
    requires |buf + s.instants[i..]| >= 2
    requires last == Sequence(buf + s.instants[i..], lowerInc, s.upperInc, s.linear)
    ensures Pieces(r + [last], s.linear)
    ensures !s.linear ==> forall k | 0 <= k < |r + [last]| :: SampledFrom((r + [last])[k], s, ops)
    ensures forall u :: Covers(r + [last], u) <==> s.Span().Contains(u) && u !in ts
  {
    RestPiece(s, i, buf, lowerInc, last, ops);
    if r != [] {
      assert Before(r[|r| - 1].Span(), last.Span());
    }
    PiecesSnoc(r, last, s.linear);
    CoversSnoc(r, last);
    var r' := r + [last];
    assert forall k | 0 <= k < |r| :: r'[k] == r[k];
    forall u ensures Covers(r', u) <==> s.Span().Contains(u) && u !in ts {
      if buf[0].t <= u {
        FinishCover(s, ts, i, j, buf, lowerInc, last, u);
      }
    }
  }

  /** When only the buffer's single instant is left, it is a removed one and
      the pieces already cover the rest. */
  lemma ScanFinishEmpty(s: Sequence, ts: seq<Time>, i: nat, j: nat, buf: seq<Instant>, lowerInc: bool, r: seq<Sequence>, ops: Ops)
    requires ScanState(s, ts, i, j, buf, lowerInc, r, ops) && (i == |s.instants| || j == |ts|)
    requires |buf + s.instants[i..]| < 2
    ensures forall u :: Covers(r, u) <==> s.Span().Contains(u) && u !in ts
  {
    var a := s.instants;
    assert |buf| == 1 && i == |a|;
    assert buf[0] == a[|a| - 1];
  }

  /** Outside the bounding period of ts, no point of s is removed. */
  lemma ApartCover(s: Sequence, ts: seq<Time>, u: Time)
    requires s.Valid() && ValidTimestamps(ts) && !Overlaps(s.Span(), TimestampBox(ts))
    ensures s.Span().Contains(u) ==> u !in ts
  {
  }

  /** One round of the tsequence_minus_timestampset1 scan, on instant a[i]
      and timestamp ts[j]. */
  method ScanRound(s: Sequence, ts: seq<Time>, i: nat, j: nat, buf: seq<Instant>, lowerInc: bool, r: seq<Sequence>, ops: Ops)
    returns (i': nat, j': nat, buf': seq<Instant>, lowerInc': bool, r': seq<Sequence>)
    requires ScanState(s, ts, i, j, buf, lowerInc, r, ops) && i < |s.instants| && j < |ts|
    ensures ScanState(s, ts, i', j', buf', lowerInc', r', ops)
    ensures i <= i' && j <= j' && i + j < i' + j'
  {
    var inst := s.instants[i];
    var t := ts[j];
    var prev := buf[|buf| - 1];
    if inst.t < t {
      PushStep(s, ts, i, j, buf, lowerInc, r, ops);
      return i + 1, j, buf + [inst], lowerInc, r;
    } else if inst.t == t {
      var piece := Sequence(buf + [EndInstant(prev, inst, s.linear)], lowerInc, false, s.linear);
      EqualStep(s, ts, i, j, buf, lowerInc, r, piece, ops);
      return i + 1, j + 1, [inst], false, r + [piece];
    } else if prev.t < t {
      var x := CutInstant(prev, inst, s.linear, t, ops);
      var piece := Sequence(buf + [x], lowerInc, false, s.linear);
      CutStep(s, ts, i, j, buf, lowerInc, r, x, piece, ops);
      return i, j + 1, [x], false, r + [piece];
    } else {
      SkipStep(s, ts, i, j, buf, lowerInc, r, ops);
      return i, j + 1, buf, lowerInc && prev.t != t, r;
    }
  }

  /** tsequence_minus_timestampset1, corrected: the parts of s between the
      timestamps of ts, each a valid sequence with the timestamps cut off. */
  method MinusTimestampSet(s: Sequence, ts: seq<Time>, ops: Ops) returns (r: seq<Sequence>)
    requires s.Valid() && ValidTimestamps(ts)
    ensures Pieces(r, s.linear)
    ensures !s.linear ==> forall k | 0 <= k < |r| :: SampledFrom(r[k], s, ops)
    ensures forall u :: Covers(r, u) <==> s.Span().Contains(u) && u !in ts
  {
    if !Overlaps(s.Span(), TimestampBox(ts)) {
      SelfSampled(s, ops);
      r := [s];
      forall u ensures Covers(r, u) <==> s.Span().Contains(u) && u !in ts {
        ApartCover(s, ts, u);
        CoversOne(s);
      }
      return;
    }
    var a := s.instants;
    if |a| == 1 {
      if a[0].t in ts {
        return [];
      }
      SelfSampled(s, ops);
      r := [s];
      forall u ensures Covers(r, u) <==> s.Span().Contains(u) && u !in ts {
        CoversOne(s);
      }
      return;
    }
    if |ts| == 1 {
      MinusTimestampPieces(s, ts[0], ops);
      r := MinusTimestamp(s, ts[0], ops);
      forall u ensures Covers(r, u) <==> s.Span().Contains(u) && u !in ts {
        MinusTimestampCovers(s, ts[0], u, ops);
      }
      return;
    }
    var buf := [a[0]];
    var i, j := 1, 0;
    var lowerInc := s.lowerInc;
    r := [];
    ScanStart(s, ts, ops);
    while i < |a| && j < |ts|
      invariant ScanState(s, ts, i, j, buf, lowerInc, r, ops)
      decreases |a| - i + |ts| - j
    {
      i, j, buf, lowerInc, r := ScanRound(s, ts, i, j, buf, lowerInc, r, ops);
    }
    var rest := buf + a[i..];
    if |rest| >= 2 {
      var last := Sequence(rest, lowerInc, s.upperInc, s.linear);
      ScanFinish(s, ts, i, j, buf, lowerInc, r, last, ops);
      r := r + [last];
    } else {
      ScanFinishEmpty(s, ts, i, j, buf, lowerInc, r, ops);
    }
  }

  // ---------------------------------------------------------------------
  // The scan as the source writes it
  // ---------------------------------------------------------------------

  /** tsequence_minus_timestampset1 as written: a timestamp before the
      current buffer clears the lower bound even when it lies before s, and
      when the instants run out first the buffered last piece is dropped. */
  function MinusTimestampSetAsWritten(s: Sequence, ts: seq<Time>, ops: Ops): seq<Sequence>
    requires s.Valid() && ValidTimestamps(ts)
  {
    if !Overlaps(s.Span(), TimestampBox(ts)) then [s]
    else if |s.instants| == 1 then (if s.instants[0].t in ts then [] else [s])
    else if |ts| == 1 then MinusTimestamp(s, ts[0], ops)
    else ScanAsWritten(s, ts, 1, 0, [s.instants[0]], s.lowerInc, [], ops)
  }

  function ScanAsWritten(s: Sequence, ts: seq<Time>, i: nat, j: nat, buf: seq<Instant>, lowerInc: bool,
                         acc: seq<Sequence>, ops: Ops): seq<Sequence>
    requires i <= |s.instants| && j <= |ts| && |buf| >= 1
    decreases |s.instants| - i + |ts| - j
  {
    var a := s.instants;
    if i < |a| && j < |ts| then
      var inst := a[i];
      var t := ts[j];
      var prev := buf[|buf| - 1];
      if inst.t < t then
        ScanAsWritten(s, ts, i + 1, j, buf + [inst], lowerInc, acc, ops)
      else if inst.t == t then
        var piece := Sequence(buf + [EndInstant(prev, inst, s.linear)], lowerInc, false, s.linear);
        ScanAsWritten(s, ts, i + 1, j + 1, [inst], false, acc + [piece], ops)
      else if prev.t < t then
        var x := CutInstant(prev, inst, s.linear, t, ops);
        var piece := Sequence(buf + [x], lowerInc, false, s.linear);
        ScanAsWritten(s, ts, i, j + 1, [x], false, acc + [piece], ops)
      else
        ScanAsWritten(s, ts, i, j + 1, buf, false, acc, ops)
    else if i < |a| then
      acc + [Sequence(buf + a[i..], false, s.upperInc, s.linear)]
    else
      acc
  }

  /** The step sequence [5@5, 8@8] with both bounds closed. */
  function Example(): (s: Sequence)
    ensures s.Valid()
  {
    Sequence([Instant(5, 5), Instant(8, 8)], true, true, false)
  }

  /** Minus {6, 10}: the scan runs out of instants while 10 is pending and
      drops (6, 8]; timestamp 7 of s is in no piece. */
  lemma DroppedLastPiece(ops: Ops)
    ensures ValidTimestamps([6, 10])
    ensures MinusTimestampSetAsWritten(Example(), [6, 10], ops)
            == [Sequence([Instant(5, 5), Instant(6, 5)], true, false, false)]
    ensures Example().Span().Contains(7) && 7 !in [6, 10]
  {
    var s := Example();
    var ts := [6, 10];
    assert Overlaps(s.Span(), TimestampBox(ts)) by {
      assert s.Span().Contains(6) && TimestampBox(ts).Contains(6);
    }
    var x := CutInstant(Instant(5, 5), Instant(8, 8), false, 6, ops);
    assert x == Instant(6, 5);
    assert [Instant(5, 5)] + [x] == [Instant(5, 5), x];
    calc {
      MinusTimestampSetAsWritten(s, ts, ops);
      ScanAsWritten(s, ts, 1, 0, [Instant(5, 5)], true, [], ops);
      ScanAsWritten(s, ts, 1, 1, [x], false, [Sequence([Instant(5, 5), x], true, false, false)], ops);
      ScanAsWritten(s, ts, 2, 1, [x, Instant(8, 8)], false, [Sequence([Instant(5, 5), x], true, false, false)], ops);
    }
  }

  /** Minus {1, 6}: timestamp 1, before s, clears the lower bound of the
      first piece; timestamp 5 of s is in no piece. */
  lemma LowerBoundCleared(ops: Ops)
    ensures ValidTimestamps([1, 6])
    ensures MinusTimestampSetAsWritten(Example(), [1, 6], ops)
            == [Sequence([Instant(5, 5), Instant(6, 5)], false, false, false),
                Sequence([Instant(6, 5), Instant(8, 8)], false, true, false)]
    ensures Example().Span().Contains(5) && 5 !in [1, 6]
  {
    var s := Example();
    var ts := [1, 6];
    assert Overlaps(s.Span(), TimestampBox(ts)) by {
      assert s.Span().Contains(6) && TimestampBox(ts).Contains(6);
    }
    var x := CutInstant(Instant(5, 5), Instant(8, 8), false, 6, ops);
    assert x == Instant(6, 5);
    assert [Instant(5, 5)] + [x] == [Instant(5, 5), x];
    calc {
      MinusTimestampSetAsWritten(s, ts, ops);
      ScanAsWritten(s, ts, 1, 0, [Instant(5, 5)], true, [], ops);
      ScanAsWritten(s, ts, 1, 1, [Instant(5, 5)], false, [], ops);
      ScanAsWritten(s, ts, 1, 2, [x], false, [Sequence([Instant(5, 5), x], false, false, false)], ops);
    }
    assert [x] + s.instants[1..] == [Instant(6, 5), Instant(8, 8)];
  }
}
