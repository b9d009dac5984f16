/** Equality, total order and hash of sequences (tsequence_eq,
    tsequence_cmp, tsequence_hash), as index support needs them. */
module TSequenceRelOps {
  import opened TemporalBase
  import opened Periods
  import opened TSequence

  // ---------------------------------------------------------------------
  // Equality
  // ---------------------------------------------------------------------

  /** tsequence_eq: the same count, flags and period, then instant by
      instant.  The bounding boxes are functions of the instants, so their
      test only shortens the work. */
  method Eq(s1: Sequence, s2: Sequence) returns (r: bool)
    requires s1.Valid() && s2.Valid()
    ensures r <==> s1 == s2
  {
    if |s1.instants| != |s2.instants| || s1.linear != s2.linear || s1.Span() != s2.Span() {
      return false;
    }
    var i := 0;
    while i < |s1.instants|
      invariant 0 <= i <= |s1.instants|
      invariant forall k | 0 <= k < i :: s1.instants[k] == s2.instants[k]
    {
      if s1.instants[i] != s2.instants[i] {
        return false;
      }
      i := i + 1;
    }
    assert s1.instants == s2.instants;
    return true;
  }

  // ---------------------------------------------------------------------
  // Order
  // ---------------------------------------------------------------------

  /** The three-way comparison of two integers. */
  function IntCmp(x: int, y: int): (r: int)
    ensures r == 0 <==> x == y
    ensures r == -1 <==> x < y
    ensures r == 1 <==> x > y
  {
    if x < y then -1 else if x > y then 1 else 0
  }

  /** The lowest instant value. */
  function Lowest(a: seq<Instant>): (m: Value)
    requires |a| >= 1
    ensures forall k | 0 <= k < |a| :: m <= a[k].v
    ensures exists k | 0 <= k < |a| :: m == a[k].v
  {
    if |a| == 1 then a[0].v
    else
      var m := Lowest(a[1..]);
      assert forall k | 1 <= k < |a| :: a[k] == a[1..][k - 1];
      if a[0].v <= m then a[0].v else m
  }

  /** The highest instant value. */
  function Highest(a: seq<Instant>): (m: Value)
    requires |a| >= 1
    ensures forall k | 0 <= k < |a| :: a[k].v <= m
    ensures exists k | 0 <= k < |a| :: m == a[k].v
  {
    if |a| == 1 then a[0].v
    else
      var m := Highest(a[1..]);
      assert forall k | 1 <= k < |a| :: a[k] == a[1..][k - 1];
      if a[0].v >= m then a[0].v else m
  }

  /** temporal_bbox_cmp on the value extent of the bounding box (the box
      code is not part of this model; its time extent is the period,
      already compared): lowest value first, then highest. */
  function BoxCmp(a: seq<Instant>, b: seq<Instant>): (r: int)
    requires |a| >= 1 && |b| >= 1
    ensures -1 <= r <= 1
  {
    if Lowest(a) != Lowest(b) then IntCmp(Lowest(a), Lowest(b))
    else IntCmp(Highest(a), Highest(b))
  }

  /** tinstant_cmp: by timestamp, then by value. */
  function InstantCmp(x: Instant, y: Instant): (r: int)
    ensures r == 0 <==> x == y
    ensures -1 <= r <= 1
  {
    if x.t != y.t then IntCmp(x.t, y.t) else IntCmp(x.v, y.v)
  }

  /** The comparison of the common prefix of two instant arrays: the first
      difference decides. */
  function InstantsCmp(a: seq<Instant>, b: seq<Instant>): (r: int)
    ensures -1 <= r <= 1
  {
    if |a| == 0 || |b| == 0 then 0
    else if InstantCmp(a[0], b[0]) != 0 then InstantCmp(a[0], b[0])
    else InstantsCmp(a[1..], b[1..])
  }

  /** The order tsequence_cmp computes: period, bounding box, the instants
      of the common prefix, then the flags (step before linear). */
  function SeqCmp(s1: Sequence, s2: Sequence): int
    requires s1.Valid() && s2.Valid()
  {
    if PeriodCmp(s1.Span(), s2.Span()) != 0 then PeriodCmp(s1.Span(), s2.Span())
    else if BoxCmp(s1.instants, s2.instants) != 0 then BoxCmp(s1.instants, s2.instants)
    else if InstantsCmp(s1.instants, s2.instants) != 0 then InstantsCmp(s1.instants, s2.instants)
    else if s1.linear == s2.linear then 0
    else if s2.linear then -1
    else 1
  }

  /** The instant loop of tsequence_cmp: the first pair that differs over
      the shorter count decides. */
  method CmpInstants(a1: seq<Instant>, a2: seq<Instant>) returns (r: int)
    ensures r == InstantsCmp(a1, a2)
  {
    var count := Min(|a1|, |a2|);
    var i := 0;
    while i < count
      invariant 0 <= i <= count
      invariant InstantsCmp(a1, a2) == InstantsCmp(a1[i..], a2[i..])
    {
      r := InstantCmp(a1[i], a2[i]);
      assert a1[i..][0] == a1[i] && a2[i..][0] == a2[i];
      if r != 0 {
        return;
      }
      assert a1[i..][1..] == a1[i + 1..] && a2[i..][1..] == a2[i + 1..];
      i := i + 1;
    }
    return 0;
  }

  /** tsequence_cmp: the periods, the boxes, then the instants pairwise up to
      the shorter count, then the flags. */
  method Cmp(s1: Sequence, s2: Sequence) returns (r: int)
    requires s1.Valid() && s2.Valid()
    ensures r == SeqCmp(s1, s2)
  {
    r := PeriodCmp(s1.Span(), s2.Span());
    if r != 0 {
      return;
    }
    r := BoxCmp(s1.instants, s2.instants);
    if r != 0 {
      return;
    }
    r := CmpInstants(s1.instants, s2.instants);
    if r != 0 {
      return;
    }
    if !s1.linear && s2.linear {
      return -1;
    }
    if s1.linear && !s2.linear {
      return 1;
    }
    return 0;
  }

  /** Equal common prefixes compare equal, and only they do. */
  lemma {:induction false} InstantsCmpZero(a: seq<Instant>, b: seq<Instant>)
    ensures InstantsCmp(a, b) == 0 <==> forall k | 0 <= k < |a| && k < |b| :: a[k] == b[k]
    decreases |a|
  {
    if |a| > 0 && |b| > 0 && InstantCmp(a[0], b[0]) == 0 {
      InstantsCmpZero(a[1..], b[1..]);
      forall k | 1 <= k < |a| && k < |b| ensures a[k] == b[k] <==> a[1..][k - 1] == b[1..][k - 1] {
      }
    }
  }

  /** Swapping the arguments negates the instant comparison. */
  lemma {:induction false} InstantsCmpAntisymmetric(a: seq<Instant>, b: seq<Instant>)
    ensures InstantsCmp(a, b) == -InstantsCmp(b, a)
    decreases |a|
  {
    if |a| > 0 && |b| > 0 && InstantCmp(a[0], b[0]) == 0 {
      InstantsCmpAntisymmetric(a[1..], b[1..]);
    }
  }

  /** Two valid sequences with the same period and the same instants over
      their common prefix have the same count: the last instant of the
      shorter would sit at the common upper bound before a later instant of
      the longer. */
  lemma SamePrefixSameCount(s1: Sequence, s2: Sequence)
    requires s1.Valid() && s2.Valid() && s1.Span() == s2.Span()
    requires forall k | 0 <= k < |s1.instants| && k < |s2.instants| :: s1.instants[k] == s2.instants[k]
    ensures |s1.instants| == |s2.instants|
  {
    var a1, a2 := s1.instants, s2.instants;
    var m := Min(|a1|, |a2|);
    assert a1[m - 1] == a2[m - 1];
  }

  /** The order is consistent with equality: two valid sequences compare
      equal exactly when they are the same sequence. */
  lemma SeqCmpZero(s1: Sequence, s2: Sequence)
    requires s1.Valid() && s2.Valid()
    ensures SeqCmp(s1, s2) == 0 <==> s1 == s2
  {
    InstantsCmpZero(s1.instants, s2.instants);
    if PeriodCmp(s1.Span(), s2.Span()) == 0 {
      InstantsTieEqual(s1, s2);
    }
  }

  /** Swapping the arguments negates the order. */
  lemma SeqCmpAntisymmetric(s1: Sequence, s2: Sequence)
    requires s1.Valid() && s2.Valid()
    ensures SeqCmp(s1, s2) == -SeqCmp(s2, s1)
  {
    InstantsCmpAntisymmetric(s1.instants, s2.instants);
  }

  /** The prefix order is transitive: the earlier of the two first
      differences decides. */
  lemma {:induction false} InstantsCmpTransitive(a: seq<Instant>, b: seq<Instant>, c: seq<Instant>)
    requires InstantsCmp(a, b) == -1 && InstantsCmp(b, c) == -1
    ensures InstantsCmp(a, c) == -1
    decreases |a|
  {
    if InstantCmp(a[0], b[0]) == 0 && InstantCmp(b[0], c[0]) == 0 {
      InstantsCmpTransitive(a[1..], b[1..], c[1..]);
    }
  }

  /** Two valid sequences over the same period whose instants compare
      equal have the same instants. */
  lemma InstantsTieEqual(s1: Sequence, s2: Sequence)
    requires s1.Valid() && s2.Valid() && s1.Span() == s2.Span()
    ensures InstantsCmp(s1.instants, s2.instants) == 0 ==> s1.instants == s2.instants
  {
    if InstantsCmp(s1.instants, s2.instants) == 0 {
      InstantsCmpZero(s1.instants, s2.instants);
      SamePrefixSameCount(s1, s2);
    }
  }

  /** The last two levels of the order: the instants, then the
      interpolation (step before linear). */
  function TailCmp(a: seq<Instant>, b: seq<Instant>, linear1: bool, linear2: bool): int
  {
    if InstantsCmp(a, b) != 0 then InstantsCmp(a, b)
    else if linear1 == linear2 then 0
    else if linear2 then -1
    else 1
  }

  /** The last two levels are transitive once a tie on the instants means
      equal instants. */
  lemma TailCmpTransitive(a: seq<Instant>, b: seq<Instant>, c: seq<Instant>, la: bool, lb: bool, lc: bool)
    requires InstantsCmp(a, b) == 0 ==> a == b
    requires InstantsCmp(b, c) == 0 ==> b == c
    requires TailCmp(a, b, la, lb) == -1 && TailCmp(b, c, lb, lc) == -1
    ensures TailCmp(a, c, la, lc) == -1
  {
    if InstantsCmp(a, b) != 0 && InstantsCmp(b, c) != 0 {
      InstantsCmpTransitive(a, b, c);
    }
  }

  /** Transitivity when the periods and the boxes tie: the instants (and
      then the flags) decide. */
  lemma InstantsLevelTransitive(x: Sequence, y: Sequence, z: Sequence)
    requires x.Valid() && y.Valid() && z.Valid()
    requires x.Span() == y.Span() == z.Span()
    requires BoxCmp(x.instants, y.instants) == 0 && BoxCmp(y.instants, z.instants) == 0
    requires SeqCmp(x, y) == -1 && SeqCmp(y, z) == -1
    ensures SeqCmp(x, z) == -1
  {
    assert BoxCmp(x.instants, z.instants) == 0;
    InstantsTieEqual(x, y);
    InstantsTieEqual(y, z);
    assert SeqCmp(x, y) == TailCmp(x.instants, y.instants, x.linear, y.linear);
    assert SeqCmp(y, z) == TailCmp(y.instants, z.instants, y.linear, z.linear);
    TailCmpTransitive(x.instants, y.instants, z.instants, x.linear, y.linear, z.linear);
  }

  /** The order is transitive. */
  lemma SeqCmpTransitive(x: Sequence, y: Sequence, z: Sequence)
    requires x.Valid() && y.Valid() && z.Valid()
    requires SeqCmp(x, y) == -1 && SeqCmp(y, z) == -1
    ensures SeqCmp(x, z) == -1
  {
    if x.Span() == y.Span() == z.Span() && BoxCmp(x.instants, y.instants) == 0 && BoxCmp(y.instants, z.instants) == 0 {
      InstantsLevelTransitive(x, y, z);
    }
  }

  // ---------------------------------------------------------------------
  // Hash
  // ---------------------------------------------------------------------

  const Modulus: int := 0x1_0000_0000

  /** The flags byte tsequence_hash seeds the hash with: bit 0 for an
      inclusive lower bound, bit 1 for an inclusive upper bound. */
  function BoundFlags(s: Sequence): (f: int)
    ensures 0 <= f < 4
    ensures (f % 2 == 1) == s.lowerInc && (f / 2 == 1) == s.upperInc
  {
    (if s.lowerInc then 1 else 0) + (if s.upperInc then 2 else 0)
  }

  /** tinstant_hash of an instant, as a 32-bit unsigned value. */
  function InstantHash(x: Instant, ops: Ops): (h: int)
    ensures 0 <= h < Modulus
  {
    ops.hashInstant(x) % Modulus
  }

  /** The hash loop on unsigned 32-bit arithmetic: acc * 31 + h, wrapping. */
  function HashFold(acc: int, a: seq<Instant>, ops: Ops): (r: int)
    requires 0 <= acc < Modulus
    ensures 0 <= r < Modulus
    decreases |a|
  {
    if a == [] then acc
    else HashFold((acc * 31 + InstantHash(a[0], ops)) % Modulus, a[1..], ops)
  }

  /** The hash of a sequence: the flag byte's hash_uint32, then the hash of
      every instant in order. */
  function HashOf(s: Sequence, ops: Ops): (h: int)
    ensures 0 <= h < Modulus
  {
    HashFold(ops.hashFlags(BoundFlags(s)) % Modulus, s.instants, ops)
  }

  /** Unsigned 32-bit wrap-around. */
  function Wrap(x: int): (r: int)
    ensures 0 <= r < Modulus
  {
    x % Modulus
  }

  /** One step of the loop as the source writes it, (result << 5) - result
      + inst_hash on unsigned 32 bits, is result * 31 + inst_hash modulo
      2^32. */
  lemma ShiftStep(r: int, h: int)
    requires 0 <= r < Modulus && 0 <= h < Modulus
    ensures Wrap(Wrap(Wrap(r * 32) - r) + h) == Wrap(r * 31 + h)
  {
    var x := Wrap(r * 32);
    var q1 := r * 32 / Modulus;
    assert r * 32 == x + q1 * Modulus;
    WrapCongruent(x - r, r * 31, -q1);
    var y := Wrap(r * 31);
    var q2 := r * 31 / Modulus;
    assert r * 31 == y + q2 * Modulus;
    WrapCongruent(y + h, r * 31 + h, -q2);
  }

  /** Numbers that differ by a multiple of 2^32 wrap to the same value. */
  lemma WrapCongruent(a: int, b: int, k: int)
    requires a == b + k * Modulus
    ensures Wrap(a) == Wrap(b)
  {
    var d := a / Modulus - b / Modulus - k;
    assert a == a / Modulus * Modulus + Wrap(a);
    assert b == b / Modulus * Modulus + Wrap(b);
    assert d * Modulus == Wrap(b) - Wrap(a);
  }

  /** tsequence_hash. */
  method Hash(s: Sequence, ops: Ops) returns (r: int)
    ensures r == HashOf(s, ops)
  {
    r := Wrap(ops.hashFlags(BoundFlags(s)));
    var i := 0;
    while i < |s.instants|
      invariant 0 <= i <= |s.instants| && 0 <= r < Modulus
      invariant HashFold(r, s.instants[i..], ops) == HashOf(s, ops)
    {
      var h := InstantHash(s.instants[i], ops);
      ShiftStep(r, h);
      assert s.instants[i..][1..] == s.instants[i + 1..];
      r := Wrap(Wrap(Wrap(r * 32) - r) + h);
      i := i + 1;
    }
  }

  function Pow31(n: nat): (p: int)
    ensures p >= 1
  {
    if n == 0 then 1 else 31 * Pow31(n - 1)
  }

  /** The polynomial of the instant hashes: each weighted by 31 to the number
      of instants after it. */
  function HashPoly(a: seq<Instant>, ops: Ops): int
  {
    if a == [] then 0 else InstantHash(a[0], ops) * Pow31(|a| - 1) + HashPoly(a[1..], ops)
  }

  /** Reducing before multiplying and adding does not change the residue. */
  lemma ModMulAdd(x: int, y: int, z: int)
    requires x >= 0
    ensures ((x % Modulus) * y + z) % Modulus == (x * y + z) % Modulus
  {
    var q := x / Modulus;
    assert x == q * Modulus + x % Modulus;
    assert x * y + z == (x % Modulus) * y + z + (q * y) * Modulus;
  }

  /** One factor of 31 moves from the step into the power. */
  lemma MulShift(acc: int, h: int, p: int)
    ensures (acc * 31 + h) * p == acc * (31 * p) + h * p
  {
  }

  /** The loop computes the polynomial hash: the seed times 31 to the count,
      plus every instant hash times 31 to the number of instants after it,
      modulo 2^32. */
  lemma {:induction false} HashFoldPoly(acc: int, a: seq<Instant>, ops: Ops)
    requires 0 <= acc < Modulus
    ensures HashFold(acc, a, ops) == (acc * Pow31(|a|) + HashPoly(a, ops)) % Modulus
    decreases |a|
  {
    if a != [] {
      var h := InstantHash(a[0], ops);
      var n := |a| - 1;
      var acc' := (acc * 31 + h) % Modulus;
      HashFoldPoly(acc', a[1..], ops);
      ModMulAdd(acc * 31 + h, Pow31(n), HashPoly(a[1..], ops));
      MulShift(acc, h, Pow31(n));
    }
  }
}
