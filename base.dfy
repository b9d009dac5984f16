/** Instants, the primitive-value oracles and the error taxonomy shared by
    every part of the temporal sequence model. */
module TemporalBase {

  /** TimestampTz: microseconds since an epoch, an unbounded integer here. */
  type Time = int

  /** A base value of a generic comparable kind: equality and ordering only. */
  type Value = int

  /** TInstant: an immutable (timestamp, value) pair. */
  datatype Instant = Instant(t: Time, v: Value)

  datatype Option<T> = None | Some(value: T)

  /** The errors the sequence operations report instead of returning a value. */
  datatype Error =
    | NonMonotonicTime     // timestamps do not strictly increase
    | InvalidBounds        // an instantaneous sequence with an exclusive bound
    | InvalidEndValue      // step sequence, exclusive upper bound, last two values differ
    | MixedInterpolation   // merge inputs with different interpolation
    | OverlappingTime      // merge inputs overlap on time
    | ConflictingValues    // merge inputs disagree at a shared instant
    | DecodeError          // malformed binary input

  datatype Result<T> = Success(value: T) | Failure(error: Error)

  /** The primitive-value operations the sequence code calls but does not
      define.  They are decided in floating point (with a tolerance) or by
      hashing code elsewhere, so the model leaves them uninterpreted: every
      operation receives them as a parameter.
      - collinear(v1, v2, v3, t1, t2, t3): v2@t2 lies on the segment v1@t1 .. v3@t3
      - blend(i1, i2, t): the linearly interpolated value of segment i1 .. i2 at t
      - valueCrossing(i1, i2, v): a time at which the linear segment i1 .. i2 takes value v
      - segmentCrossing(s1, e1, lin1, s2, e2, lin2): a time at which two
        time-synchronized segments take the same value
      - hashFlags / hashInstant: hash_uint32 and tinstant_hash */
  datatype Ops = Ops(
    collinear: (Value, Value, Value, Time, Time, Time) -> bool,
    blend: (Instant, Instant, Time) -> Value,
    valueCrossing: (Instant, Instant, Value) -> Option<Time>,
    segmentCrossing: (Instant, Instant, bool, Instant, Instant, bool) -> Option<Time>,
    hashFlags: int -> int,
    hashInstant: Instant -> int
  )

  /** Timestamps strictly increase along the array. */
  predicate Increasing(s: seq<Instant>)
  {
    forall i, j | 0 <= i < j < |s| :: s[i].t < s[j].t
  }

  /** The timestamps of an instant array, in order. */
  function Times(s: seq<Instant>): (r: seq<Time>)
    ensures |r| == |s|
    ensures forall i | 0 <= i < |s| :: r[i] == s[i].t
  {
    if s == [] then [] else [s[0].t] + Times(s[1..])
  }

  /** `r` is `s` with some elements left out, the rest in their order. */
  predicate SubseqOf(r: seq<Instant>, s: seq<Instant>)
    decreases |s|
  {
    if r == [] then true
    else if s == [] then false
    else (r[0] == s[0] && SubseqOf(r[1..], s[1..])) || SubseqOf(r, s[1..])
  }

  lemma {:induction false} SubseqOfIncreasing(r: seq<Instant>, s: seq<Instant>)
    requires SubseqOf(r, s) && Increasing(s)
    ensures Increasing(r)
    ensures forall x | x in r :: x in s
    decreases |s|
  {
    if r == [] {
    } else if r[0] == s[0] && SubseqOf(r[1..], s[1..]) {
      SubseqOfIncreasing(r[1..], s[1..]);
      forall j | 0 < j < |r| ensures r[0].t < r[j].t {
        assert r[j] == r[1..][j - 1];
        assert r[j] in r[1..];
        var k :| 0 <= k < |s[1..]| && s[1..][k] == r[j];
        assert s[k + 1] == r[j];
      }
      forall i, j | 0 <= i < j < |r| ensures r[i].t < r[j].t {
        if i > 0 {
          assert r[i] == r[1..][i - 1] && r[j] == r[1..][j - 1];
        }
      }
      forall x | x in r ensures x in s {
        if x != r[0] {
          assert x in r[1..];
        }
      }
    } else {
      SubseqOfIncreasing(r, s[1..]);
    }
  }

  lemma {:induction false} SubseqOfRefl(s: seq<Instant>)
    ensures SubseqOf(s, s)
    decreases |s|
  {
    if s != [] {
      SubseqOfRefl(s[1..]);
    }
  }
}
