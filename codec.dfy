/** The binary send/receive format of a temporal sequence (tsequence_write,
    tsequence_read) and the bound brackets of its text form
    (tsequence_to_string).  The byte stream is abstracted to a list of
    tokens: a 4-byte unsigned word, a single byte, or one encoded instant
    (the instant codec itself is not part of this model). */
module TSequenceCodec {
  import opened TemporalBase
  import opened TSequence

  datatype Token = Word(w: int) | Byte(b: int) | Inst(i: Instant)

  /** Sequences hold an int count: at most 2^31 - 1 instants. */
  const MaxCount := 0x8000_0000

  /** The C cast `(int) pq_getmsgint(buf, 4)`: words from 2^31 up read as
      negative counts. */
  function SignedCount(w: int): (c: int)
    requires 0 <= w < 0x1_0000_0000
    ensures -MaxCount <= c < MaxCount
    ensures c >= 0 <==> w < MaxCount
    ensures c == w || c == w - 0x1_0000_0000
  {
    if w < MaxCount then w else w - 0x1_0000_0000
  }

  function FlagByte(b: bool): (r: int)
    ensures (r != 0) == b
  {
    if b then 1 else 0
  }

  /** The tokens tsequence_write emits for the instants, in order. */
  function InstantTokens(a: seq<Instant>): (r: seq<Token>)
    ensures |r| == |a|
    ensures forall k | 0 <= k < |a| :: r[k] == Inst(a[k])
  {
    seq(|a|, k requires 0 <= k < |a| => Inst(a[k]))
  }

  /** What tsequence_write appends: the count, the two bound bytes, the
      interpolation byte, then every instant. */
  function Encode(s: Sequence): (r: seq<Token>)
    requires |s.instants| < MaxCount
    ensures |r| == 4 + |s.instants|
  {
    [Word(|s.instants|), Byte(FlagByte(s.lowerInc)), Byte(FlagByte(s.upperInc)), Byte(FlagByte(s.linear))]
      + InstantTokens(s.instants)
  }

  /** The header tokens are a word followed by three bytes. */
  predicate HeaderAt(toks: seq<Token>)
  {
    |toks| >= 4 && toks[0].Word? && 0 <= toks[0].w < 0x1_0000_0000
    && toks[1].Byte? && toks[2].Byte? && toks[3].Byte?
  }

  /** `n` instant tokens follow the header. */
  predicate InstantsAt(toks: seq<Token>, n: nat)
  {
    |toks| >= 4 + n && forall k | 4 <= k < 4 + n :: toks[k].Inst?
  }

  /** The instants carried by the `n` tokens after the header. */
  function TokenInstants(toks: seq<Token>, n: nat): (r: seq<Instant>)
    requires InstantsAt(toks, n)
    ensures |r| == n && forall k | 0 <= k < n :: r[k] == toks[4 + k].i
  {
    seq(n, k requires 0 <= k < n => toks[4 + k].i)
  }

  /** What tsequence_read makes of a token stream: the sequence rebuilt by
      tsequence_make with normalization, and the number of tokens consumed.
      A short or malformed stream, or a count that is not positive, is a
      decode error; a header and instants that make no valid sequence fail
      as tsequence_make does. */
  function Decode(toks: seq<Token>, ops: Ops): (r: Result<(Sequence, nat)>)
    ensures r.Success? ==> r.value.0.Valid() && 4 <= r.value.1 <= |toks|
    ensures r.Success? ==> HeaderAt(toks) && r.value.0.lowerInc == (toks[1].b != 0)
                           && r.value.0.upperInc == (toks[2].b != 0) && r.value.0.linear == (toks[3].b != 0)
  {
    if !HeaderAt(toks) then Failure(DecodeError)
    else
      var count := SignedCount(toks[0].w);
      if count <= 0 || !InstantsAt(toks, count) then Failure(DecodeError)
      else
        Consumed(Make(TokenInstants(toks, count), toks[1].b != 0, toks[2].b != 0, toks[3].b != 0, true, ops), 4 + count)
  }

  /** A make result paired with the number of tokens read. */
  function Consumed(m: Result<Sequence>, n: nat): Result<(Sequence, nat)>
  {
    match m
    case Failure(e) => Failure(e)
    case Success(s) => Success((s, n))
  }

  /** A sequence that tsequence_make with normalization leaves unchanged. */
  predicate Normalized(s: Sequence, ops: Ops)
  {
    |s.instants| == 1 || IsNormal(s.instants, s.linear, ops)
  }

  /** Reading back what was written gives the same normalized sequence and
      consumes exactly the written tokens, whatever follows them. */
  lemma DecodeEncode(s: Sequence, rest: seq<Token>, ops: Ops)
    requires s.Valid() && |s.instants| < MaxCount && Normalized(s, ops)
    ensures Decode(Encode(s) + rest, ops) == Success((s, 4 + |s.instants|))
  {
    DecodeEncodeMake(s, rest, ops);
    MakeNormalized(s, ops);
  }

  /** Reading back what was written is tsequence_make of the written
      instants and flags. */
  lemma DecodeEncodeMake(s: Sequence, rest: seq<Token>, ops: Ops)
    requires 0 < |s.instants| < MaxCount
    ensures Decode(Encode(s) + rest, ops) == Consumed(Make(s.instants, s.lowerInc, s.upperInc, s.linear, true, ops), 4 + |s.instants|)
  {
    var toks := Encode(s) + rest;
    DecodeWellFormed(toks, |s.instants|, s.instants, s.lowerInc, s.upperInc, s.linear, ops);
  }

  /** Decoding a well-formed stream is tsequence_make of what it carries. */
  lemma DecodeWellFormed(toks: seq<Token>, n: nat, instants: seq<Instant>, lowerInc: bool, upperInc: bool,
                         linear: bool, ops: Ops)
    requires HeaderAt(toks) && SignedCount(toks[0].w) == n && n > 0
    requires InstantsAt(toks, n) && TokenInstants(toks, n) == instants
    requires (toks[1].b != 0) == lowerInc && (toks[2].b != 0) == upperInc && (toks[3].b != 0) == linear
    ensures Decode(toks, ops) == Consumed(Make(instants, lowerInc, upperInc, linear, true, ops), 4 + n)
  {
  }

  /** tsequence_make with normalization rebuilds a valid normalized sequence
      unchanged. */
  lemma MakeNormalized(s: Sequence, ops: Ops)
    requires s.Valid() && Normalized(s, ops)
    ensures Make(s.instants, s.lowerInc, s.upperInc, s.linear, true, ops) == Success(s)
  {
    if |s.instants| > 1 {
      NormalizeIdempotent(s.instants, s.linear, ops);
    }
    var m := Make(s.instants, s.lowerInc, s.upperInc, s.linear, true, ops);
    assert m.value.Span() == s.Span();
  }

  /** A stream cut anywhere before its last written token does not decode. */
  lemma DecodeTruncated(s: Sequence, k: nat, ops: Ops)
    requires |s.instants| < MaxCount && k < 4 + |s.instants|
    ensures Decode(Encode(s)[..k], ops).Failure?
  {
    var toks := Encode(s)[..k];
    if HeaderAt(toks) {
      assert SignedCount(toks[0].w) == |s.instants|;
      assert !InstantsAt(toks, |s.instants|);
    }
  }

  /** A decoded sequence is normalized in step mode: reading is normalizing. */
  lemma DecodeStepNormal(toks: seq<Token>, ops: Ops)
    requires Decode(toks, ops).Success? && !Decode(toks, ops).value.0.linear
    ensures Normalized(Decode(toks, ops).value.0, ops)
  {
    var count := SignedCount(toks[0].w);
    if count > 1 {
      NormalizeStepIsNormal(TokenInstants(toks, count), ops);
    }
  }

  /** StringInfo: a message buffer written at its end and read at a cursor. */
  class Message {
    var data: seq<Token>
    var cursor: nat

    constructor ()
      ensures data == [] && cursor == 0
    {
      data := [];
      cursor := 0;
    }

    /** tsequence_write: append the header, then each instant in turn. */
    method Write(s: Sequence)
      requires |s.instants| < MaxCount
      modifies this
      ensures data == old(data) + Encode(s) && cursor == old(cursor)
    {
      var a := s.instants;
      data := data + [Word(|a|), Byte(FlagByte(s.lowerInc)), Byte(FlagByte(s.upperInc)), Byte(FlagByte(s.linear))];
      assert Encode(s)[..4] == [Word(|a|), Byte(FlagByte(s.lowerInc)), Byte(FlagByte(s.upperInc)), Byte(FlagByte(s.linear))];
      var i := 0;
      while i < |a|
        invariant 0 <= i <= |a|
        invariant data == old(data) + Encode(s)[..4 + i] && cursor == old(cursor)
      {
        assert Encode(s)[..4 + i + 1] == Encode(s)[..4 + i] + [Inst(a[i])];
        data := data + [Inst(a[i])];
        i := i + 1;
      }
      assert Encode(s)[..4 + |a|] == Encode(s);
    }

    /** tsequence_read: the header, `count` instants, then tsequence_make
        with normalization.  On success the cursor moves past what was
        read. */
    method Read(ops: Ops) returns (r: Result<Sequence>)
      requires cursor <= |data|
      modifies this
      ensures data == old(data)
      ensures var d := Decode(old(data)[old(cursor)..], ops);
              (d.Success? ==> r == Success(d.value.0) && cursor == old(cursor) + d.value.1)
              && (d.Failure? ==> r == Failure(d.error))
    {
      ghost var toks := data[cursor..];
      if cursor + 4 > |data| || !data[cursor].Word? || !(0 <= data[cursor].w < 0x1_0000_0000)
         || !data[cursor + 1].Byte? || !data[cursor + 2].Byte? || !data[cursor + 3].Byte? {
        return Failure(DecodeError);
      }
      assert HeaderAt(toks);
      var count := SignedCount(data[cursor].w);
      var lowerInc := data[cursor + 1].b != 0;
      var upperInc := data[cursor + 2].b != 0;
      var linear := data[cursor + 3].b != 0;
      if count <= 0 {
        return Failure(DecodeError);
      }
      var instants := ReadInstants(data[cursor..], count);
      if instants.None? {
        return Failure(DecodeError);
      }
      match Make(instants.value, lowerInc, upperInc, linear, true, ops)
      case Failure(e) =>
        return Failure(e);
      case Success(s) =>
        cursor := cursor + 4 + count;
        return Success(s);
    }
  }

  /** The instant loop of tsequence_read: `count` instants after the header,
      or nothing when the message runs short or holds something else. */
  method ReadInstants(toks: seq<Token>, count: nat) returns (r: Option<seq<Instant>>)
    requires |toks| >= 4
    ensures r.Some? <==> InstantsAt(toks, count)
    ensures r.Some? ==> r.value == TokenInstants(toks, count)
  {
    var instants: seq<Instant> := [];
    var i := 0;
    while i < count
      invariant 0 <= i <= count && InstantsAt(toks, i)
      invariant instants == TokenInstants(toks, i)
    {
      if 4 + i >= |toks| || !toks[4 + i].Inst? {
        return None;
      }
      assert TokenInstants(toks, i + 1) == instants + [toks[4 + i].i];
      instants := instants + [toks[4 + i].i];
      i := i + 1;
    }
    return Some(instants);
  }

  /** The bound characters of tsequence_to_string: `[` or `(` before the
      instants, `]` or `)` after, and the `Interp=Stepwise;` prefix for a
      step sequence of a continuous base type printed on its own. */
  function Decoration(s: Sequence, component: bool, continuous: bool): (r: (string, char, char))
    ensures r.1 in {'[', '('} && r.2 in {']', ')'}
    ensures r.0 == "Interp=Stepwise;" <==> !component && continuous && !s.linear
    ensures r.0 != "Interp=Stepwise;" ==> r.0 == ""
  {
    var prefix := if !component && continuous && !s.linear then "Interp=Stepwise;" else "";
    (prefix, if s.lowerInc then '[' else '(', if s.upperInc then ']' else ')')
  }

  /** Reading the brackets back: the bounds a pair of bracket characters
      denotes, if they are brackets at all. */
  function BoundsOf(open: char, close: char): Option<(bool, bool)>
  {
    if open in {'[', '('} && close in {']', ')'} then Some((open == '[', close == ']')) else None
  }

  /** The text form keeps the bounds and, for a continuous type, the
      interpolation: the brackets give back both bound flags, and the
      prefix is present exactly for a step sequence. */
  lemma DecorationRoundTrip(s: Sequence, continuous: bool)
    ensures var d := Decoration(s, false, continuous);
            BoundsOf(d.1, d.2) == Some((s.lowerInc, s.upperInc))
            && (continuous ==> (d.0 == "" <==> s.linear))
  {
  }
}
