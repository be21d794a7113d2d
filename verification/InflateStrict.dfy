/** RFC 1951 with the ranges sections 3.2.5 and 3.2.7 give to length code 284 and to HLIT, against `InflateSpec`, which
    like the decoder takes all extra bits of the one and any value of the other. */
module InflateStrict {
  import opened Bits
  import opened BitStream
  import opened InflateSpec
  import opened InflateSteps
  import opened PrefixCode

  /** Section 3.2.7: there are 257 to 286 literal and length codes. */
  const MAX_LITERAL_CODES := 286

  /** Length code 284 with all extra bits set: section 3.2.5 gives the code the lengths 227 to 257 only. */
  predicate LongLength(lit: Lengths, data: seq<byte>, p: nat) {
    match Symbol(lit, data, p)
    case None => false
    case Some((z, q)) => z == 284 && Window(data, q, 5) == 31
  }

  function StrictToken(lit: Lengths, dist: Lengths, data: seq<byte>, p: nat): (r: Option<(Token, nat)>)
    ensures r.Some? ==> p < r.value.1
  {
    if LongLength(lit, data, p) then None else TokenAt(lit, dist, data, p)
  }

  /** The compressed data of one block. */
  function StrictData(lit: Lengths, dist: Lengths, data: seq<byte>, p: nat, out: seq<byte>, limit: nat): (r: Outcome)
    ensures r.Done? ==> p < r.pos <= limit && out <= r.out
    decreases if p <= limit then limit - p else 0
  {
    if p > limit then Short
    else match StrictToken(lit, dist, data, p)
      case None => Bad
      case Some((t, q)) =>
        if q > limit then Short
        else match t
          case EndOfBlock => Done(q, out)
          case Literal(b) => StrictData(lit, dist, data, q, out + [b], limit)
          case Copy(len, d) =>
            if d < 1 || d > |out| then Bad else StrictData(lit, dist, data, q, LzCopy(out, len, d), limit)
  }

  /** The codes of a block; a description of more literal and length codes than there are symbols is malformed. */
  function StrictCodes(data: seq<byte>, p: nat, kind: nat): (r: Option<Codes>)
    ensures r.Some? ==> p <= r.value.pos
  {
    if kind == 1 then Some(Codes(FixedLit(), FixedDist(), p))
    else if kind == 2 && Hlit(data, p) <= MAX_LITERAL_CODES then DynamicCodes(data, p)
    else None
  }

  function StrictBlock(data: seq<byte>, p: nat, out: seq<byte>, limit: nat): (r: Outcome)
    ensures r.Done? ==> p < r.pos <= limit && out <= r.out
  {
    var kind := Window(data, p + 1, 2);
    if p + 3 > limit then Short
    else if kind == 0 then Stored(data, p + 3, out, limit)
    else match StrictCodes(data, p + 3, kind)
      case None => Bad
      case Some(c) => StrictData(c.lit, c.dist, data, c.pos, out, limit)
  }

  /** Blocks up to and including the one marked final. */
  function StrictInflate(data: seq<byte>, p: nat, out: seq<byte>, limit: nat): (r: Outcome)
    ensures r.Done? ==> p < r.pos <= limit && out <= r.out
    decreases if p <= limit then limit - p else 0
  {
    match StrictBlock(data, p, out, limit)
    case Done(q, o) => if Bit(data, p) == 1 then Done(q, o) else StrictInflate(data, q, o, limit)
    case Short => Short
    case Bad => Bad
  }

  // ---------- where they part ----------

  /** Decoding the block reaches such a length. */
  predicate ReachesLong(lit: Lengths, dist: Lengths, data: seq<byte>, p: nat, out: seq<byte>, limit: nat)
    decreases if p <= limit then limit - p else 0
  {
    p <= limit &&
    (LongLength(lit, data, p) ||
     match TokenAt(lit, dist, data, p)
     case Some((Literal(b), q)) => q <= limit && ReachesLong(lit, dist, data, q, out + [b], limit)
     case Some((Copy(len, d), q)) =>
       1 <= d <= |out| && q <= limit && ReachesLong(lit, dist, data, q, LzCopy(out, len, d), limit)
     case _ => false)
  }

  /** The block at `p` is a dynamic one whose HLIT field is above 29. */
  predicate WideHeader(data: seq<byte>, p: nat) {
    Window(data, p + 1, 2) == 2 && Window(data, p + 3, 5) > 29
  }

  /** The block at `p` has such a header or reaches such a length. */
  predicate LooseBlock(data: seq<byte>, p: nat, out: seq<byte>, limit: nat) {
    WideHeader(data, p) || LongBlock(data, p, out, limit)
  }

  predicate LongBlock(data: seq<byte>, p: nat, out: seq<byte>, limit: nat) {
    var c := BlockCodes(data, p + 3, Window(data, p + 1, 2));
    Window(data, p + 1, 2) != 0 && c.Some? && ReachesLong(c.value.lit, c.value.dist, data, c.value.pos, out, limit)
  }

  /** Decoding reaches such a block. */
  predicate ReachesLoose(data: seq<byte>, p: nat, out: seq<byte>, limit: nat)
    decreases if p <= limit then limit - p else 0
  {
    p + 3 <= limit &&
    (LooseBlock(data, p, out, limit) ||
     match OneBlock(data, p, out, limit)
     case Done(q, o) => Bit(data, p) != 1 && ReachesLoose(data, q, o, limit)
     case _ => false)
  }

  lemma {:induction false} StrictDataIs(lit: Lengths, dist: Lengths, data: seq<byte>, p: nat, out: seq<byte>,
                                        limit: nat)
    ensures StrictData(lit, dist, data, p, out, limit) ==
            if ReachesLong(lit, dist, data, p, out, limit) then Bad else Block(lit, dist, data, p, out, limit)
    decreases if p <= limit then limit - p else 0
  {
    hide TokenAt, LongLength, LzCopy;
    if p <= limit && !LongLength(lit, data, p) {
      match TokenAt(lit, dist, data, p) {
        case Some((Literal(b), q)) =>
          if q <= limit { StrictDataIs(lit, dist, data, q, out + [b], limit); }
        case Some((Copy(len, d), q)) =>
          if q <= limit && 1 <= d <= |out| { StrictDataIs(lit, dist, data, q, LzCopy(out, len, d), limit); }
        case _ =>
      }
    }
  }

  lemma StrictBlockIs(data: seq<byte>, p: nat, out: seq<byte>, limit: nat)
    ensures StrictBlock(data, p, out, limit) ==
            if p + 3 <= limit && LooseBlock(data, p, out, limit) then Bad else OneBlock(data, p, out, limit)
  {
    hide Stored, Block, DynamicCodes, Window, StrictData, ReachesLong, FixedLit, FixedDist;
    KindBound(data, p);
    var c := BlockCodes(data, p + 3, Window(data, p + 1, 2));
    if c.Some? { StrictDataIs(c.value.lit, c.value.dist, data, c.value.pos, out, limit); }
  }

  /** The outcomes are those of `InflateSpec` until a wide header or a long length is reached, which is malformed. */
  lemma {:induction false} StrictIs(data: seq<byte>, p: nat, out: seq<byte>, limit: nat)
    ensures StrictInflate(data, p, out, limit) ==
            if ReachesLoose(data, p, out, limit) then Bad else Inflate(data, p, out, limit)
    decreases if p <= limit then limit - p else 0
  {
    hide StrictBlock, OneBlock, LooseBlock;
    StrictBlockIs(data, p, out, limit);
    ShortBlock(data, p, out, limit);
    match OneBlock(data, p, out, limit) {
      case Done(q, o) => if Bit(data, p) != 1 { StrictIs(data, q, o, limit); }
      case _ =>
    }
  }

  lemma ShortBlock(data: seq<byte>, p: nat, out: seq<byte>, limit: nat)
    ensures p + 3 > limit ==> OneBlock(data, p, out, limit) == Short
  {
  }

  /** The two decoders agree exactly when neither is reached, or the rest of the stream is malformed anyway. */
  lemma StrictIff(data: seq<byte>, p: nat, out: seq<byte>, limit: nat)
    ensures StrictInflate(data, p, out, limit) == Inflate(data, p, out, limit) <==>
            (ReachesLoose(data, p, out, limit) ==> Inflate(data, p, out, limit).Bad?)
    ensures StrictInflate(data, p, out, limit).Done? <==>
            Inflate(data, p, out, limit).Done? && !ReachesLoose(data, p, out, limit)
  {
    StrictIs(data, p, out, limit);
  }

  /** A stream that decodes to `out'` is one the ranges allow exactly when neither is reached. */
  ghost predicate Conforms(data: seq<byte>, p: nat, out: seq<byte>, q: nat, out': seq<byte>) {
    StrictInflate(data, p, out, q) == Done(q, out') <==> !ReachesLoose(data, p, out, q)
  }

  lemma EndsConforms(data: seq<byte>, p: nat, out: seq<byte>, q: nat, out': seq<byte>)
    requires StreamEnds(data, p, out, q, out')
    ensures Conforms(data, p, out, q, out')
  {
    hide StrictInflate, Inflate, ReachesLoose;
    assert Inflate(data, p, out, q) == Done(q, out');
    StrictIs(data, p, out, q);
  }
}
