/** Writing whole DEFLATE streams of stored, fixed and dynamic blocks, and the proof that they decode to what was
    compressed. */
module InflateStreams {
  import opened Bits
  import opened BitStream
  import opened BitPack
  import opened PrefixCode
  import opened InflateSpec
  import opened InflateSteps
  import opened InflateStrict
  import opened InflateRoundTrip
  import opened InflateDescribe

  // ---------- stored blocks ----------

  function ByteCodes(bytes: seq<byte>): seq<Coded> {
    if bytes == [] then [] else [Coded(bytes[0], 8)] + ByteCodes(bytes[1..])
  }

  /** Bits skipped to reach a byte boundary. */
  function Padding(p: nat): nat {
    8 * ((p + 7) / 8) - p
  }

  function StoredHeader(n: nat, p: nat): seq<Coded>
    requires n <= 65535
  {
    [Coded(0, Padding(p)), Coded(n, 16), Coded(65535 - n, 16)]
  }

  /** Padding, the length and its complement, and the bytes. */
  function EncodeStored(bytes: seq<byte>, p: nat): seq<Coded>
    requires |bytes| <= 65535
  {
    StoredHeader(|bytes|, p) + ByteCodes(bytes)
  }

  lemma {:induction false} BytesRead(data: seq<byte>, k: nat, bytes: seq<byte>)
    requires CodesAt(data, 8 * k, ByteCodes(bytes))
    ensures TotalBits(ByteCodes(bytes)) == 8 * |bytes| && Bytes(data, k, |bytes|) == bytes
    decreases |bytes|
  {
    if bytes != [] {
      var head, tail := [Coded(bytes[0], 8)], ByteCodes(bytes[1..]);
      CodesSplit(data, 8 * k, head, tail);
      TotalSum(head, tail);
      OneCode(data, 8 * k, Coded(bytes[0], 8));
      WindowByte(data, k);
      BytesRead(data, k + 1, bytes[1..]);
      assert Bytes(data, k, |bytes|) == [ByteAt(data, k)] + Bytes(data, k + 1, |bytes| - 1);
    }
  }

  lemma WordWindow(data: seq<byte>, k: nat)
    ensures Word(data, k) == Window(data, 8 * k, 16)
  {
    hide Window;
    WindowJoin(data, 8 * k, 8, 8);
    WindowByte(data, k);
    WindowByte(data, k + 1);
    Pow2Values();
    ShlIsProduct(ByteAt(data, k + 1), 8);
  }

  lemma ThreeCodes(data: seq<byte>, p: nat, a: Coded, b: Coded, c: Coded)
    requires CodesAt(data, p, [a, b, c])
    ensures Window(data, p, a.width) == a.code && Window(data, p + a.width, b.width) == b.code
    ensures Window(data, p + a.width + b.width, c.width) == c.code
    ensures TotalBits([a, b, c]) == a.width + b.width + c.width
  {
    assert [a, b, c][1..] == [b, c] && [b, c][1..] == [c];
    assert CodesAt(data, p + a.width, [b, c]);
    assert CodesAt(data, p + a.width + b.width, [c]);
    assert TotalBits([c]) == c.width && TotalBits([b, c]) == b.width + c.width;
  }

  /** A stored block is read back as its bytes. */
  lemma StoredRoundTrip(bytes: seq<byte>, data: seq<byte>, p: nat, out: seq<byte>, limit: nat)
    requires |bytes| <= 65535 && CodesAt(data, p, EncodeStored(bytes, p))
    requires p + TotalBits(EncodeStored(bytes, p)) <= limit
    ensures Stored(data, p, out, limit) == Done(p + TotalBits(EncodeStored(bytes, p)), out + bytes)
  {
    hide CodesAt, TotalBits, ByteCodes, Word;
    var n, k := |bytes|, (p + 7) / 8;
    CodesSplit(data, p, StoredHeader(n, p), ByteCodes(bytes));
    TotalSum(StoredHeader(n, p), ByteCodes(bytes));
    ThreeCodes(data, p, Coded(0, Padding(p)), Coded(n, 16), Coded(65535 - n, 16));
    WordWindow(data, k);
    WordWindow(data, k + 2);
    BytesRead(data, k + 4, bytes);
  }

  // ---------- blocks ----------

  datatype Plan = StoredPlan(bytes: seq<byte>) | FixedPlan(tokens: seq<Token>) |
    DynamicPlan(h: Header, tokens: seq<Token>)

  /** A block that may follow `n` bytes of output. */
  ghost predicate PlanFits(b: Plan, n: nat) {
    match b
    case StoredPlan(bytes) => |bytes| <= 65535
    case FixedPlan(tokens) => TokensFit(tokens, n)
    case DynamicPlan(h, tokens) => Describes(h) && AllCoded(h.lit, h.dist, tokens) && TokensFit(tokens, n)
  }

  /** The output after the block. */
  ghost function Extended(b: Plan, out: seq<byte>): seq<byte>
    requires PlanFits(b, |out|)
  {
    match b
    case StoredPlan(bytes) => out + bytes
    case FixedPlan(tokens) => Expand(tokens, out)
    case DynamicPlan(_, tokens) => Expand(tokens, out)
  }

  function Kind(b: Plan): nat {
    match b
    case StoredPlan(_) => 0
    case FixedPlan(_) => 1
    case DynamicPlan(_, _) => 2
  }

  /** What follows the three bits of a block header at `p`. */
  ghost function Body(b: Plan, n: nat, p: nat): seq<Coded>
    requires PlanFits(b, n)
  {
    match b
    case StoredPlan(bytes) => EncodeStored(bytes, p)
    case FixedPlan(tokens) => FixedCoded(tokens, n); EncodeTokens(FixedLit(), FixedDist(), tokens)
    case DynamicPlan(h, tokens) => EncodeDescription(h) + EncodeTokens(h.lit, h.dist, tokens)
  }

  function BlockHead(final: bool, kind: nat): seq<Coded> {
    [Coded(if final then 1 else 0, 1), Coded(kind, 2)]
  }

  ghost function EncodePlan(b: Plan, n: nat, p: nat, final: bool): seq<Coded>
    requires PlanFits(b, n)
  {
    BlockHead(final, Kind(b)) + Body(b, n, p + 3)
  }

  lemma HeadRead(data: seq<byte>, p: nat, final: bool, kind: nat)
    requires CodesAt(data, p, BlockHead(final, kind))
    ensures Bit(data, p) == (if final then 1 else 0) && Window(data, p + 1, 2) == kind
    ensures TotalBits(BlockHead(final, kind)) == 3
  {
    TwoCodes(data, p, Coded(if final then 1 else 0, 1), Coded(kind, 2));
    OneBit(data, p);
  }

  /** The dynamic header describes more literal and length codes than there are symbols. */
  predicate Wide(b: Plan) {
    b.DynamicPlan? && |b.h.lit| > MAX_LITERAL_CODES
  }

  /** What follows the header is read back by the decoder of its kind. */
  lemma BodyRoundTrip(b: Plan, data: seq<byte>, p: nat, out: seq<byte>, limit: nat)
    requires PlanFits(b, |out|) && CodesAt(data, p + 3, Body(b, |out|, p + 3))
    requires Window(data, p + 1, 2) == Kind(b) && p + 3 + TotalBits(Body(b, |out|, p + 3)) <= limit
    ensures OneBlock(data, p, out, limit) == Done(p + 3 + TotalBits(Body(b, |out|, p + 3)), Extended(b, out))
    ensures b.DynamicPlan? ==> Window(data, p + 3, 5) == |b.h.lit| - 257
    ensures !LongBlock(data, p, out, limit)
  {
    hide CodesAt, TotalBits, Body, Stored, ReachesLong, Block, DynamicCodes, Window, Expand, Describes, TokensFit,
         AllCoded;
    BodyParts(b, |out|, p + 3);
    match b {
      case StoredPlan(bytes) =>
        StoredRoundTrip(bytes, data, p + 3, out, limit);
      case FixedPlan(tokens) =>
        FixedLitKraft();
        FixedDistKraft();
        BlockRoundTrip(FixedLit(), FixedDist(), tokens, data, p + 3, out, limit);
      case DynamicPlan(h, tokens) =>
        DynamicRoundTrip(h, tokens, data, p + 3, out, limit);
    }
  }

  /** One block is read back, and is of the kind written. */
  lemma PlanRoundTrip(b: Plan, data: seq<byte>, p: nat, out: seq<byte>, final: bool, limit: nat)
    requires PlanFits(b, |out|) && CodesAt(data, p, EncodePlan(b, |out|, p, final))
    requires p + TotalBits(EncodePlan(b, |out|, p, final)) <= limit
    ensures OneBlock(data, p, out, limit) == Done(p + TotalBits(EncodePlan(b, |out|, p, final)), Extended(b, out))
    ensures Bit(data, p) == (if final then 1 else 0) && p + 3 <= limit
    ensures LooseBlock(data, p, out, limit) <==> Wide(b)
  {
    hide CodesAt, TotalBits, Body, OneBlock, Window, Bit, Extended, BlockHead, PlanFits, LongBlock;
    CodesSplit(data, p, BlockHead(final, Kind(b)), Body(b, |out|, p + 3));
    TotalSum(BlockHead(final, Kind(b)), Body(b, |out|, p + 3));
    HeadRead(data, p, final, Kind(b));
    BodyRoundTrip(b, data, p, out, limit);
  }

  lemma BodyParts(b: Plan, n: nat, p: nat)
    requires PlanFits(b, n)
    ensures b.StoredPlan? ==> Body(b, n, p) == EncodeStored(b.bytes, p)
    ensures b.FixedPlan? ==> AllCoded(FixedLit(), FixedDist(), b.tokens) &&
                             Body(b, n, p) == EncodeTokens(FixedLit(), FixedDist(), b.tokens)
    ensures b.DynamicPlan? ==> Body(b, n, p) == EncodeDescription(b.h) + EncodeTokens(b.h.lit, b.h.dist, b.tokens)
  {
    hide EncodeStored, EncodeTokens, EncodeDescription;
    if b.FixedPlan? { FixedCoded(b.tokens, n); }
  }

  /** A dynamic block is read back with the codes it describes. */
  lemma DynamicRoundTrip(h: Header, tokens: seq<Token>, data: seq<byte>, p: nat, out: seq<byte>, limit: nat)
    requires PlanFits(DynamicPlan(h, tokens), |out|) && CodesAt(data, p, Body(DynamicPlan(h, tokens), |out|, p))
    requires p + TotalBits(Body(DynamicPlan(h, tokens), |out|, p)) <= limit
    ensures var c := DynamicCodes(data, p);
            c.Some? && Block(c.value.lit, c.value.dist, data, c.value.pos, out, limit) ==
                       Done(p + TotalBits(Body(DynamicPlan(h, tokens), |out|, p)), Expand(tokens, out)) &&
            !ReachesLong(c.value.lit, c.value.dist, data, c.value.pos, out, limit)
    ensures Window(data, p, 5) == |h.lit| - 257
  {
    hide CodesAt, TotalBits, Block, DynamicCodes, Expand, Kraft, EncodeTokens, EncodeDescription, AllCoded, TokensFit;
    hide Window, ReachesLong;
    CodesSplit(data, p, EncodeDescription(h), EncodeTokens(h.lit, h.dist, tokens));
    TotalSum(EncodeDescription(h), EncodeTokens(h.lit, h.dist, tokens));
    DescriptionRoundTrip(h, data, p);
    DescriptionSizes(h, data, p);
    BlockRoundTrip(h.lit, h.dist, tokens, data, p + TotalBits(EncodeDescription(h)), out, limit);
  }

  lemma DescriptionSizes(h: Header, data: seq<byte>, p: nat)
    requires Describes(h) && CodesAt(data, p, EncodeDescription(h))
    ensures Window(data, p, 5) == |h.lit| - 257
  {
    hide CodesAt, Kraft, RunsFit, ApplyRuns, EncodeRuns, LengthCodes, Sizes, Sent;
    CodesSplit(data, p, Sizes(h), LengthCodes(h.cl, h.hclen) + EncodeRuns(h.cl, h.runs, 0));
    SizesRead(data, p, h);
  }

  // ---------- streams ----------

  /** At least one block, each of which may follow the output of those before it. */
  ghost predicate PlansFit(plans: seq<Plan>, out: seq<byte>)
    decreases |plans|
  {
    plans != [] && PlanFits(plans[0], |out|) && (|plans| > 1 ==> PlansFit(plans[1..], Extended(plans[0], out)))
  }

  ghost function Output(plans: seq<Plan>, out: seq<byte>): seq<byte>
    requires PlansFit(plans, out)
    decreases |plans|
  {
    var o := Extended(plans[0], out);
    if |plans| == 1 then o else Output(plans[1..], o)
  }

  /** The last block is marked final. */
  ghost function EncodeStream(plans: seq<Plan>, out: seq<byte>, p: nat): seq<Coded>
    requires PlansFit(plans, out)
    decreases |plans|
  {
    var head := EncodePlan(plans[0], |out|, p, |plans| == 1);
    if |plans| == 1 then head else head + EncodeStream(plans[1..], Extended(plans[0], out), p + TotalBits(head))
  }

  predicate SomeWide(plans: seq<Plan>)
    decreases |plans|
  {
    plans != [] && (Wide(plans[0]) || SomeWide(plans[1..]))
  }

  /** Any stream of blocks inflates to what they stand for, wherever it lies; decoding meets a wide header exactly
      when one was written. */
  lemma {:induction false} StreamRoundTrip(plans: seq<Plan>, data: seq<byte>, p: nat, out: seq<byte>, limit: nat)
    requires PlansFit(plans, out) && CodesAt(data, p, EncodeStream(plans, out, p))
    requires p + TotalBits(EncodeStream(plans, out, p)) <= limit
    ensures Inflate(data, p, out, limit) == Done(p + TotalBits(EncodeStream(plans, out, p)), Output(plans, out))
    ensures ReachesLoose(data, p, out, limit) <==> SomeWide(plans)
    decreases |plans|
  {
    hide CodesAt, TotalBits, EncodePlan, PlanFits, Extended, OneBlock, LooseBlock, Wide, Bit;
    var b, last := plans[0], |plans| == 1;
    var head := EncodePlan(b, |out|, p, last);
    var q, o := p + TotalBits(head), Extended(b, out);
    if last {
      PlanRoundTrip(b, data, p, out, last, limit);
      assert !SomeWide(plans[1..]);
    } else {
      var tail := EncodeStream(plans[1..], o, q);
      CodesSplit(data, p, head, tail);
      TotalSum(head, tail);
      PlanRoundTrip(b, data, p, out, last, limit);
      StreamRoundTrip(plans[1..], data, q, o, limit);
    }
  }

  // ---------- the bytes of a stream ----------

  lemma {:induction false} BytesPack(bytes: seq<byte>)
    ensures AllFit(ByteCodes(bytes))
  {
    if bytes != [] {
      Pow2Values();
      BytesPack(bytes[1..]);
      JoinFit([Coded(bytes[0], 8)], ByteCodes(bytes[1..]));
    }
  }

  lemma PlanPack(b: Plan, n: nat, p: nat, final: bool)
    requires PlanFits(b, n)
    ensures AllFit(EncodePlan(b, n, p, final))
  {
    hide AllFit, EncodeTokens, EncodeDescription, Describes, TokensFit, AllCoded, Kraft, FixedLit, FixedDist;
    HeadPack(final, Kind(b));
    match b {
      case StoredPlan(bytes) =>
        StoredPack(|bytes|, p + 3);
        BytesPack(bytes);
        JoinFit(StoredHeader(|bytes|, p + 3), ByteCodes(bytes));
      case FixedPlan(tokens) =>
        FixedCoded(tokens, n);
        FixedLitKraft();
        FixedDistKraft();
        TokensPack(FixedLit(), FixedDist(), tokens, n);
      case DynamicPlan(h, tokens) =>
        DescribesKraft(h);
        DescriptionPack(h);
        TokensPack(h.lit, h.dist, tokens, n);
        JoinFit(EncodeDescription(h), EncodeTokens(h.lit, h.dist, tokens));
    }
    JoinFit(BlockHead(final, Kind(b)), Body(b, n, p + 3));
  }

  lemma DescribesKraft(h: Header)
    requires Describes(h)
    ensures Kraft(h.lit) && Kraft(h.dist)
  {
  }

  lemma HeadPack(final: bool, kind: nat)
    requires kind < 4
    ensures AllFit(BlockHead(final, kind))
  {
    Pow2Values();
  }

  lemma StoredPack(n: nat, p: nat)
    requires n <= 65535
    ensures AllFit(StoredHeader(n, p))
  {
    Pow2Values();
  }

  lemma {:induction false} StreamPack(plans: seq<Plan>, out: seq<byte>, p: nat)
    requires PlansFit(plans, out)
    ensures AllFit(EncodeStream(plans, out, p)) && TotalBits(EncodeStream(plans, out, p)) >= 3
    decreases |plans|
  {
    hide AllFit, EncodePlan, PlanFits, Extended, TotalBits;
    var head := EncodePlan(plans[0], |out|, p, |plans| == 1);
    PlanPack(plans[0], |out|, p, |plans| == 1);
    PlanBits(plans[0], |out|, p, |plans| == 1);
    if |plans| > 1 {
      var q, o := p + TotalBits(head), Extended(plans[0], out);
      StreamPack(plans[1..], o, q);
      JoinFit(head, EncodeStream(plans[1..], o, q));
      TotalSum(head, EncodeStream(plans[1..], o, q));
    }
  }

  lemma PlanBits(b: Plan, n: nat, p: nat, final: bool)
    requires PlanFits(b, n)
    ensures TotalBits(EncodePlan(b, n, p, final)) >= 3
  {
    hide Body, PlanFits;
    TotalSum(BlockHead(final, Kind(b)), Body(b, n, p + 3));
    assert BlockHead(final, Kind(b))[1..] == [Coded(Kind(b), 2)];
  }

  /** The two bytes of a zlib header, then the packed stream, which starts at bit 16. */
  ghost function Compressed(plans: seq<Plan>): seq<byte>
    requires PlansFit(plans, [])
  {
    [0x78, 0x01] + Pack(EncodeStream(plans, [], 16))
  }

  lemma CompressedHolds(plans: seq<Plan>)
    requires PlansFit(plans, [])
    ensures CodesAt(Compressed(plans), 16, EncodeStream(plans, [], 16)) && |Compressed(plans)| > 2
  {
    hide CodesAt, EncodeStream, Pack, PlansFit;
    var codes := EncodeStream(plans, [], 16);
    StreamPack(plans, [], 16);
    PackHolds(codes);
    var pre: seq<byte> := [0x78, 0x01];
    CodesBehind(pre, Pack(codes), 0, codes);
    PackedSomething(codes);
  }

  /** Decoding compressed data gives back what was compressed, for every list of blocks; so does decoding with the range
      of RFC 1951 unless a header is wide, which it refuses. */
  lemma ZlibRoundTrip(plans: seq<Plan>)
    requires PlansFit(plans, [])
    ensures var data, end := Compressed(plans), 16 + TotalBits(EncodeStream(plans, [], 16));
            && ZlibHeader(data)
            && Inflate(data, 16, [], 8 * |data|) == Done(end, Output(plans, []))
            && StrictInflate(data, 16, [], 8 * |data|) == if SomeWide(plans) then Bad else Done(end, Output(plans, []))
  {
    hide CodesAt, EncodeStream, Output, Inflate, StrictInflate, Pack, PlansFit, SomeWide, ReachesLoose;
    var codes := EncodeStream(plans, [], 16);
    var data := Compressed(plans);
    CompressedHolds(plans);
    CodesEnd(data, 16, codes);
    StreamRoundTrip(plans, data, 16, [], 8 * |data|);
    StrictIs(data, 16, [], 8 * |data|);
  }

  lemma PackedSomething(codes: seq<Coded>)
    requires TotalBits(codes) > 0
    ensures |Pack(codes)| > 0
  {
    hide TotalBits;
  }

  // ---------- a stream outside the range ----------

  /** 1 at place `a` and 0 elsewhere. */
  function OneAt(n: nat, a: nat): (l: Lengths)
    requires n <= 288
  {
    seq(n, i => if i == a then 1 else 0)
  }

  /** 287 literal and length codes of which only the end mark is used, and their lengths as runs. */
  function Header287(): Header {
    Header(OneAt(287, 256), [0], [ManyZeros(138), ManyZeros(118), One(1), ManyZeros(31)], OneAt(19, 1)[18 := 1], 18)
  }

  lemma {:induction false} ZerosKraft(lens: Lengths, m: nat, c: nat)
    requires m + c <= |lens| && forall i :: m <= i < m + c ==> lens[i] == 0
    ensures KraftSum(lens, m + c) == KraftSum(lens, m)
    decreases c
  {
    if c > 0 { ZerosKraft(lens, m, c - 1); }
  }

  lemma HeaderKraft()
    ensures var h := Header287(); Kraft(h.lit) && Kraft(h.dist) && Kraft(h.cl)
  {
    hide KraftSum, Pow2;
    var h := Header287();
    Pow2Values();
    Pow2Of15();
    KraftStart(h.lit);
    KraftStart(h.dist);
    KraftStart(h.cl);
    ZerosKraft(h.lit, 0, 256);
    KraftNext(h.lit, 256);
    ZerosKraft(h.lit, 257, 30);
    ZerosKraft(h.dist, 0, 1);
    ZerosKraft(h.cl, 0, 1);
    KraftNext(h.cl, 1);
    ZerosKraft(h.cl, 2, 16);
    KraftNext(h.cl, 18);
  }

  lemma Pow2Of15()
    ensures Pow2(15) == 32768
  {
    Pow2Values();
  }

  /** The four runs give the lengths of both codes. */
  lemma HeaderRuns()
    ensures var h := Header287(); RunsFit(h.cl, h.runs, 0) && ApplyRuns(h.cl, h.runs, []) == h.lit + h.dist
  {
    var h := Header287();
    var a, b, c, d := ManyZeros(138), ManyZeros(118), One(1), ManyZeros(31);
    assert h.runs[1..] == [b, c, d] && [b, c, d][1..] == [c, d] && [c, d][1..] == [d];
    assert RunsFit(h.cl, [d], 257);
    assert RunsFit(h.cl, [c, d], 256);
    assert RunsFit(h.cl, [b, c, d], 138);
    var x: seq<nat> := Repeat(0, 138);
    var y := x + Repeat(0, 118);
    assert ApplyRuns(h.cl, [d], y + [1]) == y + [1] + Repeat(0, 31);
    assert ApplyRuns(h.cl, [c, d], y) == y + [1] + Repeat(0, 31);
    assert [] + Repeat(0, 138) == x;
    assert ApplyRuns(h.cl, h.runs, []) == y + [1] + Repeat(0, 31);
    assert y + [1] + Repeat(0, 31) == h.lit + h.dist;
  }

  /** Only the last length in the order is not sent, and it is 0. */
  lemma HeaderSent()
    ensures Sent(Header287().cl, 18) == Header287().cl
  {
    hide Sent;
    var cl := Header287().cl;
    forall i | 0 <= i < 19 ensures Sent(cl, 18)[i] == cl[i] {
      PlaceInOrder(i);
      if PLACE[i] < 18 { SentAt(cl, 18, PLACE[i]); } else { NotSent(cl, 18, 18); }
    }
  }

  /** A stream of one final block with that header, which says nothing but where it ends: the HLIT field is 30, the
      decoder accepts it, and RFC 1951 does not. */
  lemma WideHeaderAccepted() returns (data: seq<byte>)
    ensures PlansFit([DynamicPlan(Header287(), [])], []) && data == Compressed([DynamicPlan(Header287(), [])])
    ensures ZlibHeader(data) && WideHeader(data, 16) && Window(data, 19, 5) == 30
    ensures Inflate(data, 16, [], 8 * |data|).Done? && StrictInflate(data, 16, [], 8 * |data|) == Bad
  {
    hide Inflate, StrictInflate, Describes, Window, Compressed, EncodeStream, Output, ZlibHeader;
    var b := DynamicPlan(Header287(), []);
    HeaderDescribes();
    assert PlansFit([b], []);
    data := Compressed([b]);
    ZlibRoundTrip([b]);
    CompressedHolds([b]);
    PlanSizes(b, data, 16);
  }

  lemma PlanSizes(b: Plan, data: seq<byte>, p: nat)
    requires b.DynamicPlan? && PlansFit([b], []) && CodesAt(data, p, EncodeStream([b], [], p))
    ensures Window(data, p + 1, 2) == 2 && Window(data, p + 3, 5) == |b.h.lit| - 257
  {
    hide CodesAt, Window, Describes, EncodeDescription, EncodeTokens, TotalBits, BlockHead;
    CodesSplit(data, p, BlockHead(true, 2), Body(b, 0, p + 3));
    HeadRead(data, p, true, 2);
    CodesSplit(data, p + 3, EncodeDescription(b.h), EncodeTokens(b.h.lit, b.h.dist, b.tokens));
    DescriptionSizes(b.h, data, p + 3);
  }

  lemma HeaderDescribes()
    ensures Describes(Header287()) && HasCode(Header287().lit, 256)
  {
    hide Kraft, Sent, RunsFit, ApplyRuns;
    HeaderKraft();
    HeaderRuns();
    HeaderSent();
  }

  // ---------- a length outside the range ----------

  /** A pair of length 258 and distance 1 whose length is written with code 284. */
  function LongPair(): seq<Coded> {
    [SymbolCode(FixedLit(), 284), Coded(31, 5), SymbolCode(FixedDist(), 0), Coded(0, 0)]
  }

  function LiteralCode(z: nat): seq<Coded>
    requires z < 286
  {
    [SymbolCode(FixedLit(), z)]
  }

  /** One final block with the fixed codes: a zero byte, that pair and the end mark. */
  function LongStream(): seq<Coded> {
    BlockHead(true, 1) + (LiteralCode(0) + (LongPair() + LiteralCode(256)))
  }

  lemma LongPairRead(data: seq<byte>, p: nat)
    requires CodesAt(data, p, LongPair())
    ensures LongLength(FixedLit(), data, p)
    ensures TokenAt(FixedLit(), FixedDist(), data, p) == Some((Copy(258, 1), p + TotalBits(LongPair())))
  {
    hide FixedLit, FixedDist, Kraft, Code, Symbol, CodesAt, TotalBits, Window, PairAt, LengthBase, LengthExtra;
    FixedLitKraft();
    FixedDistKraft();
    FixedSizes();
    var lit, dist := FixedLit(), FixedDist();
    FourCodes(data, p, SymbolCode(lit, 284), Coded(31, 5), SymbolCode(dist, 0), Coded(0, 0));
    SymbolRead(lit, data, p, 284);
    SymbolRead(dist, data, p + lit[284] + 5, 0);
    LongBase(27);
    var s := p + lit[284] + 5;
    DistanceFrom(dist, data, s, 0, s + dist[0], 1, 0, 0);
    PairFrom(dist, data, 27, p + lit[284], 227, 5, 31);
  }

  lemma LongBase(c: nat)
    requires c == 27
    ensures LengthBase(c) == 227 && LengthExtra(c) == 5
  {
    LengthTable(c);
  }

  lemma FixedSizes()
    ensures |FixedLit()| == 288 && |FixedDist()| == 32
    ensures FixedLit()[0] == 8 && FixedLit()[256] == 7 && FixedLit()[284] == 8 && FixedDist()[0] == 5
  {
  }

  lemma LongBlockRead(data: seq<byte>, p: nat, limit: nat)
    requires CodesAt(data, p, LiteralCode(0) + (LongPair() + LiteralCode(256)))
    requires p + TotalBits(LiteralCode(0) + (LongPair() + LiteralCode(256))) <= limit
    ensures ReachesLong(FixedLit(), FixedDist(), data, p, [], limit)
    ensures Block(FixedLit(), FixedDist(), data, p, [], limit) ==
            Done(p + TotalBits(LiteralCode(0) + (LongPair() + LiteralCode(256))), LzCopy([0], 258, 1))
  {
    hide FixedLit, FixedDist, Kraft, CodesAt, TotalBits, LiteralCode, LongPair, TokenAt, LongLength, LzCopy;
    FixedLitKraft();
    FixedSizes();
    var a, b, c := LiteralCode(0), LongPair(), LiteralCode(256);
    CodesSplit(data, p, a, b + c);
    TotalSum(a, b + c);
    CodesSplit(data, p + TotalBits(a), b, c);
    TotalSum(b, c);
    LiteralFound(data, p, 0);
    LongPairRead(data, p + TotalBits(a));
    LiteralFound(data, p + TotalBits(a) + TotalBits(b), 256);
    LongSteps(data, p, p + TotalBits(a), p + TotalBits(a) + TotalBits(b), p + TotalBits(a) + TotalBits(b) +
      TotalBits(c), limit);
  }

  lemma LiteralFound(data: seq<byte>, p: nat, z: nat)
    requires z <= 256 && CodesAt(data, p, LiteralCode(z))
    ensures TokenAt(FixedLit(), FixedDist(), data, p) ==
            Some((if z < 256 then Literal(z) else EndOfBlock, p + TotalBits(LiteralCode(z))))
  {
    hide FixedDist, Kraft, CodesAt, TotalBits, TokenAt, SymbolCode;
    FixedLitKraft();
    LiteralRead(FixedLit(), FixedDist(), data, p, z);
  }

  lemma LongSteps(data: seq<byte>, p: nat, q: nat, r: nat, s: nat, limit: nat)
    requires p < q < r < s <= limit && LongLength(FixedLit(), data, q)
    requires TokenAt(FixedLit(), FixedDist(), data, p) == Some((Literal(0), q))
    requires TokenAt(FixedLit(), FixedDist(), data, q) == Some((Copy(258, 1), r))
    requires TokenAt(FixedLit(), FixedDist(), data, r) == Some((EndOfBlock, s))
    ensures ReachesLong(FixedLit(), FixedDist(), data, p, [], limit)
    ensures Block(FixedLit(), FixedDist(), data, p, [], limit) == Done(s, LzCopy([0], 258, 1))
  {
    hide FixedLit, FixedDist, TokenAt, LongLength, LzCopy;
    assert [] + [0 as byte] == [0];
    assert Block(FixedLit(), FixedDist(), data, r, LzCopy([0], 258, 1), limit) == Done(s, LzCopy([0], 258, 1));
    assert ReachesLong(FixedLit(), FixedDist(), data, q, [0], limit);
  }

  lemma LongStreamFits()
    ensures AllFit(LongStream()) && TotalBits(LongStream()) > 0
  {
    hide FixedLit, FixedDist, Kraft, SymbolCode, TotalBits;
    FixedLitKraft();
    FixedDistKraft();
    FixedSizes();
    Pow2Values();
    SymbolFits(FixedLit(), 0);
    SymbolFits(FixedLit(), 284);
    SymbolFits(FixedLit(), 256);
    SymbolFits(FixedDist(), 0);
    HeadPack(true, 1);
    JoinFit(LongPair(), LiteralCode(256));
    JoinFit(LiteralCode(0), LongPair() + LiteralCode(256));
    JoinFit(BlockHead(true, 1), LiteralCode(0) + (LongPair() + LiteralCode(256)));
    TotalSum(BlockHead(true, 1), LiteralCode(0) + (LongPair() + LiteralCode(256)));
    HeadBits();
  }

  lemma HeadBits()
    ensures TotalBits(BlockHead(true, 1)) == 3
  {
    assert BlockHead(true, 1)[1..] == [Coded(1, 2)];
  }

  /** That stream behind a zlib header: code 284 with all extra bits set stands for a length of 258 in the decoder,
      which accepts it, and for none in RFC 1951.  No header is dynamic. */
  lemma LongLengthAccepted() returns (data: seq<byte>)
    ensures data == [0x78, 0x01] + Pack(LongStream()) && ZlibHeader(data) && Window(data, 17, 2) == 1
    ensures ReachesLong(FixedLit(), FixedDist(), data, 19, [], 8 * |data|)
    ensures var r := Inflate(data, 16, [], 8 * |data|); r.Done? && r.out == LzCopy([0], 258, 1)
    ensures StrictInflate(data, 16, [], 8 * |data|) == Bad
  {
    hide FixedLit, FixedDist, CodesAt, TotalBits, Pack, LzCopy, Window, Bit, BlockHead, LiteralCode, LongPair;
    hide ReachesLong, StrictInflate;
    var codes, pre: seq<byte> := LongStream(), [0x78, 0x01];
    LongStreamFits();
    PackHolds(codes);
    CodesBehind(pre, Pack(codes), 0, codes);
    PackedSomething(codes);
    data := pre + Pack(codes);
    CodesEnd(data, 16, codes);
    var body := LiteralCode(0) + (LongPair() + LiteralCode(256));
    CodesSplit(data, 16, BlockHead(true, 1), body);
    TotalSum(BlockHead(true, 1), body);
    HeadRead(data, 16, true, 1);
    LongBlockRead(data, 19, 8 * |data|);
    OneFixedBlock(data, 16, 8 * |data|);
    StrictIs(data, 16, [], 8 * |data|);
  }

  lemma OneFixedBlock(data: seq<byte>, p: nat, limit: nat)
    requires Bit(data, p) == 1 && Window(data, p + 1, 2) == 1 && p + 3 <= limit
    requires ReachesLong(FixedLit(), FixedDist(), data, p + 3, [], limit)
    ensures Inflate(data, p, [], limit) == Block(FixedLit(), FixedDist(), data, p + 3, [], limit)
    ensures ReachesLoose(data, p, [], limit)
  {
    hide Block, FixedLit, FixedDist, Window, Bit, Stored, DynamicCodes, ReachesLong;
    assert LongBlock(data, p, [], limit);
  }
}
