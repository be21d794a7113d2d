/** RFC 1951 read one bit at a time, with no tables: the reference the decoder is
    measured against.  The input is a byte string followed by zero bits, of which
    only the first `limit` may be consumed; with `limit` eight times the length of
    the string this is plain decoding of the string. */
module InflateSpec {
  import opened Bits
  import opened BitStream
  import opened PrefixCode

  /** How decoding ends: with a position and the output, by running out of input, or on malformed input. */
  datatype Outcome = Done(pos: nat, out: seq<byte>) | Short | Bad

  datatype Token = Literal(b: byte) | EndOfBlock | Copy(len: nat, dist: nat)

  // ---------- section 3.2.2: walking the code tree ----------

  /** The first of the symbols from `i` on with the code `code` of `s` bits. */
  function FindCode(lens: Lengths, s: nat, code: nat, i: nat): Option<nat>
    decreases |lens| - i
  {
    if i >= |lens| then None
    else if 0 < lens[i] == s && Code(lens, i) == code then Some(i)
    else FindCode(lens, s, code, i + 1)
  }

  /** Having read the bits from `p` to `q`, whose value is `code`, read on until they are the code of a symbol. */
  function Walk(lens: Lengths, data: seq<byte>, p: nat, q: nat, code: nat): (r: Option<(nat, nat)>)
    requires p <= q <= p + 15
    ensures r.Some? ==> r.value.0 < |lens| && p < r.value.1
    decreases p + 15 - q
  {
    match FindCode(lens, q - p, code, 0)
    case Some(i) => FoundCode(lens, q - p, code, 0); Some((i, q))
    case None => if q == p + 15 then None else Walk(lens, data, p, q + 1, 2 * code + Bit(data, q))
  }

  lemma {:induction false} FoundCode(lens: Lengths, s: nat, code: nat, i: nat)
    ensures var f := FindCode(lens, s, code, i);
            if f.Some? then i <= f.value < |lens| && 0 < lens[f.value] == s && Code(lens, f.value) == code
            else forall j :: i <= j < |lens| && 0 < lens[j] == s ==> Code(lens, j) != code
    decreases |lens| - i
  {
    if i < |lens| && !(0 < lens[i] == s && Code(lens, i) == code) {
      FoundCode(lens, s, code, i + 1);
    }
  }

  /** The symbol whose code starts at bit `p`, and the position after it. */
  function Symbol(lens: Lengths, data: seq<byte>, p: nat): (r: Option<(nat, nat)>)
    ensures r.Some? ==> r.value.0 < |lens| && p < r.value.1
  {
    Walk(lens, data, p, p, 0)
  }

  // ---------- section 3.2.5: lengths and distances ----------

  function LengthExtra(c: nat): nat {
    if c < 8 || c == 28 then 0 else (c - 4) / 4
  }

  /** Each length code starts where the range of the previous one ends; the last is 258 alone. */
  function LengthBase(c: nat): nat {
    if c == 0 then 3 else if c == 28 then 258 else LengthBase(c - 1) + Pow2(LengthExtra(c - 1))
  }

  function DistExtra(c: nat): nat {
    if c < 4 then 0 else (c - 2) / 2
  }

  function DistBase(c: nat): nat {
    if c == 0 then 1 else DistBase(c - 1) + Pow2(DistExtra(c - 1))
  }

  /** One literal, end mark or length-distance pair. */
  function TokenAt(lit: Lengths, dist: Lengths, data: seq<byte>, p: nat): (r: Option<(Token, nat)>)
    ensures r.Some? ==> p < r.value.1
  {
    match Symbol(lit, data, p)
    case None => None
    case Some((z, q)) =>
      if z < 256 then Some((Literal(z), q))
      else if z == 256 then Some((EndOfBlock, q))
      else if z >= 286 then None
      else PairAt(dist, data, z - 257, q)
  }

  predicate IsCopy(t: Token) {
    t.Copy?
  }

  /** The length with its extra bits, then the distance. */
  function PairAt(dist: Lengths, data: seq<byte>, c: nat, p: nat): (r: Option<(Token, nat)>)
    ensures r.Some? ==> p + LengthExtra(c) < r.value.1 && IsCopy(r.value.0)
  {
    var len := LengthBase(c) + Window(data, p, LengthExtra(c));
    match DistanceAt(dist, data, p + LengthExtra(c))
    case None => None
    case Some((d, q)) => Some((Copy(len, d), q))
  }

  function DistanceAt(dist: Lengths, data: seq<byte>, p: nat): (r: Option<(nat, nat)>)
    ensures r.Some? ==> p < r.value.1
  {
    match Symbol(dist, data, p)
    case None => None
    case Some((c, q)) =>
      if c >= 30 then None
      else Some((DistBase(c) + Window(data, q, DistExtra(c)), q + DistExtra(c)))
  }

  /** Copy byte by byte from `dist` back; the source may run into the bytes being written. */
  function LzCopy(out: seq<byte>, len: nat, dist: nat): (r: seq<byte>)
    requires 1 <= dist <= |out|
    ensures |r| == |out| + len && out <= r
    decreases len
  {
    if len == 0 then out else LzCopy(out + [out[|out| - dist]], len - 1, dist)
  }

  /** The compressed data of one block, up to and including its end mark. */
  function Block(lit: Lengths, dist: Lengths, data: seq<byte>, p: nat, out: seq<byte>, limit: nat): (r: Outcome)
    ensures r.Done? ==> p < r.pos <= limit && out <= r.out
    decreases if p <= limit then limit - p else 0
  {
    if p > limit then Short
    else match TokenAt(lit, dist, data, p)
      case None => Bad
      case Some((t, q)) =>
        if q > limit then Short
        else match t
          case EndOfBlock => Done(q, out)
          case Literal(b) => Block(lit, dist, data, q, out + [b], limit)
          case Copy(len, d) =>
            if d < 1 || d > |out| then Bad else Block(lit, dist, data, q, LzCopy(out, len, d), limit)
  }

  // ---------- section 3.2.4: stored blocks ----------

  function Word(data: seq<byte>, k: nat): nat {
    ByteAt(data, k) + 256 * ByteAt(data, k + 1)
  }

  function Stored(data: seq<byte>, p: nat, out: seq<byte>, limit: nat): (r: Outcome)
    ensures r.Done? ==> p < r.pos <= limit && out <= r.out
  {
    var k := (p + 7) / 8;
    var len := Word(data, k);
    if 8 * (k + 4) > limit then Short
    else if Word(data, k + 2) != 65535 - len then Bad
    else if 8 * (k + 4 + len) > limit then Short
    else Done(8 * (k + 4 + len), out + Bytes(data, k + 4, len))
  }

  // ---------- section 3.2.6 and 3.2.7: the two kinds of code ----------

  function FixedLit(): (l: Lengths) {
    seq(288, i => if i < 144 then 8 else if i < 256 then 9 else if i < 280 then 7 else 8)
  }

  function FixedDist(): (l: Lengths) {
    seq(32, i => 5)
  }

  const ORDER: seq<nat> := [16, 17, 18, 0, 8, 7, 9, 6, 10, 5, 11, 4, 12, 3, 13, 2, 14, 1, 15]

  /** The first `n` code length code lengths, three bits each, in the order of section 3.2.7. */
  function CodeLengths(data: seq<byte>, p: nat, n: nat): (l: Lengths)
    requires n <= 19
    ensures |l| == 19
  {
    if n == 0 then seq(19, i => 0)
    else
      WindowBound(data, p + 3 * (n - 1), 3);
      assert Pow2(3) == 8;
      CodeLengths(data, p, n - 1)[ORDER[n - 1] := Window(data, p + 3 * (n - 1), 3)]
  }

  function Repeat(x: nat, n: nat): (r: seq<nat>)
    ensures |r| == n && forall i :: 0 <= i < n ==> r[i] == x
  {
    seq(n, i => x)
  }

  /** Read code lengths until there are `total`; runs may cross from one alphabet into the other. */
  function ReadLengths(cl: Lengths, data: seq<byte>, p: nat, total: nat, acc: seq<nat>): (r: Option<(seq<nat>, nat)>)
    requires |cl| == 19
    requires |acc| <= total && AllLengths(acc)
    ensures r.Some? ==> |r.value.0| == total && p <= r.value.1 && AllLengths(r.value.0)
    decreases total - |acc|
  {
    if |acc| == total then Some((acc, p))
    else match Symbol(cl, data, p)
      case None => None
      case Some((c, q)) =>
        if c < 16 then ReadLengths(cl, data, q, total, acc + [c])
        else if c == 16 && |acc| == 0 then None
        else
          var bits := RunBits(c);
          var n := Window(data, q, bits) + (if c == 18 then 11 else 3);
          if total - |acc| < n then None
          else ReadLengths(cl, data, q + bits, total, acc + Repeat(if c == 16 then acc[|acc| - 1] else 0, n))
  }

  function RunBits(c: nat): nat {
    if c == 16 then 2 else if c == 17 then 3 else 7
  }

  datatype Codes = Codes(lit: Lengths, dist: Lengths, pos: nat)

  function Hlit(data: seq<byte>, p: nat): (n: nat)
    ensures 257 <= n <= 288
  {
    WindowBound(data, p, 5);
    assert Pow2(5) == 32;
    Window(data, p, 5) + 257
  }

  function Hdist(data: seq<byte>, p: nat): (n: nat)
    ensures 1 <= n <= 32
  {
    WindowBound(data, p + 5, 5);
    assert Pow2(5) == 32;
    Window(data, p + 5, 5) + 1
  }

  function Hclen(data: seq<byte>, p: nat): (n: nat)
    ensures 4 <= n <= 19
  {
    WindowBound(data, p + 10, 4);
    assert Pow2(4) == 16;
    Window(data, p + 10, 4) + 4
  }

  /** Lengths for both alphabets, of which the first `hlit` are for literals and lengths. */
  predicate IsDescription(codes: seq<nat>, hlit: nat) {
    hlit <= 288 && hlit <= |codes| <= hlit + 32 && AllLengths(codes)
  }

  predicate AllLengths(l: seq<nat>) {
    forall i :: 0 <= i < |l| ==> l[i] <= 15
  }

  /** The code lengths at the start of a dynamic block, how many belong to the first alphabet, and the position after
      them. */
  function Description(data: seq<byte>, p: nat): (r: Option<(seq<nat>, nat, nat)>)
    ensures r.Some? ==> IsDescription(r.value.0, r.value.1) && p <= r.value.2
  {
    var hlit, hdist, hclen := Hlit(data, p), Hdist(data, p), Hclen(data, p);
    var cl := CodeLengths(data, p + 14, hclen);
    if !Kraft(cl) then None
    else match ReadLengths(cl, data, p + 14 + 3 * hclen, hlit + hdist, [])
      case None => None
      case Some((l, q)) => Some((l, hlit, q))
  }

  /** The two codes described at the start of a dynamic block. */
  function DynamicCodes(data: seq<byte>, p: nat): (r: Option<Codes>)
    ensures r.Some? ==> p <= r.value.pos
  {
    match Description(data, p)
    case None => None
    case Some((l, hlit, q)) =>
      var lit: Lengths, dist: Lengths := l[..hlit], l[hlit..];
      if Kraft(lit) && Kraft(dist) then Some(Codes(lit, dist, q)) else None
  }

  // ---------- section 3.2.3: blocks ----------

  /** The codes of a compressed block of the given kind, and where its data starts. */
  function BlockCodes(data: seq<byte>, p: nat, kind: nat): (r: Option<Codes>)
    ensures r.Some? ==> p <= r.value.pos
  {
    if kind == 1 then Some(Codes(FixedLit(), FixedDist(), p))
    else if kind == 2 then DynamicCodes(data, p)
    else None
  }

  function OneBlock(data: seq<byte>, p: nat, out: seq<byte>, limit: nat): (r: Outcome)
    ensures r.Done? ==> p < r.pos <= limit && out <= r.out
  {
    var kind := Window(data, p + 1, 2);
    if p + 3 > limit then Short
    else if kind == 0 then Stored(data, p + 3, out, limit)
    else match BlockCodes(data, p + 3, kind)
      case None => Bad
      case Some(c) => Block(c.lit, c.dist, data, c.pos, out, limit)
  }

  /** Blocks up to and including the one marked final. */
  function Inflate(data: seq<byte>, p: nat, out: seq<byte>, limit: nat): (r: Outcome)
    ensures r.Done? ==> p < r.pos <= limit && out <= r.out
    decreases if p <= limit then limit - p else 0
  {
    match OneBlock(data, p, out, limit)
    case Done(q, o) => if Bit(data, p) == 1 then Done(q, o) else Inflate(data, q, o, limit)
    case Short => Short
    case Bad => Bad
  }

  // ---------- RFC 1950 ----------

  /** The two bytes in front of a zlib stream, as the decoder checks them. */
  predicate ZlibHeader(data: seq<byte>) {
    var cmf: nat, flg: nat := ByteAt(data, 0), ByteAt(data, 1);
    |data| > 2 && (cmf * 256 + flg) % 31 == 0 && flg / 32 % 2 == 0 && cmf % 16 == 8
  }

  /** Section 2.2 of RFC 1950: method 8 with some window size, then a level and check bits without the mark of a preset
      dictionary. */
  ghost predicate HeaderOf(data: seq<byte>, info: nat, level: nat, check: nat)
    requires |data| > 2
  {
    info < 16 && level < 4 && check < 32 && [data[0], data[1]] == [16 * info + 8, 64 * level + check]
  }

  lemma HeaderFields(data: seq<byte>)
    requires |data| > 2
    ensures ZlibHeader(data) <==>
            (data[0] as int * 256 + data[1]) % 31 == 0 &&
              exists info, level, check :: HeaderOf(data, info, level, check)
  {
    if data[0] % 16 == 8 && data[1] / 32 % 2 == 0 {
      assert HeaderOf(data, data[0] / 16, data[1] / 64, data[1] % 32);
    }
  }

  // ---------- walking the tree finds the matching symbol ----------

  ghost predicate NoMatch(lens: Lengths, v: nat) {
    forall i: nat :: !Matches(lens, i, v)
  }

  /** No symbol shorter than `s` matches. */
  ghost predicate NoMatchBelow(lens: Lengths, v: nat, s: nat) {
    forall i: nat :: Matches(lens, i, v) ==> lens[i] >= s
  }

  /** `r` is the symbol whose code begins `v` and the position `p` advanced by its length, or no code begins `v`. */
  ghost predicate Decodes(lens: Lengths, v: nat, p: nat, r: Option<(nat, nat)>) {
    match r
    case Some((i, q)) => Matches(lens, i, v) && q == p + lens[i]
    case None => NoMatch(lens, v)
  }

  lemma {:induction false} WalkFinds(lens: Lengths, data: seq<byte>, p: nat, n: nat, q: nat, code: nat)
    requires p <= q <= p + 15 <= p + n && code == Msb(data, p, q - p)
    requires NoMatchBelow(lens, Window(data, p, n), q - p)
    ensures Decodes(lens, Window(data, p, n), p, Walk(lens, data, p, q, code))
    decreases p + 15 - q
  {
    hide Matches, Code;
    WalkStep(lens, data, p, n, q - p);
    match FindCode(lens, q - p, code, 0)
    case Some(i) =>
      assert Walk(lens, data, p, q, code) == Some((i, q));
    case None =>
      if q < p + 15 {
        WalkFinds(lens, data, p, n, q + 1, 2 * code + Bit(data, q));
      } else {
        NoMatchAtAll(lens, Window(data, p, n));
      }
  }

  lemma NoMatchAtAll(lens: Lengths, v: nat)
    requires NoMatchBelow(lens, v, 16)
    ensures NoMatch(lens, v)
  {
  }

  lemma WalkStep(lens: Lengths, data: seq<byte>, p: nat, n: nat, s: nat)
    requires s <= 15 <= n && NoMatchBelow(lens, Window(data, p, n), s)
    ensures var f := FindCode(lens, s, Msb(data, p, s), 0);
            if f.Some? then Matches(lens, f.value, Window(data, p, n)) && lens[f.value] == s
            else NoMatchBelow(lens, Window(data, p, n), s + 1)
  {
    MsbIsRev(data, p, s, n);
    FoundCode(lens, s, Msb(data, p, s), 0);
  }

  /** With fifteen bits or more in view, the bit-by-bit decoder returns the symbol that matches them, if there is
      one. */
  lemma SymbolMatches(lens: Lengths, data: seq<byte>, p: nat, n: nat)
    requires n >= 15
    ensures Decodes(lens, Window(data, p, n), p, Symbol(lens, data, p))
  {
    WalkFinds(lens, data, p, n, p, 0);
  }
}
