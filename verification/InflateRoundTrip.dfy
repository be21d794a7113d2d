/** Encoding literals and pairs with any two codes that cover them, and the proof that the block decodes to what they
    stand for. */
module InflateRoundTrip {
  import opened Bits
  import opened BitStream
  import opened BitPack
  import opened PrefixCode
  import ZHuffmanTables
  import ZLookup
  import opened InflateSpec
  import opened InflateSteps
  import opened InflateStrict

  // ---------- encoding ----------

  /** Codes are sent with their most significant bit first. */
  function SymbolCode(lens: Lengths, i: nat): Coded
    requires i < |lens| && lens[i] > 0
  {
    Coded(Rev(Code(lens, i), lens[i]), lens[i])
  }

  /** The last length code whose range starts at or below `len`. */
  function LengthCode(len: nat, c: nat): nat {
    if c == 0 || LengthBase(c) <= len then c else LengthCode(len, c - 1)
  }

  function DistCode(dist: nat, c: nat): nat {
    if c == 0 || DistBase(c) <= dist then c else DistCode(dist, c - 1)
  }

  predicate HasCode(lens: Lengths, i: nat) {
    i < |lens| && lens[i] > 0
  }

  /** The symbols of a token have codes. */
  predicate TokenCoded(lit: Lengths, dist: Lengths, t: Token) {
    match t
    case Literal(b) => HasCode(lit, b)
    case EndOfBlock => HasCode(lit, 256)
    case Copy(len, d) => len >= 3 && d >= 1 && HasCode(lit, 257 + LengthCode(len, 28)) && HasCode(dist, DistCode(d, 29))
  }

  predicate AllCoded(lit: Lengths, dist: Lengths, tokens: seq<Token>)
    decreases |tokens|
  {
    if tokens == [] then HasCode(lit, 256)
    else TokenCoded(lit, dist, tokens[0]) && AllCoded(lit, dist, tokens[1..])
  }

  /** A token that may follow `n` bytes of output. */
  predicate TokenFits(t: Token, n: nat) {
    match t
    case Literal(_) => true
    case EndOfBlock => false
    case Copy(len, d) => 3 <= len <= 258 && 1 <= d <= 32768 && d <= n
  }

  function EncodeToken(lit: Lengths, dist: Lengths, t: Token): seq<Coded>
    requires TokenCoded(lit, dist, t)
  {
    match t
    case Literal(b) => [SymbolCode(lit, b)]
    case EndOfBlock => [SymbolCode(lit, 256)]
    case Copy(len, d) =>
      var (c, rest), (e, restD) := LengthParts(len), DistParts(d);
      [SymbolCode(lit, 257 + c), Coded(rest, LengthExtra(c)), SymbolCode(dist, e), Coded(restD, DistExtra(e))]
  }

  /** The last code up to `c` whose range starts at or below a length, and what its extra bits hold. */
  function LengthSplit(len: nat, c: nat): (r: (nat, nat))
    requires len >= 3 && c <= 28
    ensures r.0 <= c
  {
    LengthCodeBounds(len, c);
    (LengthCode(len, c), len - LengthBase(LengthCode(len, c)))
  }

  function LengthParts(len: nat): (r: (nat, nat))
    requires len >= 3
    ensures r.0 <= 28
  {
    LengthSplit(len, 28)
  }

  function DistSplit(d: nat, c: nat): (r: (nat, nat))
    requires d >= 1 && c <= 29
    ensures r.0 <= c
  {
    DistCodeBounds(d, c);
    (DistCode(d, c), d - DistBase(DistCode(d, c)))
  }

  function DistParts(d: nat): (r: (nat, nat))
    requires d >= 1
    ensures r.0 <= 29
  {
    DistSplit(d, 29)
  }

  lemma {:induction false} LengthCodeBounds(len: nat, c: nat)
    requires len >= 3 && c <= 28
    ensures LengthCode(len, c) <= c && LengthBase(LengthCode(len, c)) <= len
    ensures LengthCode(len, c) < c ==> len < LengthBase(LengthCode(len, c) + 1)
  {
    if c > 0 && LengthBase(c) > len { LengthCodeBounds(len, c - 1); }
  }

  lemma {:induction false} DistCodeBounds(d: nat, c: nat)
    requires d >= 1 && c <= 29
    ensures DistCode(d, c) <= c && DistBase(DistCode(d, c)) <= d
    ensures DistCode(d, c) < c ==> d < DistBase(DistCode(d, c) + 1)
  {
    if c > 0 && DistBase(c) > d { DistCodeBounds(d, c - 1); }
  }

  /** The extra bits hold what is left of a length. */
  lemma LengthRest(len: nat)
    requires 3 <= len <= 258
    ensures var c := LengthCode(len, 28);
            c <= 28 && LengthBase(c) <= len < LengthBase(c) + Pow2(LengthExtra(c))
  {
    LengthCodeBounds(len, 28);
    LengthTable(28);
    LengthTable(27);
    Pow2Values();
  }

  lemma DistRest(d: nat)
    requires 1 <= d <= 32768
    ensures var c := DistCode(d, 29);
            c <= 29 && DistBase(c) <= d < DistBase(c) + Pow2(DistExtra(c))
  {
    DistCodeBounds(d, 29);
    DistTable(29);
    Pow2Values();
  }

  // ---------- one token ----------

  /** A code written is the symbol read. */
  lemma SymbolRead(lens: Lengths, data: seq<byte>, p: nat, i: nat)
    requires Kraft(lens) && i < |lens| && lens[i] > 0
    requires Window(data, p, lens[i]) == Rev(Code(lens, i), lens[i])
    ensures Symbol(lens, data, p) == Some((i, p + lens[i]))
  {
    hide Code, Matches, Kraft;
    WindowSplit(data, p, lens[i], 15);
    ZHuffmanTables.MatchesByLow(lens, i, Window(data, p, 15));
    SymbolMatches(lens, data, p, 15);
    ZLookup.SymbolFound(lens, Window(data, p, 15), p, Symbol(lens, data, p), i);
  }

  lemma LiteralRead(lit: Lengths, dist: Lengths, data: seq<byte>, p: nat, z: nat)
    requires Kraft(lit) && z <= 256 && HasCode(lit, z) && CodesAt(data, p, [SymbolCode(lit, z)])
    ensures TokenAt(lit, dist, data, p) ==
            Some((if z < 256 then Literal(z) else EndOfBlock, p + TotalBits([SymbolCode(lit, z)])))
    ensures !LongLength(lit, data, p)
  {
    SymbolRead(lit, data, p, z);
  }

  lemma CopyRead(lit: Lengths, dist: Lengths, data: seq<byte>, p: nat, len: nat, d: nat)
    requires Kraft(lit) && Kraft(dist) && TokenCoded(lit, dist, Copy(len, d)) && len <= 258 && d <= 32768
    requires CodesAt(data, p, EncodeToken(lit, dist, Copy(len, d)))
    ensures TokenAt(lit, dist, data, p) == Some((Copy(len, d), p + TotalBits(EncodeToken(lit, dist, Copy(len, d)))))
    ensures !LongLength(lit, data, p)
  {
    hide Kraft, Code, LengthCode, DistCode, LengthBase, DistBase, LengthExtra, DistExtra, Symbol, CodesAt, TotalBits,
         EncodeToken, Window, DistanceAt;
    LengthRest(len);
    DistRest(d);
    CopyParts(lit, dist, data, p, len, d, LengthCode(len, 28), DistCode(d, 29));
    LongestHasItsCode(len, 28, LengthCode(len, 28));
  }

  /** The four fields of an encoded copy. */
  lemma CopyParts(lit: Lengths, dist: Lengths, data: seq<byte>, p: nat, len: nat, d: nat, c: nat, e: nat)
    requires Kraft(lit) && Kraft(dist) && TokenCoded(lit, dist, Copy(len, d)) && len <= 258 && d <= 32768
    requires CodesAt(data, p, EncodeToken(lit, dist, Copy(len, d)))
    requires c == LengthCode(len, 28) && e == DistCode(d, 29)
    requires c <= 28 && LengthBase(c) <= len < LengthBase(c) + Pow2(LengthExtra(c))
    requires e <= 29 && DistBase(e) <= d < DistBase(e) + Pow2(DistExtra(e))
    ensures 257 + c < |lit| && Symbol(lit, data, p) == Some((257 + c, p + lit[257 + c]))
    ensures Window(data, p + lit[257 + c], LengthExtra(c)) == len - LengthBase(c)
    ensures DistanceAt(dist, data, p + lit[257 + c] + LengthExtra(c)) ==
            Some((d, p + TotalBits(EncodeToken(lit, dist, Copy(len, d)))))
  {
    hide Kraft, Code, LengthCode, DistCode, LengthBase, DistBase, LengthExtra, DistExtra, Symbol, CodesAt, TotalBits,
         Window, DistanceAt, Pow2;
    var q := p + lit[257 + c];
    var s := q + LengthExtra(c);
    FourCodes(data, p, SymbolCode(lit, 257 + c), Coded(len - LengthBase(c), LengthExtra(c)),
              SymbolCode(dist, e), Coded(d - DistBase(e), DistExtra(e)));
    SymbolRead(lit, data, p, 257 + c);
    SymbolRead(dist, data, s, e);
    DistanceFrom(dist, data, s, e, s + dist[e], DistBase(e), DistExtra(e), d - DistBase(e));
  }

  /** Length 258 is written with code 285, so code 284 never comes with all its extra bits set. */
  lemma LongestHasItsCode(len: nat, top: nat, c: nat)
    requires 3 <= len <= 258 && top == 28 && c == LengthCode(len, top)
    ensures c == 27 ==> LengthExtra(c) == 5 && LengthBase(c) <= len < LengthBase(c) + 31
  {
    LengthCodeBounds(len, top);
    if c == 27 {
      LengthTable(c);
      LengthTable(top);
    }
  }

  lemma FourCodes(data: seq<byte>, p: nat, a: Coded, b: Coded, c: Coded, d: Coded)
    requires CodesAt(data, p, [a, b, c, d])
    ensures Window(data, p, a.width) == a.code && Window(data, p + a.width, b.width) == b.code
    ensures Window(data, p + a.width + b.width, c.width) == c.code
    ensures Window(data, p + a.width + b.width + c.width, d.width) == d.code
    ensures TotalBits([a, b, c, d]) == a.width + b.width + c.width + d.width
  {
    assert [a, b, c, d][1..] == [b, c, d] && [b, c, d][1..] == [c, d] && [c, d][1..] == [d];
    assert CodesAt(data, p + a.width, [b, c, d]);
    assert CodesAt(data, p + a.width + b.width, [c, d]);
    assert CodesAt(data, p + a.width + b.width + c.width, [d]);
    assert TotalBits([d]) == d.width && TotalBits([c, d]) == c.width + d.width;
  }

  // ---------- a block ----------

  /** What the tokens stand for after `out`. */
  function Expand(tokens: seq<Token>, out: seq<byte>): (r: seq<byte>)
    requires TokensFit(tokens, |out|)
    decreases |tokens|
  {
    if tokens == [] then out
    else
      match tokens[0]
      case Literal(b) => Expand(tokens[1..], out + [b])
      case Copy(len, d) => Expand(tokens[1..], LzCopy(out, len, d))
  }

  /** How many bytes a token stands for. */
  function Size(t: Token): nat {
    if t.Copy? then t.len else 1
  }

  /** Every pair reaches back into what the tokens before it produced. */
  predicate TokensFit(tokens: seq<Token>, n: nat)
    decreases |tokens|
  {
    tokens == [] || (TokenFits(tokens[0], n) && TokensFit(tokens[1..], n + Size(tokens[0])))
  }

  /** The codes of all tokens and of the end mark. */
  function EncodeTokens(lit: Lengths, dist: Lengths, tokens: seq<Token>): seq<Coded>
    requires AllCoded(lit, dist, tokens)
    decreases |tokens|
  {
    if tokens == [] then [SymbolCode(lit, 256)]
    else EncodeToken(lit, dist, tokens[0]) + EncodeTokens(lit, dist, tokens[1..])
  }

  /** A block of encoded tokens decodes to what they stand for, with any two codes that cover them. */
  lemma {:induction false} BlockRoundTrip(lit: Lengths, dist: Lengths, tokens: seq<Token>, data: seq<byte>, p: nat,
                                          out: seq<byte>, limit: nat)
    requires Kraft(lit) && Kraft(dist) && AllCoded(lit, dist, tokens) && TokensFit(tokens, |out|)
    requires CodesAt(data, p, EncodeTokens(lit, dist, tokens))
    requires p + TotalBits(EncodeTokens(lit, dist, tokens)) <= limit
    ensures Block(lit, dist, data, p, out, limit) ==
            Done(p + TotalBits(EncodeTokens(lit, dist, tokens)), Expand(tokens, out))
    ensures !ReachesLong(lit, dist, data, p, out, limit)
    decreases |tokens|
  {
    hide Kraft, TokenAt, EncodeToken, SymbolCode, CodesAt, TotalBits, LzCopy, TokenCoded, LongLength;
    if tokens == [] {
      LiteralRead(lit, dist, data, p, 256);
    } else {
      var t := tokens[0];
      var head, tail := EncodeToken(lit, dist, t), EncodeTokens(lit, dist, tokens[1..]);
      CodesSplit(data, p, head, tail);
      TotalSum(head, tail);
      TokenRead(lit, dist, data, p, t, |out|);
      match t {
        case Literal(b) => BlockRoundTrip(lit, dist, tokens[1..], data, p + TotalBits(head), out + [b], limit);
        case Copy(len, d) =>
          BlockRoundTrip(lit, dist, tokens[1..], data, p + TotalBits(head), LzCopy(out, len, d), limit);
      }
    }
  }

  lemma LiteralCodes(lit: Lengths, dist: Lengths, t: Token)
    requires TokenCoded(lit, dist, t)
    ensures t.Literal? ==> HasCode(lit, t.b) && EncodeToken(lit, dist, t) == [SymbolCode(lit, t.b)]
  {
  }

  lemma TokenRead(lit: Lengths, dist: Lengths, data: seq<byte>, p: nat, t: Token, n: nat)
    requires Kraft(lit) && Kraft(dist) && TokenCoded(lit, dist, t) && TokenFits(t, n)
    requires CodesAt(data, p, EncodeToken(lit, dist, t))
    ensures TokenAt(lit, dist, data, p) == Some((t, p + TotalBits(EncodeToken(lit, dist, t))))
    ensures !LongLength(lit, data, p)
  {
    hide Kraft, TokenAt, CodesAt, TotalBits, SymbolCode, LengthParts, DistParts, LengthCode, DistCode, EncodeToken;
    hide LongLength;
    LiteralCodes(lit, dist, t);
    match t {
      case Literal(b) => LiteralRead(lit, dist, data, p, b);
      case Copy(len, d) => CopyRead(lit, dist, data, p, len, d);
    }
  }

  // ---------- the codes fit ----------

  lemma SymbolFits(lens: Lengths, i: nat)
    requires Kraft(lens) && HasCode(lens, i)
    ensures SymbolCode(lens, i).code < Pow2(SymbolCode(lens, i).width)
  {
    RevBound(Code(lens, i), lens[i]);
  }

  lemma {:induction false} TokensPack(lit: Lengths, dist: Lengths, tokens: seq<Token>, n: nat)
    requires Kraft(lit) && Kraft(dist) && AllCoded(lit, dist, tokens) && TokensFit(tokens, n)
    ensures AllFit(EncodeTokens(lit, dist, tokens))
    decreases |tokens|
  {
    hide Kraft, SymbolCode, LengthCode, DistCode, LengthBase, DistBase, LengthExtra, DistExtra;
    if tokens == [] {
      SymbolFits(lit, 256);
    } else {
      var t := tokens[0];
      match t {
        case Literal(b) => SymbolFits(lit, b);
        case Copy(len, d) =>
          LengthRest(len);
          DistRest(d);
          SymbolFits(lit, 257 + LengthCode(len, 28));
          SymbolFits(dist, DistCode(d, 29));
      }
      TokensPack(lit, dist, tokens[1..], n + Size(t));
      JoinFit(EncodeToken(lit, dist, t), EncodeTokens(lit, dist, tokens[1..]));
    }
  }

  // ---------- the fixed codes ----------

  /** The fixed codes cover whatever fits. */
  lemma {:induction false} FixedCoded(tokens: seq<Token>, n: nat)
    requires TokensFit(tokens, n)
    ensures AllCoded(FixedLit(), FixedDist(), tokens)
    decreases |tokens|
  {
    hide LengthCode, DistCode;
    if tokens != [] {
      var t := tokens[0];
      if t.Copy? {
        LengthCodeBounds(t.len, 28);
        DistCodeBounds(t.dist, 29);
      }
      FixedCoded(tokens[1..], n + Size(t));
    }
  }
}
