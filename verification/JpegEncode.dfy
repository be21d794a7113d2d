/** Encoding a baseline block as section F.1.2 of ITU-T T.81 does, and the proof that reading it gives the block
    back. */
module JpegEncode {
  import opened Bits
  import opened Canonical
  import opened JpegCode
  import opened JpegReservoir
  import opened JpegSpec

  // ---------- fields of bits ----------

  /** A number of `width` bits, its most significant bit first. */
  datatype Field = Field(value: nat, width: nat)

  function Width(fields: seq<Field>): nat {
    if fields == [] then 0 else fields[0].width + Width(fields[1..])
  }

  /** The stream holds the fields from bit `p` on. */
  predicate Holds(data: seq<byte>, st: Reservoir, p: nat, fields: seq<Field>)
    requires 0 <= st.bits <= 32
    decreases |fields|
  {
    fields == [] ||
    (Word(data, st, p, fields[0].width) == fields[0].value && Holds(data, st, p + fields[0].width, fields[1..]))
  }

  lemma HoldsFirst(data: seq<byte>, st: Reservoir, p: nat, a: Field, rest: seq<Field>)
    requires 0 <= st.bits <= 32 && Holds(data, st, p, [a] + rest)
    ensures Word(data, st, p, a.width) == a.value && Holds(data, st, p + a.width, rest)
    ensures Width([a] + rest) == a.width + Width(rest)
  {
    hide Word;
    assert ([a] + rest)[1..] == rest;
  }

  // ---------- symbols ----------

  /** The place of a symbol in the list of values. */
  function Find(values: seq<byte>, s: byte, n: nat): (i: nat)
    requires n <= |values|
    ensures i <= n && (i < n ==> values[i] == s)
  {
    if n == 0 then 0
    else var i := Find(values, s, n - 1); if i < n - 1 then i else if values[n - 1] == s then n - 1 else n
  }

  function PlaceOf(cnt: Counts, values: seq<byte>, s: byte): nat
    requires |values| == 256 && Total(cnt) <= 256
  {
    Find(values, s, Total(cnt))
  }

  predicate HasCode(cnt: Counts, values: seq<byte>, s: byte)
    requires |values| == 256 && Total(cnt) <= 256
  {
    PlaceOf(cnt, values, s) < Total(cnt)
  }

  function SymbolField(cnt: Counts, values: seq<byte>, s: byte): (f: Field)
    requires |values| == 256 && Total(cnt) <= 256 && HasCode(cnt, values, s)
  {
    var i := PlaceOf(cnt, values, s);
    SizeRange(cnt, i);
    Field(CodeOf(cnt, i), SizeOf(cnt, i))
  }

  /** The front of a word is a shorter word. */
  lemma {:induction false} WordFront(data: seq<byte>, st: Reservoir, p: nat, m: nat, n: nat)
    requires 0 <= st.bits <= 32 && m <= n
    ensures Shr(Word(data, st, p, n), n - m) == Word(data, st, p, m)
    decreases n
  {
    hide StreamBit;
    if m < n {
      WordFront(data, st, p, m, n - 1);
      var w := Word(data, st, p, n - 1);
      assert (2 * w + StreamBit(data, st, p + n - 1)) / 2 == w by { StreamBitSmall(data, st, p + n - 1); }
    }
  }

  lemma StreamBitSmall(data: seq<byte>, st: Reservoir, n: nat)
    requires 0 <= st.bits <= 32
    ensures StreamBit(data, st, n) < 2
  {
  }

  /** The code of a symbol is read as that symbol. */
  lemma SymbolIsRead(data: seq<byte>, st: Reservoir, p: nat, cnt: Counts, values: seq<byte>, s: byte)
    requires |values| == 256 && Total(cnt) <= 256 && HasCode(cnt, values, s) && 0 <= st.bits <= 32
    requires var f := SymbolField(cnt, values, s); Word(data, st, p, f.width) == f.value
    ensures SymbolAt(data, cnt, values, st, p) == Some((s, SymbolField(cnt, values, s).width))
  {
    hide Word, Decode, SizeFrom, First, Offset;
    var i := PlaceOf(cnt, values, s);
    SizeRange(cnt, i);
    WordFront(data, st, p, SizeOf(cnt, i), 16);
    DecodeIffStarts(cnt, Word(data, st, p, 16), i);
  }

  // ---------- magnitudes ----------

  /** How many bits a number takes. */
  function BitLength(n: nat): nat {
    if n == 0 then 0 else 1 + BitLength(n / 2)
  }

  lemma {:induction false} BitLengthIs(n: nat)
    requires n > 0
    ensures BitLength(n) >= 1 && Pow2(BitLength(n) - 1) <= n < Pow2(BitLength(n))
  {
    if n >= 2 { BitLengthIs(n / 2); }
  }

  lemma {:induction false} BitLengthAtMost(n: nat, k: nat)
    requires n < Pow2(k)
    ensures BitLength(n) <= k
  {
    if n > 0 { BitLengthAtMost(n / 2, k - 1); }
  }

  /** The size category of tables F.1 and F.2. */
  function Category(v: int): nat {
    BitLength(if v < 0 then -v else v)
  }

  /** The additional bits: the low bits of the value, or of one less if it is negative. */
  function Additional(v: int): (f: Field) {
    var n := Category(v);
    if v >= 0 then Field(v, n) else NegativeFits(v); Field(v - 1 + Pow2(n), n)
  }

  lemma NegativeFits(v: int)
    requires v < 0
    ensures v - 1 + Pow2(Category(v)) >= 0
  {
    BitLengthIs(-v);
  }

  lemma MagnitudeIsRead(data: seq<byte>, st: Reservoir, p: nat, v: int)
    requires v != 0 && 0 <= st.bits <= 32 && Word(data, st, p, Additional(v).width) == Additional(v).value
    ensures Category(v) >= 1 && MagnitudeAt(data, st, p, Category(v)) == v
  {
    hide Word, BitLength;
    BitLengthIs(if v < 0 then -v else v);
    var n := Category(v);
    assert Pow2(n) == 2 * Pow2(n - 1);
  }

  /** What fits `short` but for its least value has a category of at most 15. */
  lemma CategoryAtMost(v: int)
    requires -32767 <= v <= 32767
    ensures Category(v) <= 15
  {
    Pow2Values();
    BitLengthAtMost(if v < 0 then -v else v, 15);
  }

  // ---------- a block ----------

  /** Coefficients that a baseline block can hold, in zigzag order. */
  predicate Encodable(zz: seq<int>) {
    |zz| == 64 && forall k :: 1 <= k < 64 ==> -32767 <= zz[k] <= 32767
  }

  function AcSymbol(r: nat, v: int): byte
    requires r < 16 && -32767 <= v <= 32767
  {
    CategoryAtMost(v);
    16 * r + Category(v)
  }

  /** Every symbol the block needs has a code. */
  predicate AcCoded(cnt: Counts, values: seq<byte>, zz: seq<int>, k: nat, r: nat)
    requires |values| == 256 && Total(cnt) <= 256 && Encodable(zz) && 1 <= k <= 64
    decreases 64 - k, r
  {
    if k == 64 then r == 0 || HasCode(cnt, values, 0x00)
    else if zz[k] == 0 then AcCoded(cnt, values, zz, k + 1, r + 1)
    else if r > 15 then HasCode(cnt, values, 0xf0) && AcCoded(cnt, values, zz, k, r - 16)
    else HasCode(cnt, values, AcSymbol(r, zz[k])) && AcCoded(cnt, values, zz, k + 1, 0)
  }

  /** Figures F.2 and F.3: coefficients `k` to 63 after `r` zeros. */
  function EncodeAc(cnt: Counts, values: seq<byte>, zz: seq<int>, k: nat, r: nat): seq<Field>
    requires |values| == 256 && Total(cnt) <= 256 && Encodable(zz) && 1 <= k <= 64 && AcCoded(cnt, values, zz, k, r)
    decreases 64 - k, r
  {
    if k == 64 then (if r == 0 then [] else [SymbolField(cnt, values, 0x00)])
    else if zz[k] == 0 then EncodeAc(cnt, values, zz, k + 1, r + 1)
    else if r > 15 then [SymbolField(cnt, values, 0xf0)] + EncodeAc(cnt, values, zz, k, r - 16)
    else [SymbolField(cnt, values, AcSymbol(r, zz[k]))] + ([Additional(zz[k])] + EncodeAc(cnt, values, zz, k + 1, 0))
  }

  /** Coefficients `k` to 63 put in their natural places. */
  function Placed(zz: seq<int>, dequant: seq<nat>, k: nat, coefs: seq<int>): (r: seq<int>)
    requires |zz| == 64 == |dequant| == |coefs| && k <= 64
    ensures |r| == 64
    decreases 64 - k
  {
    if k == 64 then coefs
    else
      var z := Zigzag(k);
      Placed(zz, dequant, k + 1, if zz[k] == 0 then coefs else coefs[z := Dequantized(zz[k], dequant[z])])
  }

  /** What is encoded is read back, to the bit behind it. */
  lemma {:induction false} AcRoundTrip(data: seq<byte>, st: Reservoir, p: nat, cnt: Counts, values: seq<byte>,
                                       zz: seq<int>, dequant: seq<nat>, k: nat, r: nat, coefs: seq<int>)
    requires |values| == 256 && Total(cnt) <= 256 && Encodable(zz) && 1 <= k <= 64 && AcCoded(cnt, values, zz, k, r)
    requires r < k && |dequant| == 64 == |coefs| && 0 <= st.bits <= 32
    requires Holds(data, st, p, EncodeAc(cnt, values, zz, k, r))
    ensures CoefsAt(data, cnt, values, dequant, st, p, k - r, coefs) ==
            Decoded(Placed(zz, dequant, k, coefs), p + Width(EncodeAc(cnt, values, zz, k, r)))
    decreases 64 - k, r
  {
    hide Word, EventAt, Zigzag, Dequantized, SymbolField, Additional, HasCode, Total, Holds, Width;
    if k == 64 {
      NoFields(data, st, p);
      if r > 0 {
        var f := SymbolField(cnt, values, 0x00);
        assert [f] + [] == [f];
        PlainRoundTrip(data, st, p, cnt, values, 0x00, EndOfBlock, []);
      }
    } else if zz[k] == 0 {
      AcRoundTrip(data, st, p, cnt, values, zz, dequant, k + 1, r + 1, coefs);
    } else if r > 15 {
      PlainRoundTrip(data, st, p, cnt, values, 0xf0, ZeroRun, EncodeAc(cnt, values, zz, k, r - 16));
      var q := EventAt(data, cnt, values, st, p).1;
      AcRoundTrip(data, st, q, cnt, values, zz, dequant, k, r - 16, coefs);
    } else {
      CoefficientRoundTrip(data, st, p, cnt, values, zz[k], r, EncodeAc(cnt, values, zz, k + 1, 0));
      var z, q := Zigzag(k), EventAt(data, cnt, values, st, p).1;
      AcRoundTrip(data, st, q, cnt, values, zz, dequant, k + 1, 0, coefs[z := Dequantized(zz[k], dequant[z])]);
    }
  }

  lemma NoFields(data: seq<byte>, st: Reservoir, p: nat)
    requires 0 <= st.bits <= 32
    ensures Width([]) == 0 && Holds(data, st, p, [])
  {
  }

  /** The end of a block, or sixteen zeros. */
  lemma PlainRoundTrip(data: seq<byte>, st: Reservoir, p: nat, cnt: Counts, values: seq<byte>, s: byte, e: Event,
                       rest: seq<Field>)
    requires |values| == 256 && Total(cnt) <= 256 && 0 <= st.bits <= 32 && HasCode(cnt, values, s)
    requires (s == 0x00 && e == EndOfBlock) || (s == 0xf0 && e == ZeroRun)
    requires Holds(data, st, p, [SymbolField(cnt, values, s)] + rest)
    ensures var q := p + Width([SymbolField(cnt, values, s)] + rest) - Width(rest);
            EventAt(data, cnt, values, st, p) == (e, q) && Holds(data, st, q, rest)
  {
    hide Word, SymbolAt, SymbolField, HasCode, Total;
    HoldsFirst(data, st, p, SymbolField(cnt, values, s), rest);
    SymbolIsRead(data, st, p, cnt, values, s);
  }

  /** One coefficient with the zeros before it. */
  lemma CoefficientRoundTrip(data: seq<byte>, st: Reservoir, p: nat, cnt: Counts, values: seq<byte>, v: int, r: nat,
                             rest: seq<Field>)
    requires |values| == 256 && Total(cnt) <= 256 && -32767 <= v <= 32767 && v != 0 && r < 16 && 0 <= st.bits <= 32
    requires HasCode(cnt, values, AcSymbol(r, v))
    requires Holds(data, st, p, [SymbolField(cnt, values, AcSymbol(r, v))] + ([Additional(v)] + rest))
    ensures var (e, q) := EventAt(data, cnt, values, st, p);
            && e == Coefficient(r, v) && Holds(data, st, q, rest)
            && q == p + Width([SymbolField(cnt, values, AcSymbol(r, v))] + ([Additional(v)] + rest)) - Width(rest)
  {
    hide Word, SymbolAt, SymbolField, HasCode, Total, Category, MagnitudeAt;
    CategoryAtMost(v);
    var f, a := SymbolField(cnt, values, AcSymbol(r, v)), Additional(v);
    HoldsFirst(data, st, p, f, [a] + rest);
    SymbolIsRead(data, st, p, cnt, values, AcSymbol(r, v));
    HoldsFirst(data, st, p + f.width, a, rest);
    MagnitudeIsRead(data, st, p + f.width, v);
    assert (16 * r + Category(v)) % 16 == Category(v) && (16 * r + Category(v)) / 16 == r;
  }

  /** Section F.1.2.1: the category of the difference and its additional bits. */
  function EncodeDc(cnt: Counts, values: seq<byte>, diff: int): seq<Field>
    requires |values| == 256 && Total(cnt) <= 256 && -32767 <= diff <= 32767 && DcCoded(cnt, values, diff)
  {
    CategoryAtMost(diff);
    [SymbolField(cnt, values, Category(diff))] + if diff == 0 then [] else [Additional(diff)]
  }

  predicate DcCoded(cnt: Counts, values: seq<byte>, diff: int)
    requires |values| == 256 && Total(cnt) <= 256 && -32767 <= diff <= 32767
  {
    CategoryAtMost(diff);
    HasCode(cnt, values, Category(diff))
  }

  lemma DcRoundTrip(data: seq<byte>, st: Reservoir, cnt: Counts, values: seq<byte>, diff: int, rest: seq<Field>)
    requires |values| == 256 && Total(cnt) <= 256 && -32767 <= diff <= 32767 && DcCoded(cnt, values, diff)
    requires 0 <= st.bits <= 32 && Holds(data, st, 0, EncodeDc(cnt, values, diff) + rest)
    ensures var n := Width(EncodeDc(cnt, values, diff));
            && DifferenceAt(data, cnt, values, st) == Some((diff, n)) && Holds(data, st, n, rest)
            && Width(EncodeDc(cnt, values, diff) + rest) == n + Width(rest)
  {
    hide Word, SymbolAt, SymbolField, HasCode, Total, MagnitudeAt;
    CategoryAtMost(diff);
    var f := SymbolField(cnt, values, Category(diff));
    SymbolWidth(cnt, values, Category(diff));
    if diff == 0 {
      assert [f] + [] == [f] && [f][1..] == [];
      assert Width([f]) == f.width;
      HoldsFirst(data, st, 0, f, rest);
    } else {
      var a := Additional(diff);
      assert ([f] + [a]) + rest == [f] + ([a] + rest);
      HoldsFirst(data, st, 0, f, [a] + rest);
      HoldsFirst(data, st, f.width, a, rest);
      MagnitudeIsRead(data, st, f.width, diff);
      assert ([f] + [a])[1..] == [a] && [a][1..] == [];
      assert Width([a]) == a.width;
      assert Width([f] + [a]) == f.width + a.width;
    }
    SymbolIsRead(data, st, 0, cnt, values, Category(diff));
  }

  lemma SymbolWidth(cnt: Counts, values: seq<byte>, s: byte)
    requires |values| == 256 && Total(cnt) <= 256 && HasCode(cnt, values, s)
    ensures SymbolField(cnt, values, s).width >= 1
  {
    SizeRange(cnt, PlaceOf(cnt, values, s));
  }

  predicate BlockCoded(dc: Counts, dcValues: seq<byte>, ac: Counts, acValues: seq<byte>, diff: int, zz: seq<int>)
    requires |dcValues| == |acValues| == 256 && Total(dc) <= 256 && Total(ac) <= 256
  {
    -32767 <= diff <= 32767 && Encodable(zz) && DcCoded(dc, dcValues, diff) && AcCoded(ac, acValues, zz, 1, 0)
  }

  function EncodeBlock(dc: Counts, dcValues: seq<byte>, ac: Counts, acValues: seq<byte>, diff: int, zz: seq<int>)
      : seq<Field>
    requires |dcValues| == |acValues| == 256 && Total(dc) <= 256 && Total(ac) <= 256
    requires BlockCoded(dc, dcValues, ac, acValues, diff, zz)
  {
    EncodeDc(dc, dcValues, diff) + EncodeAc(ac, acValues, zz, 1, 0)
  }

  /** The coefficients of a block in their natural places, dequantized. */
  function Natural(dc: int, zz: seq<int>, dequant: seq<nat>): (r: seq<int>)
    requires |zz| == 64 == |dequant|
    ensures |r| == 64
  {
    Placed(zz, dequant, 1, DcOnly(dc, dequant[0]))
  }

  /** Reading what the encoder wrote gives back the coefficients and the position behind them, for every difference and
      all coefficients, wherever the block begins. */
  lemma BlockRoundTrip(data: seq<byte>, st: Reservoir, dc: Counts, dcValues: seq<byte>, ac: Counts, acValues: seq<byte>,
                       diff: int, zz: seq<int>, dequant: seq<nat>, pred: int)
    requires |dcValues| == |acValues| == 256 && Total(dc) <= 256 && Total(ac) <= 256 && |dequant| == 64
    requires BlockCoded(dc, dcValues, ac, acValues, diff, zz) && 0 <= st.bits <= 32 && DcFits(pred, diff, dequant[0])
    requires Holds(data, st, 0, EncodeBlock(dc, dcValues, ac, acValues, diff, zz))
    ensures BlockAt(data, dc, dcValues, ac, acValues, dequant, st, pred) ==
            (Decoded(Natural(pred + diff, zz, dequant), Width(EncodeBlock(dc, dcValues, ac, acValues, diff, zz))),
             pred + diff)
  {
    hide Word, Total, Holds, Width, EncodeDc, EncodeAc, Placed, CoefsAt, DifferenceAt, DcOnly;
    DcRoundTrip(data, st, dc, dcValues, diff, EncodeAc(ac, acValues, zz, 1, 0));
    AcRoundTrip(data, st, Width(EncodeDc(dc, dcValues, diff)), ac, acValues, zz, dequant, 1, 0,
                DcOnly(pred + diff, dequant[0]));
  }

  lemma {:induction false} PlacedAt(zz: seq<int>, dequant: seq<nat>, k: nat, coefs: seq<int>, j: nat)
    requires |zz| == 64 == |dequant| == |coefs| && 1 <= k <= 64 && j < 64 && (j >= k ==> coefs[Zigzag(j)] == 0)
    ensures Placed(zz, dequant, k, coefs)[Zigzag(j)] ==
            if j >= k then Dequantized(zz[j], dequant[Zigzag(j)]) else coefs[Zigzag(j)]
    decreases 64 - k
  {
    hide Zigzag;
    if k < 64 {
      if j < k { ZigzagOnce(j, k); } else if k < j { ZigzagOnce(k, j); }
      var z := Zigzag(k);
      var next := if zz[k] == 0 then coefs else coefs[z := Dequantized(zz[k], dequant[z])];
      PlacedAt(zz, dequant, k + 1, next, j);
    }
  }

  /** Every coefficient is at its place in the zigzag order. */
  lemma NaturalAt(dc: int, zz: seq<int>, dequant: seq<nat>, j: nat)
    requires |zz| == 64 == |dequant| && j < 64
    ensures Natural(dc, zz, dequant)[Zigzag(j)] ==
            if j == 0 then dc * dequant[0] else Dequantized(zz[j], dequant[Zigzag(j)])
    ensures FitsShort(zz[j] * dequant[Zigzag(j)]) ==>
              Dequantized(zz[j], dequant[Zigzag(j)]) == zz[j] * dequant[Zigzag(j)]
  {
    hide Placed, Dequantized;
    Dequantizes(zz[j], dequant[Zigzag(j)]);
    assert Zigzag(0) == 0 by { assert Cell(0) == (0, 0); }
    if j > 0 { ZigzagOnce(0, j); }
    PlacedAt(zz, dequant, 1, DcOnly(dc, dequant[0]), j);
  }

  lemma Dequantizes(v: int, q: nat)
    ensures FitsShort(v * q) ==> Dequantized(v, q) == v * q
  {
  }
}
