/** Fields of bits as bytes of entropy-coded data (section F.1.2.3 of ITU-T T.81), and the whole way of a block through
    encoder and decoder. */
module JpegBytes {
  import opened Bits
  import opened Canonical
  import opened JpegCode
  import opened JpegReservoir
  import opened JpegSpec
  import opened JpegEncode
  import opened JpegRun
  import opened JpegEnds

  // ---------- bits to bytes ----------

  /** The bits of a field in the order they are written. */
  function FieldBits(v: nat, n: nat): (b: seq<nat>)
    ensures |b| == n && AreBits(b)
  {
    if n == 0 then [] else FieldBits(v / 2, n - 1) + [v % 2]
  }

  function AllBits(fields: seq<Field>): (b: seq<nat>)
    ensures |b| == Width(fields) && AreBits(b)
  {
    if fields == [] then [] else FieldBits(fields[0].value, fields[0].width) + AllBits(fields[1..])
  }

  /** Bits as a number, the first most significant. */
  function Number(bits: seq<nat>): (v: nat)
    requires AreBits(bits)
    ensures v < Pow2(|bits|)
  {
    if bits == [] then 0 else 2 * Number(bits[..|bits| - 1]) + bits[|bits| - 1]
  }

  predicate AreBits(bits: seq<nat>) {
    forall i :: 0 <= i < |bits| ==> bits[i] < 2
  }

  /** Up to eight bits, those missing at the end being ones. */
  function Octet(bits: seq<nat>): byte
    requires AreBits(bits) && |bits| <= 8
  {
    var all := bits + seq(8 - |bits|, i => 1);
    Pow2Values();
    Number(all)
  }

  function Octets(bits: seq<nat>): (o: seq<byte>)
    requires AreBits(bits)
    ensures |o| == (|bits| + 7) / 8
    decreases |bits|
  {
    if bits == [] then []
    else if |bits| <= 8 then [Octet(bits)]
    else [Octet(bits[..8])] + Octets(bits[8..])
  }

  /** A zero is stuffed behind every 0xff, and a marker follows. */
  function Stuffed(bytes: seq<byte>): seq<byte> {
    if bytes == [] then [0xff, 0xd9]
    else if bytes[0] == 0xff then [0xff, 0x00] + Stuffed(bytes[1..])
    else [bytes[0]] + Stuffed(bytes[1..])
  }

  // ---------- and back ----------

  /** Unstuffing: one byte of the data. */
  lemma NextByte(data: seq<byte>, pos: nat, bytes: seq<byte>)
    requires bytes != [] && pos <= |data| && data[pos..] == Stuffed(bytes)
    ensures var e := EntropyByte(data, pos);
            e.Data? && e.value == bytes[0] && pos < e.pos <= |data| && data[e.pos..] == Stuffed(bytes[1..])
  {
    assert data[pos] == data[pos..][0] == bytes[0];
    StuffedSome(bytes[1..]);
    if bytes[0] == 0xff {
      assert data[pos + 1] == data[pos..][1] == 0x00;
      assert data[pos + 2..] == data[pos..][2..];
    } else {
      assert data[pos + 1..] == data[pos..][1..];
    }
  }

  lemma StuffedSome(bytes: seq<byte>)
    ensures |Stuffed(bytes)| >= 2
  {
  }

  lemma {:induction false} StuffedBytes(data: seq<byte>, pos: nat, bytes: seq<byte>, k: nat)
    requires k < |bytes| && pos <= |data| && data[pos..] == Stuffed(bytes)
    ensures StreamByte(data, pos, false, k) == bytes[k]
    decreases k
  {
    hide EntropyByte;
    NextByte(data, pos, bytes);
    if k > 0 { StuffedBytes(data, EntropyByte(data, pos).pos, bytes[1..], k - 1); }
  }

  lemma {:induction false} StuffedHas(data: seq<byte>, pos: nat, bytes: seq<byte>, k: nat)
    requires k <= |bytes| && pos <= |data| && data[pos..] == Stuffed(bytes)
    ensures HasBytes(data, pos, k)
    decreases k
  {
    hide EntropyByte;
    if k > 0 {
      NextByte(data, pos, bytes);
      StuffedHas(data, EntropyByte(data, pos).pos, bytes[1..], k - 1);
    }
  }

  lemma {:induction false} NumberBit(bits: seq<nat>, i: nat)
    requires AreBits(bits) && i < |bits|
    ensures BitAt(Number(bits), |bits| - 1 - i) == bits[i]
  {
    var x, b := Number(bits[..|bits| - 1]), bits[|bits| - 1];
    LastBit(x, b, |bits| - 1 - i);
    if i < |bits| - 1 { NumberBit(bits[..|bits| - 1], i); }
  }

  lemma OctetBit(bits: seq<nat>, i: nat)
    requires AreBits(bits) && i < |bits| <= 8
    ensures BitAt(Octet(bits), 7 - i) == bits[i]
  {
    NumberBit(bits + seq(8 - |bits|, i => 1), i);
  }

  lemma {:induction false} OctetsBit(bits: seq<nat>, n: nat)
    requires AreBits(bits) && n < |bits|
    ensures BitAt(Octets(bits)[n / 8], 7 - n % 8) == bits[n]
    decreases |bits|
  {
    hide BitAt, Octet;
    if |bits| <= 8 {
      OctetBit(bits, n);
    } else if n < 8 {
      OctetBit(bits[..8], n);
    } else {
      OctetsBit(bits[8..], n - 8);
      EightLess(n);
    }
  }

  lemma EightLess(n: nat)
    requires n >= 8
    ensures (n - 8) / 8 == n / 8 - 1 && (n - 8) % 8 == n % 8
  {
  }

  // ---------- the start of the data ----------

  const FRESH := Reservoir(0, 0, 0, 0xff, false)

  lemma FreshOk()
    ensures Ok(FRESH)
  {
    hide BitAt;
    Pow2Values();
    assert Pow2(32) > 0;
    forall i: nat ensures BitAt(0, i) == 0 { ZeroBit(i); }
  }

  lemma FreshStream(data: seq<byte>, n: nat)
    ensures StreamBit(data, FRESH, n) == BitAt(StreamByte(data, 0, false, n / 8), 7 - n % 8)
  {
    hide BitAt, StreamByte;
  }

  /** The stream begins with the bits that were written. */
  lemma FreshBit(bits: seq<nat>, n: nat)
    requires AreBits(bits) && n < |bits|
    ensures StreamBit(Stuffed(Octets(bits)), FRESH, n) == bits[n]
  {
    hide BitAt, StreamByte, StreamBit, Octets, Stuffed;
    var data := Stuffed(Octets(bits));
    assert data[0..] == data;
    FreshStream(data, n);
    StuffedBytes(data, 0, Octets(bits), n / 8);
    OctetsBit(bits, n);
  }

  /** A field is read as its value. */
  lemma {:induction false} FieldRead(bits: seq<nat>, p: nat, v: nat, n: nat)
    requires AreBits(bits) && p + n <= |bits| && bits[p..p + n] == FieldBits(v, n) && v < Pow2(n)
    ensures Word(Stuffed(Octets(bits)), FRESH, p, n) == v
    decreases n
  {
    hide StreamBit, Octets, Stuffed;
    if n > 0 {
      var f := FieldBits(v, n);
      assert bits[p..p + (n - 1)] == f[..n - 1] == FieldBits(v / 2, n - 1);
      FieldRead(bits, p, v / 2, n - 1);
      assert bits[p + (n - 1)] == bits[p..p + n][n - 1] == v % 2;
      FreshBit(bits, p + n - 1);
    }
  }

  ghost predicate AllFit(fields: seq<Field>) {
    forall i :: 0 <= i < |fields| ==> fields[i].value < Pow2(fields[i].width)
  }

  lemma {:induction false} FieldsRead(bits: seq<nat>, p: nat, fields: seq<Field>)
    requires AreBits(bits) && p <= |bits| && bits[p..] == AllBits(fields) && AllFit(fields)
    ensures Holds(Stuffed(Octets(bits)), FRESH, p, fields)
    decreases |fields|
  {
    hide Word, Octets, Stuffed;
    if fields != [] {
      var f := fields[0];
      assert bits[p..p + f.width] == bits[p..][..f.width] == FieldBits(f.value, f.width);
      FieldRead(bits, p, f.value, f.width);
      assert bits[p + f.width..] == bits[p..][f.width..] == AllBits(fields[1..]);
      FieldsRead(bits, p + f.width, fields[1..]);
    }
  }

  /** What has been written is held by the stream. */
  lemma BytesHold(fields: seq<Field>)
    requires AllFit(fields)
    ensures Holds(Stuffed(Octets(AllBits(fields))), FRESH, 0, fields)
  {
    var bits := AllBits(fields);
    assert bits[0..] == bits;
    FieldsRead(bits, 0, fields);
  }

  // ---------- a block ----------

  lemma SymbolFits(cnt: Counts, values: seq<byte>, s: byte)
    requires |values| == 256 && Total(cnt) <= 256 && HasCode(cnt, values, s) && KraftHolds(cnt)
    ensures var f := SymbolField(cnt, values, s); f.value < Pow2(f.width)
  {
    hide First, Offset, SizeFrom;
    var i := PlaceOf(cnt, values, s);
    SizeRange(cnt, i);
    KraftAt(cnt, SizeOf(cnt, i));
  }

  lemma AdditionalFits(v: int)
    ensures Additional(v).value < Pow2(Additional(v).width)
  {
    if v != 0 { BitLengthIs(if v < 0 then -v else v); }
  }

  lemma {:induction false} AcFits(cnt: Counts, values: seq<byte>, zz: seq<int>, k: nat, r: nat)
    requires |values| == 256 && Total(cnt) <= 256 && Encodable(zz) && 1 <= k <= 64 && AcCoded(cnt, values, zz, k, r)
    requires KraftHolds(cnt)
    ensures AllFit(EncodeAc(cnt, values, zz, k, r))
    decreases 64 - k, r
  {
    hide SymbolField, Additional, HasCode, Total, KraftHolds, Pow2;
    if k == 64 {
      if r > 0 { SymbolFits(cnt, values, 0x00); }
    } else if zz[k] == 0 {
      AcFits(cnt, values, zz, k + 1, r + 1);
    } else if r > 15 {
      SymbolFits(cnt, values, 0xf0);
      AcFits(cnt, values, zz, k, r - 16);
    } else {
      SymbolFits(cnt, values, AcSymbol(r, zz[k]));
      AdditionalFits(zz[k]);
      AcFits(cnt, values, zz, k + 1, 0);
    }
  }

  lemma BlockFits(dc: Counts, dcValues: seq<byte>, ac: Counts, acValues: seq<byte>, diff: int, zz: seq<int>)
    requires |dcValues| == |acValues| == 256 && Total(dc) <= 256 && Total(ac) <= 256
    requires BlockCoded(dc, dcValues, ac, acValues, diff, zz) && KraftHolds(dc) && KraftHolds(ac)
    ensures AllFit(EncodeBlock(dc, dcValues, ac, acValues, diff, zz))
  {
    hide SymbolField, Additional, HasCode, Total, KraftHolds, Pow2, EncodeAc;
    CategoryAtMost(diff);
    SymbolFits(dc, dcValues, Category(diff));
    AdditionalFits(diff);
    AcFits(ac, acValues, zz, 1, 0);
  }

  /** The bytes an encoder writes for a block. */
  function BlockBytes(dc: Counts, dcValues: seq<byte>, ac: Counts, acValues: seq<byte>, diff: int, zz: seq<int>)
      : seq<byte>
    requires |dcValues| == |acValues| == 256 && Total(dc) <= 256 && Total(ac) <= 256
    requires BlockCoded(dc, dcValues, ac, acValues, diff, zz)
  {
    Stuffed(Octets(AllBits(EncodeBlock(dc, dcValues, ac, acValues, diff, zz))))
  }

  /** From bytes to coefficients: with every pair of tables without flagged words, the decoder's run over what the
      encoder wrote gives the coefficients in their natural places and the DC value to carry on. */
  lemma BytesRoundTrip(dc: Counts, dcValues: seq<byte>, ac: Counts, acValues: seq<byte>, diff: int, zz: seq<int>,
                       dequant: seq<nat>, pred: int)
    requires |dcValues| == |acValues| == 256 && Total(dc) <= 256 && Total(ac) <= 256 && |dequant| == 64
    requires BlockCoded(dc, dcValues, ac, acValues, diff, zz) && KraftHolds(dc) && KraftHolds(ac)
    requires Regular(dc) && Regular(ac) && IsInt(pred) && DcFits(pred, diff, dequant[0])
    ensures Ok(FRESH)
    ensures var (b, p) := BlockRun(BlockBytes(dc, dcValues, ac, acValues, diff, zz), dc, dcValues, ac, acValues,
            dequant,
                                   FRESH, pred);
            b.Block? && b.coefs == Natural(pred + diff, zz, dequant) && p == pred + diff
  {
    hide Total, KraftHolds, Regular, EncodeBlock, Natural, BlockCoded, BlockRun, BlockAt, Octets, Stuffed, Ahead, Ok,
         DcFits, AllFit, Holds;
    FreshOk();
    var fields := EncodeBlock(dc, dcValues, ac, acValues, diff, zz);
    var data := BlockBytes(dc, dcValues, ac, acValues, diff, zz);
    BlockFits(dc, dcValues, ac, acValues, diff, zz);
    BytesHold(fields);
    BlockRoundTrip(data, FRESH, dc, dcValues, ac, acValues, diff, zz, dequant, pred);
    assert data[0..] == data;
    StuffedHas(data, 0, Octets(AllBits(fields)), (Width(fields) + 7) / 8);
    ClearBlockIsStream(data, dc, dcValues, ac, acValues, dequant, FRESH, pred);
    var b := BlockRun(data, dc, dcValues, ac, acValues, dequant, FRESH, pred).0;
    var d := BlockAt(data, dc, dcValues, ac, acValues, dequant, FRESH, pred).0;
    assert Agrees(data, FRESH, b, d) && d.Decoded?;
  }
}
