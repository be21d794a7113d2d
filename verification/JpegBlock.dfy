/** A baseline JPEG block: the DC difference, then the AC coefficients in zigzag order
    (`stbi__jpeg_decode_block`). */
module JpegBlock {
  import opened Bits
  import opened Canonical
  import opened JpegCode
  import opened JpegHuffman
  import opened JpegReservoir
  import opened JpegSpec
  import opened JpegDecode
  import opened JpegAc
  import opened JpegRun
  import opened JpegEnds

  // ---------- the order of the coefficients ----------

  const ROW0: seq<Position> := [0, 1, 8, 16, 9, 2, 3, 10, 17, 24, 32, 25, 18, 11, 4, 5]
  const ROW1: seq<Position> := [12, 19, 26, 33, 40, 48, 41, 34, 27, 20, 13, 6, 7, 14, 21, 28]
  const ROW2: seq<Position> := [35, 42, 49, 56, 57, 50, 43, 36, 29, 22, 15, 23, 30, 37, 44, 51]
  const ROW3: seq<Position> := [58, 59, 52, 45, 38, 31, 39, 46, 53, 60, 61, 54, 47, 55, 62, 63]
  const SPARE: seq<Position> := [63, 63, 63, 63, 63, 63, 63, 63, 63, 63, 63, 63, 63, 63, 63]

  /** `stbi__jpeg_dezigzag`, with 15 spare entries for runs past the end. */
  const DEZIGZAG := ROW0 + ROW1 + ROW2 + ROW3 + SPARE

  /** Each entry is the cell after that of the entry before. */
  predicate Follows(k: nat)
    requires 1 <= k < 64
  {
    var (r, c) := NextCell(DEZIGZAG[k - 1] / 8, DEZIGZAG[k - 1] % 8);
    8 * r + c == DEZIGZAG[k]
  }

  lemma Follows8(k: nat)
    requires 0 < k <= 8
    ensures Follows(k)
  {
  }

  lemma Follows16(k: nat)
    requires 8 < k <= 16
    ensures Follows(k)
  {
  }

  lemma Follows24(k: nat)
    requires 16 < k <= 24
    ensures Follows(k)
  {
  }

  lemma Follows32(k: nat)
    requires 24 < k <= 32
    ensures Follows(k)
  {
  }

  lemma Follows40(k: nat)
    requires 32 < k <= 40
    ensures Follows(k)
  {
  }

  lemma Follows48(k: nat)
    requires 40 < k <= 48
    ensures Follows(k)
  {
  }

  lemma Follows56(k: nat)
    requires 48 < k <= 56
    ensures Follows(k)
  {
  }

  lemma Follows63(k: nat)
    requires 56 < k <= 63
    ensures Follows(k)
  {
  }

  /** The table walks the diagonals. */
  lemma DezigzagTable(k: nat)
    requires k < 79
    ensures DEZIGZAG[k] == Zigzag(k)
  {
    hide Cell;
    if k < 64 { Walk(k); }
  }

  lemma {:induction false} Walk(k: nat)
    requires k < 64
    ensures DEZIGZAG[k] == Zigzag(k)
  {
    hide NextCell, Zigzag;
    if k > 0 {
      Walk(k - 1);
      NextPosition(k);
      TableFollows(k);
    } else {
      FirstPosition();
    }
  }

  lemma FirstPosition()
    ensures Zigzag(0) == 0
  {
    assert Cell(0) == (0, 0);
  }

  lemma NextPosition(k: nat)
    requires 0 < k < 64
    ensures var (r, c) := NextCell(Zigzag(k - 1) / 8, Zigzag(k - 1) % 8); Zigzag(k) == 8 * r + c
  {
    hide NextCell, Place;
    CellPlace(k - 1);
    CellPlace(k);
    var (r, c) := Cell(k - 1);
    CellOf(r, c);
  }

  lemma CellOf(r: nat, c: nat)
    requires c < 8
    ensures (8 * r + c) / 8 == r && (8 * r + c) % 8 == c
  {
  }

  lemma TableFollows(k: nat)
    requires 1 <= k < 64
    ensures Follows(k)
  {
    hide Follows;
    if k <= 32 {
      if k <= 8 { Follows8(k); } else if k <= 16 { Follows16(k); }
      if 16 < k <= 24 { Follows24(k); } else if k > 24 { Follows32(k); }
    } else {
      if k <= 40 { Follows40(k); } else if k <= 48 { Follows48(k); }
      if 48 < k <= 56 { Follows56(k); } else if k > 56 { Follows63(k); }
    }
  }

  // ---------- checks for overflow ----------

  /** `stbi__addints_valid`: both sides of each comparison stay in range. */
  predicate AddIntsValid(a: int, b: int) {
    if (a >= 0) != (b >= 0) then true
    else if a < 0 && b < 0 then a >= -0x8000_0000 - b
    else a <= 0x7fff_ffff - b
  }

  lemma AddIntsExact(a: int, b: int)
    requires IsInt(a) && IsInt(b)
    ensures AddIntsValid(a, b) <==> IsInt(a + b)
  {
  }

  /** C's division, which truncates toward zero. */
  function Quotient(a: int, b: int): int
    requires b != 0
  {
    var x, y := if a < 0 then -a else a, if b < 0 then -b else b;
    if (a >= 0) == (b > 0) then x / y else -(x / y)
  }

  predicate Mul2ShortsValid(a: int, b: int) {
    if b == 0 || b == -1 then true
    else if (a >= 0) == (b >= 0) then a <= Quotient(32767, b)
    else if b < 0 then a <= Quotient(-32768, b)
    else a >= Quotient(-32768, b)
  }

  lemma QuotientBound(n: nat, a: nat, b: nat)
    requires b > 0
    ensures a <= n / b <==> a * b <= n
  {
    var q := n / b;
    if a <= q {
      MulMonotone(b, a, q);
    } else {
      MulMonotone(b, q + 1, a);
    }
  }

  /** The factors for which the check tells whether the product fits. */
  predicate Mul2ShortsExactFor(a: int, b: int) {
    || b >= 0
    || (b == -1 && -32767 <= a <= 32768)
    || (b < -1 && a >= 0)
    || (b < -1 && a < 0 && -a == 32767 / -b)
  }

  /** The check is exact for the factors the decoder passes, which are not negative, and for some others; `b == -1` lets
      everything through, and with two negative factors the comparison is the wrong way round. */
  lemma Mul2ShortsExact(a: int, b: int)
    ensures (Mul2ShortsValid(a, b) <==> FitsShort(a * b)) <==> Mul2ShortsExactFor(a, b)
  {
    if b > 0 {
      Mul2ShortsPositive(a, b);
    } else if b < -1 {
      Mul2ShortsNegative(a, -b);
      assert a * b == -(a * -b);
    }
  }

  /** It refuses a product of 2, and lets through ones of 65536 and -40000. */
  lemma Mul2ShortsWrong()
    ensures !Mul2ShortsValid(-1, -2) && Mul2ShortsValid(-32768, -2) && Mul2ShortsValid(40000, -1)
  {
  }

  lemma Mul2ShortsPositive(a: int, b: nat)
    requires b > 0
    ensures Mul2ShortsValid(a, b) <==> FitsShort(a * b)
  {
    if a >= 0 {
      QuotientBound(32767, a, b);
      MulMonotone(b, 0, a);
    } else {
      QuotientBound(32768, -a, b);
      MulMonotone(b, a, 0);
      assert (-a) * b == -(a * b);
    }
  }

  lemma Mul2ShortsNegative(a: int, n: nat)
    requires n > 1
    ensures a >= 0 ==> (Mul2ShortsValid(a, 0 - n) <==> FitsShort(-(a * n)))
    ensures a < 0 ==> (Mul2ShortsValid(a, 0 - n) <==> -a >= 32767 / n) && (FitsShort(-(a * n)) <==> -a <= 32767 / n)
  {
    if a >= 0 {
      QuotientBound(32768, a, n);
      MulMonotone(n, 0, a);
    } else {
      QuotientBound(32767, -a, n);
      MulMonotone(n, a, 0);
      assert (-a) * n == -(a * n);
    }
  }

  // ---------- the decoder ----------

  /** The method's result and the state it leaves are what the stream holds. */
  ghost predicate Matches(ok: bool, coefs: array<int>, j: JpegStream, st: Reservoir, d: Decoded)
    reads j, coefs
  {
    ok == d.Decoded? && (ok ==> coefs[..] == d.coefs && Ahead(j.data, st, d.used, j.State()))
  }

  /** The AC loop, most coefficients of which come from the fused table. */
  method RunAc(j: JpegStream, coefs: array<int>, h: HuffmanTable, fac: array<int>, dequant: seq<nat>, ghost cnt: Counts)
      returns (ok: bool)
    requires h.Built(cnt) && Ok(j.State()) && coefs.Length == 64 == |dequant|
    requires fac.Length == 512 && forall i: nat :: i < 512 ==> fac[i] == FusedEntry(cnt, h.values[..], i)
    requires coefs != fac && coefs != h.delta
    modifies j, coefs
    ensures var b := AcRun(j.data, cnt, h.values[..], dequant, old(j.State()), 1, old(coefs[..]));
            ok == b.Block? && (ok ==> coefs[..] == b.coefs && j.State() == b.st)
  {
    hide Ok, Step, FusedEntry, Filled, Zigzag, Dequantized, KraftHolds, Total, FlaggedNext, EventAt, Overrun, Cut,
         Ahead;
    hide FastRight, SizesRight, CodesRight, LengthsRight;
    ghost var b := AcRun(j.data, cnt, h.values[..], dequant, j.State(), 1, coefs[..]);
    var k: nat := 1;
    while k < 64
      invariant h.Built(cnt) && Ok(j.State()) && k <= 80 && h.values[..] == old(h.values[..])
      invariant forall i: nat :: i < 512 ==> fac[i] == FusedEntry(cnt, h.values[..], i)
      invariant b == AcRun(j.data, cnt, h.values[..], dequant, j.State(), k, coefs[..])
      decreases 64 - k
    {
      StepOk(j.data, cnt, h.values[..], j.State());
      var e := AcStep(j, fac, h, cnt);
      match e {
        case Bad => return false;
        case EndOfBlock => return true;
        case ZeroRun => k := k + 16;
        case Coefficient(run, v) =>
          k := k + run;
          DezigzagTable(k);
          var p := DEZIGZAG[k];
          coefs[p] := Dequantized(v, dequant[p]);
          k := k + 1;
      }
    }
    ok := true;
  }

  /** The AC loop against the stream. */
  method DecodeAc(j: JpegStream, coefs: array<int>, h: HuffmanTable, fac: array<int>, dequant: seq<nat>,
                  ghost cnt: Counts)
      returns (ok: bool)
    requires h.Built(cnt) && Ok(j.State()) && coefs.Length == 64 == |dequant|
    requires fac.Length == 512 && forall i: nat :: i < 512 ==> fac[i] == FusedEntry(cnt, h.values[..], i)
    requires coefs != fac && coefs != h.delta
    modifies j, coefs
    ensures var b := AcRun(j.data, cnt, h.values[..], dequant, old(j.State()), 1, old(coefs[..]));
            ok == b.Block? && (ok ==> coefs[..] == b.coefs && j.State() == b.st)
    ensures AcDeparture(j.data, cnt, h.values[..], old(j.State()), 1).Never? ==>
              Matches(ok, coefs, j, old(j.State()),
                      CoefsAt(j.data, cnt, h.values[..], dequant, old(j.State()), 0, 1, old(coefs[..])))
  {
    hide Ok, FusedEntry, KraftHolds, Total, AcRun, AcDeparture, CoefsAt, Ahead;
    hide FastRight, SizesRight, CodesRight, LengthsRight;
    ghost var st, values := j.State(), h.values[..];
    BuiltTotal(h, cnt);
    OkBits(st);
    SelfAhead(j.data, st);
    AcFollowsStream(j.data, cnt, values, dequant, st, 0, st, 1, coefs[..]);
    ok := RunAc(j, coefs, h, fac, dequant, cnt);
    assert h.values[..] == values;
  }

  lemma DifferenceInt(data: seq<byte>, st: Reservoir, n: nat)
    requires Ok(st) && 1 <= n <= 15
    ensures 0 <= st.bits && IsInt(Received(data, st, n).0)
  {
    hide Refill, Shr, Drop, Pow2;
    if st.bits < n { RefillStream(data, st, 0); }
    var s := Filled(data, st, n);
    ShrBound(s.buffer, 32 - n, n);
    Pow2Values();
    Pow2Monotone(n, 16);
    Pow2Monotone(n - 1, 16);
  }

  /** The DC difference, or a symbol that is not one. */
  method DecodeDc(j: JpegStream, hdc: HuffmanTable, ghost dc: Counts) returns (ok: bool, diff: int)
    requires hdc.Built(dc) && Ok(j.State())
    modifies j
    ensures var (e, t) := DcRun(j.data, dc, hdc.values[..], old(j.State()));
            ok == e.Some? && (ok ==> diff == e.value && j.State() == t)
    ensures ok ==> Ok(j.State()) && IsInt(diff)
  {
    hide Ok, Flagged, Refill, KraftHolds, Total, Read, Received, Ahead, Word, FastRight, SizesRight, CodesRight,
         LengthsRight;
    ghost var st := j.State();
    ReadyReadsStream(j.data, st);
    if j.codeBits < 16 { j.GrowBuffer(); }
    ReadOk(dc, hdc.values[..], Ready(j.data, st));
    var t := j.HuffDecode(hdc, dc);
    if t < 0 || t > 15 {
      return false, 0;
    }
    diff := 0;
    if t != 0 {
      ReceivedOk(j.data, j.State(), t);
      DifferenceInt(j.data, j.State(), t);
      diff := j.ExtendReceive(t);
    }
    ok := true;
  }

  /** The block as a run on the reservoir. */
  method RunBlock(j: JpegStream, coefs: array<int>, hdc: HuffmanTable, hac: HuffmanTable, fac: array<int>,
                  dequant: seq<nat>, pred: int, ghost dc: Counts, ghost ac: Counts) returns (ok: bool, pred': int)
    requires hdc.Built(dc) && hac.Built(ac) && Ok(j.State()) && coefs.Length == 64 == |dequant| && IsInt(pred)
    requires fac.Length == 512 && forall i: nat :: i < 512 ==> fac[i] == FusedEntry(ac, hac.values[..], i)
    requires coefs != fac && coefs != hac.delta && coefs != hdc.delta
    modifies j, coefs
    ensures var (b, p) := BlockRun(j.data, dc, hdc.values[..], ac, hac.values[..], dequant, old(j.State()), pred);
            ok == b.Block? && pred' == p && (ok ==> coefs[..] == b.coefs && j.State() == b.st)
  {
    hide Ok, FusedEntry, KraftHolds, Total, AcRun, DcRun, FlaggedNext, AcDeparture, CoefsAt, Matches;
    hide FastRight, SizesRight, CodesRight, LengthsRight, Mul2ShortsValid;
    pred' := pred;
    var read, diff := DecodeDc(j, hdc, dc);
    if !read {
      return false, pred';
    }
    Clear(coefs);
    AddIntsExact(pred, diff);
    if !AddIntsValid(pred, diff) {
      return false, pred';
    }
    pred' := pred + diff;
    Mul2ShortsExact(pred', dequant[0]);
    if !Mul2ShortsValid(pred', dequant[0]) {
      return false, pred';
    }
    coefs[0] := Dequantized(pred', dequant[0]);
    ok := DecodeAc(j, coefs, hac, fac, dequant, ac);
  }

  /** A block against the stream: all of it, and all of its failures, if it is clear of the marker and the tables are
      regular, and otherwise exactly unless the loop leaves the stream. */
  method DecodeBlock(j: JpegStream, coefs: array<int>, hdc: HuffmanTable, hac: HuffmanTable, fac: array<int>,
                     dequant: seq<nat>, pred: int, ghost dc: Counts, ghost ac: Counts) returns (ok: bool, pred': int)
    requires hdc.Built(dc) && hac.Built(ac) && Ok(j.State()) && coefs.Length == 64 == |dequant| && IsInt(pred)
    requires fac.Length == 512 && forall i: nat :: i < 512 ==> fac[i] == FusedEntry(ac, hac.values[..], i)
    requires coefs != fac && coefs != hac.delta && coefs != hdc.delta
    modifies j, coefs
    ensures var (b, p) := BlockRun(j.data, dc, hdc.values[..], ac, hac.values[..], dequant, old(j.State()), pred);
            ok == b.Block? && pred' == p && (ok ==> coefs[..] == b.coefs && j.State() == b.st)
    ensures var (d, p) := BlockAt(j.data, dc, hdc.values[..], ac, hac.values[..], dequant, old(j.State()), pred);
            Regular(dc) && Regular(ac) && ClearOfMarker(j.data, old(j.State()), d) ==>
              Matches(ok, coefs, j, old(j.State()), d) && pred' == p
    ensures var (d, p) := BlockAt(j.data, dc, hdc.values[..], ac, hac.values[..], dequant, old(j.State()), pred);
            var w := BlockDeparture(j.data, dc, hdc.values[..], ac, hac.values[..], dequant, old(j.State()), pred);
            w.Never? || Shows(w, dequant, pred) ==>
              (w.Never? <==> Matches(ok, coefs, j, old(j.State()), d) && pred' == p)
  {
    hide Ok, FusedEntry, KraftHolds, Total, BlockRun, FlaggedNext, BlockAt, BlockDeparture, Ahead, Shows, Regular,
         ClearOfMarker;
    hide FastRight, SizesRight, CodesRight, LengthsRight;
    ghost var st := j.State();
    OkBits(st);
    BuiltTotal(hdc, dc);
    BuiltTotal(hac, ac);
    ghost var dcValues, acValues := hdc.values[..], hac.values[..];
    BlockFollowsStream(j.data, dc, dcValues, ac, acValues, dequant, st, pred);
    ghost var clear := BlockAt(j.data, dc, dcValues, ac, acValues, dequant, st, pred).0;
    if Regular(dc) && Regular(ac) && ClearOfMarker(j.data, st, clear) {
      ClearBlockIsStream(j.data, dc, dcValues, ac, acValues, dequant, st, pred);
    }
    ok, pred' := RunBlock(j, coefs, hdc, hac, fac, dequant, pred, dc, ac);
    assert hdc.values[..] == dcValues && hac.values[..] == acValues;
    ghost var (b, r) := BlockRun(j.data, dc, dcValues, ac, acValues, dequant, st, pred);
    ghost var (d, q) := BlockAt(j.data, dc, dcValues, ac, acValues, dequant, st, pred);
    ghost var w := BlockDeparture(j.data, dc, dcValues, ac, acValues, dequant, st, pred);
    assert pred' == r && (Matches(ok, coefs, j, st, d) <==> Agrees(j.data, st, b, d));
    assert w.Never? ==> Agrees(j.data, st, b, d) && r == q;
    assert !w.Never? && Shows(w, dequant, pred) ==> !(Agrees(j.data, st, b, d) && r == q);
  }

  method Clear(coefs: array<int>)
    modifies coefs
    ensures coefs[..] == Zeros(coefs.Length)
  {
    for i := 0 to coefs.Length
      invariant forall k :: 0 <= k < i ==> coefs[k] == 0
    {
      coefs[i] := 0;
    }
  }
}
