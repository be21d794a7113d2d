/** A baseline JPEG block as annex F of ITU-T T.81 decodes it, read from an endless sequence of bits: the entropy-coded
    data without its stuffing, then zeros from the marker that ends it.  A position is a number of bits. */
module JpegSpec {
  import opened Bits
  import opened Canonical
  import opened JpegCode
  import opened JpegReservoir

  // ---------- zigzag order ----------

  type Position = p: int | 0 <= p < 64

  /** Figure 5 of ITU-T T.81: up and right on even diagonals, down and left on odd ones, along the border in between. */
  function NextCell(r: nat, c: nat): (nat, nat) {
    if (r + c) % 2 == 0 then
      if c == 7 then (r + 1, c) else if r == 0 then (r, c + 1) else (r - 1, c + 1)
    else
      if r == 7 then (r, c + 1) else if c == 0 then (r + 1, c) else (r + 1, c - 1)
  }

  /** Row and column of coefficient `k`. */
  function Cell(k: nat): (nat, nat) {
    if k == 0 then (0, 0) else var (r, c) := Cell(k - 1); NextCell(r, c)
  }

  /** Natural position of coefficient `k`; a run past the end goes to the last one. */
  function Zigzag(k: nat): Position {
    if k >= 64 then 63
    else
      CellPlace(k);
      var (r, c) := Cell(k);
      8 * r + c
  }

  /** The cells on the diagonals before `d`. */
  function Before(d: nat): int {
    if d == 0 then 0 else Before(d - 1) + if d <= 8 then d else 16 - d
  }

  /** Place of a cell in the order. */
  function Place(r: nat, c: nat): int {
    Before(r + c) + (if (r + c) % 2 == 0 then c else r) - Max(0, r + c - 7)
  }

  lemma {:induction false} CellPlace(k: nat)
    requires k < 64
    ensures var (r, c) := Cell(k); r < 8 && c < 8 && Place(r, c) == k
  {
    if k > 0 {
      CellPlace(k - 1);
      var (r, c) := Cell(k - 1);
      LastPlace(r, c);
      NextPlace(r, c);
    }
  }

  lemma LastPlace(r: nat, c: nat)
    requires r < 8 && c < 8 && Place(r, c) < 63
    ensures !(r == 7 && c == 7)
  {
    if r == 7 && c == 7 {
      BeforeLast();
      assert false;
    }
  }

  lemma BeforeLast()
    ensures Before(14) == 63
  {
  }

  lemma NextDiagonal(d: nat)
    ensures Before(d + 1) == Before(d) + if d < 8 then d + 1 else 15 - d
  {
  }

  lemma NextPlace(r: nat, c: nat)
    requires r < 8 && c < 8 && !(r == 7 && c == 7)
    ensures var (s, d) := NextCell(r, c); s < 8 && d < 8 && Place(s, d) == Place(r, c) + 1
  {
    hide Before;
    NextDiagonal(r + c);
  }

  /** A position before the last is not used again later in the block. */
  lemma ZigzagOnce(i: nat, j: nat)
    requires i < j && i < 63
    ensures Zigzag(i) != Zigzag(j)
  {
    hide Place, Cell;
    CellPlace(i);
    var (r, c) := Cell(i);
    if j < 64 {
      CellPlace(j);
      var (s, d) := Cell(j);
      assert Place(r, c) != Place(s, d);
    } else {
      LastPlace(r, c);
    }
  }

  // ---------- the block ----------

  predicate IsInt(x: int) {
    -0x8000_0000 <= x <= 0x7fff_ffff
  }

  predicate FitsShort(x: int) {
    -32768 <= x <= 32767
  }

  /** The conversion to `short`. */
  function Short(x: int): int {
    (x + 32768) % 65536 - 32768
  }

  /** The value of 16 bits in two's complement that is congruent modulo 65536. */
  lemma ShortIs(x: int)
    ensures FitsShort(Short(x)) && (x - Short(x)) % 65536 == 0 && (FitsShort(x) ==> Short(x) == x)
  {
  }

  function Dequantized(v: int, q: nat): int {
    Short(v * q)
  }

  /** EXTEND of figure F.12: the signed value whose `n` magnitude bits are `v`. */
  function Extend(v: nat, n: nat): int
    requires n >= 1
  {
    if v < Pow2(n - 1) then v - Pow2(n) + 1 else v
  }

  /** The symbol whose code the bits after the first `p` start with, and the length of that code. */
  function SymbolAt(data: seq<byte>, cnt: Counts, values: seq<byte>, st: Reservoir, p: nat): Option<(byte, nat)>
    requires |values| == 256 && 0 <= st.bits <= 32
  {
    match Decode(cnt, Word(data, st, p, 16), 1)
    case None => None
    case Some((i, len)) => if i < 256 then Some((values[i], len)) else None
  }

  function MagnitudeAt(data: seq<byte>, st: Reservoir, p: nat, n: nat): int
    requires 0 <= st.bits <= 32 && n >= 1
  {
    Extend(Word(data, st, p, n), n)
  }

  datatype Event = Bad | EndOfBlock | ZeroRun | Coefficient(run: nat, value: int)

  /** What a symbol without magnitude says. */
  function Plain(rs: byte): Event {
    if rs == 0xf0 then ZeroRun else EndOfBlock
  }

  /** The symbol after the first `p` bits with its magnitude if it has one, and the position after both. */
  function EventAt(data: seq<byte>, cnt: Counts, values: seq<byte>, st: Reservoir, p: nat): (r: (Event, nat))
    requires |values| == 256 && 0 <= st.bits <= 32
    ensures r.0.Coefficient? ==> r.0.run < 16
  {
    match SymbolAt(data, cnt, values, st, p)
    case None => (Bad, p)
    case Some((rs, len)) =>
      if rs % 16 == 0 then (Plain(rs), p + len)
      else (Coefficient(rs / 16, MagnitudeAt(data, st, p + len, rs % 16)), p + len + rs % 16)
  }

  /** The coefficients and the position after the block. */
  datatype Decoded = Corrupt | Decoded(coefs: seq<int>, used: nat)

  /** Coefficients `k` to 63. */
  function CoefsAt(data: seq<byte>, cnt: Counts, values: seq<byte>, dequant: seq<nat>, st: Reservoir, p: nat, k: nat,
                   coefs: seq<int>): Decoded
    requires |values| == 256 && |dequant| == 64 == |coefs| && 0 <= st.bits <= 32
    decreases 64 - k
  {
    if k >= 64 then Decoded(coefs, p)
    else
      var (e, q) := EventAt(data, cnt, values, st, p);
      match e
      case Bad => Corrupt
      case EndOfBlock => Decoded(coefs, q)
      case ZeroRun => CoefsAt(data, cnt, values, dequant, st, q, k + 16, coefs)
      case Coefficient(run, v) =>
        var z := Zigzag(k + run);
        CoefsAt(data, cnt, values, dequant, st, q, k + run + 1, coefs[z := Dequantized(v, dequant[z])])
  }

  /** The DC difference, and the position after it. */
  function DifferenceAt(data: seq<byte>, cnt: Counts, values: seq<byte>, st: Reservoir): Option<(int, nat)>
    requires |values| == 256 && 0 <= st.bits <= 32
  {
    match SymbolAt(data, cnt, values, st, 0)
    case None => None
    case Some((t, len)) =>
      if t > 15 then None
      else Some((if t == 0 then 0 else MagnitudeAt(data, st, len, t), len + t))
  }

  /** The DC value and its dequantized value must fit an `int` and a `short`. */
  predicate DcFits(pred: int, diff: int, q: nat) {
    IsInt(pred + diff) && FitsShort((pred + diff) * q)
  }

  /** A block before its AC coefficients. */
  function DcOnly(dc: int, q: nat): (r: seq<int>)
    ensures |r| == 64
  {
    var zeros: seq<int> := Zeros(64);
    zeros[0 := dc * q]
  }

  /** The DC value carried to the next block, which is updated even if dequantizing it then overflows. */
  function Carried(pred: int, diff: int): int {
    if IsInt(pred + diff) then pred + diff else pred
  }

  /** The whole block from the start of the stream, and the DC value carried on. */
  function BlockAt(data: seq<byte>, dc: Counts, dcValues: seq<byte>, ac: Counts, acValues: seq<byte>, dequant: seq<nat>,
                   st: Reservoir, pred: int): (Decoded, int)
    requires |dcValues| == |acValues| == 256 && |dequant| == 64 && 0 <= st.bits <= 32
  {
    match DifferenceAt(data, dc, dcValues, st)
    case None => (Corrupt, pred)
    case Some((diff, p)) =>
      if !DcFits(pred, diff, dequant[0]) then (Corrupt, Carried(pred, diff))
      else (CoefsAt(data, ac, acValues, dequant, st, p, 1, DcOnly(pred + diff, dequant[0])), pred + diff)
  }
}
