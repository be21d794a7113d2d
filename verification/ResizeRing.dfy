/** Vertical resampling by gathering: input lines pass through a ring of a few scanlines, each
    decoded once, and every output row is blended from those in its window. */
module ResizeRing {
  import opened Bits

  type Line = seq<real>

  /** The input lines `n0` to `n1` that one output row is made of. */
  datatype Window = Window(n0: int, n1: int)

  /** No window of the rows from `start` on is wider than the ring, begins before the first one, or needs a line that
      lies a whole ring or more behind the end of an earlier window. */
  ghost predicate WindowsFit(windows: seq<Window>, start: nat, end: nat, entries: nat)
    requires start < end <= |windows|
  {
    && (forall y :: start <= y < end ==> windows[start].n0 <= windows[y].n0 <= windows[y].n1 < windows[y].n0 + entries)
    && (forall y, z :: start <= z < y < end ==> windows[z].n1 < windows[y].n0 + entries)
  }

  /** So it is when windows fit the ring and their first lines never go back. */
  lemma MonotoneWindowsFit(windows: seq<Window>, start: nat, end: nat, entries: nat)
    requires start < end <= |windows|
    requires forall y :: start <= y < end ==> windows[y].n0 <= windows[y].n1 < windows[y].n0 + entries
    requires forall y, z :: start <= z < y < end ==> windows[z].n0 <= windows[y].n0
    ensures WindowsFit(windows, start, end, entries)
  {
  }

  /** Line `n` after both of what is done to it before it enters the ring. */
  ghost function RingLine(decode: int -> Line, resample: Line -> Line, verticalFirst: bool, n: int): Line {
    if verticalFirst then decode(n) else resample(decode(n))
  }

  // ---------- blending ----------

  /** Pixel `x` of the blend of the first `count` lines from `n0` on. */
  ghost function Blend(coeffs: seq<real>, line: int -> Line, n0: int, count: nat, x: nat): real
    requires count <= |coeffs| && forall n :: x < |line(n)|
  {
    if count == 0 then 0.0 else Blend(coeffs, line, n0, count - 1, x) + coeffs[count - 1] * line(n0 + count - 1)[x]
  }

  /** Each coefficient weighs its own line. */
  lemma {:induction false} BlendOne(coeffs: seq<real>, line: int -> Line, n0: int, count: nat, x: nat, j: nat)
    requires count <= |coeffs| && forall n :: x < |line(n)|
    requires forall i :: 0 <= i < count && i != j ==> coeffs[i] == 0.0
    ensures Blend(coeffs, line, n0, count, x) == if j < count then coeffs[j] * line(n0 + j)[x] else 0.0
  {
    if count > 0 { BlendOne(coeffs, line, n0, count - 1, x, j); }
  }

  /** And the blend is their sum. */
  lemma {:induction false} BlendSum(a: seq<real>, b: seq<real>, c: seq<real>, line: int -> Line, n0: int, count: nat,
                                    x: nat)
    requires count <= |a| == |b| == |c| && forall n :: x < |line(n)|
    requires forall i :: 0 <= i < count ==> c[i] == a[i] + b[i]
    ensures Blend(c, line, n0, count, x) == Blend(a, line, n0, count, x) + Blend(b, line, n0, count, x)
  {
    if count > 0 {
      BlendSum(a, b, c, line, n0, count - 1, x);
      var p := line(n0 + count - 1)[x];
      assert c[count - 1] * p == a[count - 1] * p + b[count - 1] * p;
    }
  }

  /** The sum over a few lines at hand. */
  function Dot(coeffs: seq<real>, k: nat, inputs: seq<Line>, x: nat, count: nat): real
    requires count <= |inputs| && k + count <= |coeffs| && forall i :: 0 <= i < |inputs| ==> x < |inputs[i]|
  {
    if count == 0 then 0.0 else Dot(coeffs, k, inputs, x, count - 1) + coeffs[k + count - 1] * inputs[count - 1][x]
  }

  lemma {:induction false} BlendChunk(coeffs: seq<real>, line: int -> Line, n0: int, k: nat, inputs: seq<Line>, x: nat,
                                      count: nat)
    requires k + count <= |coeffs| && count <= |inputs| && forall n :: x < |line(n)|
    requires forall i :: 0 <= i < |inputs| ==> inputs[i] == line(n0 + k + i)
    ensures forall i :: 0 <= i < |inputs| ==> x < |inputs[i]|
    ensures Blend(coeffs, line, n0, k + count, x) == Blend(coeffs, line, n0, k, x) + Dot(coeffs, k, inputs, x, count)
  {
    if count > 0 {
      BlendChunk(coeffs, line, n0, k, inputs, x, count - 1);
      assert inputs[count - 1] == line(n0 + k + (count - 1));
    }
  }

  // ---------- slots ----------

  /** Lines fewer than `m` apart have different slots. */
  lemma SlotsDiffer(a: nat, b: nat, m: nat)
    requires a < b < a + m
    ensures a % m != b % m
  {
    var p, q := a / m, b / m;
    if a % m == b % m {
      assert (q - p) * m == b - a;
      if q <= p {
        MulMonotone(m, q - p, 0);
      } else {
        MulMonotone(m, 1, q - p);
      }
    }
  }

  lemma SpotsDiffer(a: nat, b: nat, m: nat)
    requires a < b < a + m
    ensures Remainder(a, m) != Remainder(b, m)
  {
    SlotsDiffer(a, b, m);
  }

  /** Lines `first` to `last` are in the ring, where counting from line `base` puts them. */
  ghost predicate Resident(ring: seq<Line>, base: int, first: int, last: int, line: int -> Line)
    requires base <= first && |ring| > 0
  {
    forall n :: first <= n <= last ==> ring[Remainder(n - base, |ring|)] == line(n)
  }

  /** Storing the next line disturbs none of those fewer than a ring behind it. */
  lemma ResidentNext(ring: seq<Line>, base: int, first: int, last: int, line: int -> Line)
    requires base <= first <= last + 1 && last + 1 - first < |ring| && Resident(ring, base, first, last, line)
    ensures Resident(ring[Remainder(last + 1 - base, |ring|) := line(last + 1)], base, first, last + 1, line)
  {
    var after := ring[Remainder(last + 1 - base, |ring|) := line(last + 1)];
    hide Remainder;
    forall n | first <= n <= last + 1 ensures after[Remainder(n - base, |ring|)] == line(n) {
      if n <= last { SpotsDiffer(n - base, last + 1 - base, |ring|); }
    }
  }

  lemma ResidentLater(ring: seq<Line>, base: int, first: int, last: int, line: int -> Line)
    requires base <= first && |ring| > 0 && Resident(ring, base, first, last, line)
    ensures Resident(ring, base, first + 1, last, line)
  {
  }

  lemma NothingResident(ring: seq<Line>, base: int, line: int -> Line)
    requires |ring| > 0
    ensures Resident(ring, base, base, base - 1, line)
  {
  }

  /** The lines from `a` to `b - 1` in order. */
  ghost function Run(a: int, b: int): seq<int>
    decreases b - a
  {
    if b <= a then [] else Run(a, b - 1) + [b - 1]
  }

  lemma RunNext(a: int, b: int)
    requires a <= b
    ensures Run(a, b + 1) == Run(a, b) + [b]
  {
  }

  class SplitInfo {
    const entries: nat
    const ring: array<Line>
    var beginIndex: nat
    var firstScanline: int
    var lastScanline: int
    ghost var base: int
    ghost var decoded: seq<int>

    constructor (n: nat)
      requires n > 0
      ensures entries == n && ring.Length == n && fresh(ring)
    {
      entries := n;
      ring := new Line[n];
      beginIndex, firstScanline, lastScanline := 0, 0, -1;
    }

    /** The last lines decoded, at most as many as there are slots, each in the slot the formula names; and since
        the start every line up to the last has been decoded once, in order. */
    ghost predicate Valid(line: int -> Line)
      reads this, ring
    {
      && ring.Length == entries > 0
      && base <= lastScanline + 1 && firstScanline == Max(base, lastScanline + 1 - entries)
      && beginIndex == firstScanline - base
      && decoded == Run(base, lastScanline + 1)
      && Resident(ring[..], base, firstScanline, lastScanline, line)
    }

    /** `stbir__get_ring_buffer_scanline`'s index. */
    function Slot(n: int): nat
      requires entries > 0 && beginIndex + n - firstScanline >= 0
      reads this
    {
      (beginIndex + n - firstScanline) % entries
    }

    /** The oldest line makes room if all slots are taken. */
    method Evict(ghost line: int -> Line)
      requires Valid(line)
      modifies `firstScanline, `beginIndex
      ensures base <= firstScanline <= lastScanline + 1 && beginIndex == firstScanline - base
      ensures lastScanline + 1 - firstScanline < entries && firstScanline == Max(base, lastScanline + 2 - entries)
      ensures Resident(ring[..], base, firstScanline, lastScanline, line)
    {
      hide Resident;
      if lastScanline - firstScanline + 1 == entries {
        ResidentLater(ring[..], base, firstScanline, lastScanline, line);
        firstScanline := firstScanline + 1;
        beginIndex := beginIndex + 1;
      }
    }

    /** The next input line: the oldest one makes room if all slots are taken. */
    method Load(decode: int -> Line, resample: Line -> Line, verticalFirst: bool, ghost line: int -> Line)
      requires Valid(line) && line(lastScanline + 1) == RingLine(decode, resample, verticalFirst, lastScanline + 1)
      modifies this, ring
      ensures Valid(line) && base == old(base) && lastScanline == old(lastScanline) + 1
    {
      hide Resident, Run;
      ghost var before := ring[..];
      RunNext(base, lastScanline + 1);
      Evict(line);
      ResidentNext(before, base, firstScanline, lastScanline, line);
      if verticalFirst {
        lastScanline := lastScanline + 1;
        ring[Slot(lastScanline)] := decode(lastScanline);
      } else {
        var decodeBuffer := decode(lastScanline + 1);
        lastScanline := lastScanline + 1;
        ring[Slot(lastScanline)] := resample(decodeBuffer);
      }
      decoded := decoded + [lastScanline];
      assert ring[..] == before[Remainder(lastScanline - base, entries) := line(lastScanline)];
    }

    /** Blend up to eight lines at a time, the first chunk overwriting what the buffer held. */
    method Gather(n0: int, n1: int, coeffs: seq<real>, buffer: array<real>, width: nat, ghost line: int -> Line)
      requires Valid(line) && firstScanline <= n0 <= n1 <= lastScanline && n1 - n0 < |coeffs|
      requires buffer.Length == width && forall n :: |line(n)| == width
      modifies buffer
      ensures forall x :: 0 <= x < width ==> buffer[x] == Blend(coeffs, line, n0, n1 - n0 + 1, x)
    {
      hide Blend, Dot;
      var k: nat, total: nat := 0, n1 - n0 + 1;
      while total != 0
        invariant k + total == n1 - n0 + 1 && (k == 0 ==> total > 0)
        invariant k > 0 ==> forall x :: 0 <= x < width ==> buffer[x] == Blend(coeffs, line, n0, k, x)
        decreases total
      {
        var cnt := if total > 8 then 8 else total;
        var inputs := GetScanlines(n0 + k, cnt, line);
        ChunkDone(coeffs, line, n0, k, inputs, width);
        AddChunk(buffer, coeffs, k, inputs, width, k == 0);
        k := k + cnt;
        total := total - cnt;
      }
    }

    method GetScanlines(from: int, cnt: nat, ghost line: int -> Line) returns (inputs: seq<Line>)
      requires Valid(line) && firstScanline <= from && from + cnt - 1 <= lastScanline
      ensures |inputs| == cnt && forall i :: 0 <= i < cnt ==> inputs[i] == line(from + i)
    {
      inputs := [];
      for i := 0 to cnt
        invariant |inputs| == i && forall j :: 0 <= j < i ==> inputs[j] == line(from + j)
      {
        assert ring[..][Remainder(from + i - base, entries)] == line(from + i);
        inputs := inputs + [ring[Slot(from + i)]];
      }
    }
  }

  /** What the buffer holds after a chunk is the blend of all lines so far. */
  lemma ChunkDone(coeffs: seq<real>, line: int -> Line, n0: int, k: nat, inputs: seq<Line>, width: nat)
    requires k + |inputs| <= |coeffs| && forall n :: |line(n)| == width
    requires forall i :: 0 <= i < |inputs| ==> inputs[i] == line(n0 + k + i)
    ensures forall i :: 0 <= i < |inputs| ==> |inputs[i]| == width
    ensures forall x: nat :: x < width ==>
              Blend(coeffs, line, n0, k + |inputs|, x) ==
                Blend(coeffs, line, n0, k, x) + Dot(coeffs, k, inputs, x, |inputs|)
    ensures forall x: nat :: x < width ==> Blend(coeffs, line, n0, 0, x) == 0.0
  {
    forall x: nat | x < width
      ensures Blend(coeffs, line, n0, k + |inputs|, x) ==
              Blend(coeffs, line, n0, k, x) + Dot(coeffs, k, inputs, x, |inputs|)
    {
      BlendChunk(coeffs, line, n0, k, inputs, x, |inputs|);
    }
  }

  /** One call of a gather kernel. */
  method AddChunk(buffer: array<real>, coeffs: seq<real>, k: nat, inputs: seq<Line>, width: nat, first: bool)
    requires buffer.Length == width && k + |inputs| <= |coeffs| && forall i :: 0 <= i < |inputs| ==>
             |inputs[i]| == width
    modifies buffer
    ensures forall x :: 0 <= x < width ==>
              buffer[x] == (if first then 0.0 else old(buffer[x])) + Dot(coeffs, k, inputs, x, |inputs|)
  {
    hide Dot;
    for x := 0 to width
      invariant forall z :: 0 <= z < x ==>
                  buffer[z] == (if first then 0.0 else old(buffer[z])) + Dot(coeffs, k, inputs, z, |inputs|)
      invariant forall z :: x <= z < width ==> buffer[z] == old(buffer[z])
    {
      buffer[x] := (if first then 0.0 else buffer[x]) + Dot(coeffs, k, inputs, x, |inputs|);
    }
  }

  // ---------- the loop ----------

  /** Output row `y` made directly from its input lines. */
  ghost function OutputRow(window: Window, coeffs: seq<real>, line: int -> Line, resample: Line -> Line,
                           verticalFirst: bool, width: nat): Line
    requires window.n0 <= window.n1 && window.n1 - window.n0 < |coeffs| && forall n :: |line(n)| == width
  {
    var row := seq<real>(width, x requires 0 <= x < width =>
      Blend(coeffs, line, window.n0, window.n1 - window.n0 + 1, x));
    if verticalFirst then resample(row) else row
  }

  /** Every window has its coefficients. */
  ghost predicate CoeffsFit(windows: seq<Window>, coeffs: seq<seq<real>>) {
    |windows| == |coeffs| &&
    forall y :: 0 <= y < |windows| ==> windows[y].n0 <= windows[y].n1 && windows[y].n1 - windows[y].n0 < |coeffs[y]|
  }

  /** Output rows `start` to `end - 1`, as one thread produces them. */
  method VerticalGatherLoop(info: SplitInfo, windows: seq<Window>, coeffs: seq<seq<real>>, start: nat, end: nat,
                            decode: int -> Line, resample: Line -> Line, verticalFirst: bool, width: nat,
                            ghost line: int -> Line)
      returns (rows: seq<Line>)
    requires info.entries == info.ring.Length > 0 && CoeffsFit(windows, coeffs)
    requires start < end <= |windows| && WindowsFit(windows, start, end, info.entries)
    requires forall n :: |line(n)| == width && line(n) == RingLine(decode, resample, verticalFirst, n)
    modifies info, info.ring
    ensures |rows| == end - start
    ensures forall y :: start <= y < end ==>
              rows[y - start] == OutputRow(windows[y], coeffs[y], line, resample, verticalFirst, width)
    ensures info.decoded == Run(windows[start].n0, info.lastScanline + 1)
    ensures forall y :: start <= y < end ==> windows[y].n1 <= info.lastScanline
  {
    hide OutputRow, RingLine, Blend, Resident;
    NothingResident(info.ring[..], windows[start].n0, line);
    info.beginIndex := 0;
    info.firstScanline := windows[start].n0;
    info.lastScanline := info.firstScanline - 1;
    info.base := info.firstScanline;
    info.decoded := [];
    rows := [];
    for y := start to end
      invariant info.Valid(line) && info.base == windows[start].n0
      invariant forall z :: y <= z < end ==> info.lastScanline < windows[z].n0 + info.entries
      invariant |rows| == y - start
      invariant forall z :: start <= z < y ==>
                  rows[z - start] == OutputRow(windows[z], coeffs[z], line, resample, verticalFirst, width)
      invariant forall z :: start <= z < y ==> windows[z].n1 <= info.lastScanline
    {
      var row := GatherRow(info, windows[y], coeffs[y], decode, resample, verticalFirst, width, line);
      rows := rows + [row];
    }
  }

  /** One output row: load what its window lacks, then blend. */
  method GatherRow(info: SplitInfo, window: Window, coeffs: seq<real>, decode: int -> Line, resample: Line -> Line,
                   verticalFirst: bool, width: nat, ghost line: int -> Line) returns (row: Line)
    requires info.Valid(line) && info.base <= window.n0 <= window.n1 < window.n0 + info.entries
    requires window.n1 - window.n0 < |coeffs| && info.lastScanline < window.n0 + info.entries
    requires forall n :: |line(n)| == width && line(n) == RingLine(decode, resample, verticalFirst, n)
    modifies info, info.ring
    ensures info.Valid(line) && info.base == old(info.base)
    ensures info.lastScanline == Max(old(info.lastScanline), window.n1)
    ensures row == OutputRow(window, coeffs, line, resample, verticalFirst, width)
  {
    hide RingLine, Blend, Resident;
    while window.n1 > info.lastScanline
      invariant info.Valid(line) && info.base == old(info.base)
      invariant old(info.lastScanline) <= info.lastScanline
      invariant info.lastScanline <= Max(old(info.lastScanline), window.n1)
      decreases window.n1 - info.lastScanline
    {
      info.Load(decode, resample, verticalFirst, line);
    }
    var buffer := new real[width];
    info.Gather(window.n0, window.n1, coeffs, buffer, width, line);
    row := buffer[..];
    assert row == seq<real>(width, x requires 0 <= x < width =>
      Blend(coeffs, line, window.n0, window.n1 - window.n0 + 1, x));
    if verticalFirst {
      row := resample(row);
    }
  }
}
