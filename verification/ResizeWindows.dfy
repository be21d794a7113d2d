/** Where the windows of output pixels lie when enlarging (`stbir__calculate_region_transform`,
    `stbir__calculate_coefficients_for_gather_upsample`), and what that means for the ranges of rows. */
module ResizeWindows {
  import opened Bits
  import opened ResizeFold
  import opened ResizeRing
  import opened ResizeRanges
  import ResizeSplits

  // ---------- the region ----------

  /** `stbir__small_float`, 2 to the power of -120. */
  const SMALL: real := 1.0 / 1329227995784915872903807060280344576.0

  lemma SmallIs()
    ensures var k := 1048576.0; SMALL == 1.0 / k / k / k / k / k / k
  {
  }

  /** Output pixels for each input pixel, input pixels for each output pixel, and where the input starts, in output
      pixels. */
  datatype Region = Region(scale: real, inv: real, shift: real)

  /** The input from `s0` to `s1` of its size, for the whole output. */
  function Transform(outputSize: nat, inputSize: nat, s0: real, s1: real): Option<Region> {
    if outputSize == 0 || inputSize == 0 || s1 - s0 <= SMALL || s0 >= 1.0 - SMALL || s1 <= SMALL then None
    else
      var ratio := 1.0 / (s1 - s0);
      var scale := (outputSize as real / inputSize as real) * ratio;
      Positive(outputSize as real / inputSize as real, ratio);
      Some(Region(scale, 1.0 / scale, s0 * ratio * outputSize as real))
  }

  lemma Positive(a: real, b: real)
    requires a > 0.0 && b > 0.0
    ensures a * b > 0.0
  {
  }

  /** A place in the output, in input pixels. */
  function InInput(g: Region, x: real): real {
    (x + g.shift) * g.inv
  }

  function Center(g: Region, n: nat): real {
    InInput(g, n as real + 0.5)
  }

  /** The ends of the output are those of the region. */
  lemma RegionEnds(outputSize: nat, inputSize: nat, s0: real, s1: real)
    requires Transform(outputSize, inputSize, s0, s1).Some?
    ensures var g := Transform(outputSize, inputSize, s0, s1).value;
            && g.scale > 0.0 && InInput(g, 0.0) == s0 * inputSize as real
            && InInput(g, outputSize as real) == s1 * inputSize as real
  {
    var o, i, d := outputSize as real, inputSize as real, s1 - s0;
    var ratio := 1.0 / d;
    Positive(o / i, ratio);
    var scale := (o / i) * ratio;
    assert ratio * d == 1.0 && (o / i) * i == o;
    assert scale * (d * i) == o by { Cancel(o / i, ratio, d, i); }
    Solve(s0 * ratio * o, scale, s0 * i) by { Scaled(s0, ratio, o, scale, d, i); }
    Solve(o + s0 * ratio * o, scale, s1 * i) by { Scaled(s0, ratio, o, scale, d, i); ScaledEnd(s0, d, scale, i, o); }
  }

  lemma Cancel(q: real, ratio: real, d: real, i: real)
    requires ratio * d == 1.0
    ensures (q * ratio) * (d * i) == q * i
  {
    assert (q * ratio) * (d * i) == q * (ratio * d) * i;
  }

  lemma Scaled(s: real, ratio: real, o: real, scale: real, d: real, i: real)
    requires ratio * d == 1.0 && scale * (d * i) == o
    ensures s * ratio * o == scale * (s * i)
  {
    assert s * ratio * (scale * (d * i)) == (ratio * d) * (scale * (s * i));
  }

  lemma ScaledEnd(s: real, d: real, scale: real, i: real, o: real)
    requires scale * (d * i) == o
    ensures o + scale * (s * i) == scale * ((s + d) * i)
  {
  }

  lemma Solve(y: real, scale: real, x: real)
    requires scale > 0.0 && y == scale * x
    ensures y * (1.0 / scale) == x
  {
    var inv := 1.0 / scale;
    assert scale * inv == 1.0;
    assert scale * x * inv == x * (scale * inv);
  }

  /** The pixels whose centres lie between two bounds. */
  function Between(lower: real, upper: real, size: nat, edge: Edge): (int, int) {
    var first := (lower + 0.5).Floor;
    var last := Max((upper - 0.5).Floor, first);
    if edge == Wrap then (Max(first, 0 - size), Min(last, size * 2 - 1)) else (first, last)
  }

  /** Those whose centres are past the lower bound and not past the upper. */
  lemma BetweenIs(lower: real, upper: real, size: nat, edge: Edge, x: int)
    requires edge != Wrap && (upper - 0.5).Floor >= (lower + 0.5).Floor
    ensures var (first, last) := Between(lower, upper, size, edge);
            first <= x <= last <==> lower < x as real + 0.5 <= upper
  {
  }

  /** One pixel at least; and when the image repeats, none further away than one image on either side. */
  lemma BetweenEdges(lower: real, upper: real, size: nat)
    ensures var ((a, b), (first, last)) := (Between(lower, upper, size, Clamp), Between(lower, upper, size, Wrap));
            && a <= b && ((upper - 0.5).Floor < a ==> a == b == (lower + 0.5).Floor)
            && first >= -(size as int) && last < 2 * size && (a >= -(size as int) ==> first == a)
            && (b < 2 * size ==> last == b) && (a < -(size as int) ==> first == -(size as int))
            && (b >= 2 * size ==> last == 2 * size - 1)
  {
  }

  /** `stbir__calculate_in_pixel_range`. */
  function PixelRange(g: Region, n: nat, radius: real, size: nat, edge: Edge): (int, int) {
    Between(InInput(g, n as real + 0.5 - radius), InInput(g, n as real + 0.5 + radius), size, edge)
  }

  /** No more pixels than there are coefficients. */
  function Span(g: Region, n: nat, radius: real, size: nat, edge: Edge, width: nat): (int, int) {
    var (first, last) := PixelRange(g, n, radius, size, edge);
    (first, if last - first + 1 > width then first + width - 1 else last)
  }

  lemma SpanIs(g: Region, n: nat, radius: real, size: nat, edge: Edge, width: nat)
    ensures var ((a, b), (first, last)) :=
              (PixelRange(g, n, radius, size, edge), Span(g, n, radius, size, edge, width));
            first == a && (if b - a < width then last == b else last - first + 1 == width)
  {
  }

  /** Tiny coefficients are zero. */
  function Kept(c: real): real {
    if -SMALL < c < SMALL then 0.0 else c
  }

  function Coeff(g: Region, kernel: real -> real, n: nat, x: int): real {
    Kept(kernel(Center(g, n) - (x as real + 0.5)))
  }

  /** From the first to the last pixel of the span with a coefficient. */
  ghost predicate IsWindow(g: Region, kernel: real -> real, n: nat, span: (int, int), w: Window) {
    && span.0 <= w.n0 <= w.n1 <= span.1
    && Coeff(g, kernel, n, w.n0) != 0.0 && Coeff(g, kernel, n, w.n1) != 0.0
    && forall x :: span.0 <= x <= span.1 && !(w.n0 <= x <= w.n1) ==> Coeff(g, kernel, n, x) == 0.0
  }

  /** Some pixel of the span has a coefficient. */
  ghost predicate HasCoeff(g: Region, kernel: real -> real, n: nat, span: (int, int)) {
    exists x :: span.0 <= x <= span.1 && Coeff(g, kernel, n, x) != 0.0
  }

  /** The coefficients of the window come first. */
  ghost predicate HoldsCoeffs(g: Region, kernel: real -> real, n: nat, w: Window, c: seq<real>) {
    w.n1 - w.n0 < |c| && forall k :: 0 <= k <= w.n1 - w.n0 ==> c[k] == Coeff(g, kernel, n, w.n0 + k)
  }

  lemma OneWindow(g: Region, kernel: real -> real, n: nat, span: (int, int), v: Window, w: Window)
    requires IsWindow(g, kernel, n, span, v) && IsWindow(g, kernel, n, span, w)
    ensures v == w
  {
  }

  // ---------- one output pixel ----------

  /** The coefficients of output pixel `n`: leading zeros are passed over, trailing ones cut off.  False is the failed
      assertion of a pixel without any. */
  method GatherPixel(g: Region, kernel: real -> real, n: nat, radius: real, size: nat, edge: Edge, coeffs: array<real>)
      returns (ok: bool, w: Window)
    requires coeffs.Length > 0
    modifies coeffs
    ensures var span := Span(g, n, radius, size, edge, coeffs.Length);
            (ok <==> HasCoeff(g, kernel, n, span)) && (ok ==> IsWindow(g, kernel, n, span, w))
    ensures ok ==> HoldsCoeffs(g, kernel, n, w, coeffs[..])
  {
    hide Coeff;
    ghost var span := Span(g, n, radius, size, edge, coeffs.Length);
    var (first, last) := Span(g, n, radius, size, edge, coeffs.Length);
    var i, lastNonZero := 0, -1;
    while i <= last - first
      invariant span.0 <= first && (first <= last || (first == span.0 && i == 0)) && last == span.1
      invariant last - first < coeffs.Length && 0 <= i && (first <= last ==> i <= last - first + 1)
      invariant forall x :: span.0 <= x < first ==> Coeff(g, kernel, n, x) == 0.0
      invariant forall k :: 0 <= k < i ==> coeffs[k] == Coeff(g, kernel, n, first + k)
      invariant i > 0 ==> 0 <= lastNonZero < i && coeffs[0] != 0.0 && coeffs[lastNonZero] != 0.0
      invariant i > 0 ==> forall k :: lastNonZero < k < i ==> coeffs[k] == 0.0
      decreases last - first - i
    {
      var coeff := Coeff(g, kernel, n, first + i);
      if coeff == 0.0 && i == 0 {
        if last == first {
          return false, Window(0, -1);
        }
        first := first + 1;
      } else {
        if coeff != 0.0 { lastNonZero := i; }
        coeffs[i] := coeff;
        i := i + 1;
      }
    }
    if i == 0 {
      return false, Window(0, -1);
    }
    ok, w := true, Window(first, first + lastNonZero);
    assert Coeff(g, kernel, n, w.n0) == coeffs[0] && Coeff(g, kernel, n, w.n1) == coeffs[lastNonZero];
    forall x | w.n1 < x <= last ensures Coeff(g, kernel, n, x) == 0.0 {
      assert coeffs[x - first] == Coeff(g, kernel, n, first + (x - first));
    }
  }

  /** All rows or columns, each with its own coefficients, as long as each has some. */
  method GatherRows(g: Region, kernel: real -> real, radius: real, size: nat, edge: Edge, width: nat, count: nat)
      returns (ok: bool, windows: seq<Window>, groups: seq<seq<real>>)
    requires width > 0
    ensures ok <==> forall n: nat :: n < count ==> HasCoeff(g, kernel, n, Span(g, n, radius, size, edge, width))
    ensures ok ==> |windows| == |groups| == count && forall n: nat :: n < count ==>
                     IsWindow(g, kernel, n, Span(g, n, radius, size, edge, width), windows[n]) &&
                     HoldsCoeffs(g, kernel, n, windows[n], groups[n])
  {
    hide Coeff, Span, IsWindow;
    windows, groups := [], [];
    for n := 0 to count
      invariant |windows| == |groups| == n
      invariant forall m: nat :: m < n ==> HasCoeff(g, kernel, m, Span(g, m, radius, size, edge, width))
      invariant forall m: nat :: m < n ==> IsWindow(g, kernel, m, Span(g, m, radius, size, edge, width), windows[m])
      invariant forall m: nat :: m < n ==> HoldsCoeffs(g, kernel, m, windows[m], groups[m])
    {
      var coeffs := new real[width];
      var some, w := GatherPixel(g, kernel, n, radius, size, edge, coeffs);
      if !some {
        return false, windows, groups;
      }
      windows, groups := windows + [w], groups + [coeffs[..]];
    }
    ok := true;
  }

  // ---------- the filter for enlarging ----------

  /** `stbir__filter_catmullrom`, which reaches two pixels. */
  function CatmullRom(x: real): real {
    var a := if x < 0.0 then -x else x;
    if a < 1.0 then 1.0 - a * a * (2.5 - 1.5 * a)
    else if a < 2.0 then 2.0 - a * (4.0 + a * (0.5 * a - 2.5))
    else 0.0
  }

  /** Distances at least this far from 1 and 2 give coefficients that are not tiny. */
  const NEAR: real := 1.0 / 4294967296.0

  lemma ProductAtLeast(a: real, b: real, x: real, y: real)
    requires 0.0 <= x <= a && 0.0 <= y <= b
    ensures x * y <= a * b
  {
    assert x * y <= a * y;
    assert a * y <= a * b;
  }

  /** The kernel between 1 and 2. */
  lemma Lobe(a: real, u: real, v: real)
    requires 1.0 <= a <= 2.0 && u == a - 1.0 && v == 2.0 - a
    ensures CatmullRom(a) == -0.5 * (u * (v * v))
  {
    Expand(a);
  }

  lemma OuterLobe(a: real)
    requires 1.0 + NEAR <= a <= 2.0 - NEAR
    ensures CatmullRom(a) <= -SMALL
  {
    hide CatmullRom;
    var u, v := a - 1.0, 2.0 - a;
    Lobe(a, u, v);
    ProductAtLeast(v, v, NEAR, NEAR);
    ProductAtLeast(u, v * v, NEAR, NEAR * NEAR);
  }

  lemma Expand(a: real)
    ensures (a - 1.0) * ((2.0 - a) * (2.0 - a)) == -2.0 * (2.0 - a * (4.0 + a * (0.5 * a - 2.5)))
  {
  }

  /** Below 1 it is `(1 - a) * (1 + a - 1.5 * a^2)`. */
  lemma InnerLobe(a: real)
    requires 0.0 <= a <= 1.0 - NEAR
    ensures CatmullRom(a) >= SMALL
  {
    var u, v := 1.0 - a, 1.0 + a - 1.5 * (a * a);
    ProductAtLeast(1.0, 1.0, a, a);
    Factor(a);
    ProductAtLeast(u, 0.5 + 1.5 * a, 0.0, 0.0);
    ProductAtLeast(u, v, NEAR, 0.5);
    Inner(a);
  }

  lemma Factor(a: real)
    ensures 1.0 + a - 1.5 * (a * a) == 0.5 + (1.0 - a) * (0.5 + 1.5 * a)
  {
  }

  lemma Inner(a: real)
    ensures (1.0 - a) * (1.0 + a - 1.5 * (a * a)) == 1.0 - a * a * (2.5 - 1.5 * a)
  {
  }

  /** The four weights around a place `f` past a pixel add up to 1, and weigh every parabola to its value there. */
  lemma KernelExact(f: real)
    requires 0.0 <= f < 1.0
    ensures CatmullRom(1.0 + f) + CatmullRom(f) + CatmullRom(1.0 - f) + CatmullRom(2.0 - f) == 1.0
    ensures -CatmullRom(1.0 + f) + CatmullRom(1.0 - f) + 2.0 * CatmullRom(2.0 - f) == f
    ensures CatmullRom(1.0 + f) + CatmullRom(1.0 - f) + 4.0 * CatmullRom(2.0 - f) == f * f
  {
  }

  lemma Symmetric(a: real)
    ensures CatmullRom(-a) == CatmullRom(a)
  {
  }

  // ---------- rows ----------

  /** A region that enlarges, by at most 2 to the power of 31. */
  ghost predicate Enlarges(g: Region) {
    g.scale >= 1.0 && g.inv * g.scale == 1.0 && 2.0 * NEAR <= g.inv <= 1.0
  }

  lemma TransformEnlarges(outputSize: nat, inputSize: nat, s0: real, s1: real)
    requires var t := Transform(outputSize, inputSize, s0, s1);
             t.Some? && 1.0 <= t.value.scale <= 2147483648.0
    ensures Enlarges(Transform(outputSize, inputSize, s0, s1).value)
  {
    hide Transform;
    var g := Transform(outputSize, inputSize, s0, s1).value;
    assert g.inv == 1.0 / g.scale by { InverseOf(outputSize, inputSize, s0, s1); }
    Inverse(g.scale);
  }

  lemma InverseOf(outputSize: nat, inputSize: nat, s0: real, s1: real)
    requires Transform(outputSize, inputSize, s0, s1).Some?
    ensures var g := Transform(outputSize, inputSize, s0, s1).value; g.scale > 0.0 && g.inv == 1.0 / g.scale
  {
  }

  lemma Inverse(x: real)
    requires 1.0 <= x <= 2147483648.0
    ensures (1.0 / x) * x == 1.0 && 1.0 / 2147483648.0 <= 1.0 / x <= 1.0
  {
    var y := 1.0 / x;
    assert y * x == 1.0;
    ProductAtLeast(y, x, y, 1.0);
    ProductAtLeast(y, 2147483648.0, y, x);
  }

  /** The left end of the filter at output pixel `n`, half a pixel in. */
  function Reach(g: Region, n: nat): real {
    Center(g, n) - 1.5
  }

  /** The span is four pixels from the one at the left end on. */
  lemma FourPixels(g: Region, n: nat, size: nat, edge: Edge)
    requires Enlarges(g) && edge != Wrap
    ensures Span(g, n, 2.0 * g.scale, size, edge, 4) == (Reach(g, n).Floor, Reach(g, n).Floor + 3)
  {
    hide Between, InInput;
    Bounds(g, n);
    BetweenFour(Center(g, n), size, edge);
  }

  lemma Bounds(g: Region, n: nat)
    requires Enlarges(g)
    ensures InInput(g, n as real + 0.5 - 2.0 * g.scale) == Center(g, n) - 2.0
    ensures InInput(g, n as real + 0.5 + 2.0 * g.scale) == Center(g, n) + 2.0
  {
    var c := n as real + 0.5 + g.shift;
    Spread(c, g.scale, g.inv);
    assert n as real + 0.5 - 2.0 * g.scale + g.shift == c - 2.0 * g.scale;
    assert n as real + 0.5 + 2.0 * g.scale + g.shift == c + 2.0 * g.scale;
  }

  lemma BetweenFour(c: real, size: nat, edge: Edge)
    requires edge != Wrap
    ensures Between(c - 2.0, c + 2.0, size, edge) == ((c - 1.5).Floor, (c - 1.5).Floor + 3)
  {
    assert c + 2.0 - 0.5 == c - 1.5 + 3.0;
  }

  lemma Spread(c: real, scale: real, inv: real)
    ensures (c - 2.0 * scale) * inv == c * inv - 2.0 * (inv * scale)
    ensures (c + 2.0 * scale) * inv == c * inv + 2.0 * (inv * scale)
  {
  }

  /** Later rows reach further. */
  lemma ReachGrows(g: Region, a: nat, y: nat)
    requires Enlarges(g) && a < y
    ensures Reach(g, y) >= Reach(g, a) + g.inv
    ensures a + 1 < y ==> Reach(g, y) >= Reach(g, a + 1) + g.inv
    ensures Reach(g, a + 1) == Reach(g, a) + g.inv
  {
    Distribute(a as real + 0.5 + g.shift, 1.0, g.inv);
    Distribute(a as real + 0.5 + g.shift, (y - a) as real, g.inv);
    Distribute(a as real + 1.5 + g.shift, (y - a - 1) as real, g.inv);
    ProductAtLeast((y - a) as real, g.inv, 1.0, g.inv);
    if a + 1 < y { ProductAtLeast((y - a - 1) as real, g.inv, 1.0, g.inv); }
  }

  lemma Distribute(c: real, k: real, inv: real)
    ensures (c + k) * inv == c * inv + k * inv
  {
  }

  /** The windows of all rows, with the default filter for enlarging. */
  ghost predicate CatmullRows(g: Region, size: nat, edge: Edge, windows: seq<Window>) {
    forall y: nat :: y < |windows| ==> IsWindow(g, CatmullRom, y, Span(g, y, 2.0 * g.scale, size, edge, 4), windows[y])
  }

  /** A coefficient is not zero if the kernel is not tiny. */
  lemma CoeffAt(g: Region, n: nat, x: int, f: real)
    requires Center(g, n) - (x as real + 0.5) == f || Center(g, n) - (x as real + 0.5) == -f
    requires CatmullRom(f) <= -SMALL || CatmullRom(f) >= SMALL
    ensures Coeff(g, CatmullRom, n, x) != 0.0
  {
    hide CatmullRom;
    Symmetric(f);
  }

  /** Where a window begins: on the first pixel of the span if that is neither 1 nor 2 pixels away, and never more than
      one after the pixel reached with a little to spare. */
  lemma WindowStart(g: Region, n: nat, size: nat, edge: Edge, w: Window)
    requires Enlarges(g) && edge != Wrap && IsWindow(g, CatmullRom, n, Span(g, n, 2.0 * g.scale, size, edge, 4), w)
    ensures var r := Reach(g, n);
            && r.Floor <= w.n0 <= w.n1 <= r.Floor + 3
            && w.n0 <= (r + NEAR).Floor + 1
            && (NEAR <= r - r.Floor as real <= 1.0 - NEAR ==> w.n0 == r.Floor)
  {
    hide CatmullRom, Coeff, Span;
    FourPixels(g, n, size, edge);
    var r := Reach(g, n);
    var f := r - r.Floor as real;
    if NEAR <= f <= 1.0 - NEAR {
      OuterLobe(1.0 + f);
      CoeffAt(g, n, r.Floor, 1.0 + f);
    }
    if f <= 1.0 - NEAR {
      InnerLobe(f);
      CoeffAt(g, n, r.Floor + 1, f);
    } else {
      InnerLobe(1.0 - f);
      CoeffAt(g, n, r.Floor + 2, 1.0 - f);
      assert (r + NEAR).Floor == r.Floor + 1;
    }
  }

  /** There is always one. */
  lemma RowHasWindow(g: Region, n: nat, size: nat, edge: Edge)
    requires Enlarges(g) && edge != Wrap
    ensures HasCoeff(g, CatmullRom, n, Span(g, n, 2.0 * g.scale, size, edge, 4))
  {
    hide CatmullRom, Coeff, Span;
    FourPixels(g, n, size, edge);
    var r := Reach(g, n);
    var f := r - r.Floor as real;
    if f <= 1.0 - NEAR {
      InnerLobe(f);
      CoeffAt(g, n, r.Floor + 1, f);
    } else {
      InnerLobe(1.0 - f);
      CoeffAt(g, n, r.Floor + 2, 1.0 - f);
    }
  }

  /** Where it ends: with both inner pixels, and with no more than the second one if it begins after the first. */
  lemma WindowEnd(g: Region, n: nat, size: nat, edge: Edge, w: Window)
    requires Enlarges(g) && edge != Wrap && IsWindow(g, CatmullRom, n, Span(g, n, 2.0 * g.scale, size, edge, 4), w)
    ensures var r := Reach(g, n);
            && (r >= r.Floor as real + NEAR ==> w.n1 >= r.Floor + 2)
            && (w.n0 > (r + NEAR).Floor ==> w.n1 <= (r + NEAR).Floor + 2)
  {
    hide CatmullRom, Coeff, Span;
    FourPixels(g, n, size, edge);
    WindowStart(g, n, size, edge, w);
    var r := Reach(g, n);
    var f := r - r.Floor as real;
    if f >= NEAR {
      InnerLobe(1.0 - f);
      CoeffAt(g, n, r.Floor + 2, 1.0 - f);
    } else if w.n0 > r.Floor {
      OuterSmaller(g, n, r.Floor, f);
    }
  }

  lemma OuterSmaller(g: Region, n: nat, x: int, f: real)
    requires Center(g, n) - (x as real + 0.5) == 1.0 + f && 0.0 <= f < NEAR && Coeff(g, CatmullRom, n, x) == 0.0
    ensures Coeff(g, CatmullRom, n, x + 3) == 0.0
  {
    hide CatmullRom;
    OuterOrder(f);
    Symmetric(2.0 - f);
    assert Center(g, n) - ((x + 3) as real + 0.5) == -(2.0 - f);
  }

  /** Next to 1 the kernel is larger than next to 2. */
  lemma OuterOrder(f: real)
    requires 0.0 <= f < NEAR
    ensures CatmullRom(1.0 + f) <= CatmullRom(2.0 - f) <= 0.0
  {
    hide CatmullRom;
    var u := 1.0 - f;
    Lobe(1.0 + f, f, u);
    Lobe(2.0 - f, u, f);
    ProductAtLeast(f, f, 0.0, 0.0);
    ProductAtLeast(u, f * f, 0.0, 0.0);
    Regroup(u, f);
  }

  lemma Regroup(u: real, f: real)
    requires 0.0 <= f <= u
    ensures u * (f * f) <= f * (u * u)
  {
    ProductAtLeast(f * u, u, f * u, f);
    assert u * (f * f) == (f * u) * f && f * (u * u) == (f * u) * u;
  }

  /** A row begins earlier than row `a` before it only if it is in the same place, and then so does the row right after
      `a`; and it ends no earlier. */
  lemma DipIsShort(g: Region, size: nat, edge: Edge, windows: seq<Window>, a: nat, y: nat)
    requires Enlarges(g) && edge != Wrap && CatmullRows(g, size, edge, windows) && a < y < |windows|
    requires windows[y].n0 < windows[a].n0
    ensures windows[a + 1].n0 <= windows[y].n0 && windows[a].n0 == windows[y].n0 + 1
    ensures windows[a].n1 <= windows[y].n0 + 2 <= windows[y].n1
  {
    hide IsWindow, Reach, Span, CatmullRom;
    ReachGrows(g, a, y);
    WindowStart(g, a, size, edge, windows[a]);
    WindowStart(g, y, size, edge, windows[y]);
    WindowStart(g, a + 1, size, edge, windows[a + 1]);
    WindowEnd(g, a, size, edge, windows[a]);
    WindowEnd(g, y, size, edge, windows[y]);
    Places(Reach(g, a), Reach(g, a + 1), Reach(g, y), g.inv, a + 1 == y);
  }

  /** With steps of at least twice `NEAR` the place a later row shares with an earlier one is well inside its pixel. */
  lemma Places(r: real, s: real, t: real, inv: real, next: bool)
    requires inv >= 2.0 * NEAR && s == r + inv && (if next then t == s else t >= s + inv)
    requires t.Floor <= (r + NEAR).Floor
    ensures t.Floor == (r + NEAR).Floor && t >= t.Floor as real + NEAR
    ensures !next ==> s.Floor == t.Floor && s.Floor as real + NEAR <= s <= s.Floor as real + 1.0 - NEAR
  {
  }

  /** The windows clamped to the image. */
  ghost predicate Clamped(windows: seq<Window>, folded: seq<Window>, size: nat) {
    |windows| == |folded| && forall y :: 0 <= y < |windows| ==>
      folded[y].n0 == Max(windows[y].n0, 0) && folded[y].n1 == Min(windows[y].n1, size - 1)
  }

  /** As many lines as the widest window has. */
  ghost predicate Holds(windows: seq<Window>, entries: nat) {
    forall y :: 0 <= y < |windows| ==> windows[y].n0 <= windows[y].n1 < windows[y].n0 + entries
  }

  /** First lines dip for one row only, and a ring for the widest window is enough for all, clamped or not. */
  lemma RowsDip(g: Region, size: nat, edge: Edge, windows: seq<Window>, folded: seq<Window>, first: seq<int>,
                entries: nat)
    requires Enlarges(g) && edge != Wrap && CatmullRows(g, size, edge, windows)
    requires folded == windows || Clamped(windows, folded, size)
    requires FirstLines(first, folded) && Holds(folded, entries)
    ensures Dips(first, 1) && InReach(folded, entries)
  {
    hide CatmullRows;
    forall a: nat, y: nat | a < y < |first| && first[y] < first[a]
      ensures Settles(first, 1, a, y, a + 1) && folded[a].n1 <= folded[y].n1
    {
      DipIsShort(g, size, edge, windows, a, y);
    }
  }

  /** Enlarging with the default filter, every range of rows but the first meets what the gather loop requires. */
  lemma LaterRangesFit(g: Region, size: nat, edge: Edge, windows: seq<Window>, folded: seq<Window>, first: seq<int>,
                       past: int, entries: nat, start: seq<int>, end: seq<int>, height: nat, splits: nat, margin: nat,
                       shift: seq<nat>, k: nat, stop: nat)
    requires Enlarges(g) && edge != Wrap && CatmullRows(g, size, edge, windows) && |windows| == height
    requires folded == windows || Clamped(windows, folded, size)
    requires FirstLines(first, folded) && Holds(folded, entries)
    requires 0 < k < splits <= height && margin >= 1
    requires ResizeSplits.Shifted(start, end, height, splits, shift, splits)
    requires ResizeSplits.Chosen(first + [past], height, splits, margin, true, shift)
    requires 0 <= start[k] < stop <= height
    ensures WindowsFit(folded, start[k], stop, entries)
  {
    hide ResizeSplits.Chosen, ResizeSplits.Left, Dips, InReach, CatmullRows, WindowsFit, Holds;
    RowsDip(g, size, edge, windows, folded, first, entries);
    AtLeastOne(height, splits);
    RangeFits(first, past, folded, entries, start, end, height, splits, margin, shift, 1, k, stop);
  }

  lemma AtLeastOne(a: nat, b: nat)
    requires 0 < b <= a
    ensures a / b >= 1
  {
    ResizeSplits.DivTimes(a, b);
  }

  /** And so does the first range of a whole image that is clamped. */
  lemma WholeImageFits(g: Region, size: nat, windows: seq<Window>, folded: seq<Window>, entries: nat, stop: nat)
    requires Enlarges(g) && g.shift == 0.0 && CatmullRows(g, size, Clamp, windows)
    requires Clamped(windows, folded, size) && Holds(folded, entries) && 0 < stop <= |windows|
    ensures WindowsFit(folded, 0, stop, entries)
  {
    hide IsWindow, Span, CatmullRom;
    RowsDip(g, size, Clamp, windows, folded, seq(|folded|, y requires 0 <= y < |folded| => folded[y].n0), entries);
    WindowStart(g, 0, size, Clamp, windows[0]);
    assert Reach(g, 0) == 0.5 * g.inv - 1.5;
    assert folded[0].n0 == 0;
  }

  // ---------- a first range that does not fit ----------

  const LATE := Region(2.0, 0.5, 8.5)

  /** Half of 64 lines from line 4.25 on, enlarged to 64 rows. */
  lemma LateRegion()
    ensures Transform(64, 64, 17.0 / 256.0, 145.0 / 256.0) == Some(LATE) && Enlarges(LATE)
  {
  }

  /** The first row falls on line 4, so that the lines around it have no weight. */
  lemma LateRow0()
    ensures IsWindow(LATE, CatmullRom, 0, Span(LATE, 0, 4.0, 64, Clamp, 4), Window(4, 4))
  {
    hide Span;
    LateRegion();
    FourPixels(LATE, 0, 64, Clamp);
    assert Center(LATE, 0) == 4.5;
  }

  lemma LateRow1()
    ensures IsWindow(LATE, CatmullRom, 1, Span(LATE, 1, 4.0, 64, Clamp, 4), Window(3, 6))
  {
    hide Span;
    LateRegion();
    FourPixels(LATE, 1, 64, Clamp);
    assert Center(LATE, 1) == 5.0;
  }

  /** The first range of a region that starts so does not fit any ring. */
  lemma LateStart(windows: seq<Window>, entries: nat, stop: nat)
    requires 1 < stop <= |windows| && CatmullRows(LATE, 64, Clamp, windows)
    ensures windows[0] == Window(4, 4) && windows[1] == Window(3, 6) && !WindowsFit(windows, 0, stop, entries)
  {
    hide IsWindow, Span;
    LateRow0();
    LateRow1();
    assert 2.0 * LATE.scale == 4.0;
    OneWindow(LATE, CatmullRom, 0, Span(LATE, 0, 4.0, 64, Clamp, 4), Window(4, 4), windows[0]);
    OneWindow(LATE, CatmullRom, 1, Span(LATE, 1, 4.0, 64, Clamp, 4), Window(3, 6), windows[1]);
  }
}
