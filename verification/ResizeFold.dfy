/** Folding the coefficients of one output pixel into the image (`stbir__cleanup_gathered_coefficients`,
    for the edge modes that keep no pixel outside it). */
module ResizeFold {
  import opened Bits
  import opened ResizeEdges

  datatype Edge = Clamp | Reflect | Wrap | Zero

  /** Positions outside the image are moved onto its pixels. */
  predicate Folds(edge: Edge) {
    edge == Clamp || edge == Reflect
  }

  /** The image repeats itself. */
  function Periodic(n: int, size: nat): (p: int)
    requires size > 0
    ensures 0 <= p < size
  {
    if n >= 0 then Remainder(n, size)
    else
      var m := Remainder(-n, size);
      if m != 0 then size - m else 0
  }

  /** The pixel of an image of `size` that stands for position `n`. */
  function EdgeFull(edge: Edge, n: int, size: nat): (p: int)
    requires size > 0
    ensures 0 <= p < size && (0 <= n < size && Folds(edge) ==> p == n)
  {
    match edge
    case Clamp => if n < 0 then 0 else if n >= size then size - 1 else n
    case Reflect =>
      if n < 0 then (if n > 0 - size then -n else size - 1)
      else if n >= size then (if n >= size * 2 then 0 else size * 2 - n - 1)
      else n
    case Wrap => Periodic(n, size)
    case Zero => 0
  }

  /** A scanline of `size` pixels, extended past its ends: by its last pixels, mirrored at them as far as it is long and
      by the opposite ends beyond, repeated, or by zeros. */
  ghost function Extended(edge: Edge, size: nat, px: Scanline): Scanline
    requires size > 0
  {
    match edge
    case Clamp => x => px(Min(Max(x, 0), size - 1))
    case Reflect => x =>
      if -(size as int) < x < 0 then px(-x)
      else if size <= x < 2 * size then px(2 * size - 1 - x)
      else if x <= -(size as int) then px(size - 1)
      else if x >= 2 * size then px(0)
      else px(x)
    case Wrap => x => px(x % size)
    case Zero => x => if 0 <= x < size then px(x) else 0.0
  }

  /** Every position outside the image has the value of the pixel that stands for it. */
  lemma EdgeFullIs(edge: Edge, size: nat, x: int, px: Scanline)
    requires size > 0 && edge != Zero
    ensures Extended(edge, size, px)(x) == px(EdgeFull(edge, x, size))
  {
    match edge
    case Clamp => assert Min(Max(x, 0), size - 1) == EdgeFull(Clamp, x, size);
    case Reflect =>
    case Wrap => PeriodicIs(x, size);
  }

  /** Repetition: the pixel congruent to the position. */
  lemma PeriodicIs(x: int, size: nat)
    requires size > 0
    ensures Periodic(x, size) == x % size
  {
    if x < 0 {
      var m := (-x) % size;
      assert x == -((-x) / size) * size - m;
      if m == 0 { RemainderIs(x, -((-x) / size), 0, size); }
        else { RemainderIs(x, -((-x) / size) - 1, size - m, size); }
    }
  }

  lemma RemainderIs(x: int, q: int, m: nat, size: nat)
    requires x == q * size + m && m < size
    ensures x % size == m
  {
    var d := x / size - q;
    assert d * size == m - x % size;
    if d > 0 { MulMonotone(size, 1, d); } else if d < 0 { MulMonotone(size, d, -1); }
  }

  /** Position `x` to the left of the image is stood for by a pixel that a window starting at `n0` and no wider than
      `width` does not reach.  The leftmost position is never lost: it is inserted after the window has moved. */
  predicate Lost(edge: Edge, size: nat, n0: int, width: nat, x: int)
    requires size > 0
  {
    Folds(edge) && n0 < x < 0 && EdgeFull(edge, x, size) - n0 >= width
  }

  /** The scanline a folded window sees: the extended one, but for the lost positions. */
  ghost function Seen(edge: Edge, size: nat, n0: int, width: nat, px: Scanline): Scanline
    requires size > 0
  {
    x => if Lost(edge, size, n0, width, x) then 0.0 else Extended(edge, size, px)(x)
  }

  /** A window that ends left of position -1, whose pixel is in reach: the coefficient read for -1 lies past those of
      the window and was never set. */
  predicate Unset(edge: Edge, size: nat, n0: int, n1: int, width: nat)
    requires size > 0
  {
    Folds(edge) && n0 <= n1 < -1 && !Lost(edge, size, n0, width, -1)
  }

  lemma UnsetInside(edge: Edge, size: nat, n0: int, n1: int, width: nat)
    requires size > 0 && Unset(edge, size, n0, n1, width)
    ensures 0 <= -1 - n0 < width
  {
  }

  /** What the unset coefficient adds. */
  ghost function Extra(edge: Edge, size: nat, c: seq<real>, n0: int, n1: int, px: Scanline): real
    requires size > 0
  {
    if Unset(edge, size, n0, n1, |c|) then
      UnsetInside(edge, size, n0, n1, |c|);
      Term(c[-1 - n0], Extended(edge, size, px)(-1))
    else 0.0
  }

  /** What a window that starts no further right than just past the image gives once it is folded. */
  ghost function Folded(edge: Edge, size: nat, c: seq<real>, n0: int, n1: int, px: Scanline): real
    requires size > 0 && Window(n0, n1, |c|)
  {
    Weighted(c, n0, n1, Seen(edge, size, n0, |c|, px)) + Extra(edge, size, c, n0, n1, px)
  }

  // ---------- when nothing is lost ----------

  /** Folding keeps every coefficient of the window and adds nothing to them, whatever they are. */
  predicate Keeps(edge: Edge, size: nat, n0: int, n1: int, width: nat)
    requires size > 0
  {
    !Folds(edge) ||
    (n0 <= size && !Unset(edge, size, n0, n1, width) &&
     (n0 >= -1 || n0 == n1 || EdgeFull(edge, n0 + 1, size) - n0 < width))
  }

  /** A clamped window loses nothing if it reaches the image.  One that ends at position -1 loses nothing unless it
      fills the width, and a single coefficient loses nothing when the image is out of its reach. */
  lemma ClampRoom(n0: int, n1: int, size: nat, width: nat)
    requires size > 0 && n0 <= n1 && Window(n0, n1, width)
    ensures Keeps(Clamp, size, n0, n1, width) <==>
            n0 <= size && (n1 >= 0 || (n1 == -1 && (n0 == -1 || -n0 < width)) || (n0 == n1 && -n0 >= width))
  {
  }

  /** A reflected one that reaches the image loses nothing exactly when it can hold both sides of the edge up to the
      mirror image of its second position, or all of the image. */
  lemma ReflectRoom(n0: int, n1: int, size: nat, width: nat)
    requires size > 0 && n0 <= n1 && n0 <= size && 0 <= n1 && Window(n0, n1, width)
    ensures Keeps(Reflect, size, n0, n1, width) <==> n0 >= -1 || Min(-n0 - 1, size - 1) - n0 < width
  {
    if n0 < -1 { assert EdgeFull(Reflect, n0 + 1, size) == Min(-n0 - 1, size - 1); }
  }

  /** Four coefficients for pixels -3 to 0, and no more: that of -2 is to move to pixel 2, which is out of reach. */
  lemma ReflectLoses()
    ensures Window(-3, 0, 4) && Lost(Reflect, 8, -3, 4, -2) && !Keeps(Reflect, 8, -3, 0, 4)
  {
    assert Lost(Reflect, 8, -3, 4, -2);
  }

  /** Three coefficients of four for pixels -5 to -3: all but the first are lost, clamped though they are. */
  lemma MissLoses(c: seq<real>, px: Scanline)
    requires |c| == 4
    ensures Window(-5, -3, 4) && !Keeps(Clamp, 8, -5, -3, 4)
    ensures Folded(Clamp, 8, c, -5, -3, px) == Term(c[0], px(0))
  {
    hide Term;
    OnlyFirst(Clamp, 8, c, -5, -3, px);
    assert EdgeFull(Clamp, -5, 8) == 0;
  }

  /** Every position of a window that keeps its coefficients is seen. */
  lemma KeepsSees(edge: Edge, size: nat, n0: int, n1: int, width: nat, x: int)
    requires size > 0 && Keeps(edge, size, n0, n1, width) && n0 <= x <= n1
    ensures !Lost(edge, size, n0, width, x)
  {
  }

  lemma KeepsAll(edge: Edge, size: nat, c: seq<real>, n0: int, n1: int, px: Scanline)
    requires size > 0 && n0 <= n1 && Window(n0, n1, |c|) && Keeps(edge, size, n0, n1, |c|)
    ensures Folded(edge, size, c, n0, n1, px) == Weighted(c, n0, n1, Extended(edge, size, px))
  {
    hide Sum, EdgeFull, Extended, Term, Lost, Keeps;
    var g, h := Extended(edge, size, px), Seen(edge, size, n0, |c|, px);
    forall x | n0 <= x < n0 + (n1 - n0 + 1) ensures h(x) == g(x) { KeepsSees(edge, size, n0, n1, |c|, x); }
    SumScanline(c, n0, 0, n1 - n0 + 1, h, g);
    KeepsSet(edge, size, n0, n1, |c|);
  }

  lemma KeepsSet(edge: Edge, size: nat, n0: int, n1: int, width: nat)
    requires size > 0 && Keeps(edge, size, n0, n1, width)
    ensures !Unset(edge, size, n0, n1, width) && (Folds(edge) ==> n0 <= size)
  {
  }

  /** One coefficient, and zeros. */
  function OneAt(width: nat, j: nat): (c: seq<real>)
    ensures |c| == width && forall t :: 0 <= t < width ==> c[t] == if t == j then 1.0 else 0.0
  {
    seq(width, t => if t == j then 1.0 else 0.0)
  }

  /** What one coefficient gives is the value at its position. */
  lemma OneSum(width: nat, j: nat, n0: int, k: nat, px: Scanline)
    requires k <= width
    ensures Sum(OneAt(width, j), n0, 0, k, px) == if j < k then px(n0 + j) else 0.0
  {
    hide Term;
    var c := OneAt(width, j);
    if j < k {
      SumSplit(c, n0, 0, j, k, px);
      SumFirst(c, n0, j, k, px);
      SumZeros(c, n0, 0, j, px);
      SumZeros(c, n0, j + 1, k, px);
      TermOne(px(n0 + j));
    } else {
      SumZeros(c, n0, 0, k, px);
    }
  }

  lemma TermOne(p: real)
    ensures Term(1.0, p) == p
  {
  }

  /** The coefficient at which a window that does not keep all goes wrong. */
  function Culprit(edge: Edge, size: nat, n0: int, n1: int, width: nat): nat
    requires size > 0
  {
    if n0 > size then 0 else if Unset(edge, size, n0, n1, width) then -1 - n0 else 1
  }

  /** Windows that do not keep all: with one coefficient, of an image that is 1 everywhere, the sum is not kept. */
  lemma Loses(edge: Edge, size: nat, n0: int, n1: int, width: nat)
    requires size > 0 && n0 <= n1 && Window(n0, n1, width) && !Keeps(edge, size, n0, n1, width)
    ensures var c, px := OneAt(width, Culprit(edge, size, n0, n1, width)), (_: int) => 1.0;
            if n0 > size then BlankFrom(c, 1) && Weighted(c, n0, n1, Extended(edge, size, px)) == 1.0
            else Folded(edge, size, c, n0, n1, px) != Weighted(c, n0, n1, Extended(edge, size, px))
  {
    hide Sum, Term, EdgeFull;
    var j, px: Scanline := Culprit(edge, size, n0, n1, width), (_: int) => 1.0;
    OneSum(width, j, n0, n1 - n0 + 1, Extended(edge, size, px));
    OneSum(width, j, n0, n1 - n0 + 1, Seen(edge, size, n0, width, px));
    TermOne(1.0);
  }

  /** A window that starts no further right than just past the image keeps every coefficient exactly under that
      condition. */
  lemma KeepsIff(edge: Edge, size: nat, n0: int, n1: int, width: nat)
    requires size > 0 && n0 <= n1 && Window(n0, n1, width) && n0 <= size
    ensures Keeps(edge, size, n0, n1, width) <==>
            forall c: seq<real>, px: Scanline {:trigger Folded(edge, size, c, n0, n1, px)} :: |c| == width ==>
              Folded(edge, size, c, n0, n1, px) == Weighted(c, n0, n1, Extended(edge, size, px))
  {
    hide Folded, Weighted, Extended, Keeps;
    if Keeps(edge, size, n0, n1, width) {
      forall c: seq<real>, px: Scanline {:trigger Folded(edge, size, c, n0, n1, px)} | |c| == width
        ensures Folded(edge, size, c, n0, n1, px) == Weighted(c, n0, n1, Extended(edge, size, px))
      {
        KeepsAll(edge, size, c, n0, n1, px);
      }
    } else {
      Loses(edge, size, n0, n1, width);
    }
  }

  // ---------- the right edge ----------

  /** The coefficient at `k`; outside those of this pixel, whatever lies there. */
  function At(c: seq<real>, k: int, stray: int -> real): real {
    if 0 <= k < |c| then c[k] else stray(k)
  }

  /** The mirror image of what is right of the image always fits, even when it starts left of the window. */
  lemma RightRoom(edge: Edge, size: nat, start: int, endi: int, n0: int, i: int, width: nat)
    requires size > 0 && Folds(edge) && start <= size <= i <= endi && endi - start + 1 <= width
    requires n0 <= start && (n0 < start ==> n0 >= Max(0, 2 * size - i))
    ensures var p := EdgeFull(edge, i, size);
            HasRoom(n0, size - 1, p, width) && (n0 == size ==> i > size || p == size - 1) &&
              (Min(n0, p) < start ==> Min(n0, p) >= Max(0, 2 * size - (i + 1)) || Min(n0, p) == n0)
    ensures i - start > size - 1 - n0
  {
  }

  /** After the positions `size` to `i - 1`: they have joined the sum if the window started no further right than just
      past the image. */
  ghost predicate InRight(edge: Edge, size: nat, c0: seq<real>, start: int, n1: int, c: seq<real>, n0: int, i: int,
                          stray: int -> real, px: Scanline)
    requires size > 0
  {
    var g := Extended(edge, size, px);
    |c| == |c0| && n0 <= start && Window(n0, size - 1, |c|) && size <= i && i - start <= |c| &&
    (i == size ==> n0 == start && c == c0) && (i > size ==> n0 < size) && (n0 < start ==> n0 >= 0) &&
    if start <= size then
      (n0 < start ==> n0 >= Max(0, 2 * size - i)) && SameFrom(c, c0, i - start) &&
      Weighted(c, n0, size - 1, g) == Sum(c0, start, 0, i - start, g)
    else i > size && BlankFrom(c0, 1) && (forall k :: stray(k) == 0.0) ==> BlankFrom(c, 0)
  }

  /** One position right of the image. */
  method RightStep(edge: Edge, size: nat, con: Contributors, coeffs: array<real>, start: int, i: int, n1: int,
                   stray: int -> real, ghost c0: seq<real>, ghost px: Scanline)
    requires size > 0 && Folds(edge) && start <= n1 && size <= i <= n1 && n1 - start + 1 <= coeffs.Length
    requires con.n1 == size - 1 && InRight(edge, size, c0, start, n1, coeffs[..], con.n0, i, stray, px)
    modifies con, coeffs
    ensures con.n1 == size - 1 && InRight(edge, size, c0, start, n1, coeffs[..], con.n0, i + 1, stray, px)
  {
    hide Term, EdgeFull, Extended, Sum, Weighted;
    var p, v := EdgeFull(edge, i, size), At(coeffs[..], i - start, stray);
    ghost var g := Extended(edge, size, px);
    if start <= size {
      RightRoom(edge, size, start, n1, con.n0, i, coeffs.Length);
      StoodFor(edge, size, i, px);
      SumLast(c0, start, i - start, g);
    } else {
      FirstRight(edge, size, i);
    }
    InsertCoeff(con, coeffs, p, v, g);
  }

  lemma FirstRight(edge: Edge, size: nat, i: int)
    requires size > 0 && Folds(edge) && size <= i
    ensures i == size ==> EdgeFull(edge, i, size) == size - 1
  {
  }

  /** Positions right of the image are folded onto it.  A window that starts right of position `size` loses its first
      coefficient: the one read for `size`, which is not its own, is put in its place. */
  method FoldRight(edge: Edge, size: nat, con: Contributors, coeffs: array<real>, stray: int -> real,
                   ghost px: Scanline)
    requires size > 0 && Folds(edge) && con.n0 <= con.n1 && con.n1 >= size && con.n1 - con.n0 + 1 <= coeffs.Length
    modifies con, coeffs
    ensures con.n1 == size - 1 && con.n0 <= con.n1 && con.n1 - con.n0 + 1 <= coeffs.Length
    ensures con.n0 <= old(con.n0) && (con.n0 < old(con.n0) ==> con.n0 >= 0)
    ensures old(con.n0) <= size ==>
              Weighted(coeffs[..], con.n0, con.n1, Extended(edge, size, px)) ==
              old(Weighted(coeffs[..], con.n0, con.n1, Extended(edge, size, px)))
    ensures old(con.n0) > size && BlankFrom(old(coeffs[..]), 1) && (forall k :: stray(k) == 0.0) ==>
              BlankFrom(coeffs[..], 0)
  {
    hide Term, EdgeFull, Extended, Sum;
    var start, endi := con.n0, con.n1;
    ghost var c0 := coeffs[..];
    NoSum(c0, start, 0, Extended(edge, size, px));
    con.n1 := size - 1;
    for i := size to endi + 1
      invariant con.n1 == size - 1 && InRight(edge, size, c0, start, endi, coeffs[..], con.n0, i, stray, px)
    {
      RightStep(edge, size, con, coeffs, start, i, endi, stray, c0, px);
    }
  }

  lemma SumLast(c: seq<real>, n0: int, k: nat, g: Scanline)
    requires k < |c|
    ensures Sum(c, n0, 0, k + 1, g) == Sum(c, n0, 0, k, g) + Term(c[k], g(n0 + k))
  {
    hide Term;
  }

  /** A position outside the image has the value of the pixel that stands for it. */
  lemma StoodFor(edge: Edge, size: nat, i: int, px: Scanline)
    requires size > 0 && Folds(edge)
    ensures Extended(edge, size, px)(EdgeFull(edge, i, size)) == Extended(edge, size, px)(i)
  {
    hide EdgeFull;
    var p := EdgeFull(edge, i, size);
    EdgeFullIs(edge, size, p, px);
    EdgeFullIs(edge, size, i, px);
    assert EdgeFull(edge, p, size) == p;
  }

  // ---------- the left edge ----------

  /** The coefficients of pixels 0 on, moved to the front. */
  method Slide(coeffs: array<real>, n1: nat, o: nat)
    requires o > 0 && n1 + o < coeffs.Length
    modifies coeffs
    ensures Moved(coeffs[..], old(coeffs[..]), n1, o)
  {
    for i := 0 to n1 + 1
      invariant forall t :: 0 <= t < i ==> coeffs[t] == old(coeffs[..])[t + o]
      invariant forall t :: i <= t < coeffs.Length ==> coeffs[t] == old(coeffs[..])[t]
    {
      coeffs[i] := coeffs[i + o];
    }
  }

  /** The part of the sum inside the image grows by what is inserted. */
  lemma InsideGrows(c: seq<real>, d: seq<real>, n0: int, n1: int, m1: int, v: real, p: int, g: Scanline)
    requires n0 < 0 && -1 <= n1 <= m1 && |c| == |d| && m1 - n0 < |d| && SameUpTo(d, c, 0 - n0)
    requires Weighted(d, n0, m1, g) == Weighted(c, n0, n1, g) + Term(v, g(p))
    ensures Sum(d, n0, 0 - n0, m1 - n0 + 1, g) == Sum(c, n0, 0 - n0, n1 - n0 + 1, g) + Term(v, g(p))
  {
    hide Term, Sum;
    SumSplit(c, n0, 0, 0 - n0, n1 - n0 + 1, g);
    SumSplit(d, n0, 0, 0 - n0, m1 - n0 + 1, g);
    SumSame(d, c, n0, 0, 0 - n0, g);
  }

  /** The same for a window that ends left of the image, the gap being cleared. */
  lemma InsideStarts(c: seq<real>, d: seq<real>, n0: int, n1: int, p: nat, v: real, g: Scanline)
    requires n0 <= n1 < -1 && |c| == |d| && p - n0 < |d| && SameUpTo(d, c, n1 - n0 + 1)
    requires Cleared(d, n1 - n0 + 1, p - n0)
    requires Weighted(d, n0, p, g) == Weighted(c, n0, n1, g) + Term(v, g(p))
    ensures Sum(d, n0, 0 - n0, p - n0 + 1, g) == Term(v, g(p))
  {
    hide Term, Sum;
    SumSplit(d, n0, 0, n1 - n0 + 1, p - n0 + 1, g);
    SumSplit(d, n0, n1 - n0 + 1, 0 - n0, p - n0 + 1, g);
    SumSame(d, c, n0, 0, n1 - n0 + 1, g);
    SumZeros(d, n0, n1 - n0 + 1, 0 - n0, g);
  }

  /** One more position to the left of the image, lost or not. */
  lemma NextLeft(edge: Edge, size: nat, c0: seq<real>, n0: int, n1: int, i: int, width: nat, px: Scanline)
    requires size > 0 && Folds(edge) && n0 < i < 0 && n0 <= n1 && n1 - n0 < |c0|
    ensures var h := Seen(edge, size, n0, width, px);
            Sum(c0, n0, i - n0, n1 - n0 + 1, h) ==
            Sum(c0, n0, i + 1 - n0, n1 - n0 + 1, h) +
            if i > n1 || Lost(edge, size, n0, width, i) then 0.0
              else Term(c0[i - n0], Extended(edge, size, px)(EdgeFull(edge, i, size)))
  {
    hide EdgeFull, Extended, Term;
    var h := Seen(edge, size, n0, width, px);
    if i <= n1 {
      SumFirst(c0, n0, i - n0, n1 - n0 + 1, h);
      StoodFor(edge, size, i, px);
      TimesZero(c0[i - n0]);
    }
  }

  lemma TimesZero(c: real)
    ensures Term(c, 0.0) == 0.0
  {
  }

  /** A lost position is one without room, and what is lost at -1 is lost further left. */
  lemma LostLeft(edge: Edge, size: nat, n0: int, m1: int, i: int, width: nat)
    requires size > 0 && Folds(edge) && n0 < i < 0 && n0 <= m1 && m1 - n0 < width
    ensures HasRoom(n0, m1, EdgeFull(edge, i, size), width) <==> !Lost(edge, size, n0, width, i)
    ensures Lost(edge, size, n0, width, -1) ==> Lost(edge, size, n0, width, i)
  {
  }

  /** Nothing happens to a window that ends left of position -1 before that position is inserted, nor ever when the
      pixel for it is out of reach. */
  predicate Idle(edge: Edge, size: nat, n0: int, n1: int, i: int, width: nat)
    requires size > 0
  {
    n1 < -1 && (i == 0 || Lost(edge, size, n0, width, -1))
  }

  /** After the positions -1 down to `i`. */
  ghost predicate InLeft(edge: Edge, size: nat, c0: seq<real>, n0: int, n1: int, c: seq<real>, m1: int, i: int,
                         px: Scanline)
    requires size > 0
  {
    |c| == |c0| && n0 <= n1 <= m1 < size && m1 - n0 < |c| && n0 < i <= 0 &&
    if Idle(edge, size, n0, n1, i, |c|) then m1 == n1 && c == c0
    else
      var own := Min(n1, -1) - n0 + 1;
      m1 >= -1 && SameUpTo(c, c0, own) && Cleared(c, own, 0 - n0) &&
      Sum(c, n0, 0 - n0, m1 - n0 + 1, Extended(edge, size, px)) ==
      Sum(c0, n0, i - n0, n1 - n0 + 1, Seen(edge, size, n0, |c|, px)) + Extra(edge, size, c0, n0, n1, px)
  }

  lemma LeftStart(edge: Edge, size: nat, c0: seq<real>, n0: int, n1: int, px: Scanline)
    requires size > 0 && Folds(edge) && n0 < 0 && n0 <= n1 < size && n1 - n0 < |c0|
    ensures InLeft(edge, size, c0, n0, n1, c0, n1, 0, px)
  {
    hide Sum, EdgeFull, Extended;
    if n1 >= -1 { InsideSeen(edge, size, c0, n0, n1, |c0|, px); }
  }

  lemma LeftBounds(edge: Edge, size: nat, c0: seq<real>, n0: int, n1: int, c: seq<real>, m1: int, i: int, px: Scanline)
    requires size > 0 && InLeft(edge, size, c0, n0, n1, c, m1, i, px)
    ensures |c| == |c0| && n0 <= m1 < size && m1 - n0 < |c| && c[0] == c0[0]
  {
  }

  /** The first insertion behind a window that ends left of position -1. */
  lemma FirstLeft(edge: Edge, size: nat, c0: seq<real>, d: seq<real>, n0: int, n1: int, p: nat, px: Scanline)
    requires size > 0 && Folds(edge) && |d| == |c0| && Unset(edge, size, n0, n1, |c0|)
    requires p == EdgeFull(edge, -1, size) && p - n0 < |d|
    requires SameUpTo(d, c0, n1 - n0 + 1) && Cleared(d, n1 - n0 + 1, p - n0)
    requires var g := Extended(edge, size, px);
             Weighted(d, n0, p, g) == Weighted(c0, n0, n1, g) + Term(c0[-1 - n0], g(p))
    ensures InLeft(edge, size, c0, n0, n1, d, p, -1, px)
  {
    hide Term, EdgeFull, Extended, Weighted;
    InsideStarts(c0, d, n0, n1, p, c0[-1 - n0], Extended(edge, size, px));
    StoodFor(edge, size, -1, px);
  }

  /** One position left of the image.  What is read is the coefficient of that position, zero where an earlier insertion
      has cleared it, or anything when there is no room for it. */
  method LeftStep(edge: Edge, size: nat, con: Contributors, coeffs: array<real>, i: int, stray: int -> real,
                  ghost c0: seq<real>, ghost n1: int, ghost px: Scanline)
    requires size > 0 && Folds(edge) && con.n0 < i < 0
    requires InLeft(edge, size, c0, con.n0, n1, coeffs[..], con.n1, i + 1, px)
    modifies con, coeffs
    ensures con.n0 == old(con.n0) && InLeft(edge, size, c0, con.n0, n1, coeffs[..], con.n1, i, px)
  {
    hide Term, Sum, EdgeFull, Extended, Seen, Weighted, Lost;
    ghost var n0, m1, c := con.n0, con.n1, coeffs[..];
    var p, v := EdgeFull(edge, i, size), At(coeffs[..], i - con.n0, stray);
    LostLeft(edge, size, n0, m1, i, coeffs.Length);
    NextLeft(edge, size, c0, n0, n1, i, coeffs.Length, px);
    InsertCoeff(con, coeffs, p, v, Extended(edge, size, px));
    if Idle(edge, size, n0, n1, i + 1, coeffs.Length) {
      if !Lost(edge, size, n0, coeffs.Length, -1) {
        FirstLeft(edge, size, c0, coeffs[..], n0, n1, p, px);
      }
    } else if HasRoom(n0, m1, p, coeffs.Length) {
      InsideGrows(c, coeffs[..], n0, m1, con.n1, v, p, Extended(edge, size, px));
      TermZero(Extended(edge, size, px)(p));
    }
  }

  /** All but the first coefficient to the left of the image, added to the pixels they land on or lost. */
  method AddLeft(edge: Edge, size: nat, con: Contributors, coeffs: array<real>, stray: int -> real, ghost px: Scanline)
    requires size > 0 && Folds(edge) && con.n0 < 0 && con.n0 <= con.n1 < size && con.n1 - con.n0 + 1 <= coeffs.Length
    modifies con, coeffs
    ensures con.n0 == old(con.n0) && con.n0 <= con.n1 < size && con.n1 - con.n0 < coeffs.Length
    ensures coeffs[0] == old(coeffs[0])
    ensures InLeft(edge, size, old(coeffs[..]), con.n0, old(con.n1), coeffs[..], con.n1, con.n0 + 1, px)
  {
    hide InLeft;
    ghost var n0, n1, c0 := con.n0, con.n1, coeffs[..];
    LeftStart(edge, size, c0, n0, n1, px);
    for i := 0 downto con.n0 + 1
      invariant con.n0 == n0 && InLeft(edge, size, c0, n0, n1, coeffs[..], con.n1, i, px)
    {
      LeftStep(edge, size, con, coeffs, i, stray, c0, n1, px);
    }
    LeftBounds(edge, size, c0, n0, n1, coeffs[..], con.n1, n0 + 1, px);
  }

  /** Inside the image both scanlines are the same. */
  lemma InsideSeen(edge: Edge, size: nat, c: seq<real>, n0: int, n1: int, width: nat, px: Scanline)
    requires size > 0 && n0 < 0 && -1 <= n1 && n1 - n0 < |c|
    ensures Sum(c, n0, 0 - n0, n1 - n0 + 1, Extended(edge, size, px)) ==
            Sum(c, n0, 0 - n0, n1 - n0 + 1, Seen(edge, size, n0, width, px))
  {
    hide Sum, EdgeFull, Extended;
    SumScanline(c, n0, 0 - n0, n1 - n0 + 1, Extended(edge, size, px), Seen(edge, size, n0, width, px));
  }

  /** With no pixel of the image in the window the first coefficient is all that is left of it. */
  lemma OnlyFirst(edge: Edge, size: nat, c0: seq<real>, n0: int, n1: int, px: Scanline)
    requires size > 0 && Folds(edge) && n0 <= n1 < -1 && n1 - n0 < |c0| && Lost(edge, size, n0, |c0|, -1)
    ensures Folded(edge, size, c0, n0, n1, px) == Term(c0[0], Extended(edge, size, px)(n0))
  {
    hide Sum, Term, EdgeFull, Extended;
    var h := Seen(edge, size, n0, |c0|, px);
    SumFirst(c0, n0, 0, n1 - n0 + 1, h);
    forall x | n0 + 1 <= x < n0 + (n1 - n0 + 1) ensures h(x) == 0.0 { LostLeft(edge, size, n0, n1, x, |c0|); }
    ZeroOutside(c0, n0, 1, n1 - n0 + 1, h);
  }

  /** Sliding the window to the image and adding the first coefficient completes the sum. */
  lemma LeftEnd(edge: Edge, size: nat, c0: seq<real>, c: seq<real>, d: seq<real>, n0: int, n1: int, m1: int,
                px: Scanline)
    requires size > 0 && Folds(edge) && n0 < 0 && InLeft(edge, size, c0, n0, n1, c, m1, n0 + 1, px)
    requires |d| == |c| && (m1 >= 0 ==> Moved(d, c, m1, 0 - n0))
    ensures Weighted(d, 0, m1, Extended(edge, size, px)) +
            Term(c0[0], Extended(edge, size, px)(EdgeFull(edge, n0, size))) == Folded(edge, size, c0, n0, n1, px)
  {
    hide Term, Sum, EdgeFull, Extended, Seen, Extra, Lost;
    StoodFor(edge, size, n0, px);
    FirstSeen(edge, size, n0, |c0|, px);
    if Idle(edge, size, n0, n1, n0 + 1, |c|) {
      OnlyFirst(edge, size, c0, n0, n1, px);
    } else {
      SumFirst(c0, n0, 0, n1 - n0 + 1, Seen(edge, size, n0, |c0|, px));
      if m1 >= 0 {
        SumShift(d, c, 0, 0, m1 + 1, 0 - n0, Extended(edge, size, px));
      } else {
        NoSum(c, n0, 0 - n0, Extended(edge, size, px));
      }
    }
  }

  lemma FirstSeen(edge: Edge, size: nat, n0: int, width: nat, px: Scanline)
    requires size > 0
    ensures Seen(edge, size, n0, width, px)(n0) == Extended(edge, size, px)(n0)
  {
    hide EdgeFull, Extended;
  }

  lemma NoSum(c: seq<real>, n0: int, k: nat, px: Scanline)
    requires k <= |c|
    ensures Sum(c, n0, k, k, px) == 0.0
  {
  }

  /** The leftmost position always finds room once the window has moved. */
  lemma LeftRoom(edge: Edge, size: nat, n0: int, m1: int, width: nat)
    requires size > 0 && Folds(edge) && n0 < 0 && n0 <= m1 < size && m1 - n0 < width
    ensures EdgeFull(edge, n0, size) < size && (m1 >= 0 ==> Max(m1, EdgeFull(edge, n0, size)) < width)
  {
  }

  /** Positions left of the image are folded onto it. */
  method FoldLeft(edge: Edge, size: nat, con: Contributors, coeffs: array<real>, stray: int -> real,
                  ghost px: Scanline)
    requires size > 0 && Folds(edge) && con.n0 < 0 && con.n0 <= con.n1 < size && con.n1 - con.n0 + 1 <= coeffs.Length
    modifies con, coeffs
    ensures 0 <= con.n0 <= con.n1 < size && con.n1 - con.n0 + 1 <= coeffs.Length
    ensures Weighted(coeffs[..], con.n0, con.n1, Extended(edge, size, px)) ==
            old(Folded(edge, size, coeffs[..], con.n0, con.n1, px))
  {
    hide Term, Sum, Extended, Seen, EdgeFull, Weighted, Folded, InLeft, Moved;
    ghost var n0, n1, g, c0 := con.n0, con.n1, Extended(edge, size, px), coeffs[..];
    AddLeft(edge, size, con, coeffs, stray, px);
    var saveN0, save := con.n0, coeffs[0];
    ghost var c, m1 := coeffs[..], con.n1;
    con.n0 := 0;
    if con.n1 >= 0 {
      Slide(coeffs, con.n1, -saveN0);
    }
    LeftEnd(edge, size, c0, c, coeffs[..], n0, n1, m1, px);
    LeftRoom(edge, size, n0, m1, coeffs.Length);
    InsertCoeff(con, coeffs, EdgeFull(edge, saveN0, size), save, g);
  }

  // ---------- zero outside ----------

  lemma {:induction false} ZeroOutside(c: seq<real>, n0: int, lo: nat, hi: nat, g: Scanline)
    requires lo <= hi <= |c| && forall x :: n0 + lo <= x < n0 + hi ==> g(x) == 0.0
    ensures Sum(c, n0, lo, hi, g) == 0.0
    decreases hi
  {
    if lo < hi { ZeroOutside(c, n0, lo, hi - 1, g); }
  }

  /** Coefficients outside the image are dropped. */
  method DropOutside(size: nat, con: Contributors, coeffs: array<real>, ghost px: Scanline)
    requires size > 0 && con.n0 <= con.n1 && con.n1 - con.n0 + 1 <= coeffs.Length
    modifies con, coeffs
    ensures Window(con.n0, con.n1, coeffs.Length) && (con.n0 <= con.n1 ==> 0 <= con.n0 && con.n1 < size)
    ensures Weighted(coeffs[..], con.n0, con.n1, px) ==
            old(Weighted(coeffs[..], con.n0, con.n1, Extended(Zero, size, px)))
  {
    hide Term, Sum, Extended, Weighted, Moved;
    ghost var n0, n1, c0 := con.n0, con.n1, coeffs[..];
    AsItWas(c0, con.n1 - con.n0);
    if con.n1 > size - 1 {
      con.n1 := size - 1;
    }
    if con.n0 < 0 {
      var skips := -con.n0;
      con.n0 := 0;
      var left := con.n1 - con.n0 + 1;
      if left > 0 {
        Slide(coeffs, left - 1, skips);
      }
    }
    ZeroFold(c0, coeffs[..], n0, n1, size, px);
  }

  lemma AsItWas(c: seq<real>, last: nat)
    requires last < |c|
    ensures forall k: int {:trigger Moved(c, c, k, 0)} :: k <= last ==> Moved(c, c, k, 0)
  {
  }

  lemma ZeroFold(c0: seq<real>, d: seq<real>, n0: int, n1: int, size: nat, px: Scanline)
    requires size > 0 && n0 <= n1 && n1 - n0 < |c0| == |d|
    requires var lo, hi := Max(n0, 0), Min(n1, size - 1); lo <= hi ==> Moved(d, c0, hi - lo, lo - n0)
    ensures var lo, hi := Max(n0, 0), Min(n1, size - 1);
            Window(lo, hi, |d|) && Weighted(d, lo, hi, px) == Weighted(c0, n0, n1, Extended(Zero, size, px))
  {
    hide Term, Sum;
    var lo, hi, g := Max(n0, 0), Min(n1, size - 1), Extended(Zero, size, px);
    if lo <= hi {
      SumShift(d, c0, lo, 0, hi - lo + 1, lo - n0, px);
      SumScanline(c0, n0, lo - n0, hi - n0 + 1, px, g);
      ZeroOutside(c0, n0, 0, lo - n0, g);
      ZeroOutside(c0, n0, hi - n0 + 1, n1 - n0 + 1, g);
      SumSplit(c0, n0, 0, lo - n0, n1 - n0 + 1, g);
      SumSplit(c0, n0, lo - n0, hi - n0 + 1, n1 - n0 + 1, g);
    } else {
      ZeroOutside(c0, n0, 0, n1 - n0 + 1, g);
    }
  }

  // ---------- trimming and the whole step ----------

  /** Trailing zeros are cut off the window and whatever lies past it is cleared. */
  method Trim(con: Contributors, coeffs: array<real>, ghost px: Scanline)
    requires con.n0 <= con.n1 && con.n1 - con.n0 + 1 <= coeffs.Length
    modifies con, coeffs
    ensures con.n0 == old(con.n0) && con.n0 - 1 <= con.n1 <= old(con.n1) && Window(con.n0, con.n1, coeffs.Length)
    ensures Weighted(coeffs[..], con.n0, con.n1, px) == old(Weighted(coeffs[..], con.n0, con.n1, px))
    ensures con.n0 <= con.n1 ==> coeffs[con.n1 - con.n0] != 0.0
    ensures forall t :: con.n1 - con.n0 + 1 <= t < coeffs.Length ==> coeffs[t] == 0.0
  {
    hide Term, Sum;
    var full := con.n1 - con.n0 + 1;
    var diff: nat := full;
    ghost var c0 := coeffs[..];
    while diff != 0 && coeffs[diff - 1] == 0.0
      invariant con.n0 == old(con.n0) && con.n1 == old(con.n1)
      invariant diff <= full && coeffs[..] == c0 && forall t :: diff <= t < full ==> c0[t] == 0.0
    {
      diff := diff - 1;
    }
    SumSplit(c0, con.n0, 0, diff, full, px);
    SumZeros(c0, con.n0, diff, full, px);
    con.n1 := con.n0 + diff - 1;
    for i := diff to coeffs.Length
      invariant con.n0 == old(con.n0) && con.n1 == con.n0 + diff - 1
      invariant forall t :: 0 <= t < diff ==> coeffs[t] == c0[t]
      invariant forall t :: diff <= t < i ==> coeffs[t] == 0.0
    {
      coeffs[i] := 0.0;
    }
    SumSame(c0, coeffs[..], con.n0, 0, diff, px);
  }

  /** The scanline the coefficients that are left apply to: only wrapped positions are still outside the image. */
  ghost function Left(edge: Edge, size: nat, px: Scanline): Scanline
    requires size > 0
  {
    if edge == Wrap then Extended(edge, size, px) else px
  }

  /** One output pixel: its coefficients, folded into the image and trimmed.  For every scanline they give what they
      gave for the scanline extended past its edges, if the window keeps them all; otherwise exactly what is still
      seen, or nothing at all where the one coefficient of a window right of the image is lost.  `stray` is what lies
      around the coefficients of this pixel. */
  method CleanUp(edge: Edge, size: nat, con: Contributors, coeffs: array<real>, stray: int -> real, ghost px: Scanline)
    requires size > 0 && con.n0 <= con.n1 && con.n1 - con.n0 + 1 <= coeffs.Length
    modifies con, coeffs
    ensures Window(con.n0, con.n1, coeffs.Length)
    ensures con.n0 <= con.n1 && edge != Wrap ==> 0 <= con.n0 && con.n1 < size
    ensures Keeps(edge, size, old(con.n0), old(con.n1), coeffs.Length) ==>
              Weighted(coeffs[..], con.n0, con.n1, Left(edge, size, px)) ==
              old(Weighted(coeffs[..], con.n0, con.n1, Extended(edge, size, px)))
    ensures (Folds(edge) ==> old(con.n0) <= size) ==>
              Weighted(coeffs[..], con.n0, con.n1, Left(edge, size, px)) ==
              old(Folded(edge, size, coeffs[..], con.n0, con.n1, px))
    ensures Folds(edge) && old(con.n0) > size && BlankFrom(old(coeffs[..]), 1) && (forall k :: stray(k) == 0.0) ==>
              Weighted(coeffs[..], con.n0, con.n1, Left(edge, size, px)) == 0.0
    ensures con.n0 <= con.n1 ==> coeffs[con.n1 - con.n0] != 0.0
    ensures con.n0 <= con.n1 ==>
              forall t :: con.n1 - con.n0 + 1 <= t < coeffs.Length ==> coeffs[t] == 0.0
  {
    hide Term, Sum, EdgeFull, Extended, Seen, Weighted, Folded, Keeps;
    ghost var g, n0, n1, c0 := Left(edge, size, px), con.n0, con.n1, coeffs[..];
    if Keeps(edge, size, n0, n1, |c0|) {
      KeepsSet(edge, size, n0, n1, |c0|);
      KeepsAll(edge, size, c0, n0, n1, px);
    }
    if edge == Zero {
      UnfoldedSees(edge, size, c0, n0, n1, px);
      DropOutside(size, con, coeffs, px);
    } else if edge == Clamp || edge == Reflect {
      Fold(edge, size, con, coeffs, stray, px);
    } else {
      UnfoldedSees(edge, size, c0, n0, n1, px);
    }
    if con.n0 <= con.n1 {
      Trim(con, coeffs, g);
    }
    assert con.n1 < con.n0 ==> Weighted(coeffs[..], con.n0, con.n1, g) == 0.0 by {
      NothingLeft(coeffs[..], con.n0, con.n1, g);
    }
  }

  lemma NothingLeft(c: seq<real>, n0: int, n1: int, px: Scanline)
    requires Window(n0, n1, |c|)
    ensures n1 < n0 ==> Weighted(c, n0, n1, px) == 0.0
  {
  }

  /** Where nothing is folded everything is seen. */
  lemma UnfoldedSees(edge: Edge, size: nat, c: seq<real>, n0: int, n1: int, px: Scanline)
    requires size > 0 && n0 <= n1 && Window(n0, n1, |c|) && !Folds(edge)
    ensures Folded(edge, size, c, n0, n1, px) == Weighted(c, n0, n1, Extended(edge, size, px))
  {
    hide Folded, Weighted;
    KeepsAll(edge, size, c, n0, n1, px);
  }

  method Fold(edge: Edge, size: nat, con: Contributors, coeffs: array<real>, stray: int -> real, ghost px: Scanline)
    requires size > 0 && Folds(edge) && con.n0 <= con.n1 && con.n1 - con.n0 + 1 <= coeffs.Length
    modifies con, coeffs
    ensures 0 <= con.n0 <= con.n1 < size && con.n1 - con.n0 + 1 <= coeffs.Length
    ensures old(con.n0) <= size ==>
              Weighted(coeffs[..], con.n0, con.n1, px) == old(Folded(edge, size, coeffs[..], con.n0, con.n1, px))
    ensures old(con.n0) > size && BlankFrom(old(coeffs[..]), 1) && (forall k :: stray(k) == 0.0) ==>
              Weighted(coeffs[..], con.n0, con.n1, px) == 0.0
  {
    hide Term, Sum, EdgeFull, Extended, Seen, Weighted, Folded, Keeps;
    ghost var n0, n1, c0 := con.n0, con.n1, coeffs[..];
    if con.n1 > size - 1 {
      if n0 <= size {
        RightKeeps(edge, size, n0, n1, coeffs.Length);
        KeepsAll(edge, size, c0, n0, n1, px);
      }
      FoldRight(edge, size, con, coeffs, stray, px);
      if con.n0 < 0 {
        RightKeeps(edge, size, n0, con.n1, coeffs.Length);
        KeepsAll(edge, size, coeffs[..], con.n0, con.n1, px);
      }
    } else if con.n0 >= 0 {
      InsideKeeps(edge, size, n0, n1, coeffs.Length);
      KeepsAll(edge, size, c0, n0, n1, px);
    }
    if con.n0 < 0 {
      FoldLeft(edge, size, con, coeffs, stray, px);
    }
    Inside(edge, size, coeffs[..], con.n0, con.n1, px);
    BlankSum(coeffs[..], con.n0, con.n1, px);
  }

  /** A window that reaches the right edge reaches every pixel that stands for a position left of the image. */
  lemma RightKeeps(edge: Edge, size: nat, n0: int, n1: int, width: nat)
    requires size > 0 && n0 <= size && n1 >= size - 1 && n1 - n0 + 1 <= width
    ensures Keeps(edge, size, n0, n1, width)
  {
    hide EdgeFull;
  }

  lemma InsideKeeps(edge: Edge, size: nat, n0: int, n1: int, width: nat)
    requires size > 0 && 0 <= n0 <= n1 < size
    ensures Keeps(edge, size, n0, n1, width)
  {
    hide EdgeFull;
  }

  lemma BlankSum(c: seq<real>, n0: int, n1: int, px: Scanline)
    requires n0 <= n1 && Window(n0, n1, |c|)
    ensures BlankFrom(c, 0) ==> Weighted(c, n0, n1, px) == 0.0
  {
    hide Term;
    if BlankFrom(c, 0) { SumZeros(c, n0, 0, n1 - n0 + 1, px); }
  }

  /** Inside the image the extension is the scanline itself. */
  lemma Inside(edge: Edge, size: nat, c: seq<real>, n0: int, n1: int, px: Scanline)
    requires size > 0 && Folds(edge) && 0 <= n0 <= n1 < size && Window(n0, n1, |c|)
    ensures Weighted(c, n0, n1, Extended(edge, size, px)) == Weighted(c, n0, n1, px)
  {
    hide Sum, EdgeFull;
    var g := Extended(edge, size, px);
    forall x | n0 <= x < n0 + (n1 - n0 + 1) ensures g(x) == px(x) { EdgeFullIs(edge, size, x, px); }
    SumScanline(c, n0, 0, n1 - n0 + 1, g, px);
  }
}
