/** Drawing colour indices into the rectangle of a GIF image, as a function of the
    screen and the list of indices. */
module GifScreen {
  import opened Bits
  import opened GifRows

  /** An image of `w` by `h` pixels at `(x0, y0)` on a screen of `gw` by `gh`, and its 256 colours of four bytes. */
  datatype Frame = Frame(gw: nat, gh: nat, x0: nat, y0: nat, w: nat, h: nat, colors: seq<byte>)

  predicate FrameOk(f: Frame) {
    f.x0 + f.w <= f.gw && f.y0 + f.h <= f.gh && |f.colors| == 1024
  }

  /** Pixels of four bytes, a mark for each pixel drawn, and what is left to visit. */
  datatype Screen = Screen(img: seq<byte>, hist: seq<byte>, rest: seq<nat>, col: nat)

  predicate ScreenOk(f: Frame, s: Screen) {
    && FrameOk(f)
    && |s.hist| == Times(f.gh, f.gw) && |s.img| == 4 * |s.hist|
    && (s.rest != [] ==> s.col < f.w)
    && forall i :: 0 <= i < |s.rest| ==> s.rest[i] < f.h
  }

  /** The pixel at row `r` and column `c` of the image. */
  function PixelAt(f: Frame, r: nat, c: nat): nat {
    f.x0 + c + Times(f.y0 + r, f.gw)
  }

  lemma PixelBound(f: Frame, r: nat, c: nat)
    requires FrameOk(f) && r < f.h && c < f.w
    ensures PixelAt(f, r, c) < Times(f.gh, f.gw)
  {
    TimesLess(f.y0 + r, f.gh, f.gw);
  }

  lemma PixelUnique(f: Frame, r: nat, c: nat, r': nat, c': nat)
    requires FrameOk(f) && r < f.h && c < f.w && r' < f.h && c' < f.w && (r, c) != (r', c')
    ensures PixelAt(f, r, c) != PixelAt(f, r', c')
  {
    TimesLess(f.y0 + r, f.y0 + r', f.gw);
    TimesLess(f.y0 + r', f.y0 + r, f.gw);
  }

  /** Colour `i` in screen order (the table holds blue, green, red), unless it is transparent. */
  function Plot(f: Frame, img: seq<byte>, p: nat, i: byte): (r: seq<byte>)
    requires |f.colors| == 1024 && 4 * p + 4 <= |img|
    ensures |r| == |img|
  {
    if f.colors[4 * i + 3] > 128 then
      img[4 * p := f.colors[4 * i + 2]][4 * p + 1 := f.colors[4 * i + 1]][4 * p + 2 := f.colors[4 * i]]
         [4 * p + 3 := f.colors[4 * i + 3]]
    else img
  }

  /** One colour index: drawn at the next pixel, or ignored when none is left. */
  function DrawOne(f: Frame, s: Screen, i: byte): (r: Screen)
    requires ScreenOk(f, s)
    ensures ScreenOk(f, r)
  {
    if s.rest == [] then s
    else
      var p := PixelAt(f, s.rest[0], s.col);
      PixelBound(f, s.rest[0], s.col);
      Screen(Plot(f, s.img, p, i), s.hist[p := 1], NextRows(f.w, s.rest, s.col), NextCol(f.w, s.col))
  }

  function Draw(f: Frame, s: Screen, idx: seq<byte>): (r: Screen)
    requires ScreenOk(f, s)
    ensures ScreenOk(f, r)
    decreases |idx|
  {
    if idx == [] then s else Draw(f, DrawOne(f, s, idx[0]), idx[1..])
  }

  lemma {:induction false} DrawAppend(f: Frame, s: Screen, a: seq<byte>, b: seq<byte>)
    requires ScreenOk(f, s)
    ensures Draw(f, s, a + b) == Draw(f, Draw(f, s, a), b)
    decreases |a|
  {
    if a == [] {
      assert a + b == b;
    } else {
      assert (a + b)[1..] == a[1..] + b;
      DrawAppend(f, DrawOne(f, s, a[0]), a[1..], b);
    }
  }

  lemma DrawLast(f: Frame, s: Screen, a: seq<byte>, i: byte)
    requires ScreenOk(f, s)
    ensures Draw(f, s, a + [i]) == DrawOne(f, Draw(f, s, a), i)
  {
    DrawAppend(f, s, a, [i]);
    assert Draw(f, DrawOne(f, Draw(f, s, a), i), []) == DrawOne(f, Draw(f, s, a), i);
  }

  /** The four bytes of pixel `p`. */
  function PixelOf(img: seq<byte>, p: nat): seq<byte>
    requires 4 * p + 4 <= |img|
  {
    img[4 * p..4 * p + 4]
  }

  /** Colour `i` as it is shown over `under`. */
  function Shown(f: Frame, i: byte, under: seq<byte>): seq<byte>
    requires |f.colors| == 1024
  {
    if f.colors[4 * i + 3] > 128 then [f.colors[4 * i + 2], f.colors[4 * i + 1], f.colors[4 * i], f.colors[4 * i + 3]]
    else under
  }

  lemma PlotShows(f: Frame, img: seq<byte>, p: nat, i: byte, q: nat)
    requires |f.colors| == 1024 && 4 * p + 4 <= |img| && 4 * q + 4 <= |img|
    ensures PixelOf(Plot(f, img, p, i), q) == if p == q then Shown(f, i, PixelOf(img, q)) else PixelOf(img, q)
  {
  }

  /** `(r, c)` is still to be visited. */
  ghost predicate Left(s: Screen, r: nat, c: nat) {
    s.rest != [] && ((r == s.rest[0] && c >= s.col) || r in s.rest[1..])
  }

  lemma LeftNext(f: Frame, s: Screen, r: nat, c: nat)
    requires ScreenOk(f, s) && NoDup(s.rest) && s.rest != [] && c < f.w
    ensures var next := Screen(s.img, s.hist, NextRows(f.w, s.rest, s.col), NextCol(f.w, s.col));
            NoDup(next.rest) && (Left(next, r, c) <==> Left(s, r, c) && (r, c) != (s.rest[0], s.col))
  {
  }

  /** A pixel that is no longer to be visited keeps its colour and mark. */
  lemma {:induction false} DrawLeaves(f: Frame, s: Screen, idx: seq<byte>, r: nat, c: nat)
    requires ScreenOk(f, s) && NoDup(s.rest) && r < f.h && c < f.w && !Left(s, r, c)
    ensures PixelAt(f, r, c) < |s.hist|
    ensures var t := Draw(f, s, idx);
            PixelOf(t.img, PixelAt(f, r, c)) == PixelOf(s.img, PixelAt(f, r, c)) &&
            t.hist[PixelAt(f, r, c)] == s.hist[PixelAt(f, r, c)]
    decreases |idx|
  {
    PixelBound(f, r, c);
    if idx != [] && s.rest != [] {
      PixelBound(f, s.rest[0], s.col);
      LeftNext(f, s, r, c);
      PixelUnique(f, r, c, s.rest[0], s.col);
      PlotShows(f, s.img, PixelAt(f, s.rest[0], s.col), idx[0], PixelAt(f, r, c));
      DrawLeaves(f, DrawOne(f, s, idx[0]), idx[1..], r, c);
    } else if idx != [] {
      DrawLeaves(f, s, idx[1..], r, c);
    }
  }

  /** Whatever is drawn, pixels outside the rectangle keep their colour and mark. */
  lemma {:induction false} DrawOutside(f: Frame, s: Screen, idx: seq<byte>, q: nat)
    requires ScreenOk(f, s) && q < |s.hist|
    requires forall r: nat, c: nat :: r < f.h && c < f.w ==> PixelAt(f, r, c) != q
    ensures PixelOf(Draw(f, s, idx).img, q) == PixelOf(s.img, q)
    ensures q < |Draw(f, s, idx).hist| && Draw(f, s, idx).hist[q] == s.hist[q]
    decreases |idx|
  {
    if idx != [] && s.rest != [] {
      PixelBound(f, s.rest[0], s.col);
      assert PixelAt(f, s.rest[0], s.col) != q;
      PlotShows(f, s.img, PixelAt(f, s.rest[0], s.col), idx[0], q);
      DrawOutside(f, DrawOne(f, s, idx[0]), idx[1..], q);
    } else if idx != [] {
      DrawOutside(f, s, idx[1..], q);
    }
  }

  /** The pixel the `k`-th emission visits shows the `k`-th index and is marked. */
  lemma {:induction false} DrawShows(f: Frame, s: Screen, idx: seq<byte>, k: nat)
    requires ScreenOk(f, s) && NoDup(s.rest) && k < |idx| && Visit(f.w, s.rest, s.col, k).Some?
    ensures var (r, c) := Visit(f.w, s.rest, s.col, k).value; r < f.h && c < f.w && Left(s, r, c)
    ensures var (r, c) := Visit(f.w, s.rest, s.col, k).value;
            var p := PixelAt(f, r, c);
            p < |s.hist| && PixelOf(Draw(f, s, idx).img, p) == Shown(f, idx[k], PixelOf(s.img, p)) &&
            Draw(f, s, idx).hist[p] == 1
    decreases k
  {
    var (r, c) := Visit(f.w, s.rest, s.col, k).value;
    var t := DrawOne(f, s, idx[0]);
    PixelBound(f, s.rest[0], s.col);
    if k == 0 {
      LeftNext(f, s, r, c);
      PlotShows(f, s.img, PixelAt(f, r, c), idx[0], PixelAt(f, r, c));
      DrawLeaves(f, t, idx[1..], r, c);
    } else {
      DrawShows(f, t, idx[1..], k - 1);
      LeftNext(f, s, r, c);
      PixelUnique(f, r, c, s.rest[0], s.col);
      PlotShows(f, s.img, PixelAt(f, s.rest[0], s.col), idx[0], PixelAt(f, r, c));
    }
  }
}
