/** The seven passes of an interlaced PNG image (section 8.2 of ISO/IEC 15948): which pixels
    each pass holds, and the decoder that puts them in place. */
module Adam7 {

  function XOrig(p: nat): nat {
    if p == 1 then 4 else if p == 3 then 2 else if p == 5 then 1 else 0
  }

  function YOrig(p: nat): nat {
    if p == 2 then 4 else if p == 4 then 2 else if p == 6 then 1 else 0
  }

  function XSpc(p: nat): (s: nat)
    ensures s > 0
  {
    if p < 2 then 8 else if p < 4 then 4 else if p < 6 then 2 else 1
  }

  function YSpc(p: nat): (s: nat)
    ensures s > 0
  {
    if p < 3 then 8 else if p < 5 then 4 else 2
  }

  function Div(a: nat, d: nat): nat {
    if d == 8 then a / 8 else if d == 4 then a / 4 else if d == 2 then a / 2 else a
  }

  /** Columns of pass `p`: the count of `x < w` with `x` in the pass. */
  function PassW(p: nat, w: nat): nat
    requires w >= 1 && p < 7
  {
    Div(w - XOrig(p) + XSpc(p) - 1, XSpc(p))
  }

  function PassH(p: nat, h: nat): nat
    requires h >= 1 && p < 7
  {
    Div(h - YOrig(p) + YSpc(p) - 1, YSpc(p))
  }

  /** Where column `i` and row `j` of pass `p` go. */
  function OutX(p: nat, i: nat): nat {
    (if XSpc(p) == 8 then 8 * i else if XSpc(p) == 4 then 4 * i else if XSpc(p) == 2 then 2 * i else i) + XOrig(p)
  }

  function OutY(p: nat, j: nat): nat {
    (if YSpc(p) == 8 then 8 * j else if YSpc(p) == 4 then 4 * j else 2 * j) + YOrig(p)
  }

  /** The pass a pixel belongs to, by the 8 by 8 pattern. */
  function PassOf(x: nat, y: nat): (p: nat)
    ensures p < 7
  {
    if y % 2 == 1 then 6
    else if x % 2 == 1 then 5
    else if y % 4 == 2 then 4
    else if x % 4 == 2 then 3
    else if y % 8 == 4 then 2
    else if x % 8 == 4 then 1
    else 0
  }

  /** The pattern of section 8.2, passes counted from 1. */
  const PATTERN: seq<seq<nat>> :=
    [[1, 6, 4, 6, 2, 6, 4, 6],
     [7, 7, 7, 7, 7, 7, 7, 7],
     [5, 6, 5, 6, 5, 6, 5, 6],
     [7, 7, 7, 7, 7, 7, 7, 7],
     [3, 6, 4, 6, 3, 6, 4, 6],
     [7, 7, 7, 7, 7, 7, 7, 7],
     [5, 6, 5, 6, 5, 6, 5, 6],
     [7, 7, 7, 7, 7, 7, 7, 7]]

  lemma PassPattern(x: nat, y: nat)
    ensures PassOf(x, y) + 1 == PATTERN[y % 8][x % 8]
  {
    PatternRow(x % 8, y % 8);
    Residues(x);
    Residues(y);
  }

  lemma Residues(n: nat)
    ensures n % 2 == n % 8 % 2 && n % 4 == n % 8 % 4
  {
  }

  lemma PatternRow(x: nat, y: nat)
    requires x < 8 && y < 8
    ensures PassOf(x, y) + 1 == PATTERN[y][x]
  {
    assert y == 0 || y == 1 || y == 2 || y == 3 || y == 4 || y == 5 || y == 6 || y == 7;
    assert x == 0 || x == 1 || x == 2 || x == 3 || x == 4 || x == 5 || x == 6 || x == 7;
  }

  function Col(x: nat, y: nat): nat { Div(x, XSpc(PassOf(x, y))) }

  function Row(x: nat, y: nat): nat { Div(y, YSpc(PassOf(x, y))) }

  lemma HomeX(x: nat, y: nat)
    ensures OutX(PassOf(x, y), Col(x, y)) == x
  {
    hide PassOf;
    var p := PassOf(x, y);
    FitsPass(p, x, y);
  }

  lemma HomeY(x: nat, y: nat)
    ensures OutY(PassOf(x, y), Row(x, y)) == y
  {
    hide PassOf;
    var p := PassOf(x, y);
    FitsPass(p, x, y);
  }

  lemma ColInPass(p: nat, w: nat, i: nat)
    requires p < 7 && w >= 1
    ensures i < PassW(p, w) <==> OutX(p, i) < w
  {
  }

  lemma RowInPass(p: nat, h: nat, j: nat)
    requires p < 7 && h >= 1
    ensures j < PassH(p, h) <==> OutY(p, j) < h
  {
  }

  /** Every pixel of the image is one of its pass. */
  lemma PixelInPass(w: nat, h: nat, x: nat, y: nat)
    requires x < w && y < h
    ensures var p := PassOf(x, y);
            Col(x, y) < PassW(p, w) && Row(x, y) < PassH(p, h) && OutX(p, Col(x, y)) == x && OutY(p, Row(x, y)) == y
  {
    hide PassOf, Col, Row, PassW, PassH, OutX, OutY;
    var p := PassOf(x, y);
    HomeX(x, y);
    HomeY(x, y);
    ColInPass(p, w, Col(x, y));
    RowInPass(p, h, Row(x, y));
  }

  /** What the columns and rows of a pass leave on division by 8, 4 or 2. */
  predicate Fits(p: nat, x: nat, y: nat) {
    if p == 0 then x % 8 == 0 && y % 8 == 0
    else if p == 1 then x % 8 == 4 && y % 8 == 0
    else if p == 2 then x % 4 == 0 && y % 8 == 4
    else if p == 3 then x % 4 == 2 && y % 4 == 0
    else if p == 4 then x % 2 == 0 && y % 4 == 2
    else if p == 5 then x % 2 == 1 && y % 2 == 0
    else y % 2 == 1
  }

  lemma FitsOut(p: nat, i: nat, j: nat)
    requires p < 7
    ensures Fits(p, OutX(p, i), OutY(p, j))
  {
    Remainders(i);
    Remainders(j);
    var x, y := OutX(p, i), OutY(p, j);
    if p == 0 { assert Fits(0, 8 * i, 8 * j); }
    else if p == 1 { assert Fits(1, 8 * i + 4, 8 * j); }
    else if p == 2 { assert Fits(2, 4 * i, 8 * j + 4); }
    else if p == 3 { assert Fits(3, 4 * i + 2, 4 * j); }
    else if p == 4 { assert Fits(4, 2 * i, 4 * j + 2); }
    else if p == 5 { assert Fits(5, 2 * i + 1, 2 * j); }
    else { assert Fits(6, i, 2 * j + 1); }
  }

  lemma Remainders(i: nat)
    ensures (8 * i) % 8 == 0 && (8 * i + 4) % 8 == 4
    ensures (4 * i) % 4 == 0 && (4 * i + 2) % 4 == 2
    ensures (2 * i) % 2 == 0 && (2 * i + 1) % 2 == 1
  {
  }

  lemma Nested(x: nat)
    ensures x % 8 == 0 || x % 8 == 4 ==> x % 4 == 0
    ensures x % 4 == 0 || x % 4 == 2 ==> x % 2 == 0
    ensures x % 2 == 0 ==> x % 4 == 0 || x % 4 == 2
    ensures x % 4 == 0 ==> x % 8 == 0 || x % 8 == 4
  {
  }

  lemma FitsPass(p: nat, x: nat, y: nat)
    requires p < 7
    ensures Fits(p, x, y) <==> PassOf(x, y) == p
  {
    Nested(x);
    Nested(y);
  }

  lemma PassPixel(p: nat, i: nat, j: nat)
    requires p < 7
    ensures PassOf(OutX(p, i), OutY(p, j)) == p
  {
    hide PassOf, OutX, OutY, Fits;
    FitsOut(p, i, j);
    FitsPass(p, OutX(p, i), OutY(p, j));
  }

  lemma PassIndices(p: nat, i: nat, j: nat)
    requires p < 7
    ensures Div(OutX(p, i), XSpc(p)) == i && Div(OutY(p, j), YSpc(p)) == j
  {
  }

  /** Every pixel of a pass is one of the image, and of no other pass. */
  lemma PassInImage(w: nat, h: nat, p: nat, i: nat, j: nat)
    requires w >= 1 && h >= 1 && p < 7 && i < PassW(p, w) && j < PassH(p, h)
    ensures var x, y := OutX(p, i), OutY(p, j);
            x < w && y < h && PassOf(x, y) == p && Col(x, y) == i && Row(x, y) == j
  {
    hide PassOf, Div, PassW, PassH, OutX, OutY;
    ColInPass(p, w, i);
    RowInPass(p, h, j);
    PassPixel(p, i, j);
    PassIndices(p, i, j);
  }

  /** The seven passes together have as many pixels as the image. */
  lemma AreasSum(w: nat, h: nat)
    requires w >= 1 && h >= 1
    ensures PassW(0, w) * PassH(0, h) + PassW(1, w) * PassH(1, h) + PassW(2, w) * PassH(2, h) +
            PassW(3, w) * PassH(3, h)
            + PassW(4, w) * PassH(4, h) + PassW(5, w) * PassH(5, h) + PassW(6, w) * PassH(6, h) == w * h
  {
    hide PassW, PassH;
    HalvesW(w);
    HalvesH(h);
    Staircase(PassW(0, w), PassW(1, w), PassW(2, w), PassW(3, w), PassW(4, w), PassW(5, w), w,
              PassH(0, h), PassH(2, h), PassH(3, h), PassH(4, h), PassH(5, h), PassH(6, h), h);
  }

  /** Each pass doubles the columns or the rows covered so far. */
  lemma HalvesW(w: nat)
    requires w >= 1
    ensures PassW(0, w) + PassW(1, w) == PassW(2, w) && PassW(2, w) + PassW(3, w) == PassW(4, w)
    ensures PassW(4, w) + PassW(5, w) == w == PassW(6, w)
  {
    Halves(w);
  }

  lemma HalvesH(h: nat)
    requires h >= 1
    ensures PassH(1, h) == PassH(0, h)
    ensures PassH(0, h) + PassH(2, h) == PassH(3, h) && PassH(3, h) + PassH(4, h) == PassH(5, h)
    ensures PassH(5, h) + PassH(6, h) == h
  {
    Halves(h);
  }

  lemma Halves(n: nat)
    ensures (n + 7) / 8 + (n + 3) / 8 == (n + 3) / 4
    ensures (n + 3) / 4 + (n + 1) / 4 == (n + 1) / 2
    ensures (n + 1) / 2 + n / 2 == n
  {
    Eighths(n);
    Quarters(n);
  }

  lemma Eighths(n: nat)
    ensures (n + 7) / 8 + (n + 3) / 8 == (n + 3) / 4
  {
    var q, r := n / 8, n % 8;
    assert (n + 7) / 8 == if r == 0 then q else q + 1;
    assert (n + 3) / 8 == if r < 5 then q else q + 1;
    assert (n + 3) / 4 == if r == 0 then 2 * q else if r < 5 then 2 * q + 1 else 2 * q + 2;
  }

  lemma Quarters(n: nat)
    ensures (n + 3) / 4 + (n + 1) / 4 == (n + 1) / 2
  {
    var q, r := n / 4, n % 4;
    assert (n + 3) / 4 == if r == 0 then q else q + 1;
    assert (n + 1) / 4 == if r < 3 then q else q + 1;
  }

  lemma Staircase(w0: nat, w1: nat, w2: nat, w3: nat, w4: nat, w5: nat, w: nat,
                  h0: nat, h2: nat, h3: nat, h4: nat, h5: nat, h6: nat, h: nat)
    requires w0 + w1 == w2 && w2 + w3 == w4 && w4 + w5 == w && h0 + h2 == h3 && h3 + h4 == h5 && h5 + h6 == h
    ensures w0 * h0 + w1 * h0 + w2 * h2 + w3 * h3 + w4 * h4 + w5 * h5 + w * h6 == w * h
  {
    Wider(w0, w1, h0);
    Taller(w2, h0, h2);
    Wider(w2, w3, h3);
    Taller(w4, h3, h4);
    Wider(w4, w5, h5);
    Taller(w, h5, h6);
  }

  lemma Wider(a: nat, b: nat, c: nat)
    ensures (a + b) * c == a * c + b * c
  {
  }

  lemma Taller(c: nat, a: nat, b: nat)
    ensures c * (a + b) == c * a + c * b
  {
  }
}
