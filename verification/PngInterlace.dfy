/** An interlacing encoder for PNG images of every bit depth, and the proof that the decoder inverts it. */
module PngInterlace {
  import opened Bits
  import opened PngFilter
  import opened PngPixels
  import opened PngImage
  import opened PngPack
  import opened Adam7
  import opened PngDeinterlace

  /** The pixels of an image, row by row, each a sample for every channel. */
  ghost predicate ImageOf(img: seq<seq<nat>>, f: Format, h: nat) {
    FormatOk(f) && h >= 1 && |img| == Times(h, f.x) && PixelsFit(f, img)
  }

  /** The first `n` pixels rendered. */
  ghost function RenderedUpTo(img: seq<seq<nat>>, f: Format, n: nat): (r: seq<byte>)
    requires FormatOk(f) && PixelsFit(f, img) && n <= |img|
    ensures |r| == Times(n, OutBytes(f))
  {
    if n == 0 then [] else RenderedUpTo(img, f, n - 1) + Render(f, img[n - 1])
  }

  /** The bytes a decoder should give. */
  ghost function Rendered(img: seq<seq<nat>>, f: Format, h: nat): (r: seq<byte>)
    requires ImageOf(img, f, h)
    ensures |r| == Times(Times(h, f.x), OutBytes(f))
  {
    RenderedUpTo(img, f, |img|)
  }

  ghost function PixelAt(img: seq<seq<nat>>, w: nat, x: nat, y: nat): seq<nat> {
    if Index(w, x, y) < |img| then img[Index(w, x, y)] else []
  }

  /** Row `j` of pass `p`. */
  ghost function PassRow(img: seq<seq<nat>>, f: Format, p: nat, j: nat): (r: seq<seq<nat>>)
    requires f.x >= 1 && p < 7
    ensures |r| == PassW(p, f.x)
  {
    seq(PassW(p, f.x), i requires 0 <= i < PassW(p, f.x) => PixelAt(img, f.x, OutX(p, i), OutY(p, j)))
  }

  /** The rows of pass `p` as the file has them. */
  ghost function PassRows(img: seq<seq<nat>>, f: Format, h: nat, p: nat): (rows: seq<seq<byte>>)
    requires ImageOf(img, f, h) && p < 7 && !EmptyPass(f, h, p)
    ensures |rows| == PassH(p, h)
  {
    seq(PassH(p, h), j requires 0 <= j < PassH(p, h) =>
      PassRowFits(img, f, h, p, j); PackRow(PassFormat(f, p), PassRow(img, f, p, j)))
  }

  lemma PassRowFits(img: seq<seq<nat>>, f: Format, h: nat, p: nat, j: nat)
    requires ImageOf(img, f, h) && p < 7 && !EmptyPass(f, h, p) && j < PassH(p, h)
    ensures FormatOk(PassFormat(f, p)) && PixelsFit(PassFormat(f, p), PassRow(img, f, p, j))
  {
    hide PassOf, Row, Col, OutX, OutY, PassW, PassH, Index, Pow2;
    forall i: nat | i < PassW(p, f.x) ensures PixelFits(f, PassRow(img, f, p, j)[i]) {
      PassInImage(f.x, h, p, i, j);
      IndexBound(f.x, h, OutX(p, i), OutY(p, j));
    }
  }

  /** A choice of filter for every row of pass `p`. */
  ghost predicate TypesFit(types: seq<nat>, h: nat, p: nat)
    requires h >= 1 && p < 7
  {
    |types| == PassH(p, h) && forall j :: 0 <= j < |types| ==> types[j] <= 4
  }

  ghost predicate TypesChosen(types: seq<seq<nat>>, h: nat)
    requires h >= 1
  {
    |types| == 7 && forall q: nat :: q < 7 ==> TypesFit(types[q], h, q)
  }

  lemma RowsOfPass(img: seq<seq<nat>>, f: Format, h: nat, p: nat)
    requires ImageOf(img, f, h) && p < 7 && !EmptyPass(f, h, p)
    ensures RowsFit(PassFormat(f, p), PassRows(img, f, h, p))
  {
    hide PassW, PassH, RowBytes, PackRow;
    forall j: nat | j < PassH(p, h) ensures |PassRows(img, f, h, p)[j]| == RowBytes(PassFormat(f, p)) {
      PassRowFits(img, f, h, p, j);
    }
  }

  lemma GetPrefix(a: seq<byte>, b: seq<byte>, ob: nat, k: nat)
    requires Times(k, ob) + ob <= |a|
    ensures Get(a + b, ob, k) == Get(a, ob, k)
  {
  }

  lemma GetLast(a: seq<byte>, b: seq<byte>, ob: nat, k: nat)
    requires |a| == Times(k, ob) && |b| == ob
    ensures Get(a + b, ob, k) == b
  {
  }

  lemma GetSuffix(a: seq<byte>, b: seq<byte>, ob: nat, n: nat, k: nat)
    requires |a| == Times(n, ob) && Times(k, ob) + ob <= |b|
    ensures Get(a + b, ob, n + k) == Get(b, ob, k)
  {
    TimesAdd(n, k, ob);
  }

  lemma PixelsLast(g: Format, rows: seq<seq<byte>>)
    requires RowsFit(g, rows) && rows != []
    ensures RowsFit(g, rows[..|rows| - 1])
    ensures Pixels(g, rows) == Pixels(g, rows[..|rows| - 1]) + RowPixels(g, rows[|rows| - 1])
  {
    hide RowPixels;
  }

  /** Pixel `i` of row `j` in an image of rows. */
  lemma {:induction false} PixelOfRows(g: Format, rows: seq<seq<byte>>, i: nat, j: nat)
    requires RowsFit(g, rows) && j < |rows| && i < g.x
    ensures Get(Pixels(g, rows), OutBytes(g), Index(g.x, i, j)) == Get(RowPixels(g, rows[j]), OutBytes(g), i)
    decreases |rows|
  {
    hide RowBytes, Stride, OutBytes, Pixels, RowPixels, Get, Times;
    var ob, n := OutBytes(g), |rows| - 1;
    StrideIs(g);
    PixelsLast(g, rows);
    PixelsLength(g, rows[..n]);
    RowPixelsLength(g, rows[n]);
    TimesTimes(n, g.x, ob);
    TimesTimes(j, g.x, ob);
    TimesAdd(Times(j, g.x), i, ob);
    TimesLess(i, g.x, ob);
    if j < n {
      PixelOfRows(g, rows[..n], i, j);
      TimesLess(j, n, Stride(g));
      GetPrefix(Pixels(g, rows[..n]), RowPixels(g, rows[n]), ob, Index(g.x, i, j));
    } else {
      GetSuffix(Pixels(g, rows[..n]), RowPixels(g, rows[n]), ob, Times(n, g.x), i);
    }
  }

  lemma StrideIs(g: Format)
    ensures Stride(g) == Times(g.x, OutBytes(g))
  {
    TimesIsProduct(g.x, OutBytes(g));
  }

  /** Pixel `k` of the rendered image. */
  lemma {:induction false} RenderedAt(img: seq<seq<nat>>, f: Format, n: nat, k: nat)
    requires FormatOk(f) && PixelsFit(f, img) && k < n <= |img|
    ensures PixelFits(f, img[k]) && Get(RenderedUpTo(img, f, n), OutBytes(f), k) == Render(f, img[k])
  {
    hide Get, Render, OutBytes, PixelFits, Times;
    var ob := OutBytes(f);
    if k < n - 1 {
      RenderedAt(img, f, n - 1, k);
      TimesLess(k, n - 1, ob);
      GetPrefix(RenderedUpTo(img, f, n - 1), Render(f, img[n - 1]), ob, k);
    } else {
      GetLast(RenderedUpTo(img, f, n - 1), Render(f, img[n - 1]), ob, k);
    }
  }

  /** The data of an interlaced image from pass `p` on, each row filtered as `types` says. */
  ghost function Interlaced(img: seq<seq<nat>>, f: Format, h: nat, types: seq<seq<nat>>, p: nat): seq<byte>
    requires ImageOf(img, f, h) && p <= 7 && TypesChosen(types, h)
    decreases 7 - p
  {
    if p == 7 then []
    else if EmptyPass(f, h, p) then Interlaced(img, f, h, types, p + 1)
    else
      RowsOfPass(img, f, h, p);
      assert TypesFit(types[p], h, p);
      FilterRows(types[p], PassRows(img, f, h, p), Zeros(RowBytes(PassFormat(f, p))), PixelBytes(PassFormat(f, p)))
      + Interlaced(img, f, h, types, p + 1)
  }

  lemma {:induction false} FilteredLength(types: seq<nat>, rows: seq<seq<byte>>, prior: seq<byte>, bpp: nat)
    requires |types| == |rows| && (forall i :: 0 <= i < |types| ==> types[i] <= 4)
    requires forall i :: 0 <= i < |rows| ==> |rows[i]| == |prior|
    ensures |FilterRows(types, rows, prior, bpp)| == Times(|rows|, |prior| + 1)
    decreases |rows|
  {
    hide FilterRow;
    if rows != [] { FilteredLength(types[1..], rows[1..], rows[0], bpp); }
  }

  /** What the data hold from each pass on. */
  lemma {:induction false} DataFrom(img: seq<seq<nat>>, f: Format, h: nat, types: seq<seq<nat>>, p: nat)
    requires ImageOf(img, f, h) && p <= 7 && TypesChosen(types, h)
    ensures var raw := Interlaced(img, f, h, types, 0);
            PassStart(f, h, p) <= |raw| && raw[PassStart(f, h, p)..] == Interlaced(img, f, h, types, p)
  {
    hide PassW, PassH, FilterRows, PassRows, RowBytes;
    if p > 0 {
      DataFrom(img, f, h, types, p - 1);
      var raw := Interlaced(img, f, h, types, 0);
      var rest := Interlaced(img, f, h, types, p - 1);
      if !EmptyPass(f, h, p - 1) {
        RowsOfPass(img, f, h, p - 1);
        assert TypesFit(types[p - 1], h, p - 1);
        var g := PassFormat(f, p - 1);
        FilteredLength(types[p - 1], PassRows(img, f, h, p - 1), Zeros(RowBytes(g)), PixelBytes(g));
        assert rest[PassBytes(f, h, p - 1)..] == Interlaced(img, f, h, types, p);
      }
      assert raw[PassStart(f, h, p)..] == raw[PassStart(f, h, p - 1)..][PassBytes(f, h, p - 1)..];
    }
  }

  /** Every pass of the encoder's data decodes to the pixels it was given. */
  lemma PassDecodes(img: seq<seq<nat>>, f: Format, h: nat, types: seq<seq<nat>>, p: nat)
    requires ImageOf(img, f, h) && p < 7 && TypesChosen(types, h)
    ensures PassImage(Interlaced(img, f, h, types, 0), f, h, p).Some?
    ensures !EmptyPass(f, h, p) ==>
              RowsFit(PassFormat(f, p), PassRows(img, f, h, p)) &&
              PassImage(Interlaced(img, f, h, types, 0), f, h, p).value ==
                Pixels(PassFormat(f, p), PassRows(img, f, h, p))
  {
    hide PassW, PassH, RawImage, FilterRows, PassRows, Pixels, PassStart;
    if !EmptyPass(f, h, p) {
      DataFrom(img, f, h, types, p);
      RowsOfPass(img, f, h, p);
      assert TypesFit(types[p], h, p);
      RawImageOfFiltered(types[p], PassRows(img, f, h, p), PassFormat(f, p), Interlaced(img, f, h, types, p + 1));
    }
  }

  /** What the passes hold for a pixel is that pixel rendered. */
  lemma PixelBack(img: seq<seq<nat>>, final: seq<byte>, f: Format, h: nat, types: seq<seq<nat>>, x: nat, y: nat)
    requires ImageOf(img, f, h) && TypesChosen(types, h) && x < f.x && y < h
    ensures FromPass(final, Interlaced(img, f, h, types, 0), f, h, x, y) <==>
            Get(final, OutBytes(f), Index(f.x, x, y)) == Get(Rendered(img, f, h), OutBytes(f), Index(f.x, x, y))
  {
    hide PassOf, Row, Col, OutX, OutY, PassW, PassH, Index, Get, Interlaced, PassImage, Pixels, RowBytes, Stride,
         OutBytes;
    hide RowPixels, PackRow, Render, PixelFits;
    var p, i, j := PassOf(x, y), Col(x, y), Row(x, y);
    PixelInPass(f.x, h, x, y);
    PassDecodes(img, f, h, types, p);
    var g, rows := PassFormat(f, p), PassRows(img, f, h, p);
    PixelOfRows(g, rows, i, j);
    PassRowFits(img, f, h, p, j);
    PackedPixel(g, PassRow(img, f, p, j), i);
    IndexBound(f.x, h, x, y);
    RenderedAt(img, f, |img|, Index(f.x, x, y));
    SameRender(f, g, img[Index(f.x, x, y)]);
  }

  lemma SameRender(f: Format, g: Format, px: seq<nat>)
    requires FormatOk(f) && FormatOk(g) && g == f.(x := g.x) && PixelFits(f, px)
    ensures OutBytes(f) == OutBytes(g) && PixelFits(g, px) && Render(f, px) == Render(g, px)
  {
  }

  /** Images of equal size with equal pixels are equal. */
  lemma {:induction false} SamePixels(a: seq<byte>, b: seq<byte>, ob: nat, n: nat)
    requires Times(n, ob) <= |a| && Times(n, ob) <= |b| && forall k: nat :: k < n ==> Get(a, ob, k) == Get(b, ob, k)
    ensures a[..Times(n, ob)] == b[..Times(n, ob)]
  {
    if n > 0 {
      SamePixels(a, b, ob, n - 1);
      var t := Times(n - 1, ob);
      assert Get(a, ob, n - 1) == Get(b, ob, n - 1);
      assert a[..t + ob] == a[..t] + a[t..t + ob] && b[..t + ob] == b[..t] + b[t..t + ob];
    }
  }

  lemma {:induction false} PixelOfIndex(w: nat, h: nat, k: nat) returns (x: nat, y: nat)
    requires k < Times(h, w)
    ensures x < w && y < h && Index(w, x, y) == k
  {
    if k < Times(h - 1, w) {
      x, y := PixelOfIndex(w, h - 1, k);
    } else {
      x, y := k - Times(h - 1, w), h - 1;
    }
  }

  /** De-interlacing what the encoder made gives the image back as it should be rendered, whatever its size, its
      format and the filters chosen. */
  lemma InterlaceRoundTrip(img: seq<seq<nat>>, f: Format, h: nat, types: seq<seq<nat>>, final: seq<byte>)
    requires ImageOf(img, f, h) && TypesChosen(types, h)
    ensures forall p: nat :: p < 7 ==> PassImage(Interlaced(img, f, h, types, 0), f, h, p).Some?
    ensures Deinterlaced(final, Interlaced(img, f, h, types, 0), f, h) <==> final == Rendered(img, f, h)
  {
    hide Interlaced, Index, Get, PassImage, OutBytes, Rendered, FromPass;
    var raw := Interlaced(img, f, h, types, 0);
    forall p: nat | p < 7 ensures PassImage(raw, f, h, p).Some? {
      PassDecodes(img, f, h, types, p);
    }
    if Deinterlaced(final, raw, f, h) {
      SameImage(img, final, f, h, types);
    }
    if final == Rendered(img, f, h) {
      forall x: nat, y: nat | x < f.x && y < h ensures FromPass(final, raw, f, h, x, y) {
        PixelBack(img, final, f, h, types, x, y);
      }
    }
  }

  lemma SameImage(img: seq<seq<nat>>, final: seq<byte>, f: Format, h: nat, types: seq<seq<nat>>)
    requires ImageOf(img, f, h) && TypesChosen(types, h)
    requires Deinterlaced(final, Interlaced(img, f, h, types, 0), f, h)
    ensures final == Rendered(img, f, h)
  {
    hide Interlaced, Index, Get, FromPass, OutBytes, Rendered;
    var n, want := Times(h, f.x), Rendered(img, f, h);
    forall k: nat | k < n ensures Get(final, OutBytes(f), k) == Get(want, OutBytes(f), k) {
      var x, y := PixelOfIndex(f.x, h, k);
      assert FromPass(final, Interlaced(img, f, h, types, 0), f, h, x, y);
      PixelBack(img, final, f, h, types, x, y);
    }
    SamePixels(final, want, OutBytes(f), n);
    assert final[..|final|] == final && want[..|want|] == want;
  }
}
