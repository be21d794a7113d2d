/** De-interlacing: each pass decoded as an image of its own and its pixels copied to their
    places (`stbi__create_png_image`). */
module PngDeinterlace {
  import opened Bits
  import opened PngFilter
  import opened PngUnfilter
  import opened PngPixels
  import opened PngImage
  import opened Adam7

  /** Pixel `k` of an image of `ob`-byte pixels. */
  ghost function Get(s: seq<byte>, ob: nat, k: nat): seq<byte> {
    if Times(k, ob) + ob <= |s| then s[Times(k, ob)..Times(k, ob) + ob] else []
  }

  function Index(w: nat, x: nat, y: nat): nat {
    Times(y, w) + x
  }

  /** Pixels are stored row by row from the top, each row from the left. */
  lemma IndexIs(w: nat, x: nat, y: nat)
    ensures Index(w, x, y) == y * w + x
  {
    TimesIsProduct(y, w);
  }

  lemma IndexBound(w: nat, h: nat, x: nat, y: nat)
    requires x < w && y < h
    ensures Index(w, x, y) < Times(h, w)
  {
    TimesLess(y, h, w);
  }

  lemma IndexUnique(w: nat, x: nat, y: nat, x': nat, y': nat)
    requires x < w && x' < w && Index(w, x, y) == Index(w, x', y')
    ensures x == x' && y == y'
  {
    TimesLess(y, y', w);
    TimesLess(y', y, w);
  }

  lemma SliceOfTake(s: seq<byte>, c: nat, a: nat, n: nat)
    requires a + n <= c <= |s|
    ensures s[a..a + n] == s[..c][a..a + n]
  {
  }

  lemma SliceOfDrop(s: seq<byte>, c: nat, a: nat, n: nat)
    requires c <= a && a + n <= |s|
    ensures s[a..a + n] == s[c..][a - c..a - c + n]
  {
  }

  lemma GetOutside(was: seq<byte>, now: seq<byte>, ob: nat, n: nat, k: nat)
    requires ob > 0 && Outside(was, now, Times(n, ob), Times(n, ob) + ob) && k != n
    ensures Get(was, ob, k) == Get(now, ob, k)
  {
    var a, b := Times(k, ob), Times(n, ob);
    TimesLess(k, n, ob);
    TimesLess(n, k, ob);
    if a + ob <= |was| {
      if k < n {
        SliceOfTake(was, b, a, ob);
        SliceOfTake(now, b, a, ob);
      } else {
        SliceOfDrop(was, b + ob, a, ob);
        SliceOfDrop(now, b + ob, a, ob);
      }
    }
  }

  /** `memcpy` of pixel `m` of one image to pixel `n` of another. */
  method CopyPixel(dest: array<byte>, n: nat, src: array<byte>, m: nat, ob: nat)
    requires dest != src && ob > 0 && Times(n, ob) + ob <= dest.Length && Times(m, ob) + ob <= src.Length
    modifies dest
    ensures Get(dest[..], ob, n) == Get(src[..], ob, m)
    ensures forall k: nat :: k != n ==> Get(dest[..], ob, k) == Get(old(dest[..]), ob, k)
  {
    hide Outside;
    CopyRow(dest, Times(n, ob), src, Times(m, ob), ob);
    forall k: nat | k != n ensures Get(dest[..], ob, k) == Get(old(dest[..]), ob, k) {
      GetOutside(old(dest[..]), dest[..], ob, n, k);
    }
  }

  // ---------- the order in which pixels are placed ----------

  /** Pixel `(x, y)` comes before column `i` of row `j` of pass `p`. */
  predicate Placed(x: nat, y: nat, p: nat, j: nat, i: nat) {
    PassOf(x, y) < p || (PassOf(x, y) == p && (Row(x, y) < j || (Row(x, y) == j && Col(x, y) < i)))
  }

  /** Pixel `(x, y)` is the pixel of its pass that belongs there. */
  ghost predicate PixelOk(final: seq<byte>, images: seq<seq<byte>>, w: nat, ob: nat, x: nat, y: nat)
    requires w >= 1
  {
    var p := PassOf(x, y);
    p < |images| && Get(final, ob, Index(w, x, y)) == Get(images[p], ob, Index(PassW(p, w), Col(x, y), Row(x, y)))
  }

  ghost predicate Written(final: seq<byte>, images: seq<seq<byte>>, w: nat, h: nat, ob: nat, p: nat, j: nat, i: nat)
    requires w >= 1
  {
    forall x: nat, y: nat :: x < w && y < h && Placed(x, y, p, j, i) ==> PixelOk(final, images, w, ob, x, y)
  }

  lemma WrittenStep(was: seq<byte>, now: seq<byte>, images: seq<seq<byte>>, w: nat, h: nat, ob: nat, p: nat, j: nat,
                    i: nat)
    requires w >= 1 && h >= 1 && p < 7 && p < |images| && i < PassW(p, w) && j < PassH(p, h)
    requires Written(was, images, w, h, ob, p, j, i)
    requires Get(now, ob, Index(w, OutX(p, i), OutY(p, j))) == Get(images[p], ob, Index(PassW(p, w), i, j))
    requires forall k: nat :: k != Index(w, OutX(p, i), OutY(p, j)) ==> Get(now, ob, k) == Get(was, ob, k)
    ensures Written(now, images, w, h, ob, p, j, i + 1)
  {
    hide PassOf, Row, Col, OutX, OutY, PassW, PassH, Get, Index;
    PassInImage(w, h, p, i, j);
    forall x: nat, y: nat | x < w && y < h && Placed(x, y, p, j, i + 1) ensures PixelOk(now, images, w, ob, x, y) {
      PixelInPass(w, h, x, y);
      if Placed(x, y, p, j, i) {
        assert PixelOk(was, images, w, ob, x, y);
        if Index(w, x, y) == Index(w, OutX(p, i), OutY(p, j)) {
          IndexUnique(w, x, y, OutX(p, i), OutY(p, j));
        }
      }
    }
  }

  lemma NextRow(final: seq<byte>, images: seq<seq<byte>>, w: nat, h: nat, ob: nat, p: nat, j: nat)
    requires w >= 1 && p < 7 && Written(final, images, w, h, ob, p, j, PassW(p, w))
    ensures Written(final, images, w, h, ob, p, j + 1, 0)
  {
    hide PassOf, Row, Col, OutX, OutY, PassW, PassH, PixelOk;
    forall x: nat, y: nat | x < w && y < h && Placed(x, y, p, j + 1, 0) ensures PixelOk(final, images, w, ob, x, y) {
      PixelInPass(w, h, x, y);
      assert Placed(x, y, p, j, PassW(p, w));
    }
  }

  lemma NextPass(final: seq<byte>, images: seq<seq<byte>>, w: nat, h: nat, ob: nat, p: nat, j: nat)
    requires w >= 1 && h >= 1 && p < 7 && Written(final, images, w, h, ob, p, j, 0)
    requires j == PassH(p, h) || PassW(p, w) == 0
    ensures Written(final, images, w, h, ob, p + 1, 0, 0)
  {
    hide PassOf, Row, Col, OutX, OutY, PassW, PassH, PixelOk;
    forall x: nat, y: nat | x < w && y < h && Placed(x, y, p + 1, 0, 0) ensures PixelOk(final, images, w, ob, x, y) {
      PixelInPass(w, h, x, y);
      assert Placed(x, y, p, j, 0);
    }
  }

  lemma MoreImages(final: seq<byte>, images: seq<seq<byte>>, more: seq<byte>, w: nat, h: nat, ob: nat, p: nat)
    requires w >= 1 && Written(final, images, w, h, ob, p, 0, 0)
    ensures Written(final, images + [more], w, h, ob, p, 0, 0)
  {
    hide PassOf, Row, Col, PassW, Get, Index;
    forall x: nat, y: nat | x < w && y < h && Placed(x, y, p, 0, 0)
      ensures PixelOk(final, images + [more], w, ob, x, y)
    {
      assert PixelOk(final, images, w, ob, x, y);
    }
  }

  /** Row `j` of pass `p`. */
  method PlaceRow(final: array<byte>, image: array<byte>, w: nat, h: nat, ob: nat, p: nat, j: nat,
                  ghost images: seq<seq<byte>>)
    requires final != image && ob > 0 && w >= 1 && h >= 1 && p < 7 && p < |images| && images[p] == image[..]
    requires final.Length == Times(Times(h, w), ob) && image.Length == Times(Times(PassH(p, h), PassW(p, w)), ob)
    requires j < PassH(p, h) && Written(final[..], images, w, h, ob, p, j, 0)
    modifies final
    ensures Written(final[..], images, w, h, ob, p, j + 1, 0)
  {
    hide Written, PassW, PassH, OutX, OutY, Index, Get;
    for i := 0 to PassW(p, w)
      invariant Written(final[..], images, w, h, ob, p, j, i)
    {
      ghost var was := final[..];
      hide PassOf, Row, Col;
      PassInImage(w, h, p, i, j);
      IndexBound(w, h, OutX(p, i), OutY(p, j));
      IndexBound(PassW(p, w), PassH(p, h), i, j);
      TimesLess(Index(w, OutX(p, i), OutY(p, j)), Times(h, w), ob);
      TimesLess(Index(PassW(p, w), i, j), Times(PassH(p, h), PassW(p, w)), ob);
      CopyPixel(final, Index(w, OutX(p, i), OutY(p, j)), image, Index(PassW(p, w), i, j), ob);
      WrittenStep(was, final[..], images, w, h, ob, p, j, i);
    }
    NextRow(final[..], images, w, h, ob, p, j);
  }

  method PlacePass(final: array<byte>, image: array<byte>, w: nat, h: nat, ob: nat, p: nat,
                   ghost images: seq<seq<byte>>)
    requires final != image && ob > 0 && w >= 1 && h >= 1 && p < 7 && p < |images| && images[p] == image[..]
    requires final.Length == Times(Times(h, w), ob) && image.Length == Times(Times(PassH(p, h), PassW(p, w)), ob)
    requires Written(final[..], images, w, h, ob, p, 0, 0)
    modifies final
    ensures Written(final[..], images, w, h, ob, p + 1, 0, 0)
  {
    hide Written, PassW, PassH;
    for j := 0 to PassH(p, h)
      invariant Written(final[..], images, w, h, ob, p, j, 0)
    {
      PlaceRow(final, image, w, h, ob, p, j, images);
    }
    NextPass(final[..], images, w, h, ob, p, PassH(p, h));
  }

  // ---------- the whole image ----------

  /** Pass `p` of an image of format `f` as an image of its own. */
  function PassFormat(f: Format, p: nat): Format
    requires f.x >= 1 && p < 7
  {
    f.(x := PassW(p, f.x))
  }

  predicate EmptyPass(f: Format, h: nat, p: nat)
    requires f.x >= 1 && h >= 1 && p < 7
  {
    PassW(p, f.x) == 0 || PassH(p, h) == 0
  }

  /** The bytes a pass occupies in the data, and where it starts. */
  function PassBytes(f: Format, h: nat, p: nat): nat
    requires f.x >= 1 && h >= 1 && p < 7
  {
    if EmptyPass(f, h, p) then 0 else Times(PassH(p, h), RowBytes(PassFormat(f, p)) + 1)
  }

  ghost function PassStart(f: Format, h: nat, p: nat): nat
    requires f.x >= 1 && h >= 1 && p <= 7
  {
    if p == 0 then 0 else PassStart(f, h, p - 1) + PassBytes(f, h, p - 1)
  }

  ghost function PassImage(raw: seq<byte>, f: Format, h: nat, p: nat): Option<seq<byte>>
    requires FormatOk(f) && h >= 1 && p < 7
  {
    if EmptyPass(f, h, p) then Some([])
    else if PassStart(f, h, p) <= |raw| then RawImage(raw[PassStart(f, h, p)..], PassFormat(f, p), PassH(p, h))
    else None
  }

  /** Every pixel is the one its pass holds for it. */
  ghost predicate Deinterlaced(final: seq<byte>, raw: seq<byte>, f: Format, h: nat)
    requires FormatOk(f) && h >= 1
  {
    && |final| == Times(Times(h, f.x), OutBytes(f))
    && forall x: nat, y: nat :: x < f.x && y < h ==> FromPass(final, raw, f, h, x, y)
  }

  ghost predicate FromPass(final: seq<byte>, raw: seq<byte>, f: Format, h: nat, x: nat, y: nat)
    requires FormatOk(f) && h >= 1
  {
    var p := PassOf(x, y);
    var image := PassImage(raw, f, h, p);
    image.Some? && Get(final, OutBytes(f), Index(f.x, x, y)) ==
                   Get(image.value, OutBytes(f), Index(PassW(p, f.x), Col(x, y), Row(x, y)))
  }

  lemma {:induction false} TimesTimes(a: nat, b: nat, c: nat)
    ensures Times(Times(a, b), c) == Times(a, Times(b, c))
  {
    if a > 0 {
      TimesTimes(a - 1, b, c);
      TimesAdd(Times(a - 1, b), b, c);
    }
  }

  lemma StrideTimes(f: Format, h: nat)
    ensures Times(h, Stride(f)) == Times(Times(h, f.x), OutBytes(f))
  {
    TimesTimes(h, f.x, OutBytes(f));
    TimesIsProduct(f.x, OutBytes(f));
  }

  /** A pass that decodes leaves the data long enough for the bytes it consumed. */
  lemma PassConsumed(raw: seq<byte>, f: Format, h: nat, p: nat)
    requires FormatOk(f) && h >= 1 && p < 7 && PassStart(f, h, p) <= |raw| && PassImage(raw, f, h, p).Some?
    ensures PassStart(f, h, p + 1) <= |raw|
  {
    hide PassW, PassH, RestoreRows, Pixels, RowBytes, PixelBytes;
    if !EmptyPass(f, h, p) {
      var g, rest := PassFormat(f, p), raw[PassStart(f, h, p)..];
      Sizes(g);
      if |rest| < Times(PassH(p, h), RowBytes(g) + 1) {
        TooShort(rest, Zeros(RowBytes(g)), PassH(p, h), PixelBytes(g));
      }
    }
  }

  /** The images of the passes so far. */
  ghost predicate Decoded(raw: seq<byte>, f: Format, h: nat, images: seq<seq<byte>>)
    requires FormatOk(f) && h >= 1
  {
    |images| <= 7 && forall q: nat :: q < |images| ==> PassImage(raw, f, h, q) == Some(images[q])
  }

  lemma AllPlaced(final: seq<byte>, raw: seq<byte>, f: Format, h: nat, images: seq<seq<byte>>)
    requires FormatOk(f) && h >= 1 && Decoded(raw, f, h, images) && |images| == 7
    requires |final| == Times(Times(h, f.x), OutBytes(f)) && Written(final, images, f.x, h, OutBytes(f), 7, 0, 0)
    ensures Deinterlaced(final, raw, f, h)
  {
    hide PassOf, Row, Col, PassW, Get, Index, PassImage;
    forall x: nat, y: nat | x < f.x && y < h ensures FromPass(final, raw, f, h, x, y) {
      assert PixelOk(final, images, f.x, OutBytes(f), x, y);
    }
  }

  lemma DecodedNext(raw: seq<byte>, f: Format, h: nat, images: seq<seq<byte>>, image: seq<byte>)
    requires FormatOk(f) && h >= 1 && Decoded(raw, f, h, images) && |images| < 7
    requires PassImage(raw, f, h, |images|) == Some(image)
    ensures Decoded(raw, f, h, images + [image])
  {
  }

  /** Pass `p`, if it has any pixel: its image decoded and put in place. */
  method DecodePass(raw: seq<byte>, at: nat, f: Format, h: nat, p: nat, final: array<byte>,
                    ghost images: seq<seq<byte>>)
      returns (ok: bool, ghost images': seq<seq<byte>>)
    requires FormatOk(f) && h >= 1 && p < 7 && |images| == p && Decoded(raw, f, h, images)
    requires at == PassStart(f, h, p) <= |raw| && final.Length == Times(Times(h, f.x), OutBytes(f))
    requires Written(final[..], images, f.x, h, OutBytes(f), p, 0, 0)
    modifies final
    ensures ok == PassImage(raw, f, h, p).Some?
    ensures ok ==> Decoded(raw, f, h, images') && |images'| == p + 1
    ensures ok ==> Written(final[..], images', f.x, h, OutBytes(f), p + 1, 0, 0)
  {
    hide Written, PassImage, PassW, PassH, PassOf, Decoded;
    var w, ob, x, y := f.x, OutBytes(f), PassW(p, f.x), PassH(p, h);
    images' := images;
    if x != 0 && y != 0 {
      var image;
      ok, image := CreateImageRaw(raw, at, PassFormat(f, p), y);
      PassOfRaw(raw, f, h, p);
      if ok {
        images' := images + [image[..]];
        DecodedNext(raw, f, h, images, image[..]);
        MoreImages(final[..], images, image[..], w, h, ob, p);
        StrideTimes(PassFormat(f, p), y);
        PlacePass(final, image, w, h, ob, p, images');
      }
    } else {
      EmptyImage(raw, f, h, p);
      images' := images + [[]];
      DecodedNext(raw, f, h, images, []);
      MoreImages(final[..], images, [], w, h, ob, p);
      NextPass(final[..], images', w, h, ob, p, 0);
      ok := true;
    }
  }

  /** The image of the inflated data `raw`, `f.x` by `h` pixels, sent in seven passes. */
  method Deinterlace(raw: seq<byte>, f: Format, h: nat) returns (ok: bool, final: array<byte>)
    requires FormatOk(f) && h >= 1
    ensures fresh(final)
    ensures ok <==> forall p: nat :: p < 7 ==> PassImage(raw, f, h, p).Some?
    ensures ok ==> Deinterlaced(final[..], raw, f, h)
  {
    hide Written, PassImage, Deinterlaced, PassW, PassH, PassOf, PassBytes;
    final := new byte[Times(Times(h, f.x), OutBytes(f))];
    ghost var images: seq<seq<byte>> := [];
    NothingPlaced(final[..], f.x, h, OutBytes(f));
    var at: nat := 0;
    for p := 0 to 7
      invariant fresh(final) && final.Length == Times(Times(h, f.x), OutBytes(f))
      invariant |images| == p && Decoded(raw, f, h, images) && at == PassStart(f, h, p) <= |raw|
      invariant Written(final[..], images, f.x, h, OutBytes(f), p, 0, 0)
    {
      ok, images := DecodePass(raw, at, f, h, p, final, images);
      if !ok {
        return;
      }
      PassConsumed(raw, f, h, p);
      at := at + PassBytes(f, h, p);
    }
    AllPlaced(final[..], raw, f, h, images);
    ok := true;
  }

  lemma NothingPlaced(final: seq<byte>, w: nat, h: nat, ob: nat)
    requires w >= 1
    ensures Written(final, [], w, h, ob, 0, 0, 0)
  {
  }

  lemma PassOfRaw(raw: seq<byte>, f: Format, h: nat, p: nat)
    requires FormatOk(f) && h >= 1 && p < 7 && !EmptyPass(f, h, p) && PassStart(f, h, p) <= |raw|
    ensures PassImage(raw, f, h, p) == RawImage(raw[PassStart(f, h, p)..], PassFormat(f, p), PassH(p, h))
  {
  }

  lemma EmptyImage(raw: seq<byte>, f: Format, h: nat, p: nat)
    requires FormatOk(f) && h >= 1 && p < 7 && EmptyPass(f, h, p)
    ensures PassImage(raw, f, h, p) == Some([])
  {
  }
}
