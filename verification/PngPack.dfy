/** Encoding rows of pixels at any bit depth (section 7.2 of ISO/IEC 15948), and what the decoder's expansion makes
    of them. */
module PngPack {
  import opened Bits
  import opened PngPixels
  import opened PngDeinterlace

  /** A sample for each channel. */
  predicate PixelFits(f: Format, px: seq<nat>) {
    |px| == f.imgN && SamplesFit(f, px)
  }

  predicate SamplesFit(f: Format, s: seq<nat>) {
    forall i :: 0 <= i < |s| ==> s[i] < Pow2(f.depth)
  }

  ghost predicate PixelsFit(f: Format, pixels: seq<seq<nat>>) {
    forall k :: 0 <= k < |pixels| ==> PixelFits(f, pixels[k])
  }

  // ---------- the bytes of samples in the output ----------

  /** Byte `k` of the samples in the output: small samples a byte each and stretched if grey, 16-bit ones in machine
      order. */
  function OutByte(f: Format, s: seq<nat>, k: nat): byte
    requires FormatOk(f) && SamplesFit(f, s) && k < By(SampleBytes(f), |s|)
  {
    if f.depth < 8 then SmallOut(f, s[k])
    else if f.depth == 8 then ByteSample(f, s[k])
    else WordByte(f, s[k / 2], (k % 2 == 0) == f.little)
  }

  function SmallOut(f: Format, v: nat): byte
    requires FormatOk(f) && f.depth < 8 && v < Pow2(f.depth)
  {
    Pow2Values();
    By(Scale(f), v)
  }

  function ByteSample(f: Format, v: nat): byte
    requires f.depth == 8 && v < Pow2(f.depth)
  {
    Pow2Values();
    v
  }

  /** The low or the high byte. */
  function WordByte(f: Format, v: nat, low: bool): byte
    requires f.depth == 16 && v < Pow2(f.depth)
  {
    Pow2Values();
    if low then v % 256 else v / 256
  }

  function OutSamples(f: Format, s: seq<nat>): (r: seq<byte>)
    requires FormatOk(f) && SamplesFit(f, s)
    ensures |r| == By(SampleBytes(f), |s|)
  {
    seq<byte>(By(SampleBytes(f), |s|), k requires 0 <= k < By(SampleBytes(f), |s|) => OutByte(f, s, k))
  }

  /** A pixel in the output, opaque if alpha is added. */
  function Render(f: Format, px: seq<nat>): (r: seq<byte>)
    requires FormatOk(f) && PixelFits(f, px)
    ensures |r| == OutBytes(f)
  {
    OutSamples(f, px) + seq<byte>(if f.imgN == f.outN then 0 else SampleBytes(f), i => 255)
  }

  // ---------- packing ----------

  /** Values of `d` bits, the first in the most significant ones. */
  function Fold(d: nat, v: seq<nat>): nat {
    if v == [] then 0 else v[|v| - 1] + Shl(Fold(d, v[..|v| - 1]), d)
  }

  lemma {:induction false} FoldBound(d: nat, v: seq<nat>)
    requires (d == 1 || d == 2 || d == 4) && forall i :: 0 <= i < |v| ==> v[i] < Pow2(d)
    ensures Fold(d, v) < Pow2(d * |v|)
    decreases |v|
  {
    hide Pow2, Shl;
    EmptyFold(d);
    if v != [] {
      FoldBound(d, v[..|v| - 1]);
      ShlBound(v[|v| - 1], Fold(d, v[..|v| - 1]), d, d * (|v| - 1));
      assert d * |v| == d + d * (|v| - 1);
    }
  }

  lemma EmptyFold(d: nat)
    ensures Fold(d, []) < Pow2(0)
  {
  }

  /** Value `q` is found again by shifting out those behind it. */
  lemma {:induction false} FoldAt(d: nat, v: seq<nat>, q: nat)
    requires (d == 1 || d == 2 || d == 4) && q < |v| && forall i :: 0 <= i < |v| ==> v[i] < Pow2(d)
    ensures Low(Shr(Fold(d, v), d * (|v| - 1 - q)), d) == v[q]
    decreases |v|
  {
    hide Pow2, Shl, Shr, Low;
    var last, rest := v[|v| - 1], v[..|v| - 1];
    ShiftNone(Fold(d, v));
    SplitJoin(last, Fold(d, rest), d);
    if q < |v| - 1 {
      FoldAt(d, rest, q);
      ShrAdd(Fold(d, v), d, d * (|rest| - 1 - q));
      assert d * (|v| - 1 - q) == d + d * (|rest| - 1 - q);
    }
  }

  lemma ShiftNone(x: nat)
    ensures Shr(x, 0) == x
  {
  }

  function Padded(s: seq<nat>, i: nat): nat {
    if i < |s| then s[i] else 0
  }

  /** The samples of byte `k`; past the end of the row there are zeros. */
  function Group(d: nat, s: seq<nat>, k: nat): (g: seq<nat>)
    ensures |g| == PerByte(d)
  {
    seq<nat>(PerByte(d), q requires 0 <= q < PerByte(d) => Padded(s, Times(k, PerByte(d)) + q))
  }

  lemma GroupFits(f: Format, s: seq<nat>, k: nat)
    requires SamplesFit(f, s)
    ensures forall i :: 0 <= i < PerByte(f.depth) ==> Group(f.depth, s, k)[i] < Pow2(f.depth)
    ensures forall i :: 0 <= i < PerByte(f.depth) ==>
            Group(f.depth, s, k)[i] == Padded(s, Times(k, PerByte(f.depth)) + i)
  {
    hide Pow2, Times;
    forall i | 0 <= i < PerByte(f.depth) ensures Group(f.depth, s, k)[i] < Pow2(f.depth) {
      assert Group(f.depth, s, k)[i] == Padded(s, Times(k, PerByte(f.depth)) + i);
    }
  }

  function PackedByte(f: Format, s: seq<nat>, k: nat): byte
    requires FormatOk(f) && f.depth < 8 && SamplesFit(f, s)
  {
    GroupFits(f, s, k);
    FoldBound(f.depth, Group(f.depth, s, k));
    Pow2Values();
    Fold(f.depth, Group(f.depth, s, k))
  }

  /** The bytes of a row of samples. */
  function PackSamples(f: Format, s: seq<nat>): (r: seq<byte>)
    requires FormatOk(f) && SamplesFit(f, s) && |s| == SampleCount(f)
    ensures |r| == RowBytes(f)
  {
    if f.depth < 8 then seq<byte>(RowBytes(f), k requires 0 <= k < RowBytes(f) => PackedByte(f, s, k))
    else if f.depth == 8 then seq<byte>(RowBytes(f), k requires 0 <= k < RowBytes(f) => ByteSample(f, s[k]))
    else seq<byte>(RowBytes(f), k requires 0 <= k < RowBytes(f) => WordByte(f, s[k / 2], k % 2 == 1))
  }

  lemma PlaceInByte(d: nat, i: nat)
    requires d == 1 || d == 2 || d == 4
    ensures i == Times(ByteOf(d, i), PerByte(d)) + Phase(d, i) && Phase(d, i) < PerByte(d)
    ensures 8 - d - d * Phase(d, i) == d * (PerByte(d) - 1 - Phase(d, i))
  {
    TimesIsProduct(ByteOf(d, i), PerByte(d));
  }

  /** The decoder's small sample is the one packed. */
  lemma SmallPacked(f: Format, s: seq<nat>, i: nat)
    requires FormatOk(f) && f.depth < 8 && SamplesFit(f, s) && |s| == SampleCount(f) && i < |s|
    ensures SmallSample(f, PackSamples(f, s), i) == SmallOut(f, s[i])
  {
    hide Shr, Low, Fold, Times, RowBytes, Phase, ByteOf, Group;
    NextByte(f, i);
    var d, k, q := f.depth, ByteOf(f.depth, i), Phase(f.depth, i);
    PlaceInByte(d, i);
    Pow2Values();
    GroupFits(f, s, k);
    FoldAt(d, Group(d, s, k), q);
    assert Group(d, s, k)[q] == s[i];
  }

  lemma SmallsPacked(f: Format, s: seq<nat>)
    requires FormatOk(f) && f.depth < 8 && SamplesFit(f, s) && |s| == SampleCount(f)
    ensures Samples(f, PackSamples(f, s)) == OutSamples(f, s)
  {
    hide SmallSample, PackedByte, Pow2, SmallOut, PackSamples, RowBytes;
    var row, a := PackSamples(f, s), OutSamples(f, s);
    forall i: nat | i < |s| ensures Samples(f, row)[i] == a[i] {
      SmallPacked(f, s, i);
      assert Samples(f, row)[i] == SmallSample(f, row, i);
    }
  }

  lemma WordsPacked(f: Format, s: seq<nat>)
    requires FormatOk(f) && f.depth == 16 && SamplesFit(f, s) && |s| == SampleCount(f)
    ensures Samples(f, PackSamples(f, s)) == OutSamples(f, s)
  {
    hide Pow2;
    var row, a := PackSamples(f, s), OutSamples(f, s);
    forall k: nat | k < |row| ensures Samples(f, row)[k] == a[k] {
      assert Samples(f, row)[k] == MachineByte(f, row, k);
    }
  }

  /** Expanding packed samples gives their bytes in the output. */
  lemma SamplesPacked(f: Format, s: seq<nat>)
    requires FormatOk(f) && SamplesFit(f, s) && |s| == SampleCount(f)
    ensures Samples(f, PackSamples(f, s)) == OutSamples(f, s)
  {
    hide Pow2;
    if f.depth < 8 {
      SmallsPacked(f, s);
    } else if f.depth == 16 {
      WordsPacked(f, s);
    }
  }

  // ---------- rows of pixels ----------

  function Flat(pixels: seq<seq<nat>>): seq<nat> {
    if pixels == [] then [] else Flat(pixels[..|pixels| - 1]) + pixels[|pixels| - 1]
  }

  lemma {:induction false} FlatFits(f: Format, pixels: seq<seq<nat>>)
    requires PixelsFit(f, pixels)
    ensures |Flat(pixels)| == Times(|pixels|, f.imgN) && SamplesFit(f, Flat(pixels))
    decreases |pixels|
  {
    hide Pow2;
    if pixels != [] {
      FlatFits(f, pixels[..|pixels| - 1]);
      assert PixelFits(f, pixels[|pixels| - 1]);
    }
  }

  /** The samples of pixel `i`. */
  lemma {:induction false} FlatAt(f: Format, pixels: seq<seq<nat>>, i: nat)
    requires PixelsFit(f, pixels) && i < |pixels|
    ensures Times(i, f.imgN) + f.imgN <= |Flat(pixels)|
    ensures Flat(pixels)[Times(i, f.imgN)..Times(i, f.imgN) + f.imgN] == pixels[i]
    decreases |pixels|
  {
    hide PixelFits;
    var n := |pixels| - 1;
    var a, b := Flat(pixels[..n]), pixels[n];
    FlatFits(f, pixels[..n]);
    FlatFits(f, pixels);
    if i < n {
      FlatAt(f, pixels[..n], i);
      assert (a + b)[Times(i, f.imgN)..Times(i, f.imgN) + f.imgN] == a[Times(i, f.imgN)..Times(i, f.imgN) + f.imgN];
    } else {
      PixelSize(f, b);
      assert (a + b)[|a|..|a| + |b|] == b;
    }
  }

  lemma PixelSize(f: Format, px: seq<nat>)
    ensures PixelFits(f, px) ==> |px| == f.imgN
  {
  }

  /** A row as the file has it. */
  ghost function PackRow(f: Format, pixels: seq<seq<nat>>): (r: seq<byte>)
    requires FormatOk(f) && PixelsFit(f, pixels) && |pixels| == f.x
    ensures |r| == RowBytes(f)
  {
    FlatFits(f, pixels);
    TimesIsProduct(f.x, f.imgN);
    PackSamples(f, Flat(pixels))
  }

  lemma OutShift(f: Format, s: seq<nat>, a: nat, n: nat, k: nat)
    requires FormatOk(f) && SamplesFit(f, s) && a + n <= |s| && k < By(SampleBytes(f), n)
    ensures SamplesFit(f, s[a..a + n]) && By(SampleBytes(f), a) + k < By(SampleBytes(f), |s|)
    ensures OutByte(f, s, By(SampleBytes(f), a) + k) == OutByte(f, s[a..a + n], k)
  {
    hide Pow2, SmallOut, ByteSample, WordByte;
    if f.depth == 16 { assert (2 * a + k) / 2 == a + k / 2 && (2 * a + k) % 2 == k % 2; }
  }

  /** The output bytes of some of the samples. */
  lemma OutSlice(f: Format, s: seq<nat>, a: nat, n: nat)
    requires FormatOk(f) && SamplesFit(f, s) && a + n <= |s|
    ensures SamplesFit(f, s[a..a + n]) && By(SampleBytes(f), a) + By(SampleBytes(f), n) <= |OutSamples(f, s)|
    ensures OutSamples(f, s)[By(SampleBytes(f), a)..By(SampleBytes(f), a) + By(SampleBytes(f), n)] ==
            OutSamples(f, s[a..a + n])
  {
    hide Pow2, OutByte;
    var lo, len := By(SampleBytes(f), a), By(SampleBytes(f), n);
    assert SamplesFit(f, s[a..a + n]);
    var t, u := OutSamples(f, s)[lo..lo + len], OutSamples(f, s[a..a + n]);
    forall k: nat | k < len ensures t[k] == u[k] {
      OutShift(f, s, a, n, k);
    }
  }

  /** Group `i` of bytes with opacity added. */
  lemma {:induction false} AlphaGroup(s: seq<byte>, n: nat, a: nat, x: nat, i: nat)
    requires n > 0 && |s| == Times(x, n) && i < x
    ensures Times(i, n + a) + (n + a) <= |AddAlpha(s, n, a)| && Times(i, n) + n <= |s|
    ensures AddAlpha(s, n, a)[Times(i, n + a)..Times(i, n + a) + (n + a)] ==
            s[Times(i, n)..Times(i, n) + n] + seq<byte>(a, j => 255)
    decreases x
  {
    hide AddAlpha;
    var head, tail := s[..n] + seq<byte>(a, j => 255), AddAlpha(s[n..], n, a);
    TimesLess(i, x, n);
    AlphaFirst(s, n, a);
    if i > 0 {
      var lo := Times(i - 1, n + a);
      AlphaGroup(s[n..], n, a, x - 1, i - 1);
      TailSlice(head, tail, lo, n + a);
      SliceOfDrop(s, n, Times(i, n), n);
    } else {
      assert (head + tail)[..n + a] == head;
    }
  }

  lemma AlphaFirst(s: seq<byte>, n: nat, a: nat)
    requires 0 < n <= |s|
    ensures AddAlpha(s, n, a) == s[..n] + seq<byte>(a, j => 255) + AddAlpha(s[n..], n, a)
  {
  }

  lemma TailSlice(head: seq<byte>, tail: seq<byte>, lo: nat, n: nat)
    requires lo + n <= |tail|
    ensures (head + tail)[|head| + lo..|head| + lo + n] == tail[lo..lo + n]
  {
  }

  /** Pixel `i` of an expanded packed row. */
  lemma PackedPixel(f: Format, pixels: seq<seq<nat>>, i: nat)
    requires FormatOk(f) && PixelsFit(f, pixels) && |pixels| == f.x && i < f.x
    ensures PixelFits(f, pixels[i]) && Get(RowPixels(f, PackRow(f, pixels)), OutBytes(f), i) == Render(f, pixels[i])
  {
    hide Samples, PackSamples, PixelFits, Flat, OutSamples, RowPixels, Get, OutBytes, SampleBytes, RowBytes, Times;
    FlatFits(f, pixels);
    TimesIsProduct(f.x, f.imgN);
    SamplesPacked(f, Flat(pixels));
    FlatAt(f, pixels, i);
    OutSlice(f, Flat(pixels), Times(i, f.imgN), f.imgN);
    PixelSlice(f, PackRow(f, pixels), i);
  }

  /** Pixel `i` of an expanded row: its samples, and opacity if alpha is added. */
  lemma PixelSlice(f: Format, row: seq<byte>, i: nat)
    requires FormatOk(f) && |row| == RowBytes(f) && i < f.x
    ensures var (a, n) := (By(SampleBytes(f), Times(i, f.imgN)), By(SampleBytes(f), f.imgN));
            a + n <= |Samples(f, row)| && Get(RowPixels(f, row), OutBytes(f), i) ==
              Samples(f, row)[a..a + n] + seq<byte>(if f.imgN == f.outN then 0 else SampleBytes(f), j => 255)
  {
    hide Samples, AddAlpha;
    var s, m := Samples(f, row), SampleBytes(f);
    GroupSize(f, i);
    GroupSize(f, f.x);
    TimesIsProduct(f.x, f.imgN);
    TimesLess(i, f.x, By(m, f.imgN));
    if f.imgN != f.outN {
      AlphaGroup(s, By(m, f.imgN), m, f.x, i);
    } else {
      NoOpacity(Get(s, OutBytes(f), i));
    }
  }

  lemma NoOpacity(s: seq<byte>)
    ensures s + seq<byte>(0, j => 255) == s
  {
  }

  lemma GroupSize(f: Format, i: nat)
    ensures By(SampleBytes(f), Times(i, f.imgN)) == Times(i, By(SampleBytes(f), f.imgN))
    ensures FormatOk(f) && f.imgN != f.outN ==> OutBytes(f) == By(SampleBytes(f), f.imgN) + SampleBytes(f)
  {
    TimesIsProduct(i, f.imgN);
    TimesIsProduct(i, By(SampleBytes(f), f.imgN));
  }
}
