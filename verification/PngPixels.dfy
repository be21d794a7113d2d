/** From the restored bytes of a PNG row to the pixels of the output: sub-byte samples,
    16-bit samples in machine order, and an opaque alpha channel where one is asked for. */
module PngPixels {
  import opened Bits
  import opened PngFilter
  import opened PngUnfilter

  /** A row of `x` pixels of `imgN` channels of `depth` bits, wanted as `outN` channels; `gray` is colour type 0,
      and `little` the byte order of the machine. */
  datatype Format = Format(x: nat, imgN: nat, outN: nat, depth: nat, gray: bool, little: bool)

  predicate FormatOk(f: Format) {
    && f.x >= 1 && 1 <= f.imgN <= 4
    && (f.outN == f.imgN || (f.outN == f.imgN + 1 && (f.imgN == 1 || f.imgN == 3)))
    && (f.depth == 1 || f.depth == 2 || f.depth == 4 || f.depth == 8 || f.depth == 16)
  }

  /** `n * x` for the few small `n` a format gives. */
  function By(n: nat, x: nat): (r: nat)
    ensures r == n * x
  {
    if n == 1 then x else if n == 2 then 2 * x else if n == 3 then 3 * x else if n == 4 then 4 * x
    else if n == 6 then 6 * x else if n == 8 then 8 * x else if n == 16 then 16 * x else n * x
  }

  function SampleBytes(f: Format): nat { if f.depth == 16 then 2 else 1 }

  function SampleCount(f: Format): nat { By(f.imgN, f.x) }

  function RowBytes(f: Format): nat { (By(f.depth, SampleCount(f)) + 7) / 8 }

  function PixelBytes(f: Format): nat { if f.depth < 8 then 1 else By(SampleBytes(f), f.imgN) }

  function OutBytes(f: Format): nat { By(SampleBytes(f), f.outN) }

  function Stride(f: Format): nat { By(OutBytes(f), f.x) }

  lemma Sizes(f: Format)
    requires FormatOk(f)
    ensures 0 < PixelBytes(f) <= RowBytes(f)
  {
    assert SampleCount(f) >= f.imgN;
  }

  /** The sizes in numbers: a row takes the fewest bytes that hold its bits; the distance of the filters is one complete
      pixel, or a byte if pixels are smaller (section 9.2 of ISO/IEC 15948). */
  lemma SizesAre(f: Format)
    requires FormatOk(f)
    ensures 8 * RowBytes(f) - 8 < f.depth * (f.imgN * f.x) <= 8 * RowBytes(f)
    ensures if f.depth < 8 then PixelBytes(f) == 1
            else 8 * PixelBytes(f) == f.depth * f.imgN && RowBytes(f) == Times(f.x, PixelBytes(f))
    ensures Stride(f) == if f.depth == 16 then 2 * (f.outN * f.x) else f.outN * f.x
  {
    TimesIsProduct(f.x, PixelBytes(f));
    if f.depth == 8 {
      WholeBytes(f.imgN * f.x, 1);
    } else if f.depth == 16 {
      WholeBytes(f.imgN * f.x, 2);
      assert f.x * (2 * f.imgN) == 2 * (f.imgN * f.x);
    }
  }

  lemma WholeBytes(n: nat, m: nat)
    ensures (8 * (m * n) + 7) / 8 == m * n
  {
  }

  /** Where byte `b` of sample `c` of pixel `i` is. */
  function ByteIndex(f: Format, i: nat, c: nat, b: nat): nat {
    (i * f.imgN + c) * (f.depth / 8) + b
  }

  lemma ByteIndexIn(f: Format, i: nat, c: nat, b: nat)
    requires FormatOk(f) && f.depth >= 8 && i < f.x && c < f.imgN && b < f.depth / 8
    ensures ByteIndex(f, i, c, b) < RowBytes(f)
    ensures i == 0 ==> ByteIndex(f, i, c, b) < PixelBytes(f)
    ensures i > 0 ==> ByteIndex(f, i, c, b) == ByteIndex(f, i - 1, c, b) + PixelBytes(f)
  {
    hide RowBytes, PixelBytes, Stride, Times;
    SizesAre(f);
    TimesIsProduct(f.x, PixelBytes(f));
    assert PixelBytes(f) == f.depth / 8 * f.imgN;
    IndexIn(i, f.imgN, c, f.depth / 8, b, f.x);
  }

  lemma IndexIn(i: nat, n: nat, c: nat, d: nat, b: nat, x: nat)
    requires (d == 1 || d == 2) && i < x && c < n && b < d
    ensures (i * n + c) * d + b < x * (d * n)
    ensures i == 0 ==> (i * n + c) * d + b < d * n
    ensures i > 0 ==> (i * n + c) * d + b == ((i - 1) * n + c) * d + b + d * n
  {
    MulMonotone(n, i + 1, x);
    assert i * n + c < x * n;
    if d == 1 {
      assert x * (1 * n) == x * n;
    } else {
      assert x * (2 * n) == 2 * (x * n);
    }
  }

  /** Each byte of a pixel is restored from the same byte of the same sample of the pixels to the left, above and upper
      left. */
  lemma RestoredPixel(f: Format, filter: nat, raw: seq<byte>, prior: seq<byte>, i: nat, c: nat, b: nat)
    requires FormatOk(f) && f.depth >= 8 && i < f.x && c < f.imgN && b < f.depth / 8
    requires |raw| == |prior| == RowBytes(f) && PixelBytes(f) > 0
    ensures ByteIndex(f, i, c, b) < RowBytes(f) && (i > 0 ==> ByteIndex(f, i - 1, c, b) < RowBytes(f))
    ensures var (r, k) := (Restored(filter, raw, prior, PixelBytes(f), RowBytes(f)), ByteIndex(f, i, c, b));
            r[k] == if i == 0 then RestoredByte(filter, raw[k], 0, prior[k], 0)
                    else var l := ByteIndex(f, i - 1, c, b); RestoredByte(filter, raw[k], r[l], prior[k], prior[l])
  {
    hide Restored, RestoredByte, ByteIndex, RowBytes, PixelBytes;
    ByteIndexIn(f, i, c, b);
    if i > 0 { ByteIndexIn(f, i - 1, c, b); }
    RestoredAt(filter, raw, prior, PixelBytes(f), RowBytes(f), ByteIndex(f, i, c, b));
  }

  // ---------- what the pixels are ----------

  /** Samples of 1, 2 or 4 bits lie in each byte from its high end down (section 7.2 of ISO/IEC 15948). */
  function Phase(d: nat, i: nat): (q: nat)
    requires d == 1 || d == 2 || d == 4
    ensures d * q + d <= 8
  {
    if d == 4 then i % 2 else if d == 2 then i % 4 else i % 8
  }

  function ByteOf(d: nat, i: nat): nat {
    if d == 4 then i / 2 else if d == 2 then i / 4 else i / 8
  }

  /** Grey levels are stretched to 0..255. */
  function Scale(f: Format): nat {
    if !f.gray then 1 else if f.depth == 1 then 255 else if f.depth == 2 then 85 else 17
  }

  /** The largest grey sample becomes 255, and the others keep their proportion to it. */
  lemma ScaleIs(f: Format, v: nat)
    requires FormatOk(f) && f.depth < 8 && v < Pow2(f.depth)
    ensures By(Scale(f), v) * (Pow2(f.depth) - 1) == if f.gray then v * 255 else v * (Pow2(f.depth) - 1)
    ensures f.gray ==> By(Scale(f), Pow2(f.depth) - 1) == 255
  {
    Pow2Values();
  }

  lemma SampleInRow(f: Format, i: nat)
    requires FormatOk(f) && f.depth < 8 && i < SampleCount(f)
    ensures ByteOf(f.depth, i) < RowBytes(f)
  {
    hide SampleCount;
  }

  function SmallSample(f: Format, row: seq<byte>, i: nat): (r: byte)
    requires FormatOk(f) && f.depth < 8 && |row| == RowBytes(f) && i < SampleCount(f)
  {
    SampleInRow(f, i);
    var q := Phase(f.depth, i);
    var v := Low(Shr(row[ByteOf(f.depth, i)], 8 - f.depth - f.depth * q), f.depth);
    JoinSplit(Shr(row[ByteOf(f.depth, i)], 8 - f.depth - f.depth * q), f.depth);
    ScaledFits(f, v);
    By(Scale(f), v)
  }

  /** The largest sample is stretched to 255 or less. */
  lemma ScaledFits(f: Format, v: nat)
    requires FormatOk(f) && f.depth < 8 && v < Pow2(f.depth)
    ensures By(Scale(f), v) < 256
  {
    hide Pow2, By;
    Pow2Values();
  }

  /** The bytes of the samples of a row. */
  function Samples(f: Format, row: seq<byte>): (s: seq<byte>)
    requires FormatOk(f) && |row| == RowBytes(f)
    ensures |s| == By(SampleBytes(f), SampleCount(f))
  {
    if f.depth < 8 then seq<byte>(SampleCount(f), i requires 0 <= i < SampleCount(f) => SmallSample(f, row, i))
    else if f.depth == 8 then row
    else seq<byte>(|row|, k requires 0 <= k < |row| => MachineByte(f, row, k))
  }

  /** The two bytes of a sample, stored with the more significant first, in the order of the machine. */
  function MachineByte(f: Format, row: seq<byte>, k: nat): byte
    requires k < |row| && |row| % 2 == 0
  {
    if f.little then (if k % 2 == 0 then row[k + 1] else row[k - 1]) else row[k]
  }

  /** `a` bytes of full opacity after every `n` bytes. */
  function AddAlpha(s: seq<byte>, n: nat, a: nat): seq<byte>
    requires n > 0
    decreases |s|
  {
    if |s| < n then [] else s[..n] + seq<byte>(a, i => 255) + AddAlpha(s[n..], n, a)
  }

  function RowPixels(f: Format, row: seq<byte>): seq<byte>
    requires FormatOk(f) && |row| == RowBytes(f)
  {
    if f.imgN == f.outN then Samples(f, row)
    else AddAlpha(Samples(f, row), By(SampleBytes(f), f.imgN), SampleBytes(f))
  }

  lemma {:induction false} AddAlphaLength(s: seq<byte>, n: nat, a: nat, x: nat)
    requires (n == 1 || n == 2 || n == 3 || n == 6) && |s| == By(n, x)
    ensures |AddAlpha(s, n, a)| == By(n, x) + x * a
    decreases x
  {
    if x > 0 {
      AddAlphaLength(s[n..], n, a, x - 1);
      assert x * a == (x - 1) * a + a;
    }
  }

  lemma RowPixelsLength(f: Format, row: seq<byte>)
    requires FormatOk(f) && |row| == RowBytes(f)
    ensures |RowPixels(f, row)| == Stride(f)
  {
    if f.imgN != f.outN {
      AddAlphaLength(Samples(f, row), By(SampleBytes(f), f.imgN), SampleBytes(f), f.x);
    }
  }

  // ---------- unpacking small samples with a shifting byte ----------

  /** The byte after `s` places have been shifted out on the left. */
  function Shifted(b: byte, s: nat): nat { Low(Shl(b, s), 8) }

  // ---------- writing the pixels ----------

  lemma OutsideTrans(a: seq<byte>, b: seq<byte>, c: seq<byte>, lo: nat, hi: nat)
    requires Outside(a, b, lo, hi) && Outside(b, c, lo, hi)
    ensures Outside(a, c, lo, hi)
  {
  }

  lemma OutsideWider(a: seq<byte>, b: seq<byte>, lo: nat, hi: nat, lo': nat, hi': nat)
    requires Outside(a, b, lo, hi) && lo' <= lo && hi <= hi' <= |a|
    ensures Outside(a, b, lo', hi')
  {
    assert a[..lo'] == a[..lo][..lo'] && b[..lo'] == b[..lo][..lo'];
    assert a[hi'..] == a[hi..][hi' - hi..] && b[hi'..] == b[hi..][hi' - hi..];
  }

  lemma NothingShifted(b: byte)
    ensures Shifted(b, 0) == b
  {
    Pow2Values();
    LowIdentity(b, 8);
  }

  /** The top of the shifted byte is the next sample; shifting once more brings up the one after it. */
  lemma UnpackStep(f: Format, row: seq<byte>, i: nat, inb: byte)
    requires FormatOk(f) && f.depth < 8 && |row| == RowBytes(f) && i < SampleCount(f)
    requires inb == Shifted(row[ByteOf(f.depth, i)], f.depth * Phase(f.depth, i))
    ensures By(Scale(f), Shr(inb, 8 - f.depth)) == SmallSample(f, row, i)
    ensures Low(Shl(inb, f.depth), 8) < 256
    ensures Phase(f.depth, i + 1) != 0 ==> ByteOf(f.depth, i + 1) == ByteOf(f.depth, i)
    ensures Phase(f.depth, i + 1) != 0 ==>
              Low(Shl(inb, f.depth), 8) == Shifted(row[ByteOf(f.depth, i)], f.depth * Phase(f.depth, i + 1))
  {
    hide Shr, Shl, Low, Phase, ByteOf, Scale, By;
    SampleInRow(f, i);
    var b, q := row[ByteOf(f.depth, i)], Phase(f.depth, i);
    NextPhase(f.depth, i);
    ShiftedTop(b, f.depth * q, f.depth, 8);
    ShiftedMore(b, f.depth * q, f.depth, 8);
    JoinSplit(Shl(inb, f.depth), 8);
    Pow2Values();
  }

  lemma NextPhase(d: nat, i: nat)
    requires d == 1 || d == 2 || d == 4
    ensures Phase(d, i + 1) != 0 ==> Phase(d, i + 1) == Phase(d, i) + 1 && ByteOf(d, i + 1) == ByteOf(d, i)
    ensures Phase(d, i + 1) != 0 ==> d * Phase(d, i + 1) == d * Phase(d, i) + d
  {
    if d == 1 { NextOf8(i); } else if d == 2 { NextOf4(i); } else { NextOf2(i); }
  }

  lemma NextOf2(i: nat)
    ensures (i + 1) % 2 != 0 ==> (i + 1) % 2 == i % 2 + 1 && (i + 1) / 2 == i / 2
  {
  }

  lemma NextOf4(i: nat)
    ensures (i + 1) % 4 != 0 ==> (i + 1) % 4 == i % 4 + 1 && (i + 1) / 4 == i / 4
  {
  }

  lemma NextOf8(i: nat)
    ensures (i + 1) % 8 != 0 ==> (i + 1) % 8 == i % 8 + 1 && (i + 1) / 8 == i / 8
  {
  }

  /** Store one more byte of those from `lo` on. */
  method Push(out: array<byte>, lo: nat, k: nat, v: byte, ghost hi: nat, ghost was: seq<byte>)
    requires lo + k < hi <= out.Length && Outside(was, out[..], lo, hi)
    modifies out
    ensures out[lo..lo + k + 1] == old(out[lo..lo + k]) + [v] && Outside(was, out[..], lo, hi)
  {
    ghost var before := out[..];
    out[lo + k] := v;
    OutsideStep(was, before, out[..], lo, k, hi);
  }

  lemma NextSample(f: Format, row: seq<byte>, i: nat)
    requires FormatOk(f) && f.depth < 8 && |row| == RowBytes(f) && i < SampleCount(f)
    ensures Samples(f, row)[..i + 1] == Samples(f, row)[..i] + [SmallSample(f, row, i)]
  {
    hide SmallSample, By, RowBytes;
    assert Samples(f, row)[i] == SmallSample(f, row, i);
  }

  lemma FirstByte(d: nat)
    requires d == 1 || d == 2 || d == 4
    ensures Phase(d, 0) == 0 && ByteOf(d, PerByte(d) - 1) == 0
  {
  }

  /** A new byte is needed exactly at phase 0. */
  lemma NextByte(f: Format, i: nat)
    requires FormatOk(f) && f.depth < 8 && i < SampleCount(f)
    ensures ByteOf(f.depth, i) < RowBytes(f)
    ensures var p := PerByte(f.depth);
            ByteOf(f.depth, i + p) == ByteOf(f.depth, i + p - 1) + (if Phase(f.depth, i) == 0 then 1 else 0)
    ensures Phase(f.depth, i) == 0 ==> ByteOf(f.depth, i + PerByte(f.depth) - 1) == ByteOf(f.depth, i)
  {
  }

  /** Samples of less than a byte: the current byte is shifted left as its samples are taken off the top. */
  method Unpack(out: array<byte>, dest: nat, buf: array<byte>, co: nat, f: Format)
    requires FormatOk(f) && f.depth < 8 && out != buf
    requires dest + SampleCount(f) <= out.Length && co + RowBytes(f) <= buf.Length
    modifies out
    ensures out[dest..dest + SampleCount(f)] == Samples(f, buf[co..co + RowBytes(f)])
    ensures Outside(old(out[..]), out[..], dest, dest + SampleCount(f))
  {
    hide Samples, SmallSample, Shifted, Shr, Shl, Low, Phase, ByteOf;
    FirstByte(f.depth);
    ghost var row := buf[co..co + RowBytes(f)];
    var scale, nsmp := Scale(f), SampleCount(f);
    var from := co;
    var inb: byte := 0;
    for i := 0 to nsmp
      invariant from == co + ByteOf(f.depth, i + PerByte(f.depth) - 1)
      invariant Phase(f.depth, i) != 0 ==> inb == Shifted(At0(row, ByteOf(f.depth, i)), f.depth * Phase(f.depth, i))
      invariant out[dest..dest + i] == Samples(f, row)[..i] && Outside(old(out[..]), out[..], dest, dest + nsmp)
    {
      NextByte(f, i);
      if Phase(f.depth, i) == 0 {
        inb, from := buf[from], from + 1;
        NothingShifted(inb);
      }
      UnpackStep(f, row, i, inb);
      NextSample(f, row, i);
      Push(out, dest, i, By(scale, Shr(inb, 8 - f.depth)), dest + nsmp, old(out[..]));
      inb := Low(Shl(inb, f.depth), 8);
    }
  }

  function PerByte(d: nat): nat { if d == 4 then 2 else if d == 2 then 4 else 8 }

  // ---------- inserting alpha ----------

  lemma AlphaPeel(s: seq<byte>, i: nat, n: nat, a: nat)
    requires i + n <= |s| && n > 0
    ensures AddAlpha(s[i..], n, a) == s[i..i + n] + seq<byte>(a, j => 255) + AddAlpha(s[i + n..], n, a)
  {
    assert s[i..][n..] == s[i + n..];
  }

  lemma AlphaNothing(s: seq<byte>, n: nat, a: nat)
    requires n > 0
    ensures AddAlpha(s[|s|..], n, a) == []
  {
  }

  /** Two sequences of bytes written just before the part already written. */
  lemma Before(was: seq<byte>, mid: seq<byte>, now: seq<byte>, lo: nat, from: nat, to: nat, hi: nat)
    requires Outside(was, mid, to, hi) && Outside(mid, now, from, to) && lo <= from
    ensures Outside(was, now, lo, hi) && now[from..hi] == now[from..to] + mid[to..hi]
  {
    OutsideWider(was, mid, to, hi, lo, hi);
    OutsideWider(mid, now, from, to, lo, hi);
    assert now[to..hi] == now[to..][..hi - to] && mid[to..hi] == mid[to..][..hi - to];
    assert now[from..hi] == now[from..to] + now[to..hi];
  }

  lemma StillUnread(src: seq<byte>, now: seq<byte>, s: nat, count: nat, from: nat, to: nat)
    requires Outside(src, now, from, to) && s + count <= from
    ensures now[s..s + count] == src[s..s + count]
  {
    assert now[s..s + count] == now[..from][s..s + count];
    assert src[s..s + count] == src[..from][s..s + count];
  }

  method GrayPixel(dest: array<byte>, p: nat, src: array<byte>, q: nat)
    requires p + 2 <= dest.Length && q + 1 <= src.Length && (dest == src ==> q <= p)
    modifies dest
    ensures dest[p..p + 2] == old(src[q..q + 1]) + [255] && Outside(old(dest[..]), dest[..], p, p + 2)
  {
    ghost var from := src[q..q + 1];
    dest[p + 1] := 255;
    dest[p] := src[q];
    assert dest[p..p + 2] == [from[0], 255];
  }

  method ColorPixel(dest: array<byte>, p: nat, src: array<byte>, q: nat)
    requires p + 4 <= dest.Length && q + 3 <= src.Length && (dest == src ==> q <= p)
    modifies dest
    ensures dest[p..p + 4] == old(src[q..q + 3]) + [255] && Outside(old(dest[..]), dest[..], p, p + 4)
  {
    ghost var from := src[q..q + 3];
    dest[p + 3] := 255;
    dest[p + 2] := src[q + 2];
    dest[p + 1] := src[q + 1];
    dest[p] := src[q];
    assert dest[p..p + 4] == [from[0], from[1], from[2], 255];
  }

  lemma Opaque()
    ensures seq<byte>(1, j => 255) == [255] && seq<byte>(2, j => 255) == [255, 255]
  {
  }

  /** One step back: the next `n` source bytes and opacity come before what is already written. */
  lemma AlphaStep(was: seq<byte>, mid: seq<byte>, now: seq<byte>, s0: seq<byte>, d: nat, hi: nat, i: nat, n: nat)
    requires n > 0 && i + n <= |s0| && Outside(was, mid, d + n + 1, hi) && Outside(mid, now, d, d + n + 1)
    requires mid[d + n + 1..hi] == AddAlpha(s0[i + n..], n, 1) && now[d..d + n + 1] == s0[i..i + n] + [255]
    ensures now[d..hi] == AddAlpha(s0[i..], n, 1) && Outside(was, now, d, hi)
  {
    hide AddAlpha;
    Opaque();
    AlphaPeel(s0, i, n, 1);
    Before(was, mid, now, d, d, d + n + 1, hi);
  }

  lemma LastBytes(src: seq<byte>, s0: seq<byte>, s: nat, i: nat, n: nat)
    requires i + n <= |s0| && s + i + n <= |src| && src[s..s + i + n] == s0[..i + n]
    ensures src[s + i..s + i + n] == s0[i..i + n] && src[s..s + i] == s0[..i]
  {
    assert src[s..s + i + n][i..] == src[s + i..s + i + n] && s0[..i + n][i..] == s0[i..i + n];
    assert src[s..s + i + n][..i] == src[s..s + i] && s0[..i + n][..i] == s0[..i];
  }

  /** What is left to do: the first `i` source bytes are unread, and all from `d` on is written. */
  ghost predicate Inserted(was: seq<byte>, now: seq<byte>, src: seq<byte>, s0: seq<byte>, s: nat, i: nat, d: nat,
                           hi: nat, n: nat) {
    && n > 0 && i <= |s0| && d <= hi <= |now| && s + i <= |src|
    && now[d..hi] == AddAlpha(s0[i..], n, 1) && Outside(was, now, d, hi) && src[s..s + i] == s0[..i]
  }

  lemma InsertedStep(was: seq<byte>, mid: seq<byte>, now: seq<byte>, src: seq<byte>, src': seq<byte>, s0: seq<byte>,
                     s: nat, i: nat, d: nat, hi: nat, n: nat)
    requires Inserted(was, mid, src, s0, s, i + n, d + n + 1, hi, n)
    requires Outside(mid, now, d, d + n + 1) && now[d..d + n + 1] == src[s + i..s + i + n] + [255]
    requires (src == mid && src' == now && s + i <= d) || src' == src
    ensures Inserted(was, now, src', s0, s, i, d, hi, n)
  {
    hide AddAlpha;
    LastBytes(src, s0, s, i, n);
    AlphaStep(was, mid, now, s0, d, hi, i, n);
    if src' != src { StillUnread(src, now, s, i, d, d + n + 1); }
  }

  lemma InsertedFirst(was: seq<byte>, src: seq<byte>, s0: seq<byte>, s: nat, hi: nat, n: nat)
    requires hi <= |was| && s + |s0| <= |src| && s0 == src[s..s + |s0|] && n > 0
    ensures Inserted(was, was, src, s0, s, |s0|, hi, hi, n)
  {
  }

  lemma InsertedLast(was: seq<byte>, now: seq<byte>, src: seq<byte>, s0: seq<byte>, s: nat, d: nat, hi: nat, n: nat)
    requires Inserted(was, now, src, s0, s, 0, d, hi, n)
    ensures now[d..hi] == AddAlpha(s0, n, 1) && Outside(was, now, d, hi)
  {
    assert s0[0..] == s0;
  }

  /** Backwards, since the destination may be the source: grey, then opacity. */
  method AlphaGray(dest: array<byte>, d: nat, src: array<byte>, s: nat, x: nat)
    requires d + 2 * x <= dest.Length && s + x <= src.Length && (dest == src ==> d == s)
    modifies dest
    ensures dest[d..d + 2 * x] == AddAlpha(old(src[s..s + x]), 1, 1)
    ensures Outside(old(dest[..]), dest[..], d, d + 2 * x)
  {
    hide AddAlpha, Outside, Inserted;
    ghost var s0 := src[s..s + x];
    InsertedFirst(dest[..], src[..], s0, s, d + 2 * x, 1);
    for i := x downto 0
      invariant Inserted(old(dest[..]), dest[..], src[..], s0, s, i, d + 2 * i, d + 2 * x, 1)
    {
      ghost var mid, from := dest[..], src[..];
      GrayPixel(dest, d + 2 * i, src, s + i);
      InsertedStep(old(dest[..]), mid, dest[..], from, src[..], s0, s, i, d + 2 * i, d + 2 * x, 1);
    }
    InsertedLast(old(dest[..]), dest[..], src[..], s0, s, d, d + 2 * x, 1);
  }

  /** Backwards, as above: three colours, then opacity. */
  method AlphaColor(dest: array<byte>, d: nat, src: array<byte>, s: nat, x: nat)
    requires d + 4 * x <= dest.Length && s + 3 * x <= src.Length && (dest == src ==> d == s)
    modifies dest
    ensures dest[d..d + 4 * x] == AddAlpha(old(src[s..s + 3 * x]), 3, 1)
    ensures Outside(old(dest[..]), dest[..], d, d + 4 * x)
  {
    hide AddAlpha, Outside, Inserted;
    ghost var s0 := src[s..s + 3 * x];
    InsertedFirst(dest[..], src[..], s0, s, d + 4 * x, 3);
    for i := x downto 0
      invariant Inserted(old(dest[..]), dest[..], src[..], s0, s, 3 * i, d + 4 * i, d + 4 * x, 3)
    {
      ghost var mid, from := dest[..], src[..];
      ColorPixel(dest, d + 4 * i, src, s + 3 * i);
      InsertedStep(old(dest[..]), mid, dest[..], from, src[..], s0, s, 3 * i, d + 4 * i, d + 4 * x, 3);
    }
    InsertedLast(old(dest[..]), dest[..], src[..], s0, s, d, d + 4 * x, 3);
  }

  // ---------- 16-bit samples ----------

  /** The bytes of a 16-bit word in memory. */
  function Word(little: bool, v: nat): seq<byte>
    requires v < 0x10000
  {
    if little then [v % 256, v / 256] else [v / 256, v % 256]
  }

  method Store16(out: array<byte>, p: nat, v: nat, little: bool)
    requires p + 2 <= out.Length && v < 0x10000
    modifies out
    ensures out[p..p + 2] == Word(little, v) && Outside(old(out[..]), out[..], p, p + 2)
  {
    if little {
      out[p], out[p + 1] := v % 256, v / 256;
    } else {
      out[p], out[p + 1] := v / 256, v % 256;
    }
    assert out[p..p + 2] == [out[p], out[p + 1]];
  }

  lemma WordOfRow(f: Format, row: seq<byte>, i: nat)
    requires FormatOk(f) && f.depth == 16 && |row| == RowBytes(f) && 2 * i + 2 <= |row|
    ensures Samples(f, row)[2 * i..2 * i + 2] == Word(f.little, 256 * (row[2 * i] as int) + row[2 * i + 1])
  {
    hide By, SmallSample, Word;
    WordBytes(f.little, row[2 * i], row[2 * i + 1]);
    assert MachineByte(f, row, 2 * i) == if f.little then row[2 * i + 1] else row[2 * i];
    assert MachineByte(f, row, 2 * i + 1) == if f.little then row[2 * i] else row[2 * i + 1];
  }

  lemma WordBytes(little: bool, high: byte, low: byte)
    ensures Word(little, 256 * (high as int) + low) == if little then [low, high] else [high, low]
  {
  }

  /** A chunk stored right after what has been written. */
  lemma Chunk(was: seq<byte>, mid: seq<byte>, now: seq<byte>, lo: nat, k: nat, m: nat, hi: nat)
    requires Outside(was, mid, lo, hi) && lo + k + m <= hi && Outside(mid, now, lo + k, lo + k + m)
    ensures now[lo..lo + k + m] == mid[lo..lo + k] + now[lo + k..lo + k + m] && Outside(was, now, lo, hi)
  {
    OutsideWider(mid, now, lo + k, lo + k + m, lo, hi);
    assert now[lo..lo + k] == now[..lo + k][lo..] && mid[lo..lo + k] == mid[..lo + k][lo..];
    assert now[lo..lo + k + m] == now[lo..lo + k] + now[lo + k..lo + k + m];
  }

  /** Sample `i` of the row to `p`. */
  method StoreSample(out: array<byte>, p: nat, buf: array<byte>, co: nat, i: nat, f: Format)
    requires FormatOk(f) && f.depth == 16 && out != buf && co + RowBytes(f) <= buf.Length
    requires p + 2 <= out.Length && i < SampleCount(f)
    modifies out
    ensures out[p..p + 2] == Samples(f, buf[co..co + RowBytes(f)])[2 * i..2 * i + 2]
    ensures Outside(old(out[..]), out[..], p, p + 2)
  {
    hide Samples;
    ghost var row := buf[co..co + RowBytes(f)];
    WordOfRow(f, row, i);
    assert row[2 * i] == buf[co + 2 * i] && row[2 * i + 1] == buf[co + 2 * i + 1];
    Store16(out, p, 256 * (buf[co + 2 * i] as int) + buf[co + 2 * i + 1], f.little);
  }

  method Words(out: array<byte>, dest: nat, buf: array<byte>, co: nat, f: Format)
    requires FormatOk(f) && f.depth == 16 && out != buf
    requires dest + RowBytes(f) <= out.Length && co + RowBytes(f) <= buf.Length
    modifies out
    ensures out[dest..dest + RowBytes(f)] == Samples(f, buf[co..co + RowBytes(f)])
    ensures Outside(old(out[..]), out[..], dest, dest + RowBytes(f))
  {
    hide Samples, Outside;
    ghost var s := Samples(f, buf[co..co + RowBytes(f)]);
    Whole(out[..], dest, dest + RowBytes(f));
    for i := 0 to SampleCount(f)
      invariant out[dest..dest + 2 * i] == s[..2 * i] && Outside(old(out[..]), out[..], dest, dest + RowBytes(f))
    {
      ghost var mid := out[..];
      StoreSample(out, dest + 2 * i, buf, co, i, f);
      Chunk(old(out[..]), mid, out[..], dest, 2 * i, 2, dest + RowBytes(f));
      assert s[..2 * i + 2] == s[..2 * i] + s[2 * i..2 * i + 2];
    }
  }

  lemma Whole(s: seq<byte>, lo: nat, hi: nat)
    requires lo <= hi <= |s|
    ensures Outside(s, s, lo, hi)
  {
  }

  /** Grey pixel `i`: its sample, then opacity. */
  method GrayWord(out: array<byte>, p: nat, buf: array<byte>, co: nat, i: nat, f: Format)
    requires FormatOk(f) && f.depth == 16 && f.imgN == 1 && out != buf && co + RowBytes(f) <= buf.Length
    requires p + 4 <= out.Length && i < f.x
    modifies out
    ensures out[p..p + 4] == Samples(f, buf[co..co + RowBytes(f)])[2 * i..2 * i + 2] + seq<byte>(2, j => 255)
    ensures Outside(old(out[..]), out[..], p, p + 4)
  {
    hide Samples, Outside;
    Opaque();
    Whole(out[..], p, p + 4);
    ghost var a := out[..];
    StoreSample(out, p, buf, co, i, f);
    Chunk(a, a, out[..], p, 0, 2, p + 4);
    ghost var b := out[..];
    Store16(out, p + 2, 0xffff, f.little);
    Chunk(a, b, out[..], p, 2, 2, p + 4);
  }

  lemma Joined(s: seq<byte>, a: nat, b: nat, c: nat)
    requires a <= b <= c <= |s|
    ensures s[a..c] == s[a..b] + s[b..c]
  {
  }

  /** Colour pixel `i`: its three samples, then opacity. */
  method ColorWords(out: array<byte>, p: nat, buf: array<byte>, co: nat, i: nat, f: Format)
    requires FormatOk(f) && f.depth == 16 && f.imgN == 3 && out != buf && co + RowBytes(f) <= buf.Length
    requires p + 8 <= out.Length && i < f.x
    modifies out
    ensures out[p..p + 8] == Samples(f, buf[co..co + RowBytes(f)])[6 * i..6 * i + 6] + seq<byte>(2, j => 255)
    ensures Outside(old(out[..]), out[..], p, p + 8)
  {
    hide Samples, Outside;
    Opaque();
    ghost var s := Samples(f, buf[co..co + RowBytes(f)]);
    Whole(out[..], p, p + 8);
    ghost var was := out[..];
    for c := 0 to 3
      invariant out[p..p + 2 * c] == s[6 * i..6 * i + 2 * c] && Outside(was, out[..], p, p + 8)
    {
      ghost var mid := out[..];
      StoreSample(out, p + 2 * c, buf, co, 3 * i + c, f);
      ghost var now := out[..];
      Chunk(was, mid, now, p, 2 * c, 2, p + 8);
      Joined(s, 6 * i, 6 * i + 2 * c, 6 * i + 2 * c + 2);
    }
    ghost var mid := out[..];
    Store16(out, p + 6, 0xffff, f.little);
    Chunk(was, mid, out[..], p, 6, 2, p + 8);
  }

  /** Forward: `n` samples bytes and two of opacity follow what is written. */
  lemma ForwardStep(was: seq<byte>, mid: seq<byte>, now: seq<byte>, s: seq<byte>, lo: nat, k: nat, i: nat, n: nat,
                    hi: nat)
    requires n > 0 && i + n <= |s| && lo + k + n + 2 <= hi
    requires Outside(was, mid, lo, hi) && Outside(mid, now, lo + k, lo + k + n + 2)
    requires mid[lo..lo + k] + AddAlpha(s[i..], n, 2) == AddAlpha(s, n, 2)
    requires now[lo + k..lo + k + n + 2] == s[i..i + n] + seq<byte>(2, j => 255)
    ensures now[lo..lo + k + n + 2] + AddAlpha(s[i + n..], n, 2) == AddAlpha(s, n, 2) && Outside(was, now, lo, hi)
  {
    hide AddAlpha;
    Chunk(was, mid, now, lo, k, n + 2, hi);
    AlphaPeel(s, i, n, 2);
    var a, b, c := mid[lo..lo + k], now[lo + k..lo + k + n + 2], AddAlpha(s[i + n..], n, 2);
    assert (a + b) + c == a + (b + c);
  }

  method AlphaGray16(out: array<byte>, dest: nat, buf: array<byte>, co: nat, f: Format)
    requires FormatOk(f) && f.depth == 16 && f.imgN == 1 && out != buf && co + RowBytes(f) <= buf.Length
    requires dest + 4 * f.x <= out.Length
    modifies out
    ensures out[dest..dest + 4 * f.x] == AddAlpha(Samples(f, buf[co..co + RowBytes(f)]), 2, 2)
    ensures Outside(old(out[..]), out[..], dest, dest + 4 * f.x)
  {
    hide Samples, Outside, AddAlpha;
    ghost var s := Samples(f, buf[co..co + RowBytes(f)]);
    Whole(out[..], dest, dest + 4 * f.x);
    assert s[0..] == s;
    for i := 0 to f.x
      invariant out[dest..dest + 4 * i] + AddAlpha(s[2 * i..], 2, 2) == AddAlpha(s, 2, 2)
      invariant Outside(old(out[..]), out[..], dest, dest + 4 * f.x)
    {
      ghost var mid := out[..];
      GrayWord(out, dest + 4 * i, buf, co, i, f);
      ForwardStep(old(out[..]), mid, out[..], s, dest, 4 * i, 2 * i, 2, dest + 4 * f.x);
    }
    AlphaNothing(s, 2, 2);
  }

  method AlphaColor16(out: array<byte>, dest: nat, buf: array<byte>, co: nat, f: Format)
    requires FormatOk(f) && f.depth == 16 && f.imgN == 3 && out != buf && co + RowBytes(f) <= buf.Length
    requires dest + 8 * f.x <= out.Length
    modifies out
    ensures out[dest..dest + 8 * f.x] == AddAlpha(Samples(f, buf[co..co + RowBytes(f)]), 6, 2)
    ensures Outside(old(out[..]), out[..], dest, dest + 8 * f.x)
  {
    hide Samples, Outside, AddAlpha;
    ghost var s := Samples(f, buf[co..co + RowBytes(f)]);
    Whole(out[..], dest, dest + 8 * f.x);
    assert s[0..] == s;
    for i := 0 to f.x
      invariant out[dest..dest + 8 * i] + AddAlpha(s[6 * i..], 6, 2) == AddAlpha(s, 6, 2)
      invariant Outside(old(out[..]), out[..], dest, dest + 8 * f.x)
    {
      ghost var mid := out[..];
      ColorWords(out, dest + 8 * i, buf, co, i, f);
      ForwardStep(old(out[..]), mid, out[..], s, dest, 8 * i, 6 * i, 6, dest + 8 * f.x);
    }
    AlphaNothing(s, 6, 2);
  }

  /** `memcpy` of a row of single-byte samples. */
  method CopyRow(out: array<byte>, dest: nat, buf: array<byte>, co: nat, n: nat)
    requires out != buf && co + n <= buf.Length && dest + n <= out.Length
    modifies out
    ensures out[dest..dest + n] == buf[co..co + n] && Outside(old(out[..]), out[..], dest, dest + n)
  {
    hide Outside;
    Whole(out[..], dest, dest + n);
    for i := 0 to n
      invariant out[dest..dest + i] == buf[co..co + i] && Outside(old(out[..]), out[..], dest, dest + n)
    {
      Push(out, dest, i, buf[co + i], dest + n, old(out[..]));
    }
  }

  lemma SmallRow(f: Format, row: seq<byte>)
    requires FormatOk(f) && f.depth < 8 && |row| == RowBytes(f)
    ensures RowPixels(f, row) == if f.imgN == f.outN then Samples(f, row) else AddAlpha(Samples(f, row), f.imgN, 1)
  {
    hide AddAlpha, Samples;
  }

  lemma SmallStride(f: Format)
    requires FormatOk(f) && f.depth < 8
    ensures SampleCount(f) == f.imgN * f.x && Stride(f) == f.outN * f.x && SampleCount(f) <= Stride(f)
  {
  }

  /** Opacity is put between the samples where the output has it. */
  method Spread(out: array<byte>, dest: nat, f: Format, ghost s: seq<byte>)
    requires FormatOk(f) && dest + f.outN * f.x <= out.Length && out[dest..dest + f.imgN * f.x] == s
    modifies out
    ensures out[dest..dest + f.outN * f.x] == if f.imgN == f.outN then s else AddAlpha(s, f.imgN, 1)
    ensures Outside(old(out[..]), out[..], dest, dest + f.outN * f.x)
  {
    hide AddAlpha, Outside;
    Whole(out[..], dest, dest + f.outN * f.x);
    if f.imgN == 1 && f.outN == 2 {
      AlphaGray(out, dest, out, dest, f.x);
    } else if f.imgN == 3 && f.outN == 4 {
      AlphaColor(out, dest, out, dest, f.x);
    }
  }

  /** Samples of less than a byte are unpacked into the row of output and spread out there. */
  method ExpandSmall(out: array<byte>, dest: nat, buf: array<byte>, co: nat, f: Format)
    requires FormatOk(f) && out != buf && co + RowBytes(f) <= buf.Length && dest + Stride(f) <= out.Length
    requires f.depth < 8
    modifies out
    ensures out[dest..dest + Stride(f)] == RowPixels(f, buf[co..co + RowBytes(f)])
    ensures Outside(old(out[..]), out[..], dest, dest + Stride(f))
  {
    hide AddAlpha, Outside, Samples, RowPixels, Stride, SampleCount;
    ghost var was, row := out[..], buf[co..co + RowBytes(f)];
    SmallRow(f, row);
    SmallStride(f);
    Unpack(out, dest, buf, co, f);
    ghost var mid := out[..];
    OutsideWider(was, mid, dest, dest + SampleCount(f), dest, dest + Stride(f));
    Spread(out, dest, f, Samples(f, row));
    OutsideTrans(was, mid, out[..], dest, dest + Stride(f));
  }

  /** Samples of a byte. */
  method ExpandBytes(out: array<byte>, dest: nat, buf: array<byte>, co: nat, f: Format)
    requires FormatOk(f) && out != buf && co + RowBytes(f) <= buf.Length && dest + Stride(f) <= out.Length
    requires f.depth == 8
    modifies out
    ensures out[dest..dest + Stride(f)] == RowPixels(f, buf[co..co + RowBytes(f)])
    ensures Outside(old(out[..]), out[..], dest, dest + Stride(f))
  {
    hide AddAlpha, Outside;
    if f.imgN == f.outN {
      CopyRow(out, dest, buf, co, SampleCount(f));
    } else if f.imgN == 1 {
      AlphaGray(out, dest, buf, co, f.x);
    } else {
      AlphaColor(out, dest, buf, co, f.x);
    }
  }

  /** Samples of two bytes. */
  method ExpandWords(out: array<byte>, dest: nat, buf: array<byte>, co: nat, f: Format)
    requires FormatOk(f) && out != buf && co + RowBytes(f) <= buf.Length && dest + Stride(f) <= out.Length
    requires f.depth == 16
    modifies out
    ensures out[dest..dest + Stride(f)] == RowPixels(f, buf[co..co + RowBytes(f)])
    ensures Outside(old(out[..]), out[..], dest, dest + Stride(f))
  {
    hide AddAlpha, Outside, Samples;
    if f.imgN == f.outN {
      Words(out, dest, buf, co, f);
    } else if f.imgN == 1 {
      AlphaGray16(out, dest, buf, co, f);
    } else {
      AlphaColor16(out, dest, buf, co, f);
    }
  }

  /** One row of output from the restored bytes of a row. */
  method ExpandRow(out: array<byte>, dest: nat, buf: array<byte>, co: nat, f: Format)
    requires FormatOk(f) && out != buf && co + RowBytes(f) <= buf.Length && dest + Stride(f) <= out.Length
    modifies out
    ensures out[dest..dest + Stride(f)] == RowPixels(f, buf[co..co + RowBytes(f)])
    ensures Outside(old(out[..]), out[..], dest, dest + Stride(f))
  {
    hide RowPixels, Samples, AddAlpha, Outside, Stride, RowBytes;
    if f.depth < 8 {
      ExpandSmall(out, dest, buf, co, f);
    } else if f.depth == 8 {
      ExpandBytes(out, dest, buf, co, f);
    } else {
      ExpandWords(out, dest, buf, co, f);
    }
  }
}
