/** A PNG image from its inflated data: each row unfiltered in the workspace and expanded
    into the output (`stbi__create_png_image_raw`). */
module PngImage {
  import opened Bits
  import opened PngFilter
  import opened PngUnfilter
  import opened PngPixels

  ghost predicate RowsFit(f: Format, rows: seq<seq<byte>>) {
    FormatOk(f) && forall i :: 0 <= i < |rows| ==> |rows[i]| == RowBytes(f)
  }

  ghost function Pixels(f: Format, rows: seq<seq<byte>>): seq<byte>
    requires RowsFit(f, rows)
    decreases |rows|
  {
    if rows == [] then [] else Pixels(f, rows[..|rows| - 1]) + RowPixels(f, rows[|rows| - 1])
  }

  lemma {:induction false} PixelsLength(f: Format, rows: seq<seq<byte>>)
    requires RowsFit(f, rows)
    ensures |Pixels(f, rows)| == Times(|rows|, Stride(f))
    decreases |rows|
  {
    if rows != [] {
      PixelsLength(f, rows[..|rows| - 1]);
      RowPixelsLength(f, rows[|rows| - 1]);
    }
  }

  /** The bytes of an image of `y` rows, or nothing when rows or filter types are missing. */
  ghost function RawImage(raw: seq<byte>, f: Format, y: nat): Option<seq<byte>>
    requires FormatOk(f)
  {
    Sizes(f);
    var rows := RestoreRows(raw, Zeros(RowBytes(f)), y, PixelBytes(f));
    RowsRestored(raw, Zeros(RowBytes(f)), y, PixelBytes(f));
    if rows.None? then None else Some(Pixels(f, rows.value))
  }

  /** Images restore from what an encoder makes of their rows, whatever filters it chose and whatever follows. */
  lemma RawImageOfFiltered(types: seq<nat>, rows: seq<seq<byte>>, f: Format, post: seq<byte>)
    requires RowsFit(f, rows) && |types| == |rows| && (forall i :: 0 <= i < |types| ==> types[i] <= 4)
    ensures RawImage(FilterRows(types, rows, Zeros(RowBytes(f)), PixelBytes(f)) + post, f, |rows|) ==
            Some(Pixels(f, rows))
  {
    hide Pixels;
    Sizes(f);
    RestoreFiltered(types, rows, Zeros(RowBytes(f)), PixelBytes(f), post);
  }

  lemma {:induction false} TooShort(raw: seq<byte>, prior: seq<byte>, y: nat, bpp: nat)
    requires bpp > 0 && |raw| < Times(y, |prior| + 1)
    ensures RestoreRows(raw, prior, y, bpp) == None
    decreases y
  {
    hide Restored;
    var nk := |prior|;
    if |raw| >= nk + 1 && raw[0] <= 4 {
      TooShort(raw[nk + 1..], Restored(raw[0], raw[1..nk + 1], prior, bpp, nk), y - 1, bpp);
    }
  }

  function Prefixed(done: seq<seq<byte>>, rest: Option<seq<seq<byte>>>): Option<seq<seq<byte>>> {
    if rest.None? then None else Some(done + rest.value)
  }

  /** After `j` rows: what they are, what is left to read and how it must go on. */
  ghost predicate Progress(raw: seq<byte>, at: nat, f: Format, y: nat, j: nat, done: seq<seq<byte>>,
                           goal: Option<seq<seq<byte>>>) {
    && RowsFit(f, done) && |done| == j <= y && PixelBytes(f) > 0
    && at + Times(y - j, RowBytes(f) + 1) <= |raw|
    && goal == Prefixed(done, RestoreRows(raw[at..], Above(f, done), y - j, PixelBytes(f)))
  }

  ghost function Above(f: Format, done: seq<seq<byte>>): seq<byte> {
    if done == [] then Zeros(RowBytes(f)) else done[|done| - 1]
  }

  lemma ProgressStart(raw: seq<byte>, from: nat, f: Format, y: nat)
    requires FormatOk(f) && from + Times(y, RowBytes(f) + 1) <= |raw|
    ensures PixelBytes(f) > 0
    ensures Progress(raw, from, f, y, 0, [], RestoreRows(raw[from..], Zeros(RowBytes(f)), y, PixelBytes(f)))
  {
    hide RestoreRows;
    Sizes(f);
    var r := RestoreRows(raw[from..], Zeros(RowBytes(f)), y, PixelBytes(f));
    if r.Some? { assert [] + r.value == r.value; }
  }

  lemma ProgressStep(raw: seq<byte>, at: nat, f: Format, y: nat, j: nat, done: seq<seq<byte>>,
                     goal: Option<seq<seq<byte>>>)
    requires Progress(raw, at, f, y, j, done, goal) && j < y
    ensures at + RowBytes(f) + 1 <= |raw| && |Above(f, done)| == RowBytes(f)
    ensures raw[at] > 4 ==> goal.None?
    ensures raw[at] <= 4 ==>
              var row := Restored(raw[at], raw[at + 1..at + 1 + RowBytes(f)], Above(f, done), PixelBytes(f),
                RowBytes(f));
              Progress(raw, at + 1 + RowBytes(f), f, y, j + 1, done + [row], goal)
  {
    hide Restored;
    var nk, rest := RowBytes(f), raw[at..];
    assert Times(y - j, nk + 1) == Times(y - j - 1, nk + 1) + (nk + 1);
    if raw[at] <= 4 {
      var row := Restored(raw[at], raw[at + 1..at + 1 + nk], Above(f, done), PixelBytes(f), nk);
      assert rest[1..nk + 1] == raw[at + 1..at + 1 + nk] && rest[nk + 1..] == raw[at + 1 + nk..];
      var more := RestoreRows(rest[nk + 1..], row, y - j - 1, PixelBytes(f));
      if more.Some? { assert done + ([row] + more.value) == (done + [row]) + more.value; }
    }
  }

  lemma ProgressEnd(raw: seq<byte>, at: nat, f: Format, y: nat, done: seq<seq<byte>>, goal: Option<seq<seq<byte>>>)
    requires Progress(raw, at, f, y, y, done, goal)
    ensures goal == Some(done)
  {
    assert done + [] == done;
  }

  /** The offset of the workspace row in which row `j` is restored. */
  function Slot(j: nat, nk: nat): nat {
    if j % 2 == 0 then 0 else nk
  }

  /** The workspace holds the last row done, and the output all of them. */
  ghost predicate Shown(buf: seq<byte>, out: seq<byte>, f: Format, j: nat, done: seq<seq<byte>>) {
    && RowsFit(f, done) && |done| == j && |buf| == 2 * RowBytes(f) && Times(j, Stride(f)) <= |out|
    && (j > 0 ==> buf[Slot(j - 1, RowBytes(f))..Slot(j - 1, RowBytes(f)) + RowBytes(f)] == done[j - 1])
    && out[..Times(j, Stride(f))] == Pixels(f, done)
  }

  lemma ShownStep(buf: seq<byte>, out: seq<byte>, buf': seq<byte>, out': seq<byte>, f: Format, j: nat,
                  done: seq<seq<byte>>, row: seq<byte>)
    requires Shown(buf, out, f, j, done) && |row| == RowBytes(f) && |buf'| == |buf|
    requires Times(j, Stride(f)) + Stride(f) <= |out|
    requires buf'[Slot(j, RowBytes(f))..Slot(j, RowBytes(f)) + RowBytes(f)] == row
    requires Outside(out, out', Times(j, Stride(f)), Times(j, Stride(f)) + Stride(f))
    requires out'[Times(j, Stride(f))..Times(j, Stride(f)) + Stride(f)] == RowPixels(f, row)
    ensures Shown(buf', out', f, j + 1, done + [row])
  {
    hide RowPixels, RowBytes;
    var p, s := Times(j, Stride(f)), Stride(f);
    assert (done + [row])[..j] == done;
    assert out'[..p + s] == out'[..p] + out'[p..p + s];
  }

  /** The workspace row above the one being restored, as the first row or a later one sees it. */
  lemma RowAbove(buf: seq<byte>, out: seq<byte>, f: Format, j: nat, done: seq<seq<byte>>)
    requires Shown(buf, out, f, j, done)
    ensures var nk := RowBytes(f);
            Above(f, done) == if j == 0 then Zeros(nk) else buf[Slot(j + 1, nk)..Slot(j + 1, nk) + nk]
  {
  }

  /** Row `j`: unfilter in its half of the workspace, then expand into the output. */
  method DecodeRow(buf: array<byte>, out: array<byte>, raw: seq<byte>, at: nat, f: Format, j: nat,
                   ghost y: nat, ghost done: seq<seq<byte>>, ghost goal: Option<seq<seq<byte>>>)
      returns (ghost done': seq<seq<byte>>)
    requires Progress(raw, at, f, y, j, done, goal) && Shown(buf[..], out[..], f, j, done) && buf != out
    requires j < y && out.Length == Times(y, Stride(f)) && at + RowBytes(f) + 1 <= |raw| && raw[at] <= 4
    modifies buf, out
    ensures Progress(raw, at + 1 + RowBytes(f), f, y, j + 1, done', goal) && Shown(buf[..], out[..], f, j + 1, done')
  {
    hide Progress, Shown, Restored, Outside, RowPixels, Pixels, RowBytes, PixelBytes, Stride;
    var nk, stride := RowBytes(f), Stride(f);
    ProgressFormat(raw, at, f, y, j, done, goal);
    ShownFormat(buf[..], out[..], f, j, done);
    Sizes(f);
    ProgressStep(raw, at, f, y, j, done, goal);
    RowAbove(buf[..], out[..], f, j, done);
    TimesLess(j, y, stride);
    ghost var was, shown := buf[..], out[..];
    UnfilterRow(buf, Slot(j, nk), Slot(j + 1, nk), nk, PixelBytes(f), raw, at + 1, raw[at], j == 0);
    ghost var row := buf[Slot(j, nk)..Slot(j, nk) + nk];
    done' := done + [row];
    ExpandRow(out, Times(j, stride), buf, Slot(j, nk), f);
    ShownStep(was, shown, buf[..], out[..], f, j, done, row);
  }

  lemma ProgressFormat(raw: seq<byte>, at: nat, f: Format, y: nat, j: nat, done: seq<seq<byte>>,
                       goal: Option<seq<seq<byte>>>)
    requires Progress(raw, at, f, y, j, done, goal)
    ensures FormatOk(f)
  {
  }

  lemma ShownFormat(buf: seq<byte>, out: seq<byte>, f: Format, j: nat, done: seq<seq<byte>>)
    requires Shown(buf, out, f, j, done)
    ensures FormatOk(f) && |buf| == 2 * RowBytes(f)
  {
  }

  /** The image whose filtered rows start at `from`. */
  method CreateImageRaw(raw: seq<byte>, from: nat, f: Format, y: nat) returns (ok: bool, out: array<byte>)
    requires FormatOk(f) && from <= |raw|
    ensures fresh(out) && out.Length == Times(y, Stride(f))
    ensures ok <==> RawImage(raw[from..], f, y).Some?
    ensures ok ==> out[..] == RawImage(raw[from..], f, y).value
  {
    hide Progress, Shown, Pixels, RestoreRows, RowBytes, PixelBytes, Stride;
    var nk, stride := RowBytes(f), Stride(f);
    out := new byte[Times(y, stride)];
    var imgLen := Times(y, nk + 1);
    Sizes(f);
    if |raw| - from < imgLen {
      TooShort(raw[from..], Zeros(nk), y, PixelBytes(f));
      return false, out;
    }
    var buf := new byte[2 * nk];
    ghost var goal := RestoreRows(raw[from..], Zeros(nk), y, PixelBytes(f));
    ghost var done: seq<seq<byte>> := [];
    ProgressStart(raw, from, f, y);
    ShownStart(buf[..], out[..], f);
    var at: nat := from;
    for j := 0 to y
      invariant fresh(buf) && fresh(out) && Progress(raw, at, f, y, j, done, goal) &&
                Shown(buf[..], out[..], f, j, done)
    {
      ProgressStep(raw, at, f, y, j, done, goal);
      if raw[at] > 4 {
        return false, out;
      }
      done := DecodeRow(buf, out, raw, at, f, j, y, done, goal);
      at := at + 1 + nk;
    }
    ProgressEnd(raw, at, f, y, done, goal);
    ShownEnd(buf[..], out[..], f, y, done);
    ok := true;
  }

  lemma ShownStart(buf: seq<byte>, out: seq<byte>, f: Format)
    requires FormatOk(f) && |buf| == 2 * RowBytes(f)
    ensures Shown(buf, out, f, 0, [])
  {
  }

  lemma ShownEnd(buf: seq<byte>, out: seq<byte>, f: Format, y: nat, done: seq<seq<byte>>)
    requires Shown(buf, out, f, y, done) && |out| == Times(y, Stride(f))
    ensures RowsFit(f, done) && out == Pixels(f, done)
  {
  }
}
