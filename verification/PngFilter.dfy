/** PNG scanline filters (section 9 of ISO/IEC 15948): what the encoder applies, and
    the decoder that undoes it with two alternating rows of workspace. */
module PngFilter {
  import opened Bits

  // ---------- the Paeth predictor ----------

  function Abs(x: int): nat {
    if x < 0 then -x else x
  }

  /** Section 9.4: of left, above and upper left, the one nearest to left + above - upper left, in that order. */
  function PaethPredictor(a: int, b: int, c: int): int {
    var p := a + b - c;
    if Abs(p - a) <= Abs(p - b) && Abs(p - a) <= Abs(p - c) then a
    else if Abs(p - b) <= Abs(p - c) then b
    else c
  }

  /** `stbi__paeth`: the same choice by comparing with a threshold. */
  function Paeth(a: int, b: int, c: int): int {
    var thresh := c * 3 - (a + b);
    var lo := if a < b then a else b;
    var hi := if a < b then b else a;
    var t0 := if hi <= thresh then lo else c;
    if thresh <= lo then hi else t0
  }

  /** The rewritten predictor is the specified one, for all integers. */
  lemma PaethIsPredictor(a: int, b: int, c: int)
    ensures Paeth(a, b, c) == PaethPredictor(a, b, c)
  {
  }

  // ---------- filters as the specification defines them ----------

  /** The prediction of each filter type from the bytes to the left, above and upper left (0 to 4 are those of
      section 9.2; 5 is the decoder's own). */
  function Predict(filter: nat, a: byte, b: byte, c: byte): (p: byte) {
    if filter == 1 then a
    else if filter == 2 then b
    else if filter == 3 then (a as int + b) / 2
    else if filter == 4 then PredictPaeth(a, b, c)
    else if filter == 5 then a / 2
    else 0
  }

  function PredictPaeth(a: byte, b: byte, c: byte): (p: byte) {
    PaethPredictor(a, b, c)
  }

  /** Byte `k` of a row, or 0 to the left of it. */
  function At(row: seq<byte>, k: int): byte
    requires k < |row|
  {
    if k < 0 then 0 else row[k]
  }

  /** Section 9.2: what the encoder writes for byte `k`. */
  function FilterByte(filter: nat, row: seq<byte>, prior: seq<byte>, bpp: nat, k: nat): (r: byte)
    requires k < |row| == |prior|
  {
    (row[k] - Predict(filter, At(row, k - bpp), prior[k], At(prior, k - bpp)) + 256) % 256
  }

  function FilterRow(filter: nat, row: seq<byte>, prior: seq<byte>, bpp: nat): (r: seq<byte>)
    requires |row| == |prior|
    ensures |r| == |row|
  {
    seq<byte>(|row|, k requires 0 <= k < |row| => FilterByte(filter, row, prior, bpp, k))
  }

  /** The first `n` bytes restored from the filtered row, each from those restored before it. */
  function Restored(filter: nat, raw: seq<byte>, prior: seq<byte>, bpp: nat, n: nat): (r: seq<byte>)
    requires n <= |raw| == |prior| && bpp > 0
    ensures |r| == n
  {
    if n == 0 then []
    else
      var r := Restored(filter, raw, prior, bpp, n - 1);
      r + [RestoredByte(filter, raw[n - 1], At0(r, n - 1 - bpp), prior[n - 1], At(prior, n - 1 - bpp))]
  }

  /** Byte `k` of what has been restored so far, or 0 to the left of it. */
  function At0(r: seq<byte>, k: int): byte {
    if 0 <= k < |r| then r[k] else 0
  }

  function RestoredByte(filter: nat, x: byte, a: byte, b: byte, c: byte): byte {
    (x as int + Predict(filter, a, b, c)) % 256
  }

  /** Every byte is restored from those one pixel to the left and above. */
  lemma {:induction false} RestoredAt(filter: nat, raw: seq<byte>, prior: seq<byte>, bpp: nat, n: nat, k: nat)
    requires k < n <= |raw| == |prior| && bpp > 0
    ensures var r := Restored(filter, raw, prior, bpp, n);
            r[k] == if k < bpp then RestoredByte(filter, raw[k], 0, prior[k], 0)
                    else RestoredByte(filter, raw[k], r[k - bpp], prior[k], prior[k - bpp])
  {
    hide RestoredByte;
    if k < n - 1 { RestoredAt(filter, raw, prior, bpp, n - 1, k); }
  }

  /** Restoring a filtered row gives the row back, whatever the filter. */
  lemma {:induction false} RestoreRow(filter: nat, row: seq<byte>, prior: seq<byte>, bpp: nat, n: nat)
    requires n <= |row| == |prior| && bpp > 0
    ensures Restored(filter, FilterRow(filter, row, prior, bpp), prior, bpp, n) == row[..n]
  {
    hide Predict;
    if n > 0 {
      RestoreRow(filter, row, prior, bpp, n - 1);
      var k := n - 1;
      var p := Predict(filter, At(row, k - bpp), prior[k], At(prior, k - bpp));
      assert FilterRow(filter, row, prior, bpp)[k] == FilterByte(filter, row, prior, bpp, k);
      assert At0(row[..k], k - bpp) == At(row, k - bpp);
      ByteBack(row[k], p);
      assert row[..n] == row[..k] + [row[k]];
    }
  }

  lemma ByteBack(x: byte, p: byte)
    ensures ((x - p + 256) % 256 + p) % 256 == x
  {
  }

  // ---------- the first row ----------

  /** The filter run on the first row in place of each type; 5 is the average without a row above. */
  const FIRST_ROW_FILTER: seq<nat> := [0, 1, 0, 5, 1]

  /** On the first row the substitute reads no row above and restores what the given type restores below zeros. */
  lemma {:induction false} FirstRowFilter(filter: nat, raw: seq<byte>, above: seq<byte>, bpp: nat, n: nat)
    requires filter <= 4 && n <= |raw| == |above| && bpp > 0
    ensures Restored(FIRST_ROW_FILTER[filter], raw, above, bpp, n) == Restored(filter, raw, Zeros(|raw|), bpp, n)
  {
    hide RestoredByte;
    if n > 0 {
      FirstRowFilter(filter, raw, above, bpp, n - 1);
      var r := Restored(filter, raw, Zeros(|raw|), bpp, n - 1);
      FirstPrediction(filter, raw[n - 1], At0(r, n - 1 - bpp), above[n - 1], At(above, n - 1 - bpp));
    }
  }

  lemma FirstPrediction(filter: nat, x: byte, a: byte, b: byte, c: byte)
    requires filter <= 4
    ensures RestoredByte(FIRST_ROW_FILTER[filter], x, a, b, c) == RestoredByte(filter, x, a, 0, 0)
  {
    assert Predict(FIRST_ROW_FILTER[filter], a, b, c) == Predict(filter, a, 0, 0);
  }

  // ---------- images ----------

  /** The rows of an image restored from `y` filtered rows of `|prior|` bytes, each led by its filter type. */
  function RestoreRows(raw: seq<byte>, prior: seq<byte>, y: nat, bpp: nat): Option<seq<seq<byte>>>
    requires bpp > 0
    decreases y
  {
    var nk := |prior|;
    if y == 0 then Some([])
    else if |raw| < nk + 1 || raw[0] > 4 then None
    else
      var row := Restored(raw[0], raw[1..nk + 1], prior, bpp, nk);
      Onto(row, RestoreRows(raw[nk + 1..], row, y - 1, bpp))
  }

  function Onto(row: seq<byte>, rest: Option<seq<seq<byte>>>): Option<seq<seq<byte>>> {
    if rest.None? then None else Some([row] + rest.value)
  }

  lemma {:induction false} RowsRestored(raw: seq<byte>, prior: seq<byte>, y: nat, bpp: nat)
    requires bpp > 0
    ensures var r := RestoreRows(raw, prior, y, bpp);
            r.Some? ==> |r.value| == y && forall i :: 0 <= i < y ==> |r.value[i]| == |prior|
    decreases y
  {
    if y > 0 && |raw| >= |prior| + 1 && raw[0] <= 4 {
      RowsRestored(raw[|prior| + 1..], Restored(raw[0], raw[1..|prior| + 1], prior, bpp, |prior|), y - 1, bpp);
    }
  }

  /** An encoder: filter each row with the type chosen for it. */
  function FilterRows(types: seq<nat>, rows: seq<seq<byte>>, prior: seq<byte>, bpp: nat): seq<byte>
    requires |types| == |rows| && (forall i :: 0 <= i < |types| ==> types[i] <= 4)
    requires forall i :: 0 <= i < |rows| ==> |rows[i]| == |prior|
    decreases |rows|
  {
    if rows == [] then []
    else [types[0]] + FilterRow(types[0], rows[0], prior, bpp) + FilterRows(types[1..], rows[1..], rows[0], bpp)
  }

  /** Restoring inverts filtering for every image and every choice of filters, with anything after it. */
  lemma {:induction false} RestoreFiltered(types: seq<nat>, rows: seq<seq<byte>>, prior: seq<byte>, bpp: nat,
                                           post: seq<byte>)
    requires |types| == |rows| && bpp > 0 && (forall i :: 0 <= i < |types| ==> types[i] <= 4)
    requires forall i :: 0 <= i < |rows| ==> |rows[i]| == |prior|
    ensures RestoreRows(FilterRows(types, rows, prior, bpp) + post, prior, |rows|, bpp) == Some(rows)
    decreases |rows|
  {
    hide Restored, FilterRow;
    if rows != [] {
      var nk := |prior|;
      var line := FilterRow(types[0], rows[0], prior, bpp);
      var rest := FilterRows(types[1..], rows[1..], rows[0], bpp);
      var raw := FilterRows(types, rows, prior, bpp) + post;
      assert raw == [types[0]] + line + (rest + post);
      assert raw[1..nk + 1] == line && raw[nk + 1..] == rest + post;
      RestoreRow(types[0], rows[0], prior, bpp, nk);
      assert rows[0][..nk] == rows[0];
      RestoreFiltered(types[1..], rows[1..], rows[0], bpp, post);
      assert [rows[0]] + rows[1..] == rows;
    }
  }
}
