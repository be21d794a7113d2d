/** Restoring the rows of a PNG image in place, row by row, with two alternating rows
    of workspace (`stbi__create_png_image_raw`). */
module PngUnfilter {
  import opened Bits
  import opened PngFilter

  /** Only positions from `lo` up to `hi` may differ. */
  ghost predicate Outside(was: seq<byte>, now: seq<byte>, lo: nat, hi: nat) {
    |was| == |now| && lo <= hi <= |now| && was[..lo] == now[..lo] && was[hi..] == now[hi..]
  }

  lemma OutsideStep(a: seq<byte>, b: seq<byte>, c: seq<byte>, lo: nat, k: nat, hi: nat)
    requires Outside(a, b, lo, hi) && lo + k < hi && Outside(b, c, lo + k, lo + k + 1)
    ensures Outside(a, c, lo, hi)
  {
    assert b[..lo] == b[..lo + k][..lo] && c[..lo] == c[..lo + k][..lo];
    assert b[hi..] == b[lo + k + 1..][hi - (lo + k + 1)..] && c[hi..] == c[lo + k + 1..][hi - (lo + k + 1)..];
  }

  /** What is stored for byte `k`, with the bytes the code samples, extends the restored row. */
  lemma Extend(filter: nat, line: seq<byte>, prior: seq<byte>, bpp: nat, k: nat, a: byte, v: byte)
    requires k < |line| == |prior| && bpp > 0
    requires a == if k < bpp then 0 else Restored(filter, line, prior, bpp, k)[k - bpp]
    requires v == RestoredByte(filter, line[k], a, prior[k], if k < bpp then 0 else prior[k - bpp])
    ensures Restored(filter, line, prior, bpp, k + 1) == Restored(filter, line, prior, bpp, k) + [v]
  {
    hide RestoredByte;
  }

  /** Store byte `k` of the row at `co`: `v`, from the byte `a` a pixel to its left. */
  method Append(buf: array<byte>, co: nat, k: nat, nk: nat, bpp: nat, ghost filter: nat, v: byte, ghost a: byte,
                ghost line: seq<byte>, ghost prior: seq<byte>, ghost was: seq<byte>)
    requires co + nk <= buf.Length && k < nk == |line| == |prior| && bpp > 0
    requires buf[co..co + k] == Restored(filter, line, prior, bpp, k) && Outside(was, buf[..], co, co + nk)
    requires a == if k < bpp then 0 else Restored(filter, line, prior, bpp, k)[k - bpp]
    requires v == RestoredByte(filter, line[k], a, prior[k], if k < bpp then 0 else prior[k - bpp])
    modifies buf
    ensures buf[co..co + k + 1] == Restored(filter, line, prior, bpp, k + 1) && Outside(was, buf[..], co, co + nk)
  {
    hide Restored, RestoredByte;
    Extend(filter, line, prior, bpp, k, a, v);
    ghost var before := buf[..];
    buf[co + k] := v;
    assert buf[co..co + k + 1] == before[co..co + k] + [v];
    OutsideStep(was, before, buf[..], co, k, co + nk);
  }

  /** The row above lies outside the row being written. */
  lemma AboveKept(was: seq<byte>, now: seq<byte>, co: nat, nk: nat, po: nat, k: nat)
    requires Outside(was, now, co, co + nk) && po + nk <= |was| && (po + nk <= co || co + nk <= po) && k < nk
    ensures now[po + k] == was[po + k] == was[po..po + nk][k]
  {
    if po + nk <= co {
      assert now[po + k] == now[..co][po + k];
    } else {
      assert now[po + k] == now[co + nk..][po + k - (co + nk)];
    }
  }

  lemma EmptyRow(buf: array<byte>, co: nat, nk: nat, filter: nat, line: seq<byte>, prior: seq<byte>, bpp: nat)
    requires co + nk <= buf.Length && nk == |line| == |prior| && bpp > 0
    ensures buf[co..co + 0] == Restored(filter, line, prior, bpp, 0)
    ensures Outside(buf[..], buf[..], co, co + nk)
  {
  }

  /** The arithmetic each loop performs is the specified prediction. */
  lemma FilterArithmetic(x: byte, a: byte, b: byte, c: byte)
    ensures RestoredByte(0, x, a, b, c) == x
    ensures RestoredByte(1, x, a, b, c) == (x + a) % 256
    ensures RestoredByte(2, x, a, b, c) == (x + b) % 256
    ensures RestoredByte(3, x, a, b, c) == (x + (b + a) / 2) % 256
    ensures RestoredByte(4, x, a, b, c) == (x + Paeth(a, b, c)) % 256
    ensures RestoredByte(4, x, 0, b, 0) == (x + b) % 256
    ensures RestoredByte(5, x, a, b, c) == (x + a / 2) % 256
    ensures RestoredByte(1, x, 0, b, c) == x && RestoredByte(5, x, 0, b, c) == x
  {
    PaethIsPredictor(a, b, c);
    PaethIsPredictor(0, b, 0);
  }

  /** `memcpy` of the whole row, or of its first pixel before a filter that samples only the left. */
  method Copy(buf: array<byte>, co: nat, nk: nat, bpp: nat, raw: seq<byte>, at: nat, count: nat, filter: nat,
              ghost prior: seq<byte>)
    requires co + nk <= buf.Length && at + nk <= |raw| && 0 < bpp <= nk == |prior|
    requires if filter == 0 then count == nk else (filter == 1 || filter == 5) && count == bpp
    modifies buf
    ensures buf[co..co + count] == Restored(filter, raw[at..at + nk], prior, bpp, count)
    ensures Outside(old(buf[..]), buf[..], co, co + nk)
  {
    hide Restored, RestoredByte, Outside;
    ghost var line := raw[at..at + nk];
    EmptyRow(buf, co, nk, filter, line, prior, bpp);
    for k := 0 to count
      invariant buf[co..co + k] == Restored(filter, line, prior, bpp, k)
      invariant Outside(old(buf[..]), buf[..], co, co + nk)
    {
      ghost var a: byte := if k < bpp then 0 else Restored(filter, line, prior, bpp, k)[k - bpp];
      FilterArithmetic(raw[at + k], a, prior[k], if k < bpp then 0 else prior[k - bpp]);
      Append(buf, co, k, nk, bpp, filter, raw[at + k], a, line, prior, old(buf[..]));
    }
  }

  method Sub(buf: array<byte>, co: nat, nk: nat, bpp: nat, raw: seq<byte>, at: nat, ghost prior: seq<byte>)
    requires co + nk <= buf.Length && at + nk <= |raw| && 0 < bpp <= nk == |prior|
    modifies buf
    ensures buf[co..co + nk] == Restored(1, raw[at..at + nk], prior, bpp, nk)
    ensures Outside(old(buf[..]), buf[..], co, co + nk)
  {
    hide Restored, RestoredByte, Outside;
    ghost var line := raw[at..at + nk];
    Copy(buf, co, nk, bpp, raw, at, bpp, 1, prior);
    for k := bpp to nk
      invariant buf[co..co + k] == Restored(1, line, prior, bpp, k)
      invariant Outside(old(buf[..]), buf[..], co, co + nk)
    {
      assert buf[co..co + k][k - bpp] == buf[co + k - bpp];
      var v: byte := (raw[at + k] as int + buf[co + k - bpp]) % 256;
      FilterArithmetic(raw[at + k], buf[co + k - bpp], prior[k], prior[k - bpp]);
      Append(buf, co, k, nk, bpp, 1, v, buf[co + k - bpp], line, prior, old(buf[..]));
    }
  }

  method AvgFirst(buf: array<byte>, co: nat, nk: nat, bpp: nat, raw: seq<byte>, at: nat, ghost prior: seq<byte>)
    requires co + nk <= buf.Length && at + nk <= |raw| && 0 < bpp <= nk == |prior|
    modifies buf
    ensures buf[co..co + nk] == Restored(5, raw[at..at + nk], prior, bpp, nk)
    ensures Outside(old(buf[..]), buf[..], co, co + nk)
  {
    hide Restored, RestoredByte, Outside;
    ghost var line := raw[at..at + nk];
    Copy(buf, co, nk, bpp, raw, at, bpp, 5, prior);
    for k := bpp to nk
      invariant buf[co..co + k] == Restored(5, line, prior, bpp, k)
      invariant Outside(old(buf[..]), buf[..], co, co + nk)
    {
      assert buf[co..co + k][k - bpp] == buf[co + k - bpp];
      var v: byte := (raw[at + k] as int + buf[co + k - bpp] / 2) % 256;
      FilterArithmetic(raw[at + k], buf[co + k - bpp], prior[k], prior[k - bpp]);
      Append(buf, co, k, nk, bpp, 5, v, buf[co + k - bpp], line, prior, old(buf[..]));
    }
  }

  method Up(buf: array<byte>, co: nat, po: nat, nk: nat, bpp: nat, raw: seq<byte>, at: nat)
    requires co + nk <= buf.Length && at + nk <= |raw| && 0 < bpp <= nk
    requires po + nk <= buf.Length && (po + nk <= co || co + nk <= po)
    modifies buf
    ensures buf[co..co + nk] == Restored(2, raw[at..at + nk], old(buf[po..po + nk]), bpp, nk)
    ensures Outside(old(buf[..]), buf[..], co, co + nk)
  {
    hide Restored, RestoredByte, Outside;
    ghost var line, prior := raw[at..at + nk], buf[po..po + nk];
    EmptyRow(buf, co, nk, 2, line, prior, bpp);
    for k := 0 to nk
      invariant buf[co..co + k] == Restored(2, line, prior, bpp, k)
      invariant Outside(old(buf[..]), buf[..], co, co + nk)
    {
      AboveKept(old(buf[..]), buf[..], co, nk, po, k);
      var v: byte := (raw[at + k] as int + buf[po + k]) % 256;
      ghost var a: byte := if k < bpp then 0 else Restored(2, line, prior, bpp, k)[k - bpp];
      FilterArithmetic(raw[at + k], a, prior[k], if k < bpp then 0 else prior[k - bpp]);
      Append(buf, co, k, nk, bpp, 2, v, a, line, prior, old(buf[..]));
    }
  }

  method Average(buf: array<byte>, co: nat, po: nat, nk: nat, bpp: nat, raw: seq<byte>, at: nat)
    requires co + nk <= buf.Length && at + nk <= |raw| && 0 < bpp <= nk
    requires po + nk <= buf.Length && (po + nk <= co || co + nk <= po)
    modifies buf
    ensures buf[co..co + nk] == Restored(3, raw[at..at + nk], old(buf[po..po + nk]), bpp, nk)
    ensures Outside(old(buf[..]), buf[..], co, co + nk)
  {
    hide Restored, RestoredByte, Outside;
    ghost var line, prior := raw[at..at + nk], buf[po..po + nk];
    EmptyRow(buf, co, nk, 3, line, prior, bpp);
    for k := 0 to bpp
      invariant buf[co..co + k] == Restored(3, line, prior, bpp, k)
      invariant Outside(old(buf[..]), buf[..], co, co + nk)
    {
      AboveKept(old(buf[..]), buf[..], co, nk, po, k);
      var v: byte := (raw[at + k] as int + buf[po + k] / 2) % 256;
      FilterArithmetic(raw[at + k], 0, prior[k], 0);
      Append(buf, co, k, nk, bpp, 3, v, 0, line, prior, old(buf[..]));
    }
    for k := bpp to nk
      invariant buf[co..co + k] == Restored(3, line, prior, bpp, k)
      invariant Outside(old(buf[..]), buf[..], co, co + nk)
    {
      AboveKept(old(buf[..]), buf[..], co, nk, po, k);
      assert buf[co..co + k][k - bpp] == buf[co + k - bpp];
      var v: byte := (raw[at + k] as int + (buf[po + k] as int + buf[co + k - bpp]) / 2) % 256;
      FilterArithmetic(raw[at + k], buf[co + k - bpp], prior[k], prior[k - bpp]);
      Append(buf, co, k, nk, bpp, 3, v, buf[co + k - bpp], line, prior, old(buf[..]));
    }
  }

  method PaethRow(buf: array<byte>, co: nat, po: nat, nk: nat, bpp: nat, raw: seq<byte>, at: nat)
    requires co + nk <= buf.Length && at + nk <= |raw| && 0 < bpp <= nk
    requires po + nk <= buf.Length && (po + nk <= co || co + nk <= po)
    modifies buf
    ensures buf[co..co + nk] == Restored(4, raw[at..at + nk], old(buf[po..po + nk]), bpp, nk)
    ensures Outside(old(buf[..]), buf[..], co, co + nk)
  {
    hide Restored, RestoredByte, Outside, Paeth;
    ghost var line, prior := raw[at..at + nk], buf[po..po + nk];
    EmptyRow(buf, co, nk, 4, line, prior, bpp);
    for k := 0 to bpp
      invariant buf[co..co + k] == Restored(4, line, prior, bpp, k)
      invariant Outside(old(buf[..]), buf[..], co, co + nk)
    {
      AboveKept(old(buf[..]), buf[..], co, nk, po, k);
      var v: byte := (raw[at + k] as int + buf[po + k]) % 256;
      FilterArithmetic(raw[at + k], 0, prior[k], 0);
      Append(buf, co, k, nk, bpp, 4, v, 0, line, prior, old(buf[..]));
    }
    for k := bpp to nk
      invariant buf[co..co + k] == Restored(4, line, prior, bpp, k)
      invariant Outside(old(buf[..]), buf[..], co, co + nk)
    {
      AboveKept(old(buf[..]), buf[..], co, nk, po, k);
      AboveKept(old(buf[..]), buf[..], co, nk, po, k - bpp);
      assert buf[co..co + k][k - bpp] == buf[co + k - bpp];
      var v: byte := (raw[at + k] as int + Paeth(buf[co + k - bpp], buf[po + k], buf[po + k - bpp])) % 256;
      FilterArithmetic(raw[at + k], buf[co + k - bpp], prior[k], prior[k - bpp]);
      Append(buf, co, k, nk, bpp, 4, v, buf[co + k - bpp], line, prior, old(buf[..]));
    }
  }

  /** One row: restored at `co` from the filtered bytes at `at` and the row above it at `po`, zeros above the first. */
  method UnfilterRow(buf: array<byte>, co: nat, po: nat, nk: nat, bpp: nat, raw: seq<byte>, at: nat, filter: nat,
                     first: bool)
    requires co + nk <= buf.Length && at + nk <= |raw| && 0 < bpp <= nk && filter <= 4
    requires po + nk <= buf.Length && (po + nk <= co || co + nk <= po)
    modifies buf
    ensures buf[co..co + nk] ==
            Restored(filter, raw[at..at + nk], if first then Zeros(nk) else old(buf[po..po + nk]), bpp, nk)
    ensures Outside(old(buf[..]), buf[..], co, co + nk)
  {
    hide Restored, Outside;
    ghost var above := buf[po..po + nk];
    if first { FirstRowFilter(filter, raw[at..at + nk], above, bpp, nk); }
    var f := if first then FIRST_ROW_FILTER[filter] else filter;
    if f == 0 {
      Copy(buf, co, nk, bpp, raw, at, nk, 0, above);
    } else if f == 1 {
      Sub(buf, co, nk, bpp, raw, at, above);
    } else if f == 2 {
      Up(buf, co, po, nk, bpp, raw, at);
    } else if f == 3 {
      Average(buf, co, po, nk, bpp, raw, at);
    } else if f == 4 {
      PaethRow(buf, co, po, nk, bpp, raw, at);
    } else {
      AvgFirst(buf, co, nk, bpp, raw, at, above);
    }
  }
}
