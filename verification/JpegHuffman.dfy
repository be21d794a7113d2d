/** The decoding tables of one JPEG Huffman code and their construction (`stbi__build_huffman`). */
module JpegHuffman {
  import opened Bits
  import opened Canonical
  import opened JpegCode

  const FAST_BITS: nat := 9

  /** The last of the first `n` codes that has at most nine bits and starts the nine bits `c`; 255 if there is none. */
  function Hit(cnt: Counts, c: nat, n: nat): byte
    requires n <= 256
  {
    if n == 0 then 255
    else
      if ShortStart(cnt, c, n - 1) then n - 1 else Hit(cnt, c, n - 1)
  }

  /** Code `i` has at most nine bits and the nine bits `c` start with it. */
  predicate ShortStart(cnt: Counts, c: nat, i: nat) {
    1 <= SizeOf(cnt, i) <= 9 && Shr(c, 9 - SizeOf(cnt, i)) == CodeOf(cnt, i)
  }

  ghost predicate SizesRight(size: seq<nat>, cnt: Counts, n: nat) {
    n <= |size| && forall i :: 0 <= i < n ==> size[i] == SizeOf(cnt, i)
  }

  ghost predicate CodesRight(code: seq<nat>, cnt: Counts, n: nat) {
    n <= |code| && forall i :: 0 <= i < n ==> code[i] == CodeOf(cnt, i)
  }

  /** Lengths below `n`: the table entries `maxcode` and `delta`. */
  ghost predicate LengthsRight(maxcode: seq<nat>, delta: seq<int>, cnt: Counts, n: nat) {
    |maxcode| == 18 && |delta| == 17 && n <= 17 &&
    forall s {:trigger maxcode[s]} {:trigger delta[s]} :: 1 <= s < n ==>
      maxcode[s] == Top(cnt, s) && delta[s] == Offset(cnt, s) - First(cnt, s)
  }

  ghost predicate FastRight(fast: seq<byte>, cnt: Counts, n: nat)
    requires n <= 256
  {
    |fast| == 512 && forall c :: 0 <= c < 512 ==> fast[c] == Hit(cnt, c, n)
  }

  // ---------- what the fast table finds ----------

  lemma {:induction false} HitMisses(cnt: Counts, c: nat, n: nat)
    requires n <= 256
    requires forall i :: 0 <= i < n ==> !ShortStart(cnt, c, i)
    ensures Hit(cnt, c, n) == 255
  {
    if n > 0 { HitMisses(cnt, c, n - 1); }
  }

  lemma {:induction false} HitFinds(cnt: Counts, c: nat, n: nat, i: nat)
    requires n <= 256 && i < n && ShortStart(cnt, c, i)
    requires forall j :: i < j < n ==> !ShortStart(cnt, c, j)
    ensures Hit(cnt, c, n) == i
  {
    if i < n - 1 { HitFinds(cnt, c, n - 1, i); }
  }

  /** Nine bits of a word decide whether it starts with a code of at most nine. */
  lemma StartsByNine(cnt: Counts, w: nat, i: nat)
    requires i < Total(cnt) && 1 <= SizeOf(cnt, i) <= 9
    ensures Starts(cnt, w, i) <==> ShortStart(cnt, Shr(w, 7), i)
  {
    ShrAdd(w, 7, 9 - SizeOf(cnt, i));
  }

  lemma FastHits(cnt: Counts, w: nat, i: nat)
    requires Total(cnt) <= 256 && Starts(cnt, w, i) && SizeOf(cnt, i) <= 9
    ensures Hit(cnt, Shr(w, 7), Total(cnt)) == i
  {
    hide SizeOf, CodeOf, Hit;
    SizeRange(cnt, i);
    StartsByNine(cnt, w, i);
    forall j | i < j < Total(cnt)
      ensures !ShortStart(cnt, Shr(w, 7), j)
    {
      if 1 <= SizeOf(cnt, j) <= 9 {
        StartsByNine(cnt, w, j);
        if Starts(cnt, w, j) { StartsUnique(cnt, w, i, j); }
      }
    }
    HitFinds(cnt, Shr(w, 7), Total(cnt), i);
  }

  lemma FastMisses(cnt: Counts, w: nat)
    requires Total(cnt) <= 256 && forall i: nat :: Starts(cnt, w, i) ==> SizeOf(cnt, i) > 9
    ensures Hit(cnt, Shr(w, 7), Total(cnt)) == 255
  {
    hide Starts, SizeOf, CodeOf, Hit;
    forall i | 0 <= i < Total(cnt)
      ensures !ShortStart(cnt, Shr(w, 7), i)
    {
      if 1 <= SizeOf(cnt, i) <= 9 { StartsByNine(cnt, w, i); }
    }
    HitMisses(cnt, Shr(w, 7), Total(cnt));
  }

  // ---------- one more entry of each table ----------

  lemma NoSizes(size: seq<nat>, cnt: Counts)
    ensures SizesRight(size, cnt, 0)
  {
  }

  lemma OneMoreSize(before: seq<nat>, after: seq<nat>, cnt: Counts, k: nat)
    requires SizesRight(before, cnt, k) && k < |before| && after == before[k := SizeOf(cnt, k)]
    ensures SizesRight(after, cnt, k + 1)
  {
  }

  lemma NoLengths(maxcode: seq<nat>, delta: seq<int>, code: seq<nat>, cnt: Counts)
    requires |maxcode| == 18 && |delta| == 17
    ensures LengthsRight(maxcode, delta, cnt, 1) && CodesRight(code, cnt, 0)
  {
  }

  lemma OneMoreLength(maxcode: seq<nat>, maxcode': seq<nat>, delta: seq<int>, delta': seq<int>, cnt: Counts, j: nat)
    requires 1 <= j <= 16 && LengthsRight(maxcode, delta, cnt, j)
    requires maxcode' == maxcode[j := Top(cnt, j)] && delta' == delta[j := Offset(cnt, j) - First(cnt, j)]
    ensures LengthsRight(maxcode', delta', cnt, j + 1)
  {
    hide Top, Offset, First;
  }

  lemma LastMaxcode(maxcode: seq<nat>, maxcode': seq<nat>, delta: seq<int>, cnt: Counts)
    requires LengthsRight(maxcode, delta, cnt, 17) && maxcode' == maxcode[17 := 0xffffffff]
    ensures LengthsRight(maxcode', delta, cnt, 17)
  {
    hide Top, Offset, First;
  }

  /** All codes of length `j` are numbers of `j` bits. */
  predicate Fitting(cnt: Counts, j: nat)
    requires 1 <= j <= 16
  {
    First(cnt, j) + cnt[j] <= Pow2(j)
  }

  lemma AllWidths(cnt: Counts)
    requires Fitting(cnt, 16)
    ensures KraftHolds(cnt)
  {
    hide First;
    TopIsSpace(cnt, 16);
    FitsAtLength(cnt, 16);
  }

  lemma FirstFits(cnt: Counts, j: nat)
    requires 1 <= j <= 16 && (j > 1 ==> Fitting(cnt, j - 1))
    ensures First(cnt, j) <= Pow2(j)
  {
  }

  lemma OffsetTotal(cnt: Counts, j: nat)
    requires 1 <= j <= 16
    ensures Offset(cnt, j) + cnt[j] <= Total(cnt)
  {
    if j < 16 { OffsetMonotone(cnt, j, 16); }
  }

  lemma SizeLookup(size: seq<nat>, cnt: Counts, j: nat, k: nat)
    requires SizesRight(size, cnt, Total(cnt) + 1) && 1 <= j <= 16
    requires Offset(cnt, j) <= k <= Offset(cnt, j) + cnt[j]
    ensures k <= Total(cnt) && (size[k] == j <==> k < Offset(cnt, j) + cnt[j])
  {
    hide SizeOf, Offset, Total;
    OffsetTotal(cnt, j);
    SizeAt(cnt, j, k);
  }

  lemma OneMoreCode(before: seq<nat>, after: seq<nat>, cnt: Counts, j: nat, k: nat)
    requires 1 <= j <= 16 && Offset(cnt, j) <= k < Offset(cnt, j) + cnt[j] && Fitting(cnt, j)
    requires CodesRight(before, cnt, k) && k < |before|
    requires after == before[k := (First(cnt, j) + k - Offset(cnt, j)) % 0x10000]
    ensures CodesRight(after, cnt, k + 1)
  {
    hide SizeOf, Offset, Total, First;
    SizeAt(cnt, j, k);
    Pow2Values();
    Pow2Monotone(j, 16);
  }

  lemma NoHits(fast: seq<byte>, cnt: Counts)
    requires |fast| == 512 && forall c :: 0 <= c < 512 ==> fast[c] == 255
    ensures FastRight(fast, cnt, 0)
  {
  }

  lemma SizeListed(size: seq<nat>, code: seq<nat>, cnt: Counts, i: nat)
    requires SizesRight(size, cnt, Total(cnt) + 1) && CodesRight(code, cnt, Total(cnt)) && i < Total(cnt)
    ensures size[i] == SizeOf(cnt, i) && 1 <= SizeOf(cnt, i) <= 16 && code[i] == CodeOf(cnt, i)
  {
    hide SizeOf, CodeOf, Total;
    SizeRange(cnt, i);
  }

  /** The nine-bit words that start with code `i`. */
  lemma RangeFits(cnt: Counts, i: nat)
    requires KraftHolds(cnt) && i < Total(cnt) && SizeOf(cnt, i) <= 9
    ensures var s := SizeOf(cnt, i);
            1 <= s && 0 <= CodeOf(cnt, i) && Shl(CodeOf(cnt, i), 9 - s) + Shl(1, 9 - s) <= 512 &&
            forall d: nat :: ShortStart(cnt, d, i) <==>
              Shl(CodeOf(cnt, i), 9 - s) <= d < Shl(CodeOf(cnt, i), 9 - s) + Shl(1, 9 - s)
  {
    hide SizeOf, CodeOf, KraftHolds, First, Shl, Shr, Total, Offset;
    SizeRange(cnt, i);
    var s := SizeOf(cnt, i);
    KraftAt(cnt, s);
    var c: nat := CodeOf(cnt, i);
    ShlSum(c, 1, 9 - s);
    ShlMonotone(c + 1, Pow2(s), 9 - s);
    ShlOne(s);
    ShlAdd(1, s, 9 - s);
    ShlOne(9);
    Pow2Values();
    forall d: nat ensures ShortStart(cnt, d, i) <==> Shl(c, 9 - s) <= d < Shl(c, 9 - s) + Shl(1, 9 - s) {
      ShrCompare(d, c, 9 - s);
      ShrCompare(d, c + 1, 9 - s);
    }
  }

  lemma NotShort(fast: seq<byte>, cnt: Counts, i: nat)
    requires i < 256 && FastRight(fast, cnt, i) && SizeOf(cnt, i) > 9
    ensures FastRight(fast, cnt, i + 1)
  {
    hide SizeOf, CodeOf;
  }

  // ---------- the tables ----------

  class HuffmanTable {
    const fast: array<byte>
    const code: array<nat>
    const values: array<byte>
    const size: array<nat>
    const maxcode: array<nat>
    const delta: array<int>

    constructor ()
      ensures Shape() && fresh(fast) && fresh(code) && fresh(values) && fresh(size) && fresh(maxcode) && fresh(delta)
    {
      fast := new byte[512];
      code := new nat[256];
      values := new byte[256];
      size := new nat[257];
      maxcode := new nat[18];
      delta := new int[17];
    }

    predicate Shape() {
      && fast.Length == 512 && code.Length == 256 && values.Length == 256
      && size.Length == 257 && maxcode.Length == 18 && delta.Length == 17
      && fast != values && code != size && code != maxcode && size != maxcode
    }

    /** The tables decode the code with `cnt[s]` codes of each length `s`. */
    ghost predicate Built(cnt: Counts)
      reads fast, code, size, maxcode, delta
    {
      && Shape() && Total(cnt) <= 256 && KraftHolds(cnt)
      && SizesRight(size[..], cnt, Total(cnt) + 1) && CodesRight(code[..], cnt, Total(cnt))
      && LengthsRight(maxcode[..], delta[..], cnt, 17) && maxcode[17] == 0xffffffff
      && FastRight(fast[..], cnt, Total(cnt))
    }

    /** Builds the tables for the given counts; fails exactly when there are too many codes or they do not fit. */
    method Build(cnt: Counts) returns (ok: bool)
      requires Shape()
      modifies fast, code, size, maxcode, delta
      ensures ok <==> Total(cnt) <= 256 && KraftHolds(cnt)
      ensures ok ==> Built(cnt)
    {
      hide SizesRight, CodesRight, LengthsRight, FastRight, Total, KraftHolds;
      ok := ListSizes(cnt);
      if !ok { return; }
      var k;
      ok, k := AssignCodes(cnt);
      if !ok { return; }
      FillFast(cnt, k);
    }

    method ListSizes(cnt: Counts) returns (ok: bool)
      requires Shape()
      modifies size
      ensures ok <==> Total(cnt) <= 256
      ensures ok ==> SizesRight(size[..], cnt, Total(cnt) + 1)
    {
      hide SizesRight, SizeOf;
      var k: nat := 0;
      NoSizes(size[..], cnt);
      for i := 0 to 16
        invariant k <= 256 && k == if i < 16 then Offset(cnt, i + 1) else Total(cnt)
        invariant SizesRight(size[..], cnt, k)
      {
        for j := 0 to cnt[i + 1]
          invariant k <= 256 && k == Offset(cnt, i + 1) + j && SizesRight(size[..], cnt, k)
        {
          ghost var before := size[..];
          SizeAt(cnt, i + 1, k);
          size[k] := i + 1;
          OneMoreSize(before, size[..], cnt, k);
          k := k + 1;
          if k >= 257 {
            if i < 15 { OffsetMonotone(cnt, i + 1, 16); }
            return false;
          }
        }
      }
      ghost var before := size[..];
      size[k] := 0;
      SizeEnd(cnt, k);
      OneMoreSize(before, size[..], cnt, k);
      ok := true;
    }

    /** Codes of each length, the offset from code to index, and the end of each length in 16 bits. */
    method AssignCodes(cnt: Counts) returns (ok: bool, k: nat)
      requires Shape() && Total(cnt) <= 256 && SizesRight(size[..], cnt, Total(cnt) + 1)
      modifies code, delta, maxcode
      ensures ok <==> KraftHolds(cnt)
      ensures ok ==> CodesRight(code[..], cnt, Total(cnt)) && LengthsRight(maxcode[..], delta[..], cnt, 17)
      ensures ok ==> maxcode[17] == 0xffffffff && k == Total(cnt)
    {
      hide SizesRight, CodesRight, LengthsRight, SizeOf, CodeOf, KraftHolds;
      var c: nat := 0;
      k := 0;
      NoLengths(maxcode[..], delta[..], code[..], cnt);
      for j := 1 to 17
        invariant j <= 16 ==> k == Offset(cnt, j) && c == First(cnt, j)
        invariant j == 17 ==> k == Total(cnt)
        invariant CodesRight(code[..], cnt, k) && LengthsRight(maxcode[..], delta[..], cnt, j)
        invariant j > 1 ==> Fitting(cnt, j - 1)
      {
        ghost var maxcode0, delta0 := maxcode[..], delta[..];
        delta[j] := k - c;
        var fits;
        k, c, fits := CodesOfLength(cnt, j, k, c);
        if !fits {
          KraftAt(cnt, j);
          return false, k;
        }
        maxcode[j] := Shl(c, 16 - j);
        OneMoreLength(maxcode0, maxcode[..], delta0, delta[..], cnt, j);
        c := 2 * c;
      }
      AllWidths(cnt);
      ghost var maxcode0 := maxcode[..];
      maxcode[17] := 0xffffffff;
      LastMaxcode(maxcode0, maxcode[..], delta[..], cnt);
      ok := true;
    }

    /** The codes of length `j`, from index `k0` and code `c0` on; checked only when there are any. */
    method CodesOfLength(cnt: Counts, j: nat, k0: nat, c0: nat) returns (k: nat, c: nat, fits: bool)
      requires Shape() && Total(cnt) <= 256 && SizesRight(size[..], cnt, Total(cnt) + 1) && 1 <= j <= 16
      requires k0 == Offset(cnt, j) && c0 == First(cnt, j) && CodesRight(code[..], cnt, k0)
      requires j > 1 ==> Fitting(cnt, j - 1)
      modifies code
      ensures fits <==> Fitting(cnt, j)
      ensures fits ==> k == Offset(cnt, j) + cnt[j] && c == First(cnt, j) + cnt[j] && CodesRight(code[..], cnt, k)
    {
      hide SizesRight, CodesRight, SizeOf, CodeOf;
      k, c := k0, c0;
      FirstFits(cnt, j);
      SizeLookup(size[..], cnt, j, k);
      OffsetTotal(cnt, j);
      if size[k] == j {
        while size[k] == j
          invariant Offset(cnt, j) <= k <= Offset(cnt, j) + cnt[j] && c == First(cnt, j) + k - Offset(cnt, j)
          invariant size[k] == j <==> k < Offset(cnt, j) + cnt[j]
          invariant Fitting(cnt, j) ==> CodesRight(code[..], cnt, k)
          decreases Offset(cnt, j) + cnt[j] - k
        {
          ghost var before := code[..];
          code[k] := c % 0x10000;
          if Fitting(cnt, j) { OneMoreCode(before, code[..], cnt, j, k); }
          k, c := k + 1, c + 1;
          SizeLookup(size[..], cnt, j, k);
        }
        ShlOne(j);
        if c - 1 >= Shl(1, j) {
          return k, c, false;
        }
      }
      fits := true;
    }

    /** The accelerator: 255 everywhere, then the range of every code of at most nine bits. */
    method FillFast(cnt: Counts, k: nat)
      requires Shape() && k == Total(cnt) && Total(cnt) <= 256 && KraftHolds(cnt)
      requires SizesRight(size[..], cnt, Total(cnt) + 1) && CodesRight(code[..], cnt, Total(cnt))
      modifies fast
      ensures FastRight(fast[..], cnt, Total(cnt))
    {
      hide SizesRight, CodesRight, SizeOf, CodeOf, KraftHolds, FastRight, Total;
      Clear();
      NoHits(fast[..], cnt);
      for i := 0 to k
        invariant FastRight(fast[..], cnt, i)
      {
        SizeListed(size[..], code[..], cnt, i);
        var s := size[i];
        if s <= FAST_BITS {
          RangeFits(cnt, i);
          FillRange(cnt, i, Shl(code[i], 9 - s), Shl(1, 9 - s));
        } else {
          NotShort(fast[..], cnt, i);
        }
      }
    }

    method Clear()
      requires Shape()
      modifies fast
      ensures forall c :: 0 <= c < 512 ==> fast[..][c] == 255
    {
      for c := 0 to 512
        invariant forall d :: 0 <= d < c ==> fast[d] == 255
      {
        fast[c] := 255;
      }
    }

    method FillRange(cnt: Counts, i: nat, c: nat, m: nat)
      requires Shape() && i < Total(cnt) <= 256 && c + m <= 512
      requires FastRight(fast[..], cnt, i)
      requires forall d: nat :: ShortStart(cnt, d, i) <==> c <= d < c + m
      modifies fast
      ensures FastRight(fast[..], cnt, i + 1)
    {
      hide ShortStart;
      for j := 0 to m
        invariant forall d :: 0 <= d < 512 ==> fast[d] == if c <= d < c + j then i else Hit(cnt, d, i)
      {
        fast[c + j] := i;
      }
    }
  }
}
