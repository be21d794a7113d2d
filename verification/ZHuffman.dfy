/** The decoding tables of one DEFLATE alphabet and their construction. */
module ZHuffmanTables {
  import opened Bits
  import opened BitReversal
  import opened Canonical
  import opened PrefixCode

  const ZFAST_BITS: nat := 9
  const ZNSYMS: nat := 288

  /** Storing into a 16-bit field keeps the low sixteen bits. */
  function U16(x: nat): nat {
    x % 0x10000
  }

  lemma U16Small(x: nat)
    requires x < 0x10000
    ensures U16(x) == x
  {
  }

  lemma ShlNine(x: nat)
    ensures Shl(x, 9) == 512 * x
  {
    ShlIsProduct(x, 9);
    assert Pow2(9) == 512;
  }

  /** A fast entry packs the length above nine bits of symbol. */
  lemma PackEntry(s: nat, i: nat)
    requires s <= 15 && i < 512
    ensures U16(Or(Shl(s, 9), i)) == 512 * s + i
  {
    assert Pow2(9) == 512;
    OrCommutes(Shl(s, 9), i);
    OrDisjoint(i, s, 9);
    ShlNine(s);
    U16Small(512 * s + i);
  }

  lemma UnpackEntry(b: nat)
    ensures Shr(b, 9) == b / 512 && And(b, 511) == b % 512
  {
    Pow2Values();
    AndMask(b, 511, 9);
    JoinSplit(b, 9);
    ShlNine(Shr(b, 9));
  }

  /** A word begins with a code exactly when its low bits are the reversed code. */
  lemma MatchesByLow(lens: Lengths, i: nat, v: nat)
    requires Kraft(lens) && i < |lens| && lens[i] > 0
    ensures Matches(lens, i, v) <==> Low(v, lens[i]) == Rev(Code(lens, i), lens[i])
  {
    var s := lens[i];
    CodeFits(lens, i);
    RevLow(v, s, s);
    JoinSplit(v, s);
    RevRev(Low(v, s), s);
    RevRev(Code(lens, i), s);
  }

  /** Nine bits of lookahead decide every code of at most nine bits. */
  lemma MatchesNine(lens: Lengths, i: nat, v: nat)
    requires i < |lens| && lens[i] <= 9
    ensures Matches(lens, i, v) <==> Matches(lens, i, Low(v, 9))
  {
    RevLow(v, lens[i], 9);
  }

  /** The lengths below `n` do not overflow their widths. */
  ghost predicate FitUpTo(cnt: Counts, n: nat)
    requires n <= 16
  {
    n <= 1 || (FitUpTo(cnt, n - 1) && First(cnt, n - 1) + cnt[n - 1] <= Pow2(n - 1))
  }

  lemma {:induction false} FitAt(cnt: Counts, n: nat, s: nat)
    requires 1 <= s < n <= 16 && FitUpTo(cnt, n)
    ensures First(cnt, s) + cnt[s] <= Pow2(s)
  {
    if s < n - 1 { FitAt(cnt, n - 1, s); }
  }

  lemma {:induction false} NotFit(cnt: Counts, m: nat, n: nat)
    requires m <= n <= 16 && !FitUpTo(cnt, m)
    ensures !FitUpTo(cnt, n)
  {
    if m < n { NotFit(cnt, m, n - 1); }
  }

  lemma Overflow(lens: Lengths, s: nat)
    requires 1 <= s <= 15
    requires First(LengthCounts(lens), s) + LengthCounts(lens)[s] > Pow2(s)
    ensures !Kraft(lens)
  {
    KraftIffFits(lens);
  }

  lemma {:induction false} NotAllFit(lens: Lengths, n: nat)
    requires n <= 16 && !FitUpTo(LengthCounts(lens), n)
    ensures !Kraft(lens)
  {
    if First(LengthCounts(lens), n - 1) + LengthCounts(lens)[n - 1] > Pow2(n - 1) {
      Overflow(lens, n - 1);
    } else {
      NotAllFit(lens, n - 1);
    }
  }

  lemma AllFit(lens: Lengths)
    requires FitUpTo(LengthCounts(lens), 16)
    ensures Kraft(lens)
  {
    var cnt := LengthCounts(lens);
    forall s | 1 <= s <= 15 ensures First(cnt, s) + cnt[s] <= Pow2(s) {
      FitAt(cnt, 16, s);
    }
    KraftIffFits(lens);
  }

  /** Entry `s` of a per-length table: the first code, its left-aligned end, the first slot. */
  ghost function Firsts(cnt: Counts): (t: Counts) {
    seq(17, s requires 0 <= s < 17 => if s == 0 then 0 else First(cnt, s))
  }

  ghost function Tops(cnt: Counts): (t: Counts) {
    seq(17, s requires 0 <= s < 17 => Top(cnt, s))
  }

  ghost function Offsets(cnt: Counts): (t: Counts) {
    seq(17, s requires 0 <= s < 17 => if s == 0 then 0 else Offset(cnt, s))
  }

  /** Array contents `a` agree with table `t` on the lengths below `n`. */
  ghost predicate Agree(a: seq<nat>, t: Counts, n: nat)
    requires n <= |a| <= 17
  {
    forall s {:trigger a[s]} :: 1 <= s < n ==> a[s] == t[s]
  }

  /** The slots of the first `n` symbols hold their lengths and values. */
  ghost predicate Slots(lens: Lengths, n: nat, size: seq<nat>, value: seq<nat>)
    requires n <= |lens| && |size| == |value| == ZNSYMS
  {
    forall i {:trigger lens[i]} :: 0 <= i < n && lens[i] > 0 ==>
      Slot(lens, i) < ZNSYMS && size[Slot(lens, i)] == lens[i] && value[Slot(lens, i)] == i
  }

  /** Entry `j` of the fast table names the symbol, among the first `n`, whose short code begins `j`. */
  ghost predicate Fast(lens: Lengths, n: nat, fast: seq<nat>)
    requires n <= |lens| && |fast| == 512
  {
    && (forall i, j {:trigger Matches(lens, i, j)} ::
          0 <= i < n && 0 <= j < 512 && lens[i] <= 9 && Matches(lens, i, j) ==>
          fast[j] == 512 * lens[i] + i)
    && (forall j :: 0 <= j < 512 && fast[j] != 0 ==> FastEntry(lens, n, j, fast[j]))
  }

  ghost predicate FastEntry(lens: Lengths, n: nat, j: nat, e: nat)
    requires n <= |lens|
  {
    e % 512 < n && Matches(lens, e % 512, j) && lens[e % 512] == e / 512 <= 9
  }

  /** The next code of each length when the first `n` symbols have been coded. */
  ghost predicate NextCodes(lens: Lengths, n: nat, a: seq<nat>)
    requires n <= |lens| && 16 <= |a|
  {
    var cnt := LengthCounts(lens);
    forall s {:trigger a[s]} :: 1 <= s < 16 ==> a[s] == Firsts(cnt)[s] + CountUpTo(lens, s, n)
  }

  lemma NothingFilled(lens: Lengths, firsts: seq<nat>, size: seq<nat>, value: seq<nat>, fast: seq<nat>)
    requires |firsts| == 16 && Agree(firsts, Firsts(LengthCounts(lens)), 16)
    requires |size| == |value| == ZNSYMS && |fast| == 512 && forall j :: 0 <= j < 512 ==> fast[j] == 0
    ensures NextCodes(lens, 0, firsts) && Slots(lens, 0, size, value) && Fast(lens, 0, fast)
  {
  }

  /** While nothing has overflowed, the entries of length `s` fit their 16-bit fields. */
  lemma RangeEntries(cnt: Counts, s: nat)
    requires 1 <= s <= 15 && FitUpTo(cnt, s) && Offset(cnt, 16) <= 288
    ensures First(cnt, s) <= Pow2(s)
    ensures Firsts(cnt)[s] == First(cnt, s) == U16(First(cnt, s))
    ensures Offsets(cnt)[s] == Offset(cnt, s) == U16(Offset(cnt, s))
  {
    Pow2Monotone(s, 15);
    Pow2Values();
    OffsetMonotone(cnt, s, 16);
    U16Small(First(cnt, s));
    U16Small(Offset(cnt, s));
  }

  lemma TopEntry(cnt: Counts, s: nat)
    requires 1 <= s <= 15
    ensures Tops(cnt)[s] == Shl(First(cnt, s) + cnt[s], 16 - s)
  {
  }

  class ZHuffman {
    const fast: array<nat>
    const firstcode: array<nat>
    const maxcode: array<nat>
    const firstsymbol: array<nat>
    const size: array<nat>
    const value: array<nat>

    constructor ()
      ensures Shape()
      ensures fresh(fast) && fresh(firstcode) && fresh(maxcode) && fresh(firstsymbol) && fresh(size) && fresh(value)
    {
      fast := new nat[512];
      firstcode := new nat[16];
      maxcode := new nat[17];
      firstsymbol := new nat[16];
      size := new nat[ZNSYMS];
      value := new nat[ZNSYMS];
    }

    /** The six arrays of the structure have their declared sizes and do not overlap. */
    ghost predicate Shape() {
      && fast.Length == 512 && firstcode.Length == 16 && maxcode.Length == 17
      && firstsymbol.Length == 16 && size.Length == ZNSYMS && value.Length == ZNSYMS
      && fast != firstcode && fast != maxcode && fast != firstsymbol && fast != size && fast != value
      && firstcode != maxcode && firstcode != firstsymbol && firstcode != size && firstcode != value
      && maxcode != firstsymbol && maxcode != size && maxcode != value
      && firstsymbol != size && firstsymbol != value && size != value
    }

    ghost function Repr(): set<object> {
      {fast, firstcode, maxcode, firstsymbol, size, value}
    }

    /** The tables decode the canonical code of `lens`. */
    ghost predicate Built(lens: Lengths)
      reads fast, firstcode, maxcode, firstsymbol, size, value
    {
      && Shape() && Kraft(lens)
      && Agree(firstcode[..], Firsts(LengthCounts(lens)), 16)
      && Agree(maxcode[..], Tops(LengthCounts(lens)), 16) && maxcode[16] == 0x10000
      && Agree(firstsymbol[..], Offsets(LengthCounts(lens)), 16)
      && Slots(lens, |lens|, size[..], value[..])
      && Fast(lens, |lens|, fast[..])
    }

    /** `stbi__zbuild_huffman`: succeeds exactly when the Kraft inequality holds. */
    method Build(sizelist: Lengths) returns (ok: bool)
      requires Shape()
      modifies Repr()
      ensures ok <==> Kraft(sizelist)
      ensures ok ==> Built(sizelist)
    {
      var sizes := CountSizes(sizelist);
      ok := CheckSizes(sizelist, sizes);
      if !ok { return; }
      CountsTotal(sizelist, 16, |sizelist|);
      var nextCode;
      ok, nextCode := AssignRanges(sizes);
      if !ok {
        NotAllFit(sizelist, 16);
        return;
      }
      AllFit(sizelist);
      FillTables(sizelist, nextCode);
    }

    static method CountSizes(sizelist: Lengths) returns (sizes: seq<nat>)
      ensures sizes == LengthCounts(sizelist)
    {
      sizes := seq(17, _ => 0);
      for i := 0 to |sizelist|
        invariant |sizes| == 17
        invariant forall s :: 0 <= s < 17 ==> sizes[s] == CountUpTo(sizelist, s, i)
      {
        sizes := sizes[sizelist[i] := sizes[sizelist[i]] + 1];
      }
      sizes := sizes[0 := 0];
    }

    static method CheckSizes(sizelist: Lengths, sizes: seq<nat>) returns (ok: bool)
      requires sizes == LengthCounts(sizelist)
      ensures !ok ==> !Kraft(sizelist)
    {
      for i := 1 to 16 {
        if sizes[i] > Pow2(i) {
          Overflow(sizelist, i);
          return false;
        }
      }
      return true;
    }

    /** The loop over lengths: first codes, first symbols and preshifted ends. */
    method AssignRanges(sizes: Counts) returns (ok: bool, nextCode: seq<nat>)
      requires Shape() && Offset(sizes, 16) <= ZNSYMS
      modifies firstcode, maxcode, firstsymbol
      ensures ok <==> FitUpTo(sizes, 16)
      ensures |nextCode| == 16
      ensures ok ==> Agree(nextCode, Firsts(sizes), 16) && Agree(firstcode[..], Firsts(sizes), 16)
      ensures ok ==> Agree(maxcode[..], Tops(sizes), 16) && maxcode[16] == 0x10000
      ensures ok ==> Agree(firstsymbol[..], Offsets(sizes), 16)
    {
      ghost var firsts, tops, offsets := Firsts(sizes), Tops(sizes), Offsets(sizes);
      var code, k := 0, 0;
      nextCode := seq(16, _ => 0);
      var i := 1;
      while i < 16
        invariant 1 <= i <= 16 && |nextCode| == 16
        invariant code == First(sizes, i) && k == Offset(sizes, i) && FitUpTo(sizes, i)
        invariant Agree(nextCode, firsts, i) && Agree(firstcode[..], firsts, i)
        invariant Agree(maxcode[..], tops, i) && Agree(firstsymbol[..], offsets, i)
      {
        RangeEntries(sizes, i);
        TopEntry(sizes, i);
        nextCode := nextCode[i := code];
        firstcode[i] := U16(code);
        firstsymbol[i] := U16(k);
        code := code + sizes[i];
        if sizes[i] != 0 && code - 1 >= Pow2(i) {
          NotFit(sizes, i + 1, 16);
          return false, nextCode;
        }
        maxcode[i] := Shl(code, 16 - i);
        code := 2 * code;
        k := k + sizes[i];
        i := i + 1;
      }
      maxcode[16] := 0x10000;
      return true, nextCode;
    }

    /** The loop over symbols: slots and fast entries, in symbol order. */
    method FillTables(sizelist: Lengths, firsts: seq<nat>)
      requires Shape() && Kraft(sizelist) && |firsts| == 16 && Agree(firsts, Firsts(LengthCounts(sizelist)), 16)
      requires Agree(firstcode[..], Firsts(LengthCounts(sizelist)), 16)
      requires Agree(firstsymbol[..], Offsets(LengthCounts(sizelist)), 16)
      modifies fast, size, value
      ensures Slots(sizelist, |sizelist|, size[..], value[..]) && Fast(sizelist, |sizelist|, fast[..])
    {
      hide Slots, Fast, NextCodes, Kraft;
      forall j | 0 <= j < 512 { fast[j] := 0; }
      NothingFilled(sizelist, firsts, size[..], value[..], fast[..]);
      var nextCode := firsts;
      var i := 0;
      while i < |sizelist|
        invariant 0 <= i <= |sizelist| && |nextCode| == 16
        invariant NextCodes(sizelist, i, nextCode)
        invariant Slots(sizelist, i, size[..], value[..]) && Fast(sizelist, i, fast[..])
      {
        nextCode := FillSymbol(sizelist, i, nextCode);
        i := i + 1;
      }
    }

    method FillSymbol(sizelist: Lengths, i: nat, next: seq<nat>) returns (nextCode: seq<nat>)
      requires Shape() && Kraft(sizelist) && i < |sizelist| && |next| == 16 && NextCodes(sizelist, i, next)
      requires Agree(firstcode[..], Firsts(LengthCounts(sizelist)), 16)
      requires Agree(firstsymbol[..], Offsets(LengthCounts(sizelist)), 16)
      requires Slots(sizelist, i, size[..], value[..]) && Fast(sizelist, i, fast[..])
      modifies fast, size, value
      ensures |nextCode| == 16 && NextCodes(sizelist, i + 1, nextCode)
      ensures Slots(sizelist, i + 1, size[..], value[..]) && Fast(sizelist, i + 1, fast[..])
    {
      var s := sizelist[i];
      nextCode := next;
      if s != 0 {
        SlotFound(sizelist, i, next, firstcode[..], firstsymbol[..]);
        PlaceSymbol(sizelist, i, next[s] - firstcode[s] + firstsymbol[s], next[s]);
        nextCode := nextCode[s := next[s] + 1];
      } else {
        SymbolSkipped(sizelist, i, next, size[..], value[..], fast[..]);
      }
    }

    method PlaceSymbol(sizelist: Lengths, i: nat, c: nat, code: nat)
      requires Shape() && Kraft(sizelist) && i < |sizelist| && sizelist[i] > 0
      requires c == Slot(sizelist, i) < ZNSYMS && code == Code(sizelist, i)
      requires Slots(sizelist, i, size[..], value[..]) && Fast(sizelist, i, fast[..])
      modifies fast, size, value
      ensures Slots(sizelist, i + 1, size[..], value[..]) && Fast(sizelist, i + 1, fast[..])
    {
      var s := sizelist[i];
      var fastv := FastValue(s, i);
      SlotPlaced(sizelist, i, size[..], value[..]);
      U16Small(i);
      size[c] := s;
      value[c] := U16(i);
      if s <= ZFAST_BITS {
        ghost var before := fast[..];
        BitReverseReverses(code, s);
        RevBound(code, s);
        FillStride(s, BitReverse(code, s), fastv);
        FastPlaced(sizelist, i, before, fast[..]);
      }
    }

    static method FastValue(s: nat, i: nat) returns (fastv: nat)
      requires s <= 15 && i < 512
      ensures fastv == 512 * s + i
    {
      fastv := U16(Or(Shl(s, 9), i));
      PackEntry(s, i);
    }

    /** Every `2^s`-th entry of the fast table, from `r` on, becomes `fastv`. */
    method FillStride(s: nat, r: nat, fastv: nat)
      requires Shape() && r < Pow2(s)
      modifies fast
      ensures forall x :: 0 <= x < 512 ==> fast[x] == if Low(x, s) == r then fastv else old(fast[x])
    {
      var j := r;
      ghost var q := 0;
      ZeroShl(s);
      BelowStart(r, s);
      while j < 512
        invariant j == r + Shl(q, s)
        invariant forall x :: 0 <= x < 512 ==>
                    fast[x] == if x < j && Low(x, s) == r then fastv else old(fast[x])
        decreases 512 - j
      {
        SplitJoin(r, q, s);
        fast[j] := fastv;
        StrideGap(r, q, s);
        ShlSum(q, 1, s);
        ShlOne(s);
        j := j + Pow2(s);
        q := q + 1;
      }
    }
  }

  /** The slot the program computes is the slot of the specification. */
  lemma SlotFound(lens: Lengths, i: nat, nextCode: seq<nat>, firstcode: seq<nat>, firstsymbol: seq<nat>)
    requires i < |lens| && lens[i] > 0 && |nextCode| == |firstcode| == |firstsymbol| == 16
    requires NextCodes(lens, i, nextCode) && Agree(firstcode, Firsts(LengthCounts(lens)), 16)
    requires Agree(firstsymbol, Offsets(LengthCounts(lens)), 16)
    ensures nextCode[lens[i]] == Code(lens, i)
    ensures nextCode[lens[i]] - firstcode[lens[i]] + firstsymbol[lens[i]] == Slot(lens, i) < ZNSYMS
    ensures NextCodes(lens, i + 1, nextCode[lens[i] := nextCode[lens[i]] + 1])
  {
    SlotBound(lens, i);
  }

  lemma CodesSkipped(lens: Lengths, i: nat, nextCode: seq<nat>)
    requires i < |lens| && lens[i] == 0 && |nextCode| == 16 && NextCodes(lens, i, nextCode)
    ensures NextCodes(lens, i + 1, nextCode)
  {
    forall s | 1 <= s < 16 ensures CountUpTo(lens, s, i + 1) == CountUpTo(lens, s, i) {
    }
  }

  lemma SlotsSkipped(lens: Lengths, i: nat, size: seq<nat>, value: seq<nat>)
    requires i < |lens| && lens[i] == 0 && |size| == |value| == ZNSYMS && Slots(lens, i, size, value)
    ensures Slots(lens, i + 1, size, value)
  {
  }

  lemma FastSkipped(lens: Lengths, i: nat, fast: seq<nat>)
    requires i < |lens| && lens[i] == 0 && |fast| == 512 && Fast(lens, i, fast)
    ensures Fast(lens, i + 1, fast)
  {
    forall j | 0 <= j < 512 && fast[j] != 0 ensures FastEntry(lens, i + 1, j, fast[j]) {
      assert FastEntry(lens, i, j, fast[j]);
    }
  }

  /** A symbol of length 0 leaves every table as it is. */
  lemma SymbolSkipped(lens: Lengths, i: nat, nextCode: seq<nat>, size: seq<nat>, value: seq<nat>, fast: seq<nat>)
    requires i < |lens| && lens[i] == 0 && |nextCode| == 16 && |size| == |value| == ZNSYMS && |fast| == 512
    requires NextCodes(lens, i, nextCode) && Slots(lens, i, size, value) && Fast(lens, i, fast)
    ensures NextCodes(lens, i + 1, nextCode) && Slots(lens, i + 1, size, value) && Fast(lens, i + 1, fast)
  {
    CodesSkipped(lens, i, nextCode);
    SlotsSkipped(lens, i, size, value);
    FastSkipped(lens, i, fast);
  }

  lemma SlotPlaced(lens: Lengths, i: nat, size: seq<nat>, value: seq<nat>)
    requires i < |lens| && lens[i] > 0 && |size| == |value| == ZNSYMS && Slot(lens, i) < ZNSYMS
    requires Slots(lens, i, size, value)
    ensures Slots(lens, i + 1, size[Slot(lens, i) := lens[i]], value[Slot(lens, i) := i])
  {
    forall j | 0 <= j < i && lens[j] > 0 ensures Slot(lens, j) != Slot(lens, i) {
      if Slot(lens, j) == Slot(lens, i) { SlotUnique(lens, i, j); }
    }
  }

  lemma FastPlaced(lens: Lengths, i: nat, before: seq<nat>, fast: seq<nat>)
    requires Kraft(lens) && i < |lens| && 0 < lens[i] <= 9
    requires |before| == |fast| == 512 && Fast(lens, i, before)
    requires forall x :: 0 <= x < 512 ==>
               fast[x] == if Low(x, lens[i]) == Rev(Code(lens, i), lens[i]) then 512 * lens[i] + i else before[x]
    ensures Fast(lens, i + 1, fast)
  {
    forall j | 0 <= j < 512
      ensures fast[j] == if Matches(lens, i, j) then 512 * lens[i] + i else before[j]
    {
      MatchesByLow(lens, i, j);
    }
    forall k, j | 0 <= k < i && 0 <= j < 512 && Matches(lens, k, j) ensures !Matches(lens, i, j) {
      if Matches(lens, i, j) { MatchUnique(lens, i, k, j); }
    }
    FastMerged(lens, i, before, fast);
  }

  lemma FastMerged(lens: Lengths, i: nat, before: seq<nat>, fast: seq<nat>)
    requires i < |lens| && 0 < lens[i] <= 9
    requires |before| == |fast| == 512 && Fast(lens, i, before)
    requires forall j :: 0 <= j < 512 ==> fast[j] == if Matches(lens, i, j) then 512 * lens[i] + i else before[j]
    requires forall k, j :: 0 <= k < i && 0 <= j < 512 && Matches(lens, k, j) ==> !Matches(lens, i, j)
    ensures Fast(lens, i + 1, fast)
  {
    forall j | 0 <= j < 512 && fast[j] != 0 ensures FastEntry(lens, i + 1, j, fast[j]) {
    }
  }

  /** Below `r` itself no word has low part `r`. */
  lemma BelowStart(r: nat, s: nat)
    requires r < Pow2(s)
    ensures forall x :: 0 <= x < r ==> Low(x, s) != r
  {
    forall x | 0 <= x < r ensures Low(x, s) != r {
      LowIdentity(x, s);
    }
  }

  /** Between one word with low part `r` and the next there is no other. */
  lemma StrideGap(r: nat, q: nat, s: nat)
    requires r < Pow2(s)
    ensures forall x :: r + Shl(q, s) < x < r + Shl(q, s) + Pow2(s) ==> Low(x, s) != r
  {
    forall x | r + Shl(q, s) < x < r + Shl(q, s) + Pow2(s) ensures Low(x, s) != r {
      JoinSplit(x, s);
      var h := Shr(x, s);
      if Low(x, s) == r {
        ShlMonotone(h, q, s);
        ShlMonotone(q + 1, h, s);
        ShlSum(q, 1, s);
        ShlOne(s);
      }
    }
  }
}
