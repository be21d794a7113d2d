/** What the decoding tables answer for a word of lookahead. */
module ZLookup {
  import opened Bits
  import opened Canonical
  import opened PrefixCode
  import opened ZHuffmanTables
  import opened BitStream
  import opened InflateSpec

  /** Nine bits of `v` index the fast table. */
  lemma FastHit(lens: Lengths, fast: seq<nat>, v: nat)
    requires |fast| == 512 && Fast(lens, |lens|, fast)
    requires Low(v, 9) < 512 && fast[Low(v, 9)] != 0
    ensures var e := fast[Low(v, 9)];
            Matches(lens, e % 512, v) && lens[e % 512] == e / 512 <= 9
  {
    var j := Low(v, 9);
    assert FastEntry(lens, |lens|, j, fast[j]);
    MatchesNine(lens, fast[j] % 512, v);
  }

  /** An empty entry means that no code of at most nine bits begins the word, which then lies above all of them. */
  lemma FastMiss(lens: Lengths, fast: seq<nat>, v: nat)
    requires |fast| == 512 && Fast(lens, |lens|, fast)
    requires Low(v, 9) < 512 && fast[Low(v, 9)] == 0
    ensures Top(LengthCounts(lens), 9) <= Rev(v, 16)
  {
    var cnt, k := LengthCounts(lens), Rev(v, 16);
    if k < Top(cnt, 9) {
      var s := LengthOf(cnt, k, 9);
      var i := IntervalMatch(lens, s, v);
      MatchesNine(lens, i, v);
    }
  }

  lemma {:induction false} LengthOf(cnt: Counts, k: nat, n: nat) returns (s: nat)
    requires n <= 16 && k < Top(cnt, n)
    ensures 1 <= s <= n && Top(cnt, s - 1) <= k < Top(cnt, s)
  {
    if k < Top(cnt, n - 1) { s := LengthOf(cnt, k, n - 1); } else { s := n; }
  }

  /** A word in the interval of length `s` is resolved through its slot. */
  lemma SlowHit(lens: Lengths, s: nat, v: nat, size: seq<nat>, value: seq<nat>) returns (i: nat)
    requires 1 <= s <= 15 && |size| == |value| == ZNSYMS && Slots(lens, |lens|, size, value)
    requires Top(LengthCounts(lens), s - 1) <= Rev(v, 16) < Top(LengthCounts(lens), s)
    ensures Matches(lens, i, v) && lens[i] == s
    ensures var b := Shr(Rev(v, 16), 16 - s) - First(LengthCounts(lens), s) + Offset(LengthCounts(lens), s);
            b == Slot(lens, i) < ZNSYMS && size[b] == s && value[b] == i
  {
    i := IntervalMatch(lens, s, v);
    MatchInterval(lens, i, v);
    SlotBound(lens, i);
  }

  /** A word above every interval begins with no code. */
  lemma SlowMiss(lens: Lengths, v: nat)
    requires Top(LengthCounts(lens), 15) <= Rev(v, 16)
    ensures NoMatch(lens, v)
  {
    forall i: nat | Matches(lens, i, v) ensures false {
      MatchInterval(lens, i, v);
      TopMonotone(LengthCounts(lens), lens[i], 15);
    }
  }

  /** A matching symbol is the one the bit-by-bit decoder finds. */
  lemma SymbolFound(lens: Lengths, v: nat, p: nat, r: Option<(nat, nat)>, i: nat)
    requires Decodes(lens, v, p, r) && Matches(lens, i, v)
    ensures r == Some((i, p + lens[i]))
  {
    match r
    case Some((j, q)) => MatchUnique(lens, i, j, v);
    case None =>
  }

  /** The symbol that matches the bits in view is the one the reference decoder reads. */
  lemma SymbolIs(lens: Lengths, data: seq<byte>, p: nat, n: nat, i: nat)
    requires n >= 16 && Matches(lens, i, Window(data, p, n))
    ensures Symbol(lens, data, p) == Some((i, p + lens[i]))
  {
    SymbolMatches(lens, data, p, n);
    SymbolFound(lens, Window(data, p, n), p, Symbol(lens, data, p), i);
  }

  /** A nonempty fast entry is the next symbol and its length. */
  lemma FastReads(lens: Lengths, fast: seq<nat>, data: seq<byte>, p: nat, n: nat, j: nat)
    requires |fast| == 512 && Fast(lens, |lens|, fast) && n >= 16
    requires j == Low(Window(data, p, n), 9) < 512 && fast[j] != 0
    ensures Symbol(lens, data, p) == Some((fast[j] % 512, p + fast[j] / 512)) && fast[j] / 512 <= 9
  {
    FastHit(lens, fast, Window(data, p, n));
    SymbolIs(lens, data, p, n, fast[j] % 512);
  }

  /** The slot of a word whose code length is known holds the next symbol. */
  lemma SlowReads(lens: Lengths, size: seq<nat>, value: seq<nat>, data: seq<byte>, p: nat, n: nat,
                  s: nat) returns (b: nat)
    requires 1 <= s <= 15 && |size| == |value| == ZNSYMS && Slots(lens, |lens|, size, value) && n >= 16
    requires Top(LengthCounts(lens), s - 1) <= Rev(Window(data, p, n), 16) < Top(LengthCounts(lens), s)
    ensures b == Shr(Rev(Window(data, p, n), 16), 16 - s) - First(LengthCounts(lens), s) + Offset(LengthCounts(lens), s)
    ensures b < ZNSYMS && size[b] == s && Symbol(lens, data, p) == Some((value[b], p + s))
  {
    var i := SlowHit(lens, s, Window(data, p, n), size, value);
    b := Slot(lens, i);
    SymbolIs(lens, data, p, n, i);
  }

  lemma NothingReads(lens: Lengths, data: seq<byte>, p: nat, n: nat)
    requires n >= 16 && Top(LengthCounts(lens), 15) <= Rev(Window(data, p, n), 16)
    ensures Symbol(lens, data, p).None?
  {
    SlowMiss(lens, Window(data, p, n));
    SymbolMatches(lens, data, p, n);
  }
}
