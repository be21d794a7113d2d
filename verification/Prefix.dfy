/** The code RFC 1951 section 3.2.2 assigns to each symbol of an alphabet, given
    the code lengths, and why no code is a prefix of another. */
module PrefixCode {
  import opened Bits
  import opened Canonical

  /** Code lengths of an alphabet; length 0 means that the symbol has no code. */
  type Lengths = l: seq<nat> | |l| <= 288 && forall i :: 0 <= i < |l| ==> l[i] <= 15 witness []

  /** How many of the first `n` symbols have length `s`. */
  function CountUpTo(lens: Lengths, s: nat, n: nat): (c: nat)
    requires n <= |lens|
    ensures c <= n
  {
    if n == 0 then 0 else CountUpTo(lens, s, n - 1) + (if lens[n - 1] == s then 1 else 0)
  }

  /** Step 1 of section 3.2.2: the number of codes of each length. */
  function CountsUpTo(lens: Lengths, n: nat): (c: Counts)
    requires n <= |lens|
  {
    seq(17, s requires 0 <= s < 17 => if s == 0 then 0 else CountUpTo(lens, s, n))
  }

  function LengthCounts(lens: Lengths): Counts {
    CountsUpTo(lens, |lens|)
  }

  /** Step 3 of section 3.2.2: codes of one length are handed out in symbol order. */
  function Code(lens: Lengths, i: nat): nat
    requires i < |lens| && lens[i] > 0
  {
    First(LengthCounts(lens), lens[i]) + CountUpTo(lens, lens[i], i)
  }

  /** The Kraft sum of the first `n` lengths, in units of 2^-16. */
  function KraftSum(lens: Lengths, n: nat): nat
    requires n <= |lens|
  {
    if n == 0 then 0
    else KraftSum(lens, n - 1) + (if lens[n - 1] == 0 then 0 else Pow2(16 - lens[n - 1]))
  }

  /** The Kraft inequality: the sum of 2^-length over the coded symbols is at most 1. */
  predicate Kraft(lens: Lengths) {
    KraftSum(lens, |lens|) <= 65536
  }

  // ---------- the Kraft sum is the top of the code space ----------

  lemma {:induction false} SpaceStep(c: Counts, d: Counts, l: nat, s: nat)
    requires s <= 16 && 1 <= l <= 16
    requires forall t :: 1 <= t <= 16 ==> d[t] == c[t] + (if t == l then 1 else 0)
    ensures Space(d, s) == Space(c, s) + (if l <= s then Pow2(16 - l) else 0)
  {
    if s > 0 {
      SpaceStep(c, d, l, s - 1);
      if s == l {
        ShlSum(c[s], 1, 16 - s);
        ShlOne(16 - s);
      }
    }
  }

  lemma {:induction false} SpaceEmpty(c: Counts, s: nat)
    requires s <= 16 && forall t :: 1 <= t <= 16 ==> c[t] == 0
    ensures Space(c, s) == 0
  {
    if s > 0 {
      SpaceEmpty(c, s - 1);
      ZeroShl(16 - s);
    }
  }

  lemma {:induction false} SpaceSame(c: Counts, d: Counts, s: nat)
    requires s <= 16 && forall t :: 1 <= t <= 16 ==> c[t] == d[t]
    ensures Space(c, s) == Space(d, s)
  {
    if s > 0 { SpaceSame(c, d, s - 1); }
  }

  lemma {:induction false} KraftIsSpace(lens: Lengths, n: nat)
    requires n <= |lens|
    ensures KraftSum(lens, n) == Space(CountsUpTo(lens, n), 16)
  {
    if n == 0 {
      SpaceEmpty(CountsUpTo(lens, 0), 16);
    } else {
      KraftIsSpace(lens, n - 1);
      if lens[n - 1] == 0 {
        SpaceSame(CountsUpTo(lens, n), CountsUpTo(lens, n - 1), 16);
      } else {
        SpaceStep(CountsUpTo(lens, n - 1), CountsUpTo(lens, n), lens[n - 1], 16);
      }
    }
  }

  /** No code is longer than 15 bits, so the last length adds nothing. */
  lemma {:induction false} NoSixteen(lens: Lengths, n: nat)
    requires n <= |lens|
    ensures CountUpTo(lens, 16, n) == 0
  {
    if n > 0 { NoSixteen(lens, n - 1); }
  }

  /** The Kraft inequality holds exactly when no length overflows its width. */
  lemma KraftIffFits(lens: Lengths)
    ensures var cnt := LengthCounts(lens);
            Kraft(lens) <==> forall s {:trigger First(cnt, s)} :: 1 <= s <= 15 ==> First(cnt, s) + cnt[s] <= Pow2(s)
  {
    var cnt := LengthCounts(lens);
    KraftIsSpace(lens, |lens|);
    TopIsSpace(cnt, 16);
    NoSixteen(lens, |lens|);
    FirstAligned(cnt, 16);
    assert Top(cnt, 16) == Top(cnt, 15);
    forall s | 1 <= s <= 15
      ensures Top(cnt, s) <= Top(cnt, 15)
      ensures First(cnt, s) + cnt[s] <= Pow2(s) <==> Top(cnt, s) <= 65536
    {
      TopMonotone(cnt, s, 15);
      FitsAtLength(cnt, s);
    }
    if Kraft(lens) {
      forall s | 1 <= s <= 15 ensures First(cnt, s) + cnt[s] <= Pow2(s) {
        FitsAtLength(cnt, s);
        TopMonotone(cnt, s, 15);
      }
    } else {
      FitsAtLength(cnt, 15);
    }
  }

  // ---------- ranks ----------

  lemma {:induction false} CountMonotone(lens: Lengths, s: nat, m: nat, n: nat)
    requires m <= n <= |lens|
    ensures CountUpTo(lens, s, m) <= CountUpTo(lens, s, n)
    decreases n
  {
    if m < n { CountMonotone(lens, s, m, n - 1); }
  }

  /** A symbol's rank among those of its length is below their number. */
  lemma RankBound(lens: Lengths, i: nat, n: nat)
    requires i < n <= |lens|
    ensures CountUpTo(lens, lens[i], i) < CountUpTo(lens, lens[i], n)
  {
    CountMonotone(lens, lens[i], i + 1, n);
  }

  lemma RankUnique(lens: Lengths, i: nat, j: nat)
    requires i < |lens| && j < |lens| && lens[i] == lens[j]
    requires CountUpTo(lens, lens[i], i) == CountUpTo(lens, lens[j], j)
    ensures i == j
  {
    if i < j {
      RankBound(lens, i, j);
    } else if j < i {
      RankBound(lens, j, i);
    }
  }

  /** The symbol of length `s` and rank `r`. */
  function Ranked(lens: Lengths, s: nat, r: nat, n: nat): (i: nat)
    requires n <= |lens| && r < CountUpTo(lens, s, n)
    ensures i < n && lens[i] == s && CountUpTo(lens, s, i) == r
  {
    if lens[n - 1] == s && CountUpTo(lens, s, n - 1) == r then n - 1 else Ranked(lens, s, r, n - 1)
  }

  // ---------- matching a word against the code ----------

  /** The bits of `v`, least significant first, begin with the code of symbol `i`, most significant bit first. */
  predicate Matches(lens: Lengths, i: nat, v: nat) {
    i < |lens| && lens[i] > 0 && Rev(v, lens[i]) == Code(lens, i)
  }

  /** Position of symbol `i` among all coded symbols, by length and then by value. */
  function Slot(lens: Lengths, i: nat): nat
    requires i < |lens| && lens[i] > 0
  {
    Offset(LengthCounts(lens), lens[i]) + CountUpTo(lens, lens[i], i)
  }

  /** The word reversed to 16 bits lies in the interval of length `s` exactly when a symbol of that length matches. */
  lemma MatchInterval(lens: Lengths, i: nat, v: nat)
    requires Matches(lens, i, v)
    ensures var cnt, s := LengthCounts(lens), lens[i];
            Top(cnt, s - 1) <= Rev(v, 16) < Top(cnt, s) && Shr(Rev(v, 16), 16 - s) == Code(lens, i)
  {
    RevPrefix(v, lens[i], 16);
    RankBound(lens, i, |lens|);
    IntervalOfLength(LengthCounts(lens), lens[i], Rev(v, 16));
  }

  lemma IntervalMatch(lens: Lengths, s: nat, v: nat) returns (i: nat)
    requires 1 <= s <= 15
    requires var cnt := LengthCounts(lens); Top(cnt, s - 1) <= Rev(v, 16) < Top(cnt, s)
    ensures Matches(lens, i, v) && lens[i] == s
  {
    var cnt := LengthCounts(lens);
    RevPrefix(v, s, 16);
    IntervalOfLength(cnt, s, Rev(v, 16));
    i := Ranked(lens, s, Rev(v, s) - First(cnt, s), |lens|);
  }

  /** At most one symbol matches: the code is prefix-free as a way to read bits. */
  lemma MatchUnique(lens: Lengths, i: nat, j: nat, v: nat)
    requires Matches(lens, i, v) && Matches(lens, j, v)
    ensures i == j
  {
    MatchInterval(lens, i, v);
    MatchInterval(lens, j, v);
    LengthUnique(LengthCounts(lens), lens[i], lens[j], Rev(v, 16));
    RankUnique(lens, i, j);
  }

  /** Codes fit their lengths once the Kraft inequality holds. */
  lemma CodeFits(lens: Lengths, i: nat)
    requires Kraft(lens) && i < |lens| && lens[i] > 0
    ensures Code(lens, i) < Pow2(lens[i])
  {
    KraftIffFits(lens);
    RankBound(lens, i, |lens|);
    var cnt := LengthCounts(lens);
    assert First(cnt, lens[i]) + cnt[lens[i]] <= Pow2(lens[i]);
  }

  /** No code is a prefix of the code of another symbol. */
  lemma PrefixFree(lens: Lengths, i: nat, j: nat)
    requires Kraft(lens) && i < |lens| && j < |lens| && i != j
    requires 0 < lens[i] <= lens[j]
    ensures Shr(Code(lens, j), lens[j] - lens[i]) != Code(lens, i)
  {
    var c, s, t := Code(lens, j), lens[i], lens[j];
    CodeFits(lens, j);
    var v := Rev(c, t);
    RevRev(c, t);
    RevPrefix(v, s, t);
    if Shr(c, t - s) == Code(lens, i) {
      MatchUnique(lens, i, j, v);
    }
  }

  /** Slots number the coded symbols without collision, inside the alphabet. */
  lemma SlotUnique(lens: Lengths, i: nat, j: nat)
    requires i < |lens| && j < |lens| && lens[i] > 0 && lens[j] > 0
    requires Slot(lens, i) == Slot(lens, j)
    ensures i == j
  {
    var cnt := LengthCounts(lens);
    RankBound(lens, i, |lens|);
    RankBound(lens, j, |lens|);
    if lens[i] < lens[j] {
      OffsetMonotone(cnt, lens[i], lens[j]);
    } else if lens[j] < lens[i] {
      OffsetMonotone(cnt, lens[j], lens[i]);
    } else {
      RankUnique(lens, i, j);
    }
  }

  /** All counts together are the number of coded symbols. */
  lemma {:induction false} CountsTotal(lens: Lengths, s: nat, n: nat)
    requires n <= |lens| && 1 <= s <= 16
    ensures Offset(CountsUpTo(lens, n), s) <= n
    ensures Offset(CountsUpTo(lens, n), s) == ShorterUpTo(lens, s, n)
  {
    if s > 1 {
      CountsTotal(lens, s - 1, n);
      ShorterStep(lens, s, n);
    } else {
      ShorterOne(lens, n);
    }
  }

  function ShorterUpTo(lens: Lengths, s: nat, n: nat): (c: nat)
    requires n <= |lens|
    ensures c <= n
  {
    if n == 0 then 0 else ShorterUpTo(lens, s, n - 1) + (if 0 < lens[n - 1] < s then 1 else 0)
  }

  lemma {:induction false} ShorterOne(lens: Lengths, n: nat)
    requires n <= |lens|
    ensures ShorterUpTo(lens, 1, n) == 0
  {
    if n > 0 { ShorterOne(lens, n - 1); }
  }

  lemma {:induction false} ShorterStep(lens: Lengths, s: nat, n: nat)
    requires n <= |lens| && s > 1
    ensures ShorterUpTo(lens, s, n) == ShorterUpTo(lens, s - 1, n) + CountUpTo(lens, s - 1, n)
  {
    if n > 0 { ShorterStep(lens, s, n - 1); }
  }

  lemma SlotBound(lens: Lengths, i: nat)
    requires i < |lens| && lens[i] > 0
    ensures Slot(lens, i) < |lens|
  {
    RankBound(lens, i, |lens|);
    CountsTotal(lens, lens[i] + 1, |lens|);
  }
}
