/** Dividing the output rows among threads (`stbir__get_split_info`, `stbir__get_max_split`). */
module ResizeSplits {
  import opened Bits

  // ---------- even shares ----------

  /** The rows left over before share `i`, when each share takes an equal part of what is left. */
  function Left(height: nat, splits: nat, i: nat): (left: nat)
    requires i <= splits
    ensures left <= height
  {
    if i == 0 then height
    else
      DivSmaller(Left(height, splits, i - 1), splits - (i - 1));
      Left(height, splits, i - 1) - Left(height, splits, i - 1) / (splits - (i - 1))
  }

  lemma DivSmaller(a: nat, d: nat)
    requires d > 0
    ensures 0 <= a / d <= a
  {
    if a / d > a { MulMonotone(a / d, 1, d); }
  }

  function Share(height: nat, splits: nat, i: nat): nat
    requires i < splits
  {
    Left(height, splits, i) / (splits - i)
  }

  lemma QuotientIs(a: nat, q: nat, d: nat)
    requires d > 0 && Times(d, q) <= a < Times(d, q) + d
    ensures a / d == q
  {
    TimesIsProduct(d, q);
    DivMod(q, a - q * d, d);
  }

  lemma DivTimes(a: nat, d: nat)
    requires d > 0
    ensures 0 <= a / d && a == Times(d, a / d) + a % d
  {
    DivSmaller(a, d);
    TimesIsProduct(d, a / d);
  }

  /** What is left keeps to the average: between `q` and `q + 1` rows for each share still to come. */
  lemma {:induction false} LeftBounds(height: nat, splits: nat, i: nat, q: nat, r: nat)
    requires i <= splits && r < splits && height == Times(splits, q) + r
    ensures Times(splits - i, q) <= Left(height, splits, i) <= Times(splits - i, q) + (splits - i)
    ensures r == 0 ==> Left(height, splits, i) == Times(splits - i, q)
  {
    hide Left;
    if i == 0 {
      LeftAtStart(height, splits);
    } else {
      LeftBounds(height, splits, i - 1, q, r);
      LeftNext(height, splits, i - 1);
      ShareOf(Left(height, splits, i - 1), q, splits - (i - 1));
    }
  }

  lemma ShareOf(left: nat, q: nat, m: nat)
    requires m > 0 && Times(m, q) <= left <= Times(m, q) + m
    ensures left / m == if left == Times(m, q) + m then q + 1 else q
  {
    if left == Times(m, q) + m {
      TimesIsProduct(m, q);
      TimesIsProduct(m, q + 1);
      QuotientIs(left, q + 1, m);
    } else {
      QuotientIs(left, q, m);
    }
  }

  /** Every share is the average rounded down or up. */
  lemma ShareBounds(height: nat, splits: nat, i: nat)
    requires i < splits
    ensures height / splits <= Share(height, splits, i) <= (height + splits - 1) / splits
  {
    hide Left;
    DivTimes(height, splits);
    Ceiling(height, splits);
    ShareNear(height, splits, i, height / splits, height % splits);
  }

  lemma ShareNear(height: nat, splits: nat, i: nat, q: nat, r: nat)
    requires i < splits && r < splits && height == Times(splits, q) + r
    ensures q <= Share(height, splits, i) <= q + (if r == 0 then 0 else 1)
  {
    hide Left;
    LeftBounds(height, splits, i, q, r);
    ShareOf(Left(height, splits, i), q, splits - i);
  }

  lemma Ceiling(height: nat, splits: nat)
    requires splits > 0
    ensures (height + splits - 1) / splits == height / splits + (if height % splits == 0 then 0 else 1)
  {
    DivTimes(height, splits);
    var q, r := height / splits, height % splits;
    if r == 0 {
      QuotientIs(height + splits - 1, q, splits);
    } else {
      TimesIsProduct(splits, q);
      TimesIsProduct(splits, q + 1);
      QuotientIs(height + splits - 1, q + 1, splits);
    }
  }

  lemma NothingLeft(height: nat, splits: nat)
    requires splits > 0
    ensures Left(height, splits, splits) == 0
  {
    hide Left;
    DivTimes(height, splits);
    LeftBounds(height, splits, splits, height / splits, height % splits);
  }

  /** `stbir__get_max_split`: a bound on every share, and one of them attains it. */
  method GetMaxSplit(splits: nat, height: nat) returns (max: nat)
    ensures forall i :: 0 <= i < splits ==> Share(height, splits, i) <= max
    ensures splits > 0 ==> exists i :: 0 <= i < splits && Share(height, splits, i) == max
    ensures splits > 0 ==> max == (height + splits - 1) / splits
  {
    hide Left;
    max := 0;
    var h := height;
    LeftAtStart(height, splits);
    ghost var best := 0;
    for i := 0 to splits
      invariant h == Left(height, splits, i)
      invariant forall j :: 0 <= j < i ==> Share(height, splits, j) <= max
      invariant if i == 0 then max == 0 else 0 <= best < i && Share(height, splits, best) == max
    {
      LeftNext(height, splits, i);
      var each := h / (splits - i);
      if i == 0 || each > max { best := i; }
      if each > max { max := each; }
      h := h - each;
    }
    if splits > 0 { MaxIsCeiling(height, splits, max, best); }
  }

  lemma LeftAtStart(height: nat, splits: nat)
    ensures Left(height, splits, 0) == height
  {
  }

  lemma LeftNext(height: nat, splits: nat, i: nat)
    requires i < splits
    ensures 0 <= Share(height, splits, i) <= Left(height, splits, i)
    ensures Left(height, splits, i + 1) == Left(height, splits, i) - Share(height, splits, i)
  {
    DivSmaller(Left(height, splits, i), splits - i);
  }

  /** The largest share is the average rounded up. */
  lemma MaxIsCeiling(height: nat, splits: nat, max: nat, best: nat)
    requires best < splits && Share(height, splits, best) == max
    requires forall i :: 0 <= i < splits ==> Share(height, splits, i) <= max
    ensures max == (height + splits - 1) / splits
  {
    hide Left, Share;
    ShareBounds(height, splits, best);
    Ceiling(height, splits);
    DivTimes(height, splits);
    if max == height / splits {
      TakenAtMost(height, splits, splits, max);
      NothingLeft(height, splits);
    }
  }

  /** Shares of at most `q` rows take at most `q` rows each. */
  lemma {:induction false} TakenAtMost(height: nat, splits: nat, n: nat, q: nat)
    requires n <= splits && forall i :: 0 <= i < splits ==> Share(height, splits, i) <= q
    ensures height - Left(height, splits, n) <= Times(n, q)
  {
    hide Left, Share;
    if n > 0 {
      TakenAtMost(height, splits, n - 1, q);
      LeftNext(height, splits, n - 1);
      assert Share(height, splits, n - 1) <= q;
    } else {
      LeftAtStart(height, splits);
    }
  }

  // ---------- the ranges ----------

  /** Ranges that follow one another from 0 to `height`. */
  ghost predicate Tiles(start: seq<int>, end: seq<int>, height: int) {
    && |start| == |end| > 0 && start[0] == 0 && end[|end| - 1] == height
    && (forall i :: 0 <= i < |start| ==> start[i] <= end[i])
    && (forall i :: 0 < i < |start| ==> end[i - 1] == start[i])
  }

  lemma {:induction false} StartsGrow(start: seq<int>, end: seq<int>, height: int, i: nat, j: nat)
    requires Tiles(start, end, height) && i < j < |start|
    ensures end[i] <= start[j]
    decreases j
  {
    if i < j - 1 { StartsGrow(start, end, height, i, j - 1); }
  }

  /** Every row is in exactly one range. */
  lemma RowInOneRange(start: seq<int>, end: seq<int>, height: int, y: int) returns (i: nat)
    requires Tiles(start, end, height) && 0 <= y < height
    ensures i < |start| && start[i] <= y < end[i]
    ensures forall j: nat :: j < |start| && start[j] <= y < end[j] ==> j == i
  {
    i := |start| - 1;
    while y < start[i]
      invariant i < |start| && y < end[i]
      decreases i
    {
      i := i - 1;
    }
    forall j: nat | j < |start| && start[j] <= y < end[j] ensures j == i {
      if i < j { StartsGrow(start, end, height, i, j); }
      if j < i { StartsGrow(start, end, height, j, i); }
    }
  }

  /** `s` is the first of the rows with the earliest input line among those looked at from row `cur` on: the next
      `stop`, or as many as come before one that begins later than row `cur` does. */
  ghost predicate Lowest(first: seq<int>, cur: nat, stop: nat, s: nat, t: nat) {
    && s <= t <= stop && cur + stop < |first|
    && (t < stop ==> first[cur + t + 1] > first[cur])
    && (forall j {:trigger first[j]} :: cur <= j <= cur + t ==> first[cur + s] <= first[j] <= first[cur])
    && (forall j {:trigger first[j]} :: cur <= j < cur + s ==> first[cur + s] < first[j])
  }

  /** The search looks at the entry past the last row: its span reaches there and no row before begins later than row
      `cur`. */
  ghost predicate LooksPast(first: seq<int>, cur: nat, stop: nat) {
    cur + stop >= |first| && forall j {:trigger first[j]} :: cur < j < cur + stop && j < |first| ==>
      first[j] <= first[cur]
  }

  /** The search for a row to start on; `first[y]` is the first input line of row `y`, and `past` what lies behind
      the last. The last entry looked at is `seen`. */
  method FindLowest(first: seq<int>, past: int, cur: nat, stop: nat) returns (smallest: nat, ghost seen: nat)
    requires cur + stop <= |first|
    ensures exists t :: Lowest(first + [past], cur, stop, smallest, t)
    ensures cur <= seen <= cur + stop && (seen == |first| <==> LooksPast(first, cur, stop))
  {
    ghost var rows := first + [past];
    smallest, seen := 0, cur;
    ghost var t := stop;
    var startN0 := if cur < |first| then first[cur] else past;
    var smallN0 := startN0;
    for j := 1 to stop + 1
      invariant smallest < j && t == stop && seen == cur + j - 1
      invariant startN0 == rows[cur] && smallN0 == rows[cur + smallest]
      invariant forall k {:trigger rows[k]} :: cur <= k < cur + j ==> rows[cur + smallest] <= rows[k] <= startN0
      invariant forall k {:trigger rows[k]} :: cur <= k < cur + smallest ==> rows[cur + smallest] < rows[k]
    {
      seen := cur + j;
      var n0 := if cur + j < |first| then first[cur + j] else past;
      if n0 > startN0 {
        t := j - 1;
        break;
      }
      if n0 < smallN0 {
        smallest, smallN0 := j, n0;
      }
    }
    assert Lowest(rows, cur, stop, smallest, t);
    SeenPast(first, past, cur, stop, t, seen);
  }

  lemma SeenPast(first: seq<int>, past: int, cur: nat, stop: nat, t: nat, seen: nat)
    requires cur + stop <= |first| && t <= stop && seen == cur + Min(t + 1, stop)
    requires t < stop ==> (first + [past])[cur + t + 1] > (first + [past])[cur]
    requires forall k {:trigger (first + [past])[k]} :: cur <= k <= cur + t ==>
             (first + [past])[k] <= (first + [past])[cur]
    ensures seen == |first| <==> LooksPast(first, cur, stop)
  {
    var rows := first + [past];
    if cur + stop == |first| {
      if t + 1 < stop {
        assert first[cur + t + 1] == rows[cur + t + 1] > rows[cur] == first[cur];
      } else {
        forall j {:trigger first[j]} | cur < j < cur + stop && j < |first| ensures first[j] <= first[cur] {
          assert rows[j] <= rows[cur];
        }
      }
    }
  }

  /** A thread that starts on such a row starts no later than any row of its range needs, if first lines do not go back
      again behind where they were once they have passed it. */
  lemma StartsLowEnough(first: seq<int>, cur: nat, stop: nat, s: nat, t: nat, y: nat)
    requires Lowest(first, cur, stop, s, t) && cur + s <= y < |first|
    requires y > cur + t ==> first[y] >= first[cur]
    ensures first[cur + s] <= first[y]
  {
    if y <= cur + t { assert first[cur + s] <= first[y]; } else { assert first[cur + s] <= first[cur]; }
  }

  /** Where share `i` begins before any shift. */
  function Cut(height: nat, splits: nat, i: nat): nat
    requires i <= splits
  {
    height - Left(height, splits, i)
  }

  /** The ranges up to share `i`, each moved up by its shift; the next one will move the end of the last. */
  ghost predicate Shifted(start: seq<int>, end: seq<int>, height: nat, splits: nat, shift: seq<nat>, i: nat) {
    && i <= splits == |start| == |end| && |shift| == i && (i > 0 ==> shift[0] == 0)
    && (forall k {:trigger start[k]} :: 0 <= k < i ==> start[k] == Cut(height, splits, k) + shift[k])
    && (forall k {:trigger end[k]} :: 0 <= k < i ==>
          end[k] == Cut(height, splits, k + 1) + (if k + 1 < i then shift[k + 1] else 0))
    && (forall k {:trigger shift[k]} :: 0 <= k < i ==> shift[k] <= Share(height, splits, k))
  }

  lemma ShiftedTiles(start: seq<int>, end: seq<int>, height: nat, splits: nat, shift: seq<nat>)
    requires splits > 0 && Shifted(start, end, height, splits, shift, splits)
    ensures Tiles(start, end, height)
  {
    hide Left, Share;
    NothingLeft(height, splits);
    LeftAtStart(height, splits);
    assert start[0] == Cut(height, splits, 0) + shift[0];
    forall i | 0 <= i < splits ensures start[i] <= end[i] {
      LeftNext(height, splits, i);
      assert shift[i] <= Share(height, splits, i);
    }
    forall i | 0 < i < splits ensures end[i - 1] == start[i] {
      assert end[i - 1] == Cut(height, splits, (i - 1) + 1) + shift[i];
    }
  }

  lemma ShiftedNext(start: seq<int>, end: seq<int>, start': seq<int>, end': seq<int>, height: nat, splits: nat,
                    shift: seq<nat>, i: nat, s: nat)
    requires i < splits && Shifted(start, end, height, splits, shift, i) && s <= Share(height, splits, i) &&
             (i == 0 ==> s == 0)
    requires start' == start[i := Cut(height, splits, i) + s]
    requires if i == 0 then end' == end[i := Cut(height, splits, i + 1)]
             else end' == end[i := Cut(height, splits, i + 1)][i - 1 := end[i - 1] + s]
    ensures Shifted(start', end', height, splits, shift + [s], i + 1)
  {
    hide Cut, Share;
  }

  /** When gathering, every share but the first is shifted to the lowest row near its cut; otherwise none is. */
  ghost predicate Choice(first: seq<int>, height: nat, splits: nat, margin: nat, isGather: bool, k: nat, s: nat)
    requires k < splits
  {
    if isGather && k > 0 then
      exists t :: Lowest(first, Cut(height, splits, k), Min(3 * margin, Share(height, splits, k)), s, t)
    else s == 0
  }

  ghost predicate Chosen(first: seq<int>, height: nat, splits: nat, margin: nat, isGather: bool, shift: seq<nat>) {
    |shift| <= splits && forall k :: 0 <= k < |shift| ==> Choice(first, height, splits, margin, isGather, k, shift[k])
  }

  lemma ChosenNext(first: seq<int>, height: nat, splits: nat, margin: nat, isGather: bool, shift: seq<nat>, s: nat,
                   t: nat)
    requires Chosen(first, height, splits, margin, isGather, shift) && |shift| < splits
    requires if isGather && |shift| > 0 then
               Lowest(first, Cut(height, splits, |shift|), Min(3 * margin, Share(height, splits, |shift|)), s, t)
             else s == 0
    ensures Chosen(first, height, splits, margin, isGather, shift + [s])
  {
    assert Choice(first, height, splits, margin, isGather, |shift|, s);
    hide Choice;
  }

  // ---------- the entry past the last row ----------

  /** The search for the start of range `k` looks past the last row. */
  ghost predicate RangeLooksPast(first: seq<int>, height: nat, splits: nat, margin: nat, k: nat)
    requires k < splits && |first| == height
  {
    k != 0 && LooksPast(first, Cut(height, splits, k), Min(3 * margin, Share(height, splits, k)))
  }

  ghost predicate SomeLooksPast(first: seq<int>, height: nat, splits: nat, margin: nat, n: nat)
    requires n <= splits && |first| == height
    decreases n
  {
    n > 0 && (RangeLooksPast(first, height, splits, margin, n - 1) ||
      SomeLooksPast(first, height, splits, margin, n - 1))
  }

  /** There is more than one range, the last is no longer than three margins, and no row of it begins later than its
      first. */
  ghost predicate LastLooksPast(first: seq<int>, height: nat, splits: nat, margin: nat) {
    && splits > 1 && |first| == height && 3 * margin >= Share(height, splits, splits - 1)
    && var cur := Cut(height, splits, splits - 1);
       forall j {:trigger first[j]} :: cur < j < height ==> first[j] <= first[cur]
  }

  /** As long as another range follows, rows are left for it. */
  lemma {:induction false} RowsLeft(height: nat, splits: nat, i: nat)
    requires i < splits && height > 0
    ensures Left(height, splits, i) > 0
  {
    if i > 0 {
      RowsLeft(height, splits, i - 1);
      HalfAtMost(Left(height, splits, i - 1), splits - (i - 1));
    }
  }

  lemma HalfAtMost(left: nat, m: nat)
    requires left > 0 && m > 1
    ensures 0 <= left / m < left
  {
    var q := left / m;
    DivMod(q, left % m, m);
    assert left == q * m + left % m;
    if q >= left { MulMonotone(q, 2, m); }
  }

  lemma LastTakesAll(height: nat, splits: nat)
    requires splits > 0
    ensures Share(height, splits, splits - 1) == Left(height, splits, splits - 1)
  {
    hide Left;
  }

  lemma RangeInside(first: seq<int>, height: nat, splits: nat, margin: nat, k: nat)
    requires k < splits && |first| == height > 0
    ensures k + 1 < splits ==> !RangeLooksPast(first, height, splits, margin, k)
    ensures k + 1 == splits ==>
              (RangeLooksPast(first, height, splits, margin, k) <==> LastLooksPast(first, height, splits, margin))
  {
    hide Left, Share;
    CutNext(height, splits, k);
    LeftNext(height, splits, k);
    if k + 1 < splits { RowsLeft(height, splits, k + 1); } else { LastTakesAll(height, splits); }
  }

  lemma {:induction false} RangesInside(first: seq<int>, height: nat, splits: nat, margin: nat, n: nat)
    requires n <= splits && |first| == height > 0
    ensures SomeLooksPast(first, height, splits, margin, n) <==>
            n == splits && LastLooksPast(first, height, splits, margin)
    decreases n
  {
    hide LastLooksPast, RangeLooksPast;
    if n > 0 {
      RangesInside(first, height, splits, margin, n - 1);
      RangeInside(first, height, splits, margin, n - 1);
    } else if splits == 0 {
      NoLast(first, height, margin);
    }
  }

  lemma NoLast(first: seq<int>, height: nat, margin: nat)
    ensures !LastLooksPast(first, height, 0, margin)
  {
  }

  /** Only the search for the last range can look past the last row. */
  lemma OnlyLastLooksPast(first: seq<int>, height: nat, splits: nat, margin: nat)
    requires |first| == height
    ensures SomeLooksPast(first, height, splits, margin, splits) <==> LastLooksPast(first, height, splits, margin)
  {
    hide LastLooksPast, RangeLooksPast;
    if height > 0 {
      RangesInside(first, height, splits, margin, splits);
    } else if splits > 0 {
      NoRows(splits, margin, splits);
    } else {
      NoLast(first, height, margin);
    }
  }

  lemma {:induction false} NoRows(splits: nat, margin: nat, n: nat)
    requires n <= splits && splits > 0
    ensures SomeLooksPast([], 0, splits, margin, n) <==> n > 1
    ensures LastLooksPast([], 0, splits, margin) <==> splits > 1
    decreases n
  {
    hide Left, Share;
    NothingTaken(splits, splits - 1);
    if n > 0 {
      NothingTaken(splits, n - 1);
      NoRows(splits, margin, n - 1);
    }
  }

  lemma {:induction false} NothingTaken(splits: nat, i: nat)
    requires i < splits
    ensures Left(0, splits, i) == 0 && Share(0, splits, i) == 0 && Cut(0, splits, i) == 0
  {
    hide Left, Share;
    if i > 0 { NothingTaken(splits, i - 1); LeftNext(0, splits, i - 1); }  else { LeftAtStart(0, splits); }
    LeftNext(0, splits, i);
  }

  /** As when every thread has one row. */
  lemma OneRowLooksPast(first: seq<int>, splits: nat, margin: nat)
    requires |first| == splits > 1 && margin > 0
    ensures LastLooksPast(first, splits, splits, margin)
  {
    hide Left, Share;
    ShareBounds(splits, splits, splits - 1);
    LastTakesAll(splits, splits);
    UnitQuotients(splits);
  }

  lemma UnitQuotients(n: nat)
    requires n > 1
    ensures n / n == 1 && (n + n - 1) / n == 1
  {
  }

  /** One `stbir__per_split_info` per thread, field by field. */
  class SplitRanges {
    const startOutputY: array<int>
    const endOutputY: array<int>
    const startInputY: array<int>
    const endInputY: array<int>

    constructor (splits: nat)
      ensures Shape(splits) && fresh(startOutputY) && fresh(endOutputY) && fresh(startInputY) && fresh(endInputY)
    {
      startOutputY := new int[splits];
      endOutputY := new int[splits];
      startInputY := new int[splits];
      endInputY := new int[splits];
    }

    predicate Shape(splits: nat) {
      && startOutputY.Length == endOutputY.Length == startInputY.Length == endInputY.Length == splits
      && startOutputY != endOutputY && startOutputY != startInputY && startOutputY != endInputY
      && endOutputY != startInputY && endOutputY != endInputY && startInputY != endInputY
    }

    /** Share `i` of `each` rows from row `cur` on, its start moved and the end before it with it when gathering. */
    method SetRange(splits: nat, height: nat, margin: nat, isGather: bool, first: seq<int>, past: int, i: nat, cur: nat,
                    each: nat, ghost shift: seq<nat>) returns (ghost shift': seq<nat>, ghost over: bool)
      requires Shape(splits) && i < splits && (isGather ==> |first| == height) && |shift| == i
      requires each == Share(height, splits, i) && cur == Cut(height, splits, i)
      requires Shifted(startOutputY[..], endOutputY[..], height, splits, shift, i)
      requires Chosen(first + [past], height, splits, margin, isGather, shift)
      modifies startOutputY, endOutputY
      ensures |shift'| == i + 1 && Chosen(first + [past], height, splits, margin, isGather, shift')
      ensures Shifted(startOutputY[..], endOutputY[..], height, splits, shift', i + 1)
      ensures over <==> isGather && i != 0 && LooksPast(first, cur, Min(3 * margin, each))
    {
      hide Left, Share, Cut, Shifted, Chosen;
      CutNext(height, splits, i);
      LeftNext(height, splits, i);
      ghost var start0, end0 := startOutputY[..], endOutputY[..];
      ghost var s: nat, t: nat := 0, 0;
      over := false;
      startOutputY[i] := cur;
      endOutputY[i] := cur + each;
      if isGather && i != 0 {
        var stop := margin * 3;
        if each < stop { stop := each; }
        var smallest;
        ghost var seen;
        smallest, seen := FindLowest(first, past, cur, stop);
        over := seen == |first|;
        t :| Lowest(first + [past], cur, stop, smallest, t);
        endOutputY[i - 1] := endOutputY[i - 1] + smallest;
        startOutputY[i] := startOutputY[i] + smallest;
        s := smallest;
      }
      shift' := shift + [s];
      ChosenNext(first + [past], height, splits, margin, isGather, shift, s, t);
      if i == 0 {
        assert endOutputY[..] == end0[i := cur + each];
      } else {
        assert endOutputY[..] == end0[i := cur + each][i - 1 := end0[i - 1] + s];
      }
      ShiftedNext(start0, end0, startOutputY[..], endOutputY[..], height, splits, shift, i, s);
    }

    /** The ranges tile the rows whether or not starts are moved; unmoved, each is an even share; when gathering,
        each but the first starts on the lowest row near its cut.  `first[y]` is the first input line of row `y`, and
        `past` what lies behind the last of them; it is looked at exactly when the last range is searched to its end. */
    method GetSplitInfo(splits: nat, height: nat, margin: nat, inputHeight: nat, isGather: bool, first: seq<int>,
                        past: int)
        returns (ghost shift: seq<nat>, ghost over: bool)
      requires Shape(splits) && (isGather ==> |first| == height)
      modifies startOutputY, endOutputY, startInputY, endInputY
      ensures splits > 0 ==> Tiles(startOutputY[..], endOutputY[..], height)
      ensures Shifted(startOutputY[..], endOutputY[..], height, splits, shift, splits)
      ensures Chosen(first + [past], height, splits, margin, isGather, shift)
      ensures forall i :: 0 <= i < splits ==> startInputY[i] == 0 - margin && endInputY[i] == inputHeight + margin
      ensures over <==> isGather && LastLooksPast(first, height, splits, margin)
    {
      hide Left, Share, Cut, Shifted, Tiles, Chosen;
      shift, over := [], false;
      var cur: nat, left := 0, height;
      LeftAtStart(height, splits);
      StartShifts(startOutputY[..], endOutputY[..], height, splits, first + [past], margin, isGather);
      for i := 0 to splits
        invariant left == Left(height, splits, i) && cur == height - left == Cut(height, splits, i)
        invariant Shifted(startOutputY[..], endOutputY[..], height, splits, shift, i) && |shift| == i
        invariant Chosen(first + [past], height, splits, margin, isGather, shift)
        invariant forall k :: 0 <= k < i ==> startInputY[k] == 0 - margin && endInputY[k] == inputHeight + margin
        invariant over <==> isGather && SomeLooksPast(first, height, splits, margin, i)
      {
        LeftNext(height, splits, i);
        CutNext(height, splits, i);
        var each := left / (splits - i);
        ShareIs(height, splits, i, each);
        ghost var here;
        shift, here := SetRange(splits, height, margin, isGather, first, past, i, cur, each, shift);
        over := over || here;
        cur := cur + each;
        left := left - each;
        startInputY[i] := 0 - margin;
        endInputY[i] := inputHeight + margin;
      }
      if isGather { OnlyLastLooksPast(first, height, splits, margin); }
      if splits > 0 { ShiftedTiles(startOutputY[..], endOutputY[..], height, splits, shift); }
    }
  }

  lemma StartShifts(start: seq<int>, end: seq<int>, height: nat, splits: nat, first: seq<int>, margin: nat,
                    isGather: bool)
    requires |start| == |end| == splits
    ensures Chosen(first, height, splits, margin, isGather, [])
    ensures Shifted(start, end, height, splits, [], 0) && Cut(height, splits, 0) == 0
  {
  }

  lemma CutNext(height: nat, splits: nat, i: nat)
    requires i < splits
    ensures Cut(height, splits, i) == height - Left(height, splits, i)
    ensures Cut(height, splits, i + 1) == height - Left(height, splits, i + 1)
    ensures 0 <= Share(height, splits, i) && Cut(height, splits, i) + Share(height, splits, i) <= height
  {
    hide Left;
    LeftNext(height, splits, i);
  }

  lemma ShareIs(height: nat, splits: nat, i: nat, each: int)
    requires i < splits && each == Left(height, splits, i) / (splits - i)
    ensures each == Share(height, splits, i)
  {
    hide Left;
  }

  /** Without shifts every range is its share, so no longer than `GetMaxSplit` allows for. */
  lemma UnshiftedSizes(start: seq<int>, end: seq<int>, height: nat, splits: nat, shift: seq<nat>, i: nat)
    requires i < splits && Shifted(start, end, height, splits, shift, splits) && forall k :: 0 <= k < splits ==>
             shift[k] == 0
    ensures end[i] - start[i] == Share(height, splits, i)
    ensures height / splits <= end[i] - start[i] <= (height + splits - 1) / splits
  {
    hide Left, Share;
    CutNext(height, splits, i);
    LeftNext(height, splits, i);
    ShareBounds(height, splits, i);
    assert start[i] == Cut(height, splits, i) + shift[i];
    if i + 1 < splits { assert shift[i + 1] == 0; }
  }
}
