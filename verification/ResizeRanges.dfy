/** The ranges of output rows that threads take, as the gather loop meets them: which of them begin with a line as early
    as any their rows need. */
module ResizeRanges {
  import opened Bits
  import opened ResizeSplits
  import opened ResizeRing

  /** First lines go back only briefly: where a row begins earlier than row `a` before it, one of the `w` rows after `a`
      begins as early already, and no row in between begins later than `a`. */
  ghost predicate Dips(first: seq<int>, w: nat) {
    forall a, y :: 0 <= a < y < |first| && first[y] < first[a] ==> exists j :: Settles(first, w, a, y, j)
  }

  ghost predicate Settles(first: seq<int>, w: nat, a: nat, y: nat, j: int) {
    a < j <= a + w && j <= y < |first| && first[j] <= first[y] && forall b :: a < b < j ==> first[b] <= first[a]
  }

  lemma Settled(first: seq<int>, w: nat, a: nat, y: nat) returns (j: int)
    requires Dips(first, w) && a < y < |first| && first[y] < first[a]
    ensures Settles(first, w, a, y, j)
  {
    j :| Settles(first, w, a, y, j);
  }

  /** A search of `w` rows does not stop before a row that settles a dip. */
  lemma SettlesSeen(first: seq<int>, rows: seq<int>, w: nat, cur: nat, stop: nat, s: nat, t: nat, y: nat, j: int)
    requires first <= rows && Lowest(rows, cur, stop, s, t) && Settles(first, w, cur, y, j) && w <= stop
    requires first[y] < first[cur]
    ensures rows[cur + s] <= rows[j] == first[j]
  {
    if cur + t < j { assert false; }
  }

  /** The lowest row found near a cut is low enough for all that follow, if the search covers the dips. */
  lemma LowestForAll(first: seq<int>, rows: seq<int>, w: nat, cur: nat, stop: nat, s: nat, t: nat, y: nat)
    requires first <= rows && Lowest(rows, cur, stop, s, t) && Dips(first, w) && w <= stop && cur + s <= y < |first|
    ensures rows[cur + s] <= rows[y]
  {
    hide Dips, Settles;
    if y > cur + t && first[y] < first[cur] {
      var j := Settled(first, w, cur, y);
      SettlesSeen(first, rows, w, cur, stop, s, t, y, j);
      SettledLow(first, w, cur, y, j);
    } else {
      StartsLowEnough(rows, cur, stop, s, t, y);
    }
  }

  lemma SettledLow(first: seq<int>, w: nat, a: nat, y: nat, j: int)
    requires Settles(first, w, a, y, j)
    ensures 0 <= j < |first| && first[j] <= first[y]
  {
  }

  /** Every range but the first begins with a line as early as that of any row from its start on, if dips are no longer
      than three margins or the average share. */
  lemma RangeStartsLow(first: seq<int>, past: int, start: seq<int>, end: seq<int>, height: nat, splits: nat,
                       margin: nat, shift: seq<nat>, w: nat, k: nat, y: int)
    requires 0 < k < splits && |first| == height && Dips(first, w) && w <= 3 * margin && w <= height / splits
    requires Shifted(start, end, height, splits, shift, splits)
    requires Chosen(first + [past], height, splits, margin, true, shift)
    requires start[k] <= y < height
    ensures 0 <= start[k] && first[start[k]] <= first[y]
  {
    hide Left, Share, Cut, Dips;
    ShareBounds(height, splits, k);
    assert Choice(first + [past], height, splits, margin, true, k, shift[k]);
    var stop := Min(3 * margin, Share(height, splits, k));
    var t :| Lowest(first + [past], Cut(height, splits, k), stop, shift[k], t);
    assert start[k] == Cut(height, splits, k) + shift[k];
    LowestForAll(first, first + [past], w, Cut(height, splits, k), stop, shift[k], t, y);
  }

  /** The first line of every row. */
  ghost predicate FirstLines(first: seq<int>, windows: seq<Window>) {
    |first| == |windows| && forall y :: 0 <= y < |windows| ==> first[y] == windows[y].n0
  }

  /** No window is wider than the ring or lies a whole ring behind the end of an earlier one. */
  ghost predicate InReach(windows: seq<Window>, entries: nat) {
    && (forall y :: 0 <= y < |windows| ==> windows[y].n0 <= windows[y].n1 < windows[y].n0 + entries)
    && (forall y, z :: 0 <= z < y < |windows| ==> windows[z].n1 < windows[y].n0 + entries)
  }

  /** So the gather loop can take every range but the first, up to its own end or that of a later one. */
  lemma RangeFits(first: seq<int>, past: int, windows: seq<Window>, entries: nat, start: seq<int>, end: seq<int>,
                  height: nat, splits: nat, margin: nat, shift: seq<nat>, w: nat, k: nat, stop: nat)
    requires 0 < k < splits && |first| == height && Dips(first, w) && w <= 3 * margin && w <= height / splits
    requires Shifted(start, end, height, splits, shift, splits)
    requires Chosen(first + [past], height, splits, margin, true, shift)
    requires FirstLines(first, windows) && InReach(windows, entries) && 0 <= start[k] < stop <= height
    ensures WindowsFit(windows, start[k], stop, entries)
  {
    hide Left, Share, Cut, Chosen, Dips;
    forall y: nat | start[k] <= y < stop ensures windows[start[k]].n0 <= windows[y].n0 {
      RangeStartsLow(first, past, start, end, height, splits, margin, shift, w, k, y);
    }
  }

  /** The first range is never moved: it fits exactly when no row of it begins before row 0 does. */
  lemma FirstRangeFits(windows: seq<Window>, entries: nat, start: seq<int>, end: seq<int>, height: nat, splits: nat,
                       shift: seq<nat>, stop: nat)
    requires splits > 0 && Shifted(start, end, height, splits, shift, splits)
    requires InReach(windows, entries) && 0 < stop <= |windows|
    ensures start[0] == 0
    ensures WindowsFit(windows, start[0], stop, entries) <==>
            forall y :: 0 <= y < stop ==> windows[0].n0 <= windows[y].n0
  {
    hide Left, Share;
    LeftAtStart(height, splits);
    assert start[0] == Cut(height, splits, 0) + shift[0];
  }

  /** As rows made of line 4 alone and of lines 3 to 6 show. */
  lemma FirstRangeMisfits(entries: nat)
    requires entries >= 4
    ensures var windows := [Window(4, 4), Window(3, 6)];
            InReach(windows, entries) && Dips([4, 3], 1) && !WindowsFit(windows, 0, 2, entries)
  {
    var windows := [Window(4, 4), Window(3, 6)];
    assert windows[0].n0 > windows[1].n0;
    assert Settles([4, 3], 1, 0, 1, 1);
  }
}
