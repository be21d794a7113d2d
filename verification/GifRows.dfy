/** The order in which a GIF raster fills its rectangle: row by row, or in the four
    passes of an interlaced image (Appendix E of the GIF89a specification). */
module GifRows {
  import opened Bits

  /** Rows `r`, `r + step`, ... below `h`. */
  function PassRows(h: nat, r: nat, step: nat): (s: seq<nat>)
    requires step > 0
    decreases h - r
  {
    if r >= h then [] else [r] + PassRows(h, r + step, step)
  }

  /** The rows of the passes after the one with `parse` passes to go: every `2^p`-th from `2^(p-1)` on. */
  function Later(h: nat, parse: nat): seq<nat> {
    if parse == 0 then [] else PassRows(h, Pow2(parse - 1), Pow2(parse)) + Later(h, parse - 1)
  }

  function Order(h: nat, interlaced: bool): seq<nat> {
    if interlaced then PassRows(h, 0, 8) + Later(h, 3) else PassRows(h, 0, 1)
  }

  ghost predicate NoDup<T>(s: seq<T>) {
    forall i, j :: 0 <= i < j < |s| ==> s[i] != s[j]
  }

  /** `r` is reached from `s` in steps of 1, 2, 4 or 8. */
  predicate Hits(r: nat, s: nat, step: nat) {
    s <= r &&
    if step == 8 then (r - s) % 8 == 0
    else if step == 4 then (r - s) % 4 == 0
    else if step == 2 then (r - s) % 2 == 0
    else true
  }

  predicate IsStep(step: nat) {
    step == 1 || step == 2 || step == 4 || step == 8
  }

  lemma {:induction false} PassHits(h: nat, s: nat, step: nat)
    requires IsStep(step)
    ensures forall r: nat :: r in PassRows(h, s, step) <==> r < h && Hits(r, s, step)
    decreases h - s
  {
    if s < h {
      PassHits(h, s + step, step);
      forall r: nat ensures r in PassRows(h, s, step) <==> r < h && Hits(r, s, step) {
        HitsNext(r, s, step);
      }
    }
  }

  lemma HitsNext(r: nat, s: nat, step: nat)
    requires IsStep(step)
    ensures Hits(r, s, step) <==> r == s || Hits(r, s + step, step)
  {
    if s <= r { NextMultiple(r - s); }
  }

  /** A distance is a multiple if it is none or one step more than a multiple. */
  lemma NextMultiple(d: nat)
    ensures d % 2 == 0 <==> d == 0 || (d >= 2 && (d - 2) % 2 == 0)
    ensures d % 4 == 0 <==> d == 0 || (d >= 4 && (d - 4) % 4 == 0)
    ensures d % 8 == 0 <==> d == 0 || (d >= 8 && (d - 8) % 8 == 0)
  {
  }

  lemma JoinNoDup<T>(a: seq<T>, b: seq<T>)
    requires NoDup(a) && NoDup(b) && forall x :: x in a ==> x !in b
    ensures NoDup(a + b)
  {
    var s := a + b;
    forall i, j | 0 <= i < j < |s| ensures s[i] != s[j] {
      if i < |a| <= j {
        assert s[i] in a && s[j] in b;
      }
    }
  }

  lemma {:induction false} PassNoDup(h: nat, s: nat, step: nat)
    requires IsStep(step)
    ensures NoDup(PassRows(h, s, step))
    decreases h - s
  {
    if s < h {
      PassNoDup(h, s + step, step);
      PassHits(h, s + step, step);
      JoinNoDup([s], PassRows(h, s + step, step));
    }
  }

  lemma LaterThree(h: nat)
    ensures Later(h, 3) == PassRows(h, 4, 8) + (PassRows(h, 2, 4) + PassRows(h, 1, 2))
  {
    assert Pow2(2) == 4 && Pow2(3) == 8;
    assert Later(h, 1) == PassRows(h, 1, 2) + [];
    assert Later(h, 2) == PassRows(h, 2, 4) + PassRows(h, 1, 2);
  }

  /** Every row below `h` is listed, and only those, whichever passes are empty. */
  lemma OrderCovers(h: nat, interlaced: bool, r: nat)
    ensures r in Order(h, interlaced) <==> r < h
  {
    if interlaced {
      LaterThree(h);
      PassHits(h, 0, 8);
      PassHits(h, 4, 8);
      PassHits(h, 2, 4);
      PassHits(h, 1, 2);
      FourPasses(r);
    } else {
      PassHits(h, 0, 1);
    }
  }

  lemma FourPasses(r: nat)
    ensures Hits(r, 0, 8) || Hits(r, 4, 8) || Hits(r, 2, 4) || Hits(r, 1, 2)
    ensures Hits(r, 0, 8) ==> !Hits(r, 4, 8) && !Hits(r, 2, 4) && !Hits(r, 1, 2)
    ensures Hits(r, 4, 8) ==> !Hits(r, 2, 4) && !Hits(r, 1, 2)
    ensures Hits(r, 2, 4) ==> !Hits(r, 1, 2)
  {
  }

  lemma OrderNoDup(h: nat, interlaced: bool)
    ensures NoDup(Order(h, interlaced))
  {
    if interlaced {
      LaterThree(h);
      var a, b, c, d := PassRows(h, 0, 8), PassRows(h, 4, 8), PassRows(h, 2, 4), PassRows(h, 1, 2);
      PassHits(h, 0, 8);
      PassHits(h, 4, 8);
      PassHits(h, 2, 4);
      PassHits(h, 1, 2);
      PassNoDup(h, 0, 8);
      PassNoDup(h, 4, 8);
      PassNoDup(h, 2, 4);
      PassNoDup(h, 1, 2);
      forall r: nat ensures r in a ==> r !in b && r !in c && r !in d
                    ensures r in b ==> r !in c && r !in d
                    ensures r in c ==> r !in d {
        FourPasses(r);
      }
      JoinNoDup(c, d);
      JoinNoDup(b, c + d);
      JoinNoDup(a, b + (c + d));
    } else {
      PassNoDup(h, 0, 1);
    }
  }

  /** A list without repetition of exactly the numbers below `h` has length `h`. */
  lemma {:induction false} CountRows(s: seq<nat>, h: nat)
    requires NoDup(s) && forall r: nat :: r in s <==> r < h
    ensures |s| == h
    decreases h
  {
    if h > 0 {
      assert h - 1 in s;
      var i :| 0 <= i < |s| && s[i] == h - 1;
      var t := s[..i] + s[i + 1..];
      forall r: nat | r in t ensures r < h - 1 {
        var j :| 0 <= j < |t| && t[j] == r;
        assert r == s[if j < i then j else j + 1];
        assert r in s;
      }
      forall r: nat | r < h - 1 ensures r in t {
        assert r in s;
        var j :| 0 <= j < |s| && s[j] == r;
        assert r == t[if j < i then j else j - 1];
      }
      CountRows(t, h - 1);
    } else {
      HeadIsIn(s);
    }
  }

  lemma HeadIsIn(s: seq<nat>)
    ensures |s| > 0 ==> s[0] in s
  {
  }

  /** The order is a permutation of the rows. */
  lemma OrderPermutes(h: nat, interlaced: bool)
    ensures |Order(h, interlaced)| == h && NoDup(Order(h, interlaced))
    ensures forall r: nat :: r in Order(h, interlaced) <==> r < h
  {
    forall r: nat ensures r in Order(h, interlaced) <==> r < h {
      OrderCovers(h, interlaced, r);
    }
    OrderNoDup(h, interlaced);
    CountRows(Order(h, interlaced), h);
  }

  // ---------- visiting pixels ----------

  /** The rows and column that come after column `col` of the first row left. */
  function NextRows(w: nat, rest: seq<nat>, col: nat): seq<nat>
    requires |rest| > 0
  {
    if col + 1 < w then rest else rest[1..]
  }

  function NextCol(w: nat, col: nat): nat {
    if col + 1 < w then col + 1 else 0
  }

  /** The pixel the `k`-th emission goes to, if any is left. */
  function Visit(w: nat, rest: seq<nat>, col: nat, k: nat): Option<(nat, nat)>
    decreases k
  {
    if rest == [] then None
    else if k == 0 then Some((rest[0], col))
    else Visit(w, NextRows(w, rest, col), NextCol(w, col), k - 1)
  }

  /** The column runs through each row in turn. */
  lemma {:induction false} VisitRow(w: nat, rest: seq<nat>, col: nat, k: nat)
    requires |rest| > 0 && col < w
    ensures Visit(w, rest, col, k) ==
            if col + k < w then Some((rest[0], col + k)) else Visit(w, rest[1..], 0, col + k - w)
    decreases k
  {
    if k > 0 && col + 1 < w { VisitRow(w, rest, col + 1, k - 1); }
  }

  /** Emission `i * w + c` goes to column `c` of the `i`-th row in order; later ones go nowhere. */
  lemma {:induction false} VisitAt(w: nat, rest: seq<nat>, i: nat, c: nat)
    requires c < w
    ensures Visit(w, rest, 0, i * w + c) == if i < |rest| then Some((rest[i], c)) else None
    decreases i
  {
    if rest != [] {
      VisitRow(w, rest, 0, i * w + c);
      if i > 0 {
        assert i * w == (i - 1) * w + w;
        MulMonotone(w, 0, i - 1);
        VisitAt(w, rest[1..], i - 1, c);
      }
    }
  }

  lemma SplitIndex(k: nat, w: nat, h: nat)
    requires w > 0
    ensures k == k / w * w + k % w && (k < w * h <==> k / w < h)
  {
    var q := k / w;
    if q < h {
      MulMonotone(w, q + 1, h);
    } else {
      MulMonotone(w, h, q);
    }
  }

  /** Emission `k` goes to row `k / w` in order, column `k % w`. */
  lemma VisitIndex(w: nat, rest: seq<nat>, k: nat)
    requires w > 0
    ensures Visit(w, rest, 0, k) == if k / w < |rest| then Some((rest[k / w], k % w)) else None
  {
    SplitIndex(k, w, 0);
    VisitAt(w, rest, k / w, k % w);
  }

  /** In a rectangle of `w` by `h` pixels the first `w * h` emissions go to pixels of the
      rectangle and the later ones nowhere, interlaced or not. */
  lemma RasterVisits(w: nat, h: nat, interlaced: bool, k: nat)
    requires w > 0
    ensures var v := Visit(w, Order(h, interlaced), 0, k);
            if k < w * h then v.Some? && v.value.0 < h && v.value.1 < w else v.None?
  {
    OrderPermutes(h, interlaced);
    var order := Order(h, interlaced);
    VisitIndex(w, order, k);
    SplitIndex(k, w, h);
    if k / w < h { assert order[k / w] in order; }
  }

  /** Each pixel is visited by exactly one emission. */
  lemma PixelVisited(w: nat, h: nat, interlaced: bool, r: nat, c: nat) returns (k: nat)
    requires r < h && c < w
    ensures k < w * h && Visit(w, Order(h, interlaced), 0, k) == Some((r, c))
    ensures forall l: nat :: Visit(w, Order(h, interlaced), 0, l) == Some((r, c)) ==> l == k
  {
    hide Visit;
    OrderPermutes(h, interlaced);
    var order := Order(h, interlaced);
    assert r in order;
    var i: nat :| i < |order| && order[i] == r;
    k := IndexOf(w, h, i, c);
    VisitAt(w, order, i, c);
    forall l: nat | Visit(w, order, 0, l) == Some((r, c)) ensures l == k {
      VisitUnique(w, order, i, c, l);
    }
  }

  lemma VisitUnique(w: nat, order: seq<nat>, i: nat, c: nat, l: nat)
    requires i < |order| && c < w && NoDup(order) && Visit(w, order, 0, l) == Some((order[i], c))
    ensures l == i * w + c
  {
    hide Visit;
    VisitIndex(w, order, l);
    var j := l / w;
    SplitIndex(l, w, 0);
    assert order[j] == order[i];
    assert j == i;
  }

  lemma IndexOf(w: nat, h: nat, i: nat, c: nat) returns (k: nat)
    requires i < h && c < w
    ensures k == i * w + c < w * h
  {
    MulMonotone(w, i + 1, h);
    MulMonotone(w, 0, i);
    k := i * w + c;
  }
}
