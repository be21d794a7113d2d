/** Filter coefficients at the edges of a scanline: weights that fall outside the image are
    moved onto the pixels that stand for them, and trailing zeros are trimmed. */
module ResizeEdges {
  import opened Bits

  /** A scanline, extended to all positions. */
  type Scanline = int -> real

  /** `c * p`, named so that products of reals are met one at a time. */
  function Term(c: real, p: real): real {
    c * p
  }

  lemma TermSum(c: real, d: real, p: real)
    ensures Term(c + d, p) == Term(c, p) + Term(d, p)
  {
  }

  lemma TermZero(p: real)
    ensures Term(0.0, p) == 0.0
  {
  }

  /** The weighted sum of coefficients `lo` to `hi - 1`, the first coefficient of all being that of pixel `n0`. */
  ghost function Sum(c: seq<real>, n0: int, lo: nat, hi: nat, px: Scanline): real
    requires hi <= |c|
    decreases hi
  {
    if hi <= lo then 0.0 else Sum(c, n0, lo, hi - 1, px) + Term(c[hi - 1], px(n0 + hi - 1))
  }

  lemma {:induction false} SumFirst(c: seq<real>, n0: int, lo: nat, hi: nat, px: Scanline)
    requires lo < hi <= |c|
    ensures Sum(c, n0, lo, hi, px) == Term(c[lo], px(n0 + lo)) + Sum(c, n0, lo + 1, hi, px)
    decreases hi
  {
    hide Term;
    if lo + 1 < hi { SumFirst(c, n0, lo, hi - 1, px); }
  }

  lemma {:induction false} SumSame(c: seq<real>, d: seq<real>, n0: int, lo: nat, hi: nat, px: Scanline)
    requires hi <= |c| && hi <= |d| && forall t :: lo <= t < hi ==> c[t] == d[t]
    ensures Sum(c, n0, lo, hi, px) == Sum(d, n0, lo, hi, px)
    decreases hi
  {
    hide Term;
    if lo < hi { SumSame(c, d, n0, lo, hi - 1, px); }
  }

  lemma {:induction false} SumScanline(c: seq<real>, n0: int, lo: nat, hi: nat, px: Scanline, qx: Scanline)
    requires hi <= |c| && forall x :: n0 + lo <= x < n0 + hi ==> px(x) == qx(x)
    ensures Sum(c, n0, lo, hi, px) == Sum(c, n0, lo, hi, qx)
    decreases hi
  {
    hide Term;
    if lo < hi { SumScanline(c, n0, lo, hi - 1, px, qx); }
  }

  /** Coefficients moved by `o` places, the pixels they weigh staying the same. */
  lemma {:induction false} SumShift(c: seq<real>, d: seq<real>, n0: int, lo: nat, hi: nat, o: nat, px: Scanline)
    requires hi <= |c| && hi + o <= |d| && forall t :: lo <= t < hi ==> c[t] == d[t + o]
    ensures Sum(c, n0, lo, hi, px) == Sum(d, n0 - o, lo + o, hi + o, px)
    decreases hi
  {
    hide Term;
    if lo < hi { SumShift(c, d, n0, lo, hi - 1, o, px); }
  }

  lemma {:induction false} SumAdd(c: seq<real>, n0: int, lo: nat, hi: nat, i: nat, v: real, px: Scanline)
    requires lo <= i < hi <= |c|
    ensures Sum(c[i := c[i] + v], n0, lo, hi, px) == Sum(c, n0, lo, hi, px) + Term(v, px(n0 + i))
    decreases hi
  {
    hide Term;
    var d := c[i := c[i] + v];
    if i == hi - 1 {
      SumSame(c, d, n0, lo, hi - 1, px);
      TermSum(c[i], v, px(n0 + i));
    } else {
      SumAdd(c, n0, lo, hi - 1, i, v, px);
    }
  }

  lemma {:induction false} SumZeros(c: seq<real>, n0: int, lo: nat, hi: nat, px: Scanline)
    requires hi <= |c| && forall t :: lo <= t < hi ==> c[t] == 0.0
    ensures Sum(c, n0, lo, hi, px) == 0.0
    decreases hi
  {
    hide Term;
    if lo < hi {
      SumZeros(c, n0, lo, hi - 1, px);
      TermZero(px(n0 + hi - 1));
    }
  }

  lemma {:induction false} SumSplit(c: seq<real>, n0: int, lo: nat, m: nat, hi: nat, px: Scanline)
    requires lo <= m <= hi <= |c|
    ensures Sum(c, n0, lo, hi, px) == Sum(c, n0, lo, m, px) + Sum(c, n0, m, hi, px)
    decreases hi
  {
    hide Term;
    if m < hi { SumSplit(c, n0, lo, m, hi - 1, px); }
  }

  // ---------- inserting one coefficient ----------

  /** The pixels `n0` to `n1` that a group of coefficients weighs. */
  class Contributors {
    var n0: int
    var n1: int

    constructor (first: int, last: int)
      ensures n0 == first && n1 == last
    {
      n0, n1 := first, last;
    }
  }

  /** The coefficients of the pixels `n0` to `n1`, which may be none, fit into `width`. */
  predicate Window(n0: int, n1: int, width: nat) {
    n1 - n0 + 1 <= width
  }

  /** What the coefficients give for a scanline. */
  ghost function Weighted(c: seq<real>, n0: int, n1: int, px: Scanline): real
    requires Window(n0, n1, |c|)
  {
    if n1 < n0 then 0.0 else Sum(c, n0, 0, n1 - n0 + 1, px)
  }

  /** A coefficient for `pixel` finds room. */
  predicate HasRoom(n0: int, n1: int, pixel: int, width: nat) {
    n1 < n0 || Max(n1, pixel) - Min(n0, pixel) + 1 <= width
  }

  ghost predicate Moved(c: seq<real>, d: seq<real>, last: int, o: nat) {
    |c| == |d| && last + o < |d| && forall t :: 0 <= t <= last ==> d[t + o] == c[t]
  }

  ghost predicate BlankFrom(c: seq<real>, lo: nat) {
    forall t :: lo <= t < |c| ==> c[t] == 0.0
  }

  ghost predicate Cleared(d: seq<real>, lo: nat, hi: nat) {
    hi <= |d| && forall t :: lo <= t < hi ==> d[t] == 0.0
  }

  /** What lies from `lo` on is as it was. */
  ghost predicate SameFrom(c: seq<real>, d: seq<real>, lo: nat) {
    |c| == |d| && forall t :: lo <= t < |d| ==> c[t] == d[t]
  }

  /** What lies before `hi` is as it was. */
  ghost predicate SameUpTo(c: seq<real>, d: seq<real>, hi: nat) {
    |c| == |d| && hi <= |d| && forall t :: 0 <= t < hi ==> c[t] == d[t]
  }

  lemma FrontInserted(c: seq<real>, d: seq<real>, n0: int, n1: int, o: nat, v: real, px: Scanline)
    requires n0 <= n1 && o > 0 && n1 - n0 + 1 + o <= |c| == |d|
    requires Moved(c, d, n1 - n0, o) && d[0] == v && Cleared(d, 1, o)
    ensures Weighted(d, n0 - o, n1, px) == Weighted(c, n0, n1, px) + Term(v, px(n0 - o))
  {
    hide Term;
    var k := n1 - n0 + 1;
    SumShift(c, d, n0, 0, k, o, px);
    SumSplit(d, n0 - o, 0, o, k + o, px);
    SumFirst(d, n0 - o, 0, o, px);
    SumZeros(d, n0 - o, 1, o, px);
  }

  lemma BackInserted(c: seq<real>, d: seq<real>, n0: int, n1: int, pixel: int, v: real, px: Scanline)
    requires n0 <= n1 < pixel && pixel - n0 + 1 <= |c| == |d|
    requires Moved(c, d, n1 - n0, 0) && d[pixel - n0] == v && Cleared(d, n1 - n0 + 1, pixel - n0)
    ensures Weighted(d, n0, pixel, px) == Weighted(c, n0, n1, px) + Term(v, px(pixel))
  {
    hide Term;
    var k, e := n1 - n0 + 1, pixel - n0;
    SumSame(c, d, n0, 0, k, px);
    SumSplit(d, n0, 0, k, e, px);
    SumZeros(d, n0, k, e, px);
  }

  lemma OneCoeff(was: seq<real>, c: seq<real>, n0: int, n1: int, pixel: int, v: real, px: Scanline)
    requires |c| == |was| > 0 && c[0] == v && n1 < n0 && Window(n0, n1, |c|)
    ensures Weighted(c, pixel, pixel, px) == Weighted(was, n0, n1, px) + Term(v, px(pixel))
  {
    hide Term;
    assert Sum(c, pixel, 0, 0, px) == 0.0;
  }

  /** Clearing a gap and adding nothing leaves nothing. */
  lemma BackBlank(c: seq<real>, d: seq<real>, from: nat, e: nat)
    requires |c| == |d| && from <= e < |d| && SameUpTo(d, c, from) && Cleared(d, from, e) && d[e] == 0.0
    requires SameFrom(d, c, e + 1)
    ensures BlankFrom(c, 0) ==> BlankFrom(d, 0)
  {
  }

  lemma FrontBlank(c: seq<real>, d: seq<real>, last: nat, o: nat)
    requires o > 0 && Moved(c, d, last, o) && Cleared(d, 1, o) && d[0] == 0.0 && SameFrom(d, c, last + o + 1)
    ensures BlankFrom(c, 0) ==> BlankFrom(d, 0)
  {
    forall t | 0 <= t < |d| && BlankFrom(c, 0) ensures d[t] == 0.0 {
      if o <= t <= last + o { assert d[(t - o) + o] == c[t - o]; }
    }
  }

  /** The coefficients up to `last` move up by `o`; `v` goes in front of the gap. */
  method InsertFront(coeffs: array<real>, last: nat, o: nat, v: real)
    requires o > 0 && last + o < coeffs.Length
    modifies coeffs
    ensures Moved(old(coeffs[..]), coeffs[..], last, o) && coeffs[0] == v && Cleared(coeffs[..], 1, o)
    ensures SameFrom(coeffs[..], old(coeffs[..]), last + o + 1)
  {
    for j := last + 1 downto 0
      invariant forall t :: j <= t <= last ==> coeffs[t + o] == old(coeffs[t])
      invariant forall t :: 0 <= t < j ==> coeffs[t] == old(coeffs[t])
      invariant SameFrom(coeffs[..], old(coeffs[..]), last + o + 1)
    {
      coeffs[j + o] := coeffs[j];
    }
    for j := 1 to o
      invariant forall t :: 0 <= t <= last ==> coeffs[t + o] == old(coeffs[t])
      invariant forall t :: 1 <= t < j ==> coeffs[t] == 0.0
      invariant SameFrom(coeffs[..], old(coeffs[..]), last + o + 1)
    {
      coeffs[j] := 0.0;
    }
    coeffs[0] := v;
  }

  /** The coefficients from `from` to `e - 1` are cleared and `v` follows them. */
  method InsertBack(coeffs: array<real>, from: nat, e: nat, v: real)
    requires from <= e < coeffs.Length
    modifies coeffs
    ensures Moved(old(coeffs[..]), coeffs[..], from - 1, 0) && coeffs[e] == v && Cleared(coeffs[..], from, e)
    ensures SameFrom(coeffs[..], old(coeffs[..]), e + 1)
  {
    for j := from to e
      invariant forall t :: 0 <= t < from ==> coeffs[t] == old(coeffs[t])
      invariant forall t :: from <= t < j ==> coeffs[t] == 0.0
      invariant SameFrom(coeffs[..], old(coeffs[..]), e + 1)
    {
      coeffs[j] := 0.0;
    }
    coeffs[e] := v;
  }

  method InsertBefore(con: Contributors, coeffs: array<real>, pixel: int, v: real, ghost px: Scanline)
    requires pixel < con.n0 <= con.n1 && con.n1 - pixel + 1 <= coeffs.Length
    modifies con, coeffs
    ensures BlankFrom(old(coeffs[..]), 0) && v == 0.0 ==> BlankFrom(coeffs[..], 0)
    ensures con.n0 == pixel && con.n1 == old(con.n1) && SameFrom(coeffs[..], old(coeffs[..]), con.n1 - con.n0 + 1)
    ensures Weighted(coeffs[..], con.n0, con.n1, px) ==
            old(Weighted(coeffs[..], con.n0, con.n1, px)) + Term(v, px(pixel))
  {
    hide Term, Sum, Weighted, Moved, Cleared, BlankFrom, SameFrom;
    ghost var was := coeffs[..];
    var last, o := con.n1 - con.n0, con.n0 - pixel;
    InsertFront(coeffs, last, o, v);
    ghost var now := coeffs[..];
    if v == 0.0 { FrontBlank(was, now, last, o); }
    FrontInserted(was, now, con.n0, con.n1, o, v, px);
    con.n0 := pixel;
  }

  method InsertAfter(con: Contributors, coeffs: array<real>, pixel: int, v: real, ghost px: Scanline)
    requires con.n0 <= con.n1 < pixel && pixel - con.n0 + 1 <= coeffs.Length
    modifies con, coeffs
    ensures con.n0 == old(con.n0) && con.n1 == pixel && SameFrom(coeffs[..], old(coeffs[..]), con.n1 - con.n0 + 1)
    ensures SameUpTo(coeffs[..], old(coeffs[..]), old(con.n1) - con.n0 + 1)
    ensures Cleared(coeffs[..], old(con.n1) - con.n0 + 1, pixel - con.n0)
    ensures BlankFrom(old(coeffs[..]), 0) && v == 0.0 ==> BlankFrom(coeffs[..], 0)
    ensures Weighted(coeffs[..], con.n0, con.n1, px) ==
            old(Weighted(coeffs[..], con.n0, con.n1, px)) + Term(v, px(pixel))
  {
    hide Term, Sum, Cleared;
    ghost var was := coeffs[..];
    InsertBack(coeffs, con.n1 - con.n0 + 1, pixel - con.n0, v);
    BackInserted(was, coeffs[..], con.n0, con.n1, pixel, v, px);
    if v == 0.0 { BackBlank(was, coeffs[..], con.n1 - con.n0 + 1, pixel - con.n0); }
    con.n1 := pixel;
  }

  /** A pixel of the window: its coefficient grows. */
  method Accumulate(con: Contributors, coeffs: array<real>, pixel: int, v: real, ghost px: Scanline)
    requires con.n0 <= pixel <= con.n1 && con.n1 - con.n0 + 1 <= coeffs.Length
    modifies coeffs
    ensures coeffs[..] == old(coeffs[..])[pixel - con.n0 := old(coeffs[..])[pixel - con.n0] + v]
    ensures Weighted(coeffs[..], con.n0, con.n1, px) ==
            old(Weighted(coeffs[..], con.n0, con.n1, px)) + Term(v, px(pixel))
  {
    hide Term, Sum;
    SumAdd(coeffs[..], con.n0, 0, con.n1 - con.n0 + 1, pixel - con.n0, v, px);
    coeffs[pixel - con.n0] := coeffs[pixel - con.n0] + v;
  }

  /** `stbir__insert_coeff`: a coefficient for one more pixel, added to the one it has or put in place of the gap before
      or behind the window; dropped when the window would become too wide.  `px` is any scanline. */
  method InsertCoeff(con: Contributors, coeffs: array<real>, pixel: int, v: real, ghost px: Scanline)
    requires coeffs.Length > 0 && Window(con.n0, con.n1, coeffs.Length)
    modifies con, coeffs
    ensures Window(con.n0, con.n1, coeffs.Length)
    ensures if HasRoom(old(con.n0), old(con.n1), pixel, coeffs.Length) then
              Weighted(coeffs[..], con.n0, con.n1, px) ==
                old(Weighted(coeffs[..], con.n0, con.n1, px)) + Term(v, px(pixel))
            else coeffs[..] == old(coeffs[..]) && con.n0 == old(con.n0) && con.n1 == old(con.n1)
    ensures HasRoom(old(con.n0), old(con.n1), pixel, coeffs.Length) ==>
              if old(con.n1 < con.n0) then con.n0 == con.n1 == pixel
              else con.n0 == Min(old(con.n0), pixel) && con.n1 == Max(old(con.n1), pixel)
    ensures old(con.n0) <= pixel <= old(con.n1) ==>
              coeffs[..] == old(coeffs[..])[pixel - con.n0 := old(coeffs[..])[pixel - con.n0] + v]
    ensures SameFrom(coeffs[..], old(coeffs[..]), Max(con.n1 - con.n0 + 1, 0))
    ensures old(con.n0 <= con.n1 < pixel) ==> SameUpTo(coeffs[..], old(coeffs[..]), old(con.n1 - con.n0) + 1)
    ensures old(con.n0 <= con.n1) && con.n1 > old(con.n1) ==>
              Cleared(coeffs[..], old(con.n1) - con.n0 + 1, pixel - con.n0)
    ensures BlankFrom(old(coeffs[..]), if old(con.n1 < con.n0) then 1 else 0) && v == 0.0 ==> BlankFrom(coeffs[..], 0)
  {
    hide Term, Sum, Weighted;
    if con.n1 < con.n0 {
      ghost var was := coeffs[..];
      con.n0, con.n1 := pixel, pixel;
      coeffs[0] := v;
      OneCoeff(was, coeffs[..], old(con.n0), old(con.n1), pixel, v, px);
    } else if pixel <= con.n1 {
      if pixel < con.n0 {
        if con.n1 - pixel + 1 <= coeffs.Length {
          InsertBefore(con, coeffs, pixel, v, px);
        }
      } else {
        Accumulate(con, coeffs, pixel, v, px);
      }
    } else if pixel - con.n0 + 1 <= coeffs.Length {
      InsertAfter(con, coeffs, pixel, v, px);
    }
  }
}
