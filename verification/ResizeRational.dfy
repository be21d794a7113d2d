/** Approximating a scale by a fraction: the continued-fraction search of `stbir__double_to_rational`,
    over the reals. */
module ResizeRational {
  import opened Bits

  const SCALE: nat := 0x200_0000  // 2^25
  const WORD: nat := 0x1_0000_0000  // 2^32

  /** `top`, `bot`, `numer_last`, `denom_last`, `numer_estimate`, `denom_estimate`. */
  datatype State = State(top: nat, bot: nat, nl: nat, dl: nat, ne: nat, de: nat)

  /** `f` scaled past the precision of a float. */
  function Scaled(f: real): nat
    requires f >= 0.0
  {
    (f * 33554432.0).Floor
  }

  function Start(f: real): State
    requires f >= 0.0
  {
    State(Scaled(f), SCALE, 0, 1, 1, 0)
  }

  /** One step of Euclid's algorithm and of the two recurrences it drives. */
  function Step(s: State): State
    requires s.bot > 0
  {
    DivPositive(s.top, s.bot);
    var est := s.top / s.bot;
    State(s.bot, s.top % s.bot, s.ne, s.de, Product(est, s.ne) + s.nl, Product(est, s.de) + s.dl)
  }

  function Product(a: nat, b: nat): nat { a * b }

  lemma DivPositive(a: nat, d: nat)
    requires d > 0
    ensures 0 <= a / d && a == Product(a / d, d) + a % d
  {
  }

  function Abs(x: real): real { if x < 0.0 then -x else x }

  /** Less than one bit of a float from `f`. */
  predicate Close(numer: nat, denom: nat, f: real) {
    denom != 0 && Abs(numer as real / denom as real - f) < 1.0 / 16777216.0
  }

  /** The estimate that is limited has reached its limit. */
  predicate AtLimit(s: State, limit: nat, limitDenom: bool) {
    (if limitDenom then s.de else s.ne) >= limit
  }

  /** The state the search accepts, if it accepts one before the limit is reached. */
  function Search(s: State, f: real, limit: nat, limitDenom: bool): Option<State>
    decreases s.bot
  {
    if AtLimit(s, limit, limitDenom) then None
    else if Close(s.ne, s.de, f) then Some(s)
    else if s.bot == 0 then None
    else Search(Step(s), f, limit, limitDenom)
  }

  /** What is accepted is below the limit, and close. */
  lemma {:induction false} SearchWithin(s: State, f: real, limit: nat, limitDenom: bool)
    ensures var r := Search(s, f, limit, limitDenom);
            r.Some? ==> && (if limitDenom then r.value.de else r.value.ne) < limit && r.value.de > 0
                        && -1.0 < (r.value.ne as real / r.value.de as real - f) * 16777216.0 < 1.0
    decreases s.bot
  {
    hide Step;
    if s.bot > 0 && !AtLimit(s, limit, limitDenom) && !Close(s.ne, s.de, f) {
      StepFalls(s);
      SearchWithin(Step(s), f, limit, limitDenom);
    }
  }

  lemma StepFalls(s: State)
    requires s.bot > 0
    ensures Step(s).bot < s.bot
  {
  }

  // ---------- what every step keeps ----------

  /** The invariants of the search for the fraction `t / SCALE`. */
  ghost predicate Inv(s: State, t: nat) {
    && s.ne * s.top + s.nl * s.bot == t
    && s.de * s.top + s.dl * s.bot == SCALE
    && (s.ne * s.dl - s.nl * s.de == 1 || s.ne * s.dl - s.nl * s.de == -1)
    && (s.de == 0 ==> s == State(t, SCALE, 0, 1, 1, 0)) && (s.de > 0 ==> s.bot < s.top)
  }

  lemma StartInv(f: real)
    requires f >= 0.0
    ensures Inv(Start(f), Scaled(f))
  {
  }

  /** `a * (q * b + r) + c * b`, regrouped. */
  lemma Regroup(a: int, c: int, q: int, b: int, r: int)
    ensures a * (q * b + r) + c * b == (q * a + c) * b + a * r
  {
    var x := q * b;
    assert a * (x + r) == a * x + a * r;
    assert a * x == (q * a) * b;
    var y := q * a;
    assert (y + c) * b == y * b + c * b;
  }

  lemma Cross(ne: int, nl: int, de: int, dl: int, q: int)
    ensures (q * ne + nl) * de - ne * (q * de + dl) == -(ne * dl - nl * de)
  {
    var x, y := q * ne, q * de;
    assert (x + nl) * de == x * de + nl * de;
    assert ne * (y + dl) == ne * y + ne * dl;
    assert x * de == ne * y;
  }

  lemma StepInv(s: State, t: nat)
    requires Inv(s, t) && s.bot > 0
    ensures Inv(Step(s), t) && Step(s).bot < s.bot && Step(s).de > 0
  {
    DivPositive(s.top, s.bot);
    var q, r := s.top / s.bot, s.top % s.bot;
    Regroup(s.ne, s.nl, q, s.bot, r);
    Regroup(s.de, s.dl, q, s.bot, r);
    Cross(s.ne, s.nl, s.de, s.dl, q);
    NextDenominator(s, t);
  }

  /** The denominator is not 0 after the first step. */
  lemma NextDenominator(s: State, t: nat)
    requires Inv(s, t) && s.bot > 0
    ensures Step(s).de > 0
  {
    DivPositive(s.top, s.bot);
    if s.de > 0 {
      var q := s.top / s.bot;
      MulMonotone(s.de, 1, q);
    }
  }

  /** Successive estimates are coprime: any common divisor of numerator and denominator is 1. */
  lemma Coprime(s: State, t: nat, d: nat, a: nat, b: nat)
    requires Inv(s, t) && s.ne == d * a && s.de == d * b
    ensures d == 1
  {
    assert s.ne * s.dl == d * (a * s.dl) by { Assoc(d, a, s.dl); }
    assert s.nl * s.de == d * (b * s.nl) by { Assoc(d, b, s.nl); }
    var x := a * s.dl - b * s.nl;
    assert d * x == s.ne * s.dl - s.nl * s.de;
    if d > 1 {
      if x >= 1 {
        MulMonotone(d, 1, x);
      } else if x <= -1 {
        MulMonotone(d, x, -1);
      }
    }
  }

  lemma Assoc(d: int, a: int, b: int)
    ensures (d * a) * b == d * (a * b)
  {
  }

  /** The estimate misses the scaled target by exactly the remainder. */
  lemma Miss(s: State, t: nat)
    requires Inv(s, t)
    ensures s.ne * SCALE - s.de * t == s.bot || s.ne * SCALE - s.de * t == 0 - s.bot
  {
    CrossTerms(s.ne, s.nl, s.de, s.dl, s.top, s.bot);
    Unit(s.ne * s.dl - s.nl * s.de, s.bot);
  }

  lemma Unit(w: int, b: int)
    ensures w == 1 ==> w * b == b
    ensures w == -1 ==> w * b == -b
  {
  }

  lemma CrossTerms(ne: int, nl: int, de: int, dl: int, top: int, bot: int)
    ensures ne * (de * top + dl * bot) - de * (ne * top + nl * bot) == (ne * dl - nl * de) * bot
  {
    var x, y := de * top, dl * bot;
    assert ne * (x + y) == ne * x + ne * y;
    var u, v := ne * top, nl * bot;
    assert de * (u + v) == de * u + de * v;
    assert ne * x == de * u;
    assert ne * y == (ne * dl) * bot;
    assert de * v == (nl * de) * bot;
    var p, q := ne * dl, nl * de;
    assert (p - q) * bot == p * bot - q * bot;
  }

  /** When the remainder is 0 the estimate is the scaled target itself, which is close enough: the exit for want of
      bits is never taken. */
  lemma ExactIsClose(s: State, f: real)
    requires f >= 0.0 && Inv(s, Scaled(f)) && s.bot == 0
    ensures Close(s.ne, s.de, f)
  {
    var t := Scaled(f);
    Miss(s, t);
    Ratio(s.ne, s.de, t);
    ScaledNear(f);
  }

  lemma ScaledNear(f: real)
    requires f >= 0.0
    ensures Abs(Scaled(f) as real / 33554432.0 - f) < 1.0 / 16777216.0
  {
    var x := f * 33554432.0;
    assert Scaled(f) as real <= x < Scaled(f) as real + 1.0;
  }

  lemma Ratio(ne: nat, de: nat, t: nat)
    requires de > 0 && ne * SCALE == de * t
    ensures ne as real / de as real == t as real / 33554432.0
  {
    var n, d, u := ne as real, de as real, t as real;
    assert n * 33554432.0 == (ne * SCALE) as real;
    assert d * u == (de * t) as real by { ProductAsReal(de, t); }
    Divide(n, d, u);
  }

  lemma ProductAsReal(a: nat, b: nat)
    ensures a as real * b as real == (a * b) as real
  {
  }

  lemma Divide(n: real, d: real, u: real)
    requires d > 0.0 && n * 33554432.0 == d * u
    ensures n / d == u / 33554432.0
  {
    var q := u / 33554432.0;
    assert q * 33554432.0 == u;
    assert n == q * d by { Cancel(n, q * d, d, q); }
    DivideBack(q, d);
  }

  lemma Cancel(n: real, m: real, d: real, q: real)
    requires m == q * d && n * 33554432.0 == d * (q * 33554432.0)
    ensures n == m
  {
    assert d * (q * 33554432.0) == (q * d) * 33554432.0;
  }

  lemma DivideBack(q: real, d: real)
    requires d > 0.0
    ensures (q * d) / d == q
  {
  }

  // ---------- what the search finds ----------

  /** The search accepts only a close fraction below the limit, and gives up only in a state that has reached it. */
  lemma SearchFinds(f: real, limit: nat, limitDenom: bool)
    requires f >= 0.0
    ensures var r := Search(Start(f), f, limit, limitDenom);
            if r.Some? then
              Close(r.value.ne, r.value.de, f) && Inv(r.value, Scaled(f)) && !AtLimit(r.value, limit, limitDenom)
            else exists u: State :: Inv(u, Scaled(f)) && AtLimit(u, limit, limitDenom)
  {
    hide Inv, Close, Step, Search;
    StartInv(f);
    SearchFrom(Start(f), f, limit, limitDenom);
  }

  lemma {:induction false} SearchFrom(s: State, f: real, limit: nat, limitDenom: bool)
    requires f >= 0.0 && Inv(s, Scaled(f))
    ensures var r := Search(s, f, limit, limitDenom);
            r.Some? ==>
              Close(r.value.ne, r.value.de, f) && Inv(r.value, Scaled(f)) && !AtLimit(r.value, limit, limitDenom)
    ensures Search(s, f, limit, limitDenom).None? ==>
            exists u: State :: Inv(u, Scaled(f)) && AtLimit(u, limit, limitDenom)
    decreases s.bot
  {
    hide Inv, Close, Step;
    if AtLimit(s, limit, limitDenom) || Close(s.ne, s.de, f) {
    } else if s.bot == 0 {
      ExactIsClose(s, f);
    } else {
      StepInv(s, Scaled(f));
      SearchFrom(Step(s), f, limit, limitDenom);
    }
  }

  /** A denominator found is at most 2^25, and a numerator at most the scaled target (or 1). */
  lemma FoundBounds(s: State, t: nat)
    requires Inv(s, t)
    ensures s.de <= SCALE && (s.de > 0 ==> s.ne <= t || s.ne == 0)
  {
    if s.de > 0 {
      MulMonotone(s.de, 1, s.top);
      MulMonotone(s.ne, 1, s.top);
      MulMonotone(s.bot, 0, s.dl);
      MulMonotone(s.bot, 0, s.nl);
    }
  }

  // ---------- the function ----------

  /** `(uint32)`. */
  function U32(x: nat): nat { x % WORD }

  lemma U32Small(x: nat)
    requires x < WORD
    ensures U32(x) == x
  {
  }

  /** The loop, over the same state. */
  method SearchLoop(f: real, limit: nat, limitDenom: bool) returns (found: bool, s: State)
    requires f >= 0.0
    ensures found == Search(Start(f), f, limit, limitDenom).Some?
    ensures found ==> s == Search(Start(f), f, limit, limitDenom).value
  {
    hide Close, Step, Inv;
    s := Start(f);
    StartInv(f);
    while true
      invariant Inv(s, Scaled(f)) && Search(s, f, limit, limitDenom) == Search(Start(f), f, limit, limitDenom)
      decreases s.bot
    {
      if AtLimit(s, limit, limitDenom) {
        return false, s;
      }
      if Close(s.ne, s.de, f) {
        return true, s;
      }
      if s.bot == 0 {
        ExactIsClose(s, f);
        assert false;
      }
      StepInv(s, Scaled(f));
      s := Step(s);
    }
  }

  lemma FoundDenominator(s: State, f: real)
    requires Close(s.ne, s.de, f)
    ensures s.de > 0
  {
  }

  lemma SmallScale(f: real)
    requires 0.0 <= f < 128.0
    ensures Scaled(f) < WORD
  {
    assert f * 33554432.0 < 4294967296.0;
  }

  /** Zero is found as 0/1 in two steps. */
  lemma ZeroFound(limit: nat)
    requires limit > 1
    ensures Search(Start(0.0), 0.0, limit, false).Some?
  {
    var s := Start(0.0);
    var t := Step(s);
    assert Scaled(0.0) == 0;
    assert t == State(SCALE, 0, 1, 0, 0, 1);
    assert (0 as real / 1 as real) == 0.0;
    assert Close(0, 1, 0.0);
    assert Search(t, 0.0, limit, false) == Some(t);
  }

  /** A numerator that does not fit its word is never close once it has been cut down to it. */
  lemma WideIsWrong(ne: nat, de: nat, f: real)
    requires Close(ne, de, f) && de <= SCALE && ne >= WORD
    ensures !Close(U32(ne), de, f)
  {
    var m := U32(ne);
    assert ne - m >= WORD;
    var d := de as real;
    var x, y := ne as real / d, m as real / d;
    Difference(ne as real, m as real, d);
    assert Abs(x - f) < 0.5 && Abs(y - f) >= 0.5;
  }

  lemma Difference(a: real, b: real, d: real)
    requires d > 0.0 && a - b > d
    ensures a / d - b / d > 1.0
  {
    var x, y := a / d, b / d;
    assert x * d == a && y * d == b;
    assert (x - y) * d == a - b;
    if x - y <= 1.0 { Grows(x - y, d); }
  }

  lemma Grows(z: real, d: real)
    requires z <= 1.0 && d > 0.0
    ensures z * d <= d
  {
  }

  /** For larger scales it need not fit: the search finds 2^31 + 1/3 exactly, as 6442450945/3, but its numerator
      does not fit 32 bits and what is left of it is not close. */
  lemma WideNumerator() returns (f: real)
    ensures f >= 0.0
    ensures var r := Search(Start(f), f, 1000, true);
            r.Some? && r.value.ne == 6442450945 && r.value.de == 3 && !Close(U32(r.value.ne), r.value.de, f)
  {
    f := 6442450945.0 / 3.0;
    var s := Start(f);
    assert Scaled(f) == 72057594049112746;
    var t := Step(s);
    assert t == State(SCALE, 11184810, 1, 0, 2147483648, 1);
    assert !Close(t.ne, t.de, f);
    var u := Step(t);
    assert u.ne == 6442450945 && u.de == 3;
    assert Close(u.ne, u.de, f);
    assert Search(u, f, 1000, true) == Some(u);
    assert Search(t, f, 1000, true) == Some(u);
    assert U32(u.ne) == 2147483649;
  }

  /** No fraction close to `f` with a denominator below `limit` needs more than 32 bits. */
  predicate InReach(f: real, limit: nat) {
    (f + 1.0 / 16777216.0) * limit as real <= 4294967296.0
  }

  lemma NumeratorBound(ne: nat, de: nat, f: real, limit: nat)
    requires f >= 0.0 && Close(ne, de, f) && de < limit && InReach(f, limit)
    ensures ne < WORD
  {
    var d, e := de as real, f + 1.0 / 16777216.0;
    var x := ne as real / d;
    assert x * d == ne as real;
    assert x < e;
    ProductsLess(x, e, d, limit as real);
    assert (ne as real) < 4294967296.0;
  }

  lemma ProductsLess(x: real, e: real, d: real, l: real)
    requires x < e && 0.0 < d < l && e > 0.0
    ensures x * d < e * l
  {
    assert x * d < e * d;
    assert e * d < e * l;
  }

  /** `stbir__double_to_rational`: the fraction it answers for is within one bit of a float exactly when the
      numerator the search found fits its word.  It does if the numerator is what is limited, if the limit keeps it
      in reach, or if the scale is below 128. */
  method DoubleToRational(f: real, limit: nat, limitDenom: bool) returns (ok: bool, numer: nat, denom: nat)
    requires f >= 0.0 && limit < WORD && (f > 0.0 || limitDenom || limit > 1)
    ensures numer < WORD && denom < WORD
    ensures var r := Search(Start(f), f, limit, limitDenom);
            if r.Some? then ok && numer == U32(r.value.ne) && denom == r.value.de
            else ok == Close(numer, denom, f)
    ensures ok ==> var r := Search(Start(f), f, limit, limitDenom); Close(numer, denom, f) <==>
            r.None? || r.value.ne < WORD
    ensures ok && (f < 128.0 || !limitDenom || InReach(f, limit)) ==> Close(numer, denom, f)
  {
    hide Close, Step, Inv, Search, InReach;
    var found, s := SearchLoop(f, limit, limitDenom);
    StartInv(f);
    SearchFinds(f, limit, limitDenom);
    if found {
      FoundBounds(s, Scaled(f));
      FoundDenominator(s, f);
      U32Small(s.de);
      if s.ne >= WORD { WideIsWrong(s.ne, s.de, f); } else { U32Small(s.ne); }
      if f < 128.0 { SmallScale(f); }
      if InReach(f, limit) && limitDenom { NumeratorBound(s.ne, s.de, f, limit); }
      return true, U32(s.ne), U32(s.de);
    }
    var ne, de;
    if limitDenom {
      ne, de := (f * limit as real + 0.5).Floor, limit;
    } else {
      if f == 0.0 { ZeroFound(limit); }
      ne, de := limit, (limit as real / f + 0.5).Floor;
    }
    numer, denom := U32(ne), U32(de);
    ok := Close(numer, denom, f);
  }
}
