/** Unsigned machine words as natural numbers, and the bit operations the image
    headers perform on them.  Shifts move one place at a time, so that every fact
    about them is linear. */
module Bits {

  type byte = x: int | 0 <= x < 256

  datatype Option<+T> = None | Some(value: T)

  function Min(a: int, b: int): int {
    if a < b then a else b
  }

  function Max(a: int, b: int): int {
    if a < b then b else a
  }

  /** Input reads as zeros past its end. */
  function ByteAt(data: seq<byte>, k: nat): byte {
    if k < |data| then data[k] else 0
  }

  function Zeros(n: nat): (r: seq<byte>)
    ensures |r| == n
  {
    seq<byte>(n, i => 0)
  }

  function Pow2(n: nat): (r: nat)
    ensures r > 0
  {
    if n == 0 then 1 else 2 * Pow2(n - 1)
  }

  /** C `x >> n`. */
  function Shr(x: nat, n: nat): nat {
    if n == 0 then x else Shr(x / 2, n - 1)
  }

  /** C `x << n`, in a word wide enough to lose no bit. */
  function Shl(x: nat, n: nat): nat {
    if n == 0 then x else 2 * Shl(x, n - 1)
  }

  /** The low `n` bits of `x`: `x & ((1 << n) - 1)`. */
  function Low(x: nat, n: nat): nat {
    if n == 0 then 0 else 2 * Low(x / 2, n - 1) + x % 2
  }

  /** C `a & b`. */
  function And(a: nat, b: nat): nat {
    if a == 0 || b == 0 then 0
    else 2 * And(a / 2, b / 2) + (if a % 2 == 1 && b % 2 == 1 then 1 else 0)
  }

  /** C `a | b`. */
  function Or(a: nat, b: nat): nat
    decreases a + b
  {
    if a == 0 then b
    else if b == 0 then a
    else 2 * Or(a / 2, b / 2) + (if a % 2 == 1 || b % 2 == 1 then 1 else 0)
  }

  /** C `a ^ b`. */
  function Xor(a: nat, b: nat): nat
    decreases a + b
  {
    if a == 0 then b
    else if b == 0 then a
    else 2 * Xor(a / 2, b / 2) + (if a % 2 != b % 2 then 1 else 0)
  }

  /** Bit `i` of `n`, counting from the least significant. */
  function BitAt(n: nat, i: nat): (r: nat)
    ensures r < 2
  {
    if i == 0 then n % 2 else BitAt(n / 2, i - 1)
  }

  /** The `n` low bits of `v` read in the opposite order. */
  function Rev(v: nat, n: nat): nat {
    if n == 0 then 0 else 2 * Rev(v, n - 1) + BitAt(v, n - 1)
  }

  // ---------- powers of two ----------

  lemma {:induction false} Pow2Monotone(a: nat, b: nat)
    requires a <= b
    ensures Pow2(a) <= Pow2(b)
    decreases b - a
  {
    if a < b { Pow2Monotone(a + 1, b); }
  }

  lemma Pow2Values()
    ensures Pow2(0) == 1 && Pow2(1) == 2 && Pow2(2) == 4 && Pow2(3) == 8 && Pow2(4) == 16
    ensures Pow2(5) == 32 && Pow2(6) == 64 && Pow2(7) == 128 && Pow2(8) == 256 && Pow2(9) == 512
    ensures Pow2(10) == 1024 && Pow2(11) == 2048 && Pow2(12) == 4096 && Pow2(13) == 8192
    ensures Pow2(14) == 16384 && Pow2(15) == 32768 && Pow2(16) == 65536
  {
    assert Pow2(8) == 256;
  }

  lemma {:induction false} ShlOne(n: nat)
    ensures Shl(1, n) == Pow2(n)
  {
    if n > 0 { ShlOne(n - 1); }
  }

  // ---------- division ----------

  lemma MulMonotone(d: int, a: int, b: int)
    requires a <= b && 0 <= d
    ensures a * d <= b * d
  {
  }

  /** Quotient and remainder are unique. */
  lemma DivMod(q: int, r: int, d: int)
    requires 0 <= r < d
    ensures (q * d + r) / d == q && (q * d + r) % d == r
  {
    var x := q * d + r;
    var q', r' := x / d, x % d;
    assert (q - q') * d == r' - r;
    if q < q' {
      MulMonotone(d, q - q', -1);
    } else if q > q' {
      MulMonotone(d, 1, q - q');
    }
  }

  // ---------- products of two variables ----------

  /** C `k % m`. */
  function Remainder(k: nat, m: nat): (r: nat)
    requires m > 0
    ensures r < m
  {
    k % m
  }

  /** `a * b`, by repeated addition. */
  function Times(a: nat, b: nat): nat {
    if a == 0 then 0 else Times(a - 1, b) + b
  }

  lemma {:induction false} TimesIsProduct(a: nat, b: nat)
    ensures Times(a, b) == a * b
  {
    if a > 0 { TimesIsProduct(a - 1, b); }
  }

  lemma {:induction false} TimesAdd(a: nat, c: nat, b: nat)
    ensures Times(a + c, b) == Times(a, b) + Times(c, b)
  {
    if c > 0 { TimesAdd(a, c - 1, b); }
  }

  lemma TimesLess(a: nat, c: nat, b: nat)
    ensures a < c ==> Times(a, b) + b <= Times(c, b)
    ensures b > 0 ==> (a < c <==> Times(a, b) < Times(c, b))
  {
    if a < c {
      TimesAdd(a + 1, c - a - 1, b);
    } else {
      TimesAdd(c, a - c, b);
    }
  }

  lemma {:induction false} TimesFour(a: nat, b: nat)
    ensures Times(a, 4 * b) == 4 * Times(a, b)
  {
    if a > 0 { TimesFour(a - 1, b); }
  }

  // ---------- shifting ----------

  lemma {:induction false} ZeroShl(n: nat)
    ensures Shl(0, n) == 0
  {
    if n > 0 { ZeroShl(n - 1); }
  }

  lemma {:induction false} ShlIsProduct(x: nat, n: nat)
    ensures Shl(x, n) == x * Pow2(n)
  {
    if n > 0 { ShlIsProduct(x, n - 1); }
  }

  lemma {:induction false} ShrAdd(x: nat, a: nat, b: nat)
    ensures Shr(Shr(x, a), b) == Shr(x, a + b)
    decreases a
  {
    if a > 0 { ShrAdd(x / 2, a - 1, b); }
  }

  lemma {:induction false} ShlAdd(x: nat, a: nat, b: nat)
    ensures Shl(Shl(x, a), b) == Shl(x, a + b)
  {
    if b > 0 { ShlAdd(x, a, b - 1); }
  }

  lemma {:induction false} ShlSum(x: nat, y: nat, n: nat)
    ensures Shl(x + y, n) == Shl(x, n) + Shl(y, n)
  {
    if n > 0 { ShlSum(x, y, n - 1); }
  }

  lemma {:induction false} ShlMonotone(x: nat, y: nat, n: nat)
    ensures x <= y ==> Shl(x, n) <= Shl(y, n)
    ensures x < y ==> Shl(x, n) < Shl(y, n)
  {
    if n > 0 { ShlMonotone(x, y, n - 1); }
  }

  /** Joining low bits and shifted high bits is undone by `Low` and `Shr`. */
  lemma {:induction false} SplitJoin(low: nat, high: nat, n: nat)
    requires low < Pow2(n)
    ensures Low(low + Shl(high, n), n) == low
    ensures Shr(low + Shl(high, n), n) == high
  {
    if n > 0 {
      SplitJoin(low / 2, high, n - 1);
      assert (low + Shl(high, n)) / 2 == low / 2 + Shl(high, n - 1);
    }
  }

  lemma {:induction false} JoinSplit(x: nat, n: nat)
    ensures Low(x, n) < Pow2(n)
    ensures x == Low(x, n) + Shl(Shr(x, n), n)
  {
    if n > 0 { JoinSplit(x / 2, n - 1); }
  }

  lemma {:induction false} ShrBound(x: nat, n: nat, k: nat)
    requires x < Pow2(n + k)
    ensures Shr(x, n) < Pow2(k)
  {
    if n > 0 { ShrBound(x / 2, n - 1, k); }
  }

  lemma {:induction false} ShlBound(a: nat, b: nat, w: nat, t: nat)
    requires a < Pow2(w) && b < Pow2(t)
    ensures a + Shl(b, w) < Pow2(w + t)
    decreases w
  {
    if w > 0 { ShlBound(a / 2, b, w - 1, t); }
  }

  /** A comparison of a word with a shifted bound looks only at its high bits. */
  lemma ShrCompare(x: nat, c: nat, n: nat)
    ensures Shr(x, n) < c <==> x < Shl(c, n)
  {
    JoinSplit(x, n);
    var h := Shr(x, n);
    if h < c {
      ShlMonotone(h + 1, c, n);
      ShlSum(h, 1, n);
      ShlOne(n);
    } else {
      ShlMonotone(c, h, n);
    }
  }

  lemma {:induction false} LowLow(x: nat, a: nat, b: nat)
    requires a <= b
    ensures Low(Low(x, b), a) == Low(x, a)
  {
    if a > 0 { LowLow(x / 2, a - 1, b - 1); }
  }

  // ---------- bits of words ----------

  lemma {:induction false} ZeroBit(i: nat)
    ensures BitAt(0, i) == 0
  {
    if i > 0 { ZeroBit(i - 1); }
  }

  lemma {:induction false} AndBit(a: nat, b: nat, i: nat)
    ensures BitAt(And(a, b), i) == if BitAt(a, i) == 1 && BitAt(b, i) == 1 then 1 else 0
  {
    if a == 0 || b == 0 {
      ZeroBit(i);
    } else if i > 0 {
      AndBit(a / 2, b / 2, i - 1);
    }
  }

  lemma {:induction false} OrBit(a: nat, b: nat, i: nat)
    ensures BitAt(Or(a, b), i) == if BitAt(a, i) == 1 || BitAt(b, i) == 1 then 1 else 0
    decreases i
  {
    if a == 0 || b == 0 {
      ZeroBit(i);
    } else if i > 0 {
      OrBit(a / 2, b / 2, i - 1);
    }
  }

  lemma {:induction false} ShrBit(n: nat, k: nat, i: nat)
    ensures BitAt(Shr(n, k), i) == BitAt(n, i + k)
    decreases k
  {
    if k > 0 { ShrBit(n / 2, k - 1, i); }
  }

  lemma {:induction false} ShlBit(n: nat, k: nat, i: nat)
    ensures BitAt(Shl(n, k), i) == if i < k then 0 else BitAt(n, i - k)
    decreases k
  {
    if k > 0 && i > 0 { ShlBit(n, k - 1, i - 1); }
  }

  lemma {:induction false} LowBit(x: nat, n: nat, i: nat)
    requires i < n
    ensures BitAt(Low(x, n), i) == BitAt(x, i)
  {
    if i > 0 { LowBit(x / 2, n - 1, i - 1); }
  }

  lemma {:induction false} SameBits(a: nat, b: nat, n: nat)
    requires a < Pow2(n) && b < Pow2(n)
    requires forall i :: 0 <= i < n ==> BitAt(a, i) == BitAt(b, i)
    ensures a == b
  {
    if n > 0 {
      assert BitAt(a, 0) == BitAt(b, 0);
      forall i | 0 <= i < n - 1 ensures BitAt(a / 2, i) == BitAt(b / 2, i) {
        assert BitAt(a, i + 1) == BitAt(b, i + 1);
      }
      SameBits(a / 2, b / 2, n - 1);
    }
  }

  lemma {:induction false} LowIdentity(x: nat, n: nat)
    requires x < Pow2(n)
    ensures Low(x, n) == x
  {
    if n > 0 { LowIdentity(x / 2, n - 1); }
  }

  // ---------- reversal ----------

  lemma {:induction false} RevBound(v: nat, n: nat)
    ensures Rev(v, n) < Pow2(n)
  {
    if n > 0 { RevBound(v, n - 1); }
  }

  lemma {:induction false} RevBit(v: nat, n: nat, i: nat)
    requires i < n
    ensures BitAt(Rev(v, n), i) == BitAt(v, n - 1 - i)
  {
    LastBit(Rev(v, n - 1), BitAt(v, n - 1), i);
    if i > 0 { RevBit(v, n - 1, i - 1); }
  }

  lemma LastBit(x: nat, b: nat, i: nat)
    requires b < 2
    ensures BitAt(2 * x + b, i) == if i == 0 then b else BitAt(x, i - 1)
  {
  }

  /** The leading `s` of `n` reversed bits are the reversal of the low `s` bits. */
  lemma {:induction false} RevPrefix(v: nat, s: nat, n: nat)
    requires s <= n
    ensures Shr(Rev(v, n), n - s) == Rev(v, s)
    decreases n
  {
    if s < n { RevPrefix(v, s, n - 1); }
  }

  lemma {:induction false} RevLow(v: nat, s: nat, n: nat)
    requires s <= n
    ensures Rev(Low(v, n), s) == Rev(v, s)
  {
    if s > 0 {
      RevLow(v, s - 1, n);
      LowBit(v, n, s - 1);
    }
  }

  /** Reversing twice restores a word of `n` bits. */
  lemma RevRev(v: nat, n: nat)
    requires v < Pow2(n)
    ensures Rev(Rev(v, n), n) == v
  {
    RevBound(Rev(v, n), n);
    forall i | 0 <= i < n ensures BitAt(Rev(Rev(v, n), n), i) == BitAt(v, i) {
      RevBit(Rev(v, n), n, i);
      RevBit(v, n, n - 1 - i);
    }
    SameBits(Rev(Rev(v, n), n), v, n);
  }

  // ---------- masks and disjoint or ----------

  lemma {:induction false} AndMask(x: nat, m: nat, n: nat)
    requires m == Pow2(n) - 1
    ensures And(x, m) == Low(x, n)
  {
    if n > 0 {
      AndMask(x / 2, m / 2, n - 1);
      if x == 0 { LowIdentity(0, n); }
    }
  }

  lemma {:induction false} OrCommutes(a: nat, b: nat)
    ensures Or(a, b) == Or(b, a)
    decreases a
  {
    if a != 0 && b != 0 { OrCommutes(a / 2, b / 2); }
  }

  lemma {:induction false} OrZero(a: nat)
    ensures Or(a, 0) == a
  {
    if a > 0 { OrZero(a / 2); }
  }

  lemma {:induction false} OrDisjoint(a: nat, b: nat, k: nat)
    requires a < Pow2(k)
    ensures Or(a, Shl(b, k)) == a + Shl(b, k)
    decreases k
  {
    if a != 0 { OrDisjoint(a / 2, b, k - 1); }
  }

  lemma {:induction false} XorMask(x: nat, m: nat, n: nat)
    requires m == Pow2(n) - 1 && x < Pow2(n)
    ensures Xor(x, m) == m - x
  {
    if n > 0 { XorMask(x / 2, m / 2, n - 1); }
  }

  lemma {:induction false} OrBound(a: nat, b: nat, n: nat)
    requires a < Pow2(n) && b < Pow2(n)
    ensures Or(a, b) < Pow2(n)
  {
    if a != 0 && b != 0 { OrBound(a / 2, b / 2, n - 1); }
  }

  lemma {:induction false} AndBound(a: nat, b: nat)
    ensures And(a, b) <= b
  {
    if a != 0 && b != 0 { AndBound(a / 2, b / 2); }
  }

  // ---------- a word shifted left, losing bits at the top ----------

  /** The top `d` bits of the low `n` bits of `b << s`. */
  lemma ShiftedTop(b: nat, s: nat, d: nat, n: nat)
    requires s + d <= n
    ensures Shr(Low(Shl(b, s), n), n - d) == Low(Shr(b, n - d - s), d)
  {
    hide Shr, Shl, Low;
    var l, r := Shr(Low(Shl(b, s), n), n - d), Low(Shr(b, n - d - s), d);
    JoinSplit(Shl(b, s), n);
    ShrBound(Low(Shl(b, s), n), n - d, d);
    JoinSplit(Shr(b, n - d - s), d);
    forall i | 0 <= i < d ensures BitAt(l, i) == BitAt(r, i) {
      ShrBit(Low(Shl(b, s), n), n - d, i);
      LowBit(Shl(b, s), n, i + n - d);
      ShlBit(b, s, i + n - d);
      LowBit(Shr(b, n - d - s), d, i);
      ShrBit(b, n - d - s, i);
    }
    SameBits(l, r, d);
  }

  /** Shifting twice is shifting once. */
  lemma ShiftedMore(b: nat, s: nat, d: nat, n: nat)
    ensures Low(Shl(Low(Shl(b, s), n), d), n) == Low(Shl(b, s + d), n)
  {
    hide Shr, Shl, Low;
    var l, r := Low(Shl(Low(Shl(b, s), n), d), n), Low(Shl(b, s + d), n);
    JoinSplit(Shl(Low(Shl(b, s), n), d), n);
    JoinSplit(Shl(b, s + d), n);
    forall i | 0 <= i < n ensures BitAt(l, i) == BitAt(r, i) {
      LowBit(Shl(Low(Shl(b, s), n), d), n, i);
      ShlBit(Low(Shl(b, s), n), d, i);
      LowBit(Shl(b, s + d), n, i);
      ShlBit(b, s + d, i);
      if i >= d {
        LowBit(Shl(b, s), n, i - d);
        ShlBit(b, s, i - d);
      }
    }
    SameBits(l, r, n);
  }
}
