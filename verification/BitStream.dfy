/** A byte string as an endless stream of bits: each byte gives its least
    significant bit first, and past the end every bit is zero. */
module BitStream {
  import opened Bits

  /** Bytes `k` to `k + n - 1`. */
  function Bytes(data: seq<byte>, k: nat, n: nat): (r: seq<byte>)
    ensures |r| == n
  {
    seq<byte>(n, i requires 0 <= i < n => ByteAt(data, k + i))
  }

  function Bit(data: seq<byte>, k: nat): (b: nat)
    ensures b < 2
  {
    if |data| == 0 then 0 else if k < 8 then BitAt(data[0], k) else Bit(data[1..], k - 8)
  }

  /** Bit `i` of byte `k` is bit `8 * k + i` of the stream. */
  lemma {:induction false} BitOfByte(data: seq<byte>, k: nat, i: nat)
    requires i < 8
    ensures Bit(data, 8 * k + i) == BitAt(ByteAt(data, k), i)
  {
    if |data| == 0 {
      ZeroBit(i);
    } else if k > 0 {
      BitOfByte(data[1..], k - 1, i);
    }
  }

  /** The `n` bits from `p` on as a number, the first bit least significant. */
  function Window(data: seq<byte>, p: nat, n: nat): nat
    decreases data, n
  {
    if n == 0 then 0 else 2 * Window(data, p + 1, n - 1) + Bit(data, p)
  }

  /** The `n` bits from `p` on as a number, the first bit most significant. */
  function Msb(data: seq<byte>, p: nat, n: nat): nat {
    if n == 0 then 0 else 2 * Msb(data, p, n - 1) + Bit(data, p + n - 1)
  }

  lemma {:induction false} WindowBound(data: seq<byte>, p: nat, n: nat)
    ensures Window(data, p, n) < Pow2(n)
    decreases n
  {
    if n > 0 { WindowBound(data, p + 1, n - 1); }
  }

  lemma {:induction false} WindowJoin(data: seq<byte>, p: nat, a: nat, b: nat)
    ensures Window(data, p, a + b) == Window(data, p, a) + Shl(Window(data, p + a, b), a)
    decreases a
  {
    if a > 0 { WindowJoin(data, p + 1, a - 1, b); }
  }

  /** Reading the first `a` bits of a window leaves the window of the rest. */
  lemma WindowSplit(data: seq<byte>, p: nat, a: nat, n: nat)
    requires a <= n
    ensures Low(Window(data, p, n), a) == Window(data, p, a)
    ensures Shr(Window(data, p, n), a) == Window(data, p + a, n - a)
  {
    WindowBound(data, p, a);
    WindowJoin(data, p, a, n - a);
    SplitJoin(Window(data, p, a), Window(data, p + a, n - a), a);
  }

  lemma BitOfDouble(w: nat, b: nat, i: nat)
    requires b < 2
    ensures BitAt(2 * w + b, i) == if i == 0 then b else BitAt(w, i - 1)
  {
  }

  lemma {:induction false} WindowBit(data: seq<byte>, p: nat, n: nat, i: nat)
    requires i < n
    ensures BitAt(Window(data, p, n), i) == Bit(data, p + i)
    decreases n
  {
    var w, b := Window(data, p + 1, n - 1), Bit(data, p);
    BitOfDouble(w, b, i);
    if i > 0 { WindowBit(data, p + 1, n - 1, i - 1); }
  }

  lemma {:induction false} ByteWindow(data: seq<byte>, k: nat, i: nat)
    requires i <= 8
    ensures Window(data, 8 * k + i, 8 - i) == Shr(ByteAt(data, k), i)
    decreases 8 - i
  {
    var b := ByteAt(data, k);
    if i == 8 {
      ByteBound(b);
    } else {
      ByteWindow(data, k, i + 1);
      BitOfByte(data, k, i);
      ShrBit(b, i, 0);
      ShrAdd(b, i, 1);
    }
  }

  lemma ByteBound(b: byte)
    ensures b < Pow2(8) && Shr(b, 8) == 0
  {
    Pow2Values();
    ShrBound(b, 8, 0);
  }

  /** Eight bits at a byte boundary are that byte. */
  lemma WindowByte(data: seq<byte>, k: nat)
    ensures Window(data, 8 * k, 8) == ByteAt(data, k)
  {
    ByteWindow(data, k, 0);
  }

  lemma {:induction false} BitPastEnd(data: seq<byte>, k: nat)
    requires k >= 8 * |data|
    ensures Bit(data, k) == 0
  {
    if |data| > 0 { BitPastEnd(data[1..], k - 8); }
  }

  lemma {:induction false} WindowPastEnd(data: seq<byte>, p: nat, n: nat)
    requires p >= 8 * |data|
    ensures Window(data, p, n) == 0
    decreases n
  {
    if n > 0 {
      WindowPastEnd(data, p + 1, n - 1);
      BitPastEnd(data, p);
    }
  }

  /** Reading most significant first is reversing the window. */
  lemma {:induction false} MsbIsRev(data: seq<byte>, p: nat, s: nat, n: nat)
    requires s <= n
    ensures Msb(data, p, s) == Rev(Window(data, p, n), s)
  {
    if s > 0 {
      MsbIsRev(data, p, s - 1, n);
      WindowBit(data, p, n, s - 1);
    }
  }

  /** A byte loaded above `n` bits extends the window by eight. */
  lemma WindowExtended(data: seq<byte>, k: nat, n: nat)
    requires n <= 8 * k
    ensures Or(Window(data, 8 * k - n, n), Shl(ByteAt(data, k), n)) == Window(data, 8 * k - n, n + 8)
  {
    WindowByte(data, k);
    WindowJoin(data, 8 * k - n, n, 8);
    WindowBound(data, 8 * k - n, n);
    OrDisjoint(Window(data, 8 * k - n, n), ByteAt(data, k), n);
  }
}
