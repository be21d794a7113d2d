/** The fixed codes as the table of section 3.2.6 of RFC 1951 lists them. */
module InflateFixed {
  import opened Bits
  import opened BitStream
  import opened Canonical
  import opened PrefixCode
  import opened InflateSpec
  import opened InflateSteps
  import ZLookup

  /** The code of a literal or length, and its number of bits. */
  function ListedLit(z: nat): (nat, nat) {
    if z < 144 then (0x30 + z, 8)
    else if z < 256 then (0x190 + (z - 144), 9)
    else if z < 280 then (z - 256, 7)
    else (0xC0 + (z - 280), 8)
  }

  /** Symbols `m` to `n - 1` all have length `s`, or none has. */
  lemma {:induction false} CountRun(lens: Lengths, s: nat, m: nat, n: nat, all: bool)
    requires m <= n <= |lens| && forall i :: m <= i < n ==> (lens[i] == s <==> all)
    ensures CountUpTo(lens, s, n) == CountUpTo(lens, s, m) + if all then n - m else 0
    decreases n
  {
    hide CountUpTo;
    if m < n {
      CountRun(lens, s, m, n - 1, all);
      CountNext(lens, s, n);
    }
  }

  lemma CountNext(lens: Lengths, s: nat, n: nat)
    requires 0 < n <= |lens|
    ensures CountUpTo(lens, s, n) == CountUpTo(lens, s, n - 1) + if lens[n - 1] == s then 1 else 0
  {
  }

  lemma CountNone(lens: Lengths, s: nat)
    ensures CountUpTo(lens, s, 0) == 0
  {
  }

  /** Of each length, the symbols counted up to each place where the lengths change. */
  lemma LitCounts(s: nat, z: nat)
    requires z <= 288
    ensures CountUpTo(FixedLit(), s, z) ==
            if s == 7 then (if z < 256 then 0 else if z < 280 then z - 256 else 24)
            else if s == 8 then (if z < 144 then z else if z < 280 then 144 else 144 + (z - 280))
            else if s == 9 then (if z < 144 then 0 else if z < 256 then z - 144 else 112)
            else 0
  {
    hide CountUpTo;
    var lit := FixedLit();
    CountNone(lit, s);
    CountRun(lit, s, 0, Min(z, 144), s == 8);
    if z > 144 { CountRun(lit, s, 144, Min(z, 256), s == 9); }
    if z > 256 { CountRun(lit, s, 256, Min(z, 280), s == 7); }
    if z > 280 { CountRun(lit, s, 280, z, s == 8); }
  }

  lemma FirstNext(cnt: Counts, s: nat)
    requires 1 < s <= 16
    ensures First(cnt, s) == 2 * (First(cnt, s - 1) + cnt[s - 1])
  {
  }

  lemma FirstOne(cnt: Counts)
    ensures First(cnt, 1) == 0
  {
  }

  lemma {:induction false} FirstZero(cnt: Counts, s: nat)
    requires 1 <= s <= 16 && forall t :: 1 <= t < s ==> cnt[t] == 0
    ensures First(cnt, s) == 0
  {
    hide First;
    if s == 1 { FirstOne(cnt); } else { FirstZero(cnt, s - 1); FirstNext(cnt, s); }
  }

  lemma CountOf(lens: Lengths, s: nat)
    requires 1 <= s <= 16
    ensures LengthCounts(lens)[s] == CountUpTo(lens, s, |lens|)
  {
  }

  lemma LitFirsts(cnt: Counts)
    requires cnt == LengthCounts(FixedLit())
    ensures First(cnt, 7) == 0 && First(cnt, 8) == 0x30 && First(cnt, 9) == 0x190
  {
    hide First, CountUpTo, LengthCounts, FixedLit;
    assert |FixedLit()| == 288 by { LitSize(); }
    forall t | 1 <= t <= 16 ensures cnt[t] == CountUpTo(FixedLit(), t, 288) { CountOf(FixedLit(), t); }
    forall t | 1 <= t < 7 ensures cnt[t] == 0 { LitCounts(t, 288); }
    LitCounts(7, 288);
    LitCounts(8, 288);
    FirstZero(cnt, 7);
    FirstNext(cnt, 8);
    FirstNext(cnt, 9);
  }

  lemma LitSize()
    ensures |FixedLit()| == 288
  {
  }

  /** Every literal and length has the listed code. */
  lemma FixedCodes(z: nat)
    requires z < 288
    ensures |FixedLit()| == 288 && FixedLit()[z] > 0 && (Code(FixedLit(), z), FixedLit()[z]) == ListedLit(z)
  {
    hide CountUpTo, First, LengthCounts;
    LitFirsts(LengthCounts(FixedLit()));
    LitCounts(FixedLit()[z], z);
  }

  /** Every distance code is its own number, in five bits. */
  lemma FixedDistCodes(d: nat)
    requires d < 32
    ensures |FixedDist()| == 32 && FixedDist()[d] > 0 && (Code(FixedDist(), d), FixedDist()[d]) == (d, 5)
  {
    hide CountUpTo, First, LengthCounts;
    var dist := FixedDist();
    CountNone(dist, 5);
    CountRun(dist, 5, 0, d, true);
    forall t | 1 <= t < 5 ensures LengthCounts(dist)[t] == 0 {
      CountOf(dist, t);
      CountNone(dist, t);
      CountRun(dist, t, 0, 32, false);
    }
    FirstZero(LengthCounts(dist), 5);
  }

  /** A symbol comes next exactly when the bits are its code. */
  lemma ReadsCode(lens: Lengths, data: seq<byte>, p: nat, z: nat)
    requires Kraft(lens) && z < |lens| && lens[z] > 0
    ensures Symbol(lens, data, p) == Some((z, p + lens[z])) <==> Msb(data, p, lens[z]) == Code(lens, z)
  {
    hide Code, Kraft, Symbol;
    MsbIsRev(data, p, lens[z], 15);
    SymbolMatches(lens, data, p, 15);
    if Msb(data, p, lens[z]) == Code(lens, z) {
      ZLookup.SymbolFound(lens, Window(data, p, 15), p, Symbol(lens, data, p), z);
    }
  }

  /** In a fixed block a literal or length comes next exactly when the bits are its listed code. */
  lemma FixedSymbol(data: seq<byte>, p: nat, z: nat)
    requires z < 288
    ensures var (code, n) := ListedLit(z);
            Symbol(FixedLit(), data, p) == Some((z, p + n)) <==> Msb(data, p, n) == code
  {
    hide Code, Kraft, Symbol, FixedLit;
    FixedLitKraft();
    FixedCodes(z);
    ReadsCode(FixedLit(), data, p, z);
  }

  lemma FixedDistance(data: seq<byte>, p: nat, d: nat)
    requires d < 32
    ensures Symbol(FixedDist(), data, p) == Some((d, p + 5)) <==> Msb(data, p, 5) == d
  {
    hide Code, Kraft, Symbol, FixedDist;
    FixedDistKraft();
    FixedDistCodes(d);
    ReadsCode(FixedDist(), data, p, d);
  }

  // ---------- a stream as it is found in files ----------

  /** What zlib makes of the letter `a`. */
  const LETTER: seq<byte> := [0x78, 0xda, 0x4b, 0x04, 0x00, 0x00, 0x62, 0x00, 0x62]

  lemma ByteBits(b: byte)
    ensures b == 0x4b ==> BitAt(b, 0) == BitAt(b, 1) == BitAt(b, 3) == BitAt(b, 6) == 1
    ensures b == 0x4b ==> BitAt(b, 2) == BitAt(b, 4) == BitAt(b, 5) == BitAt(b, 7) == 0
    ensures b == 0x04 ==> BitAt(b, 2) == 1
    ensures b == 0x04 ==> BitAt(b, 0) == BitAt(b, 1) == BitAt(b, 3) == BitAt(b, 4) == 0
    ensures b == 0x04 ==> BitAt(b, 5) == BitAt(b, 6) == BitAt(b, 7) == 0
  {
  }

  lemma LetterBits()
    ensures Bit(LETTER, 16) == 1 && Bit(LETTER, 17) == 1 && Bit(LETTER, 18) == 0
    ensures Bit(LETTER, 19) == 1 && Bit(LETTER, 20) == 0 && Bit(LETTER, 21) == 0 && Bit(LETTER, 22) == 1
    ensures Bit(LETTER, 23) == 0 && Bit(LETTER, 24) == 0 && Bit(LETTER, 25) == 0 && Bit(LETTER, 26) == 1
    ensures forall i: nat :: 27 <= i < 34 ==> Bit(LETTER, i) == 0
  {
    hide Bit, BitAt;
    ByteBits(0x4b);
    ByteBits(0x04);
    forall i: nat | i < 8
      ensures Bit(LETTER, 16 + i) == BitAt(0x4b, i) && Bit(LETTER, 24 + i) == BitAt(0x04, i)
      ensures Bit(LETTER, 32 + i) == 0
    {
      BitOfByte(LETTER, 2, i);
      BitOfByte(LETTER, 3, i);
      BitOfByte(LETTER, 4, i);
      ZeroBit(i);
    }
  }

  /** Eight bits from the first, most significant one on. */
  lemma MsbOf(data: seq<byte>, p: nat, n: nat)
    requires n > 0
    ensures Msb(data, p, n) == 2 * Msb(data, p, n - 1) + Bit(data, p + n - 1) && Msb(data, p, 0) == 0
  {
  }

  lemma LetterCodes()
    ensures Msb(LETTER, 19, 8) == 0x91 && Msb(LETTER, 27, 7) == 0 && Window(LETTER, 17, 2) == 1
  {
    hide Bit, Msb;
    LetterBits();
    MsbOf(LETTER, 19, 1);
    MsbOf(LETTER, 19, 2);
    MsbOf(LETTER, 19, 3);
    MsbOf(LETTER, 19, 4);
    MsbOf(LETTER, 19, 5);
    MsbOf(LETTER, 19, 6);
    MsbOf(LETTER, 19, 7);
    MsbOf(LETTER, 19, 8);
    MsbOf(LETTER, 27, 1);
    MsbOf(LETTER, 27, 2);
    MsbOf(LETTER, 27, 3);
    MsbOf(LETTER, 27, 4);
    MsbOf(LETTER, 27, 5);
    MsbOf(LETTER, 27, 6);
    MsbOf(LETTER, 27, 7);
    assert Window(LETTER, 19, 0) == 0;
    assert Window(LETTER, 18, 1) == 0;
  }

  /** It inflates to that letter, and ends where its block does. */
  lemma LetterInflates(limit: nat)
    requires limit == 8 * |LETTER|
    ensures ZlibHeader(LETTER) && Inflate(LETTER, 16, [], limit) == Done(34, [0x61])
  {
    hide Bit, Msb, Symbol, FixedLit, FixedDist, Window, Stored;
    LetterBits();
    LetterCodes();
    FixedSymbol(LETTER, 19, 0x61);
    FixedSymbol(LETTER, 27, 256);
    var lit, dist := FixedLit(), FixedDist();
    assert TokenAt(lit, dist, LETTER, 27) == Some((EndOfBlock, 34));
    assert Block(lit, dist, LETTER, 27, [0x61], limit) == Done(34, [0x61]);
    assert [] + [0x61] == [0x61];
    assert Block(lit, dist, LETTER, 19, [], limit) == Done(34, [0x61]);
    assert OneBlock(LETTER, 16, [], limit) == Done(34, [0x61]);
  }
}
