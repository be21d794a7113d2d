/** The mask-and-shift reversal network of the zlib decoder. */
module BitReversal {
  import opened Bits

  /** One round: exchange the groups the two masks select, `k` bits apart. */
  function Exchange(n: nat, hi: nat, lo: nat, k: nat): nat {
    Or(Shr(And(n, hi), k), Shl(And(n, lo), k))
  }

  /** `stbi__bitreverse16`: rounds that exchange neighbouring groups of 1, 2, 4 and 8 bits. */
  function BitReverse16(n0: nat): nat {
    var n1 := Exchange(n0, 0xAAAA, 0x5555, 1);
    var n2 := Exchange(n1, 0xCCCC, 0x3333, 2);
    var n3 := Exchange(n2, 0xF0F0, 0x0F0F, 4);
    Exchange(n3, 0xFF00, 0x00FF, 8)
  }

  /** `stbi__bit_reverse`: reverse sixteen bits, then shift the unwanted ones away. */
  function BitReverse(v: nat, bits: nat): nat
    requires bits <= 16
  {
    Shr(BitReverse16(v), 16 - bits)
  }

  /** Bit `i` lies in a group of odd number when bits are grouped by `k`. */
  predicate OddGroup(i: nat, k: nat) {
    if k == 1 then i % 2 == 1
    else if k == 2 then i / 2 % 2 == 1
    else if k == 4 then i / 4 % 2 == 1
    else i / 8 % 2 == 1
  }

  /** Bits `i` to 15 of the mask that selects the odd (or even) groups of `k` bits. */
  function Mask(k: nat, odd: bool, i: nat): nat
    decreases 16 - i
  {
    if i >= 16 then 0 else 2 * Mask(k, odd, i + 1) + (if OddGroup(i, k) == odd then 1 else 0)
  }

  lemma {:induction false} MaskBit(k: nat, odd: bool, i: nat, j: nat)
    requires i <= j
    ensures BitAt(Mask(k, odd, i), j - i) == 1 <==> j < 16 && OddGroup(j, k) == odd
    decreases j - i
  {
    if i >= 16 {
      ZeroBit(j - i);
    } else if i < j {
      MaskBit(k, odd, i + 1, j);
    }
  }

  /** Mask `m` selects, among 16 bits, the groups of `k` bits whose number is odd (or even). */
  ghost predicate Selects(m: nat, k: nat, odd: bool) {
    forall j: nat :: BitAt(m, j) == 1 <==> j < 16 && OddGroup(j, k) == odd
  }

  lemma MaskSelects(m: nat, k: nat, odd: bool)
    requires m == Mask(k, odd, 0)
    ensures Selects(m, k, odd)
  {
    forall j: nat ensures BitAt(m, j) == 1 <==> j < 16 && OddGroup(j, k) == odd {
      MaskBit(k, odd, 0, j);
    }
  }

  lemma Masks1()
    ensures Mask(1, true, 0) == 0xAAAA && Mask(1, false, 0) == 0x5555
  {
    assert Mask(1, true, 12) == 0xA && Mask(1, true, 8) == 0xAA && Mask(1, true, 4) == 0xAAA;
    assert Mask(1, false, 12) == 0x5 && Mask(1, false, 8) == 0x55 && Mask(1, false, 4) == 0x555;
  }

  lemma Masks2()
    ensures Mask(2, true, 0) == 0xCCCC && Mask(2, false, 0) == 0x3333
  {
    assert Mask(2, true, 12) == 0xC && Mask(2, true, 8) == 0xCC && Mask(2, true, 4) == 0xCCC;
    assert Mask(2, false, 12) == 0x3 && Mask(2, false, 8) == 0x33 && Mask(2, false, 4) == 0x333;
  }

  lemma Masks4()
    ensures Mask(4, true, 0) == 0xF0F0 && Mask(4, false, 0) == 0x0F0F
  {
    assert Mask(4, true, 12) == 0xF && Mask(4, true, 8) == 0xF0 && Mask(4, true, 4) == 0xF0F;
    assert Mask(4, false, 12) == 0x0 && Mask(4, false, 8) == 0x0F && Mask(4, false, 4) == 0x0F0;
  }

  lemma Masks8()
    ensures Mask(8, true, 0) == 0xFF00 && Mask(8, false, 0) == 0x00FF
  {
    assert Mask(8, true, 12) == 0xF && Mask(8, true, 8) == 0xFF && Mask(8, true, 4) == 0xFF0;
    assert Mask(8, false, 12) == 0 && Mask(8, false, 8) == 0 && Mask(8, false, 4) == 0x00F;
  }

  /** The mate of bit `i` in the round that exchanges groups of `k` bits. */
  function Mate(i: nat, k: nat): nat {
    if OddGroup(i, k) && i >= k then i - k else i + k
  }

  lemma MateGroups(i: nat, k: nat)
    requires k == 1 || k == 2 || k == 4 || k == 8
    requires i < 16
    ensures OddGroup(i + k, k) == !OddGroup(i, k)
    ensures i >= k ==> OddGroup(i - k, k) == !OddGroup(i, k)
    ensures if OddGroup(i, k) then i >= k else i + k < 16
  {
    if k == 1 {
    } else if k == 2 {
    } else if k == 4 {
    } else {
    }
  }

  lemma ExchangeBit(n: nat, hi: nat, lo: nat, k: nat, i: nat)
    ensures BitAt(Exchange(n, hi, lo, k), i) ==
            if BitAt(hi, i + k) == 1 && BitAt(n, i + k) == 1 then 1
            else if i >= k && BitAt(lo, i - k) == 1 then BitAt(n, i - k) else 0
  {
    OrBit(Shr(And(n, hi), k), Shl(And(n, lo), k), i);
    ShrBit(And(n, hi), k, i);
    ShlBit(And(n, lo), k, i);
    AndBit(n, hi, i + k);
    if i >= k { AndBit(n, lo, i - k); }
  }

  lemma RoundBit(n: nat, hi: nat, lo: nat, k: nat, i: nat)
    requires k == 1 || k == 2 || k == 4 || k == 8
    requires hi == Mask(k, true, 0) && lo == Mask(k, false, 0) && i < 16
    ensures BitAt(Exchange(n, hi, lo, k), i) == BitAt(n, Mate(i, k))
  {
    MaskSelects(hi, k, true);
    MaskSelects(lo, k, false);
    MateGroups(i, k);
    ExchangeBit(n, hi, lo, k, i);
  }

  lemma FourMates(i: nat)
    requires i < 16
    ensures Mate(i, 8) < 16 && Mate(Mate(i, 8), 4) < 16 && Mate(Mate(Mate(i, 8), 4), 2) < 16
    ensures Mate(Mate(Mate(Mate(i, 8), 4), 2), 1) == 15 - i
  {
  }

  lemma LastRounds(n2: nat, i: nat)
    requires i < 16
    ensures var n3 := Exchange(n2, 0xF0F0, 0x0F0F, 4);
            BitAt(Exchange(n3, 0xFF00, 0x00FF, 8), i) == BitAt(n2, Mate(Mate(i, 8), 4))
  {
    var n3 := Exchange(n2, 0xF0F0, 0x0F0F, 4);
    FourMates(i);
    Masks8();
    RoundBit(n3, 0xFF00, 0x00FF, 8, i);
    Masks4();
    RoundBit(n2, 0xF0F0, 0x0F0F, 4, Mate(i, 8));
  }

  lemma FirstRounds(v: nat, i: nat)
    requires i < 16 && Mate(i, 2) < 16
    ensures var n1 := Exchange(v, 0xAAAA, 0x5555, 1);
            BitAt(Exchange(n1, 0xCCCC, 0x3333, 2), i) == BitAt(v, Mate(Mate(i, 2), 1))
  {
    var n1 := Exchange(v, 0xAAAA, 0x5555, 1);
    Masks2();
    RoundBit(n1, 0xCCCC, 0x3333, 2, i);
    Masks1();
    RoundBit(v, 0xAAAA, 0x5555, 1, Mate(i, 2));
  }

  lemma BitReverse16Bit(v: nat, i: nat)
    requires i < 16
    ensures BitAt(BitReverse16(v), i) == BitAt(v, 15 - i)
  {
    var n1 := Exchange(v, 0xAAAA, 0x5555, 1);
    var n2 := Exchange(n1, 0xCCCC, 0x3333, 2);
    FourMates(i);
    FirstRounds(v, Mate(Mate(i, 8), 4));
    LastRounds(n2, i);
  }

  lemma BitReverse16Bound(v: nat)
    ensures BitReverse16(v) < Pow2(16)
  {
    var n1 := Exchange(v, 0xAAAA, 0x5555, 1);
    var n2 := Exchange(n1, 0xCCCC, 0x3333, 2);
    var n3 := Exchange(n2, 0xF0F0, 0x0F0F, 4);
    Pow2Values();
    AndBound(n3, 0xFF00);
    AndBound(n3, 0x00FF);
    ShrBound(And(n3, 0xFF00), 8, 8);
    ShlMonotone(And(n3, 0x00FF), 0x00FF, 8);
    assert Shl(0x00FF, 8) == 0xFF00;
    OrBound(Shr(And(n3, 0xFF00), 8), Shl(And(n3, 0x00FF), 8), 16);
  }

  /** The network reverses the low sixteen bits of any word. */
  lemma BitReverse16Reverses(v: nat)
    ensures BitReverse16(v) == Rev(v, 16)
  {
    BitReverse16Bound(v);
    RevBound(v, 16);
    forall i | 0 <= i < 16 ensures BitAt(BitReverse16(v), i) == BitAt(Rev(v, 16), i) {
      BitReverse16Bit(v, i);
      RevBit(v, 16, i);
    }
    SameBits(BitReverse16(v), Rev(v, 16), 16);
  }

  /** `BitReverse` reads the low `bits` bits of any word, up to sixteen, in the opposite order. */
  lemma BitReverseReverses(v: nat, bits: nat)
    requires bits <= 16
    ensures BitReverse(v, bits) == Rev(v, bits)
  {
    BitReverse16Reverses(v);
    RevPrefix(v, bits, 16);
  }
}
