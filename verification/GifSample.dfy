/** A raster worked out by hand from Appendix F of the GIF89a specification. */
module GifSample {
  import opened Bits
  import opened BitStream
  import opened GifLzw
  import opened GifBlocks

  /** Codes 4, 1, 6, 6 in three bits each and, the table having filled eight codes, 2, 7, 5 in four: clear, a byte, the
      entry being made, the same again, another byte, the entry made last in three bits, end. */
  const PAYLOAD: seq<byte> := [0x8C, 0x2D, 0x57]

  lemma ThreeBits(data: seq<byte>, p: nat)
    ensures Window(data, p, 3) == Bit(data, p) + 2 * Bit(data, p + 1) + 4 * Bit(data, p + 2)
  {
    hide Bit;
    assert Window(data, p + 3, 0) == 0;
    assert Window(data, p + 2, 1) == Bit(data, p + 2);
    assert Window(data, p + 1, 2) == 2 * Window(data, p + 2, 1) + Bit(data, p + 1);
  }

  lemma FourBits(data: seq<byte>, p: nat)
    ensures Window(data, p, 4) == Bit(data, p) + 2 * Window(data, p + 1, 3)
  {
  }

  lemma ByteBits()
    ensures BitAt(0x8C, 2) == BitAt(0x8C, 3) == BitAt(0x8C, 7) == 1
    ensures BitAt(0x8C, 0) == BitAt(0x8C, 1) == BitAt(0x8C, 4) == BitAt(0x8C, 5) == BitAt(0x8C, 6) == 0
    ensures BitAt(0x2D, 0) == BitAt(0x2D, 2) == BitAt(0x2D, 3) == BitAt(0x2D, 5) == 1
    ensures BitAt(0x2D, 1) == BitAt(0x2D, 4) == BitAt(0x2D, 6) == BitAt(0x2D, 7) == 0
    ensures BitAt(0x57, 0) == BitAt(0x57, 1) == BitAt(0x57, 2) == BitAt(0x57, 4) == BitAt(0x57, 6) == 1
    ensures BitAt(0x57, 3) == BitAt(0x57, 5) == BitAt(0x57, 7) == 0
  {
  }

  lemma PayloadBits()
    ensures forall k: nat {:trigger Bit(PAYLOAD, k)} :: k < 24 ==>
              Bit(PAYLOAD, k) == if k in {2, 3, 7, 8, 10, 11, 13, 16, 17, 18, 20, 22} then 1 else 0
  {
    hide Bit, BitAt;
    ByteBits();
    forall k: nat {:trigger Bit(PAYLOAD, k)} | k < 24
      ensures Bit(PAYLOAD, k) == if k in {2, 3, 7, 8, 10, 11, 13, 16, 17, 18, 20, 22} then 1 else 0
    {
      BitOfByte(PAYLOAD, k / 8, k % 8);
    }
  }

  lemma PayloadCodes()
    ensures Window(PAYLOAD, 0, 3) == 4 && Window(PAYLOAD, 3, 3) == 1
    ensures Window(PAYLOAD, 6, 3) == 6 && Window(PAYLOAD, 9, 3) == 6
    ensures Window(PAYLOAD, 12, 4) == 2 && Window(PAYLOAD, 16, 4) == 7 && Window(PAYLOAD, 20, 4) == 5
  {
    hide Bit, Window;
    PayloadBits();
    ThreeBits(PAYLOAD, 0);
    ThreeBits(PAYLOAD, 3);
    ThreeBits(PAYLOAD, 6);
    ThreeBits(PAYLOAD, 9);
    ThreeBits(PAYLOAD, 13);
    FourBits(PAYLOAD, 12);
    ThreeBits(PAYLOAD, 17);
    FourBits(PAYLOAD, 16);
    ThreeBits(PAYLOAD, 21);
    FourBits(PAYLOAD, 20);
  }

  function Entries(n: nat): (e: seq<Str>)
    requires n <= 4
  {
    [[1, 1], [1, 1, 1], [1, 1, 2], [2, 1]][..n]
  }

  /** A code with its string, the entry it makes, and the width it leaves. */
  lemma OneStep(n: nat, width: nat, prev: Str, code: nat, s: Str, width': nat)
    requires n < 4 && prev != [] && (width == 3 || width == 4) && code != 4 && code != 5 && code <= 6 + n && s != []
    requires Entries(n + 1)[n] == prev + [s[0]]
    requires s == if code < 4 then [code % 256] else Entries(n + 1)[code - 6]
    requires width' == Widened(7 + n, width)
    ensures TakeCode(2, State(Entries(n), width, prev, true), code) ==
            Next(State(Entries(n + 1), width', s, true), s)
  {
    assert Pow2(2) == 4;
    assert Entries(n + 1) == Entries(n) + [prev + [s[0]]];
    var known := if code == 6 + n then prev else StringOf(2, Entries(n), code);
    assert known[0] == s[0];
  }

  lemma Widths()
    ensures Widened(6, 3) == 3 && Widened(7, 3) == 3 && Widened(8, 3) == 4 && Widened(9, 4) == 4 && Widened(10, 4) == 4
  {
  }

  lemma FirstSteps()
    ensures TakeCode(2, Start(2), 4) == Next(State(Entries(0), 3, [], true), [])
    ensures TakeCode(2, State(Entries(0), 3, [], true), 1) == Next(State(Entries(0), 3, [1], true), [1])
    ensures TakeCode(2, State(Entries(4), 4, [1, 1, 1], true), 5) == Stop
  {
    assert Pow2(2) == 4;
    Widths();
  }

  /** The nine indices of a small image. */
  lemma PayloadDecodes()
    ensures Run(2, PAYLOAD, 0, Start(2)) == ([1, 1, 1, 1, 1, 2, 1, 1, 1], true)
  {
    hide Window, TakeCode, Widened;
    PayloadCodes();
    Widths();
    FirstSteps();
    OneStep(0, 3, [1], 6, [1, 1], 3);
    OneStep(1, 3, [1, 1], 6, [1, 1], 4);
    OneStep(2, 4, [1, 1], 2, [2], 4);
    OneStep(3, 4, [2], 7, [1, 1, 1], 4);
    assert Run(2, PAYLOAD, 20, State(Entries(4), 4, [1, 1, 1], true)) == ([], true);
    OneCode(16, State(Entries(3), 4, [2], true), State(Entries(4), 4, [1, 1, 1], true), [1, 1, 1], [], [1, 1, 1]);
    OneCode(12, State(Entries(2), 4, [1, 1], true), State(Entries(3), 4, [2], true), [2], [1, 1, 1], [2, 1, 1, 1]);
    OneCode(9, State(Entries(1), 3, [1, 1], true), State(Entries(2), 4, [1, 1], true), [1, 1], [2, 1, 1, 1],
      [1, 1, 2, 1, 1, 1]);
    OneCode(6, State(Entries(0), 3, [1], true), State(Entries(1), 3, [1, 1], true), [1, 1], [1, 1, 2, 1, 1, 1],
      [1, 1, 1, 1, 2, 1, 1, 1]);
    OneCode(3, State(Entries(0), 3, [], true), State(Entries(0), 3, [1], true), [1], [1, 1, 1, 1, 2, 1, 1, 1],
      [1, 1, 1, 1, 1, 2, 1, 1, 1]);
    OneCode(0, Start(2), State(Entries(0), 3, [], true), [], [1, 1, 1, 1, 1, 2, 1, 1, 1], [1, 1, 1, 1, 1, 2, 1, 1, 1]);
  }

  lemma OneCode(p: nat, st: State, next: State, s: Str, t: Str, r: Str)
    requires NonEmpty(st.entries) && st.width > 0 && p + st.width <= 24
    requires TakeCode(2, st, Window(PAYLOAD, p, st.width)) == Next(next, s)
    requires Run(2, PAYLOAD, p + st.width, next) == (t, true) && r == s + t
    ensures Run(2, PAYLOAD, p, st) == (r, true)
  {
    hide Window, TakeCode;
  }
}
