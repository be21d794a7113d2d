/** Decoding JPEG Huffman codes and magnitudes from the reservoir: the accelerated decoder
    against bit-at-a-time decoding. */
module JpegDecode {
  import opened Bits
  import opened Canonical
  import opened JpegCode
  import opened JpegHuffman
  import opened JpegReservoir
  import opened JpegSpec

  // ---------- what is decoded ----------

  /** The reservoir as a step that wants `n` bits finds it. */
  function Filled(data: seq<byte>, st: Reservoir, n: nat): Reservoir
    requires 0 <= st.bits && n <= 16
  {
    if st.bits < n then Refill(data, st) else st
  }

  /** One symbol by figure F.16, or -1: no code matches, or its bits are not all there. */
  function Symbol(cnt: Counts, values: seq<byte>, st: Reservoir): (int, Reservoir)
    requires |values| == 256
  {
    match Decode(cnt, Shr(st.buffer, 16), 1)
    case None => (-1, st.(bits := st.bits - 16))
    case Some((i, len)) =>
      if i >= 256 || len > st.bits then (-1, st) else (values[i] as int, Drop(st, len))
  }

  /** Entry 255 has a code of at most nine bits and the word starts with it: the fast table's entry for it
      reads as "not accelerated". */
  predicate Flagged(cnt: Counts, w: nat) {
    var d := Decode(cnt, w, 1);
    d.Some? && d.value.0 == 255 && d.value.1 <= 9
  }

  /** What becomes of such a word: the search by length starts at ten bits and takes them for a code of ten. */
  function Misread(cnt: Counts, values: seq<byte>, st: Reservoir): (int, Reservoir)
    requires |values| == 256
  {
    var c := Shr(st.buffer, 22) + Offset(cnt, 10) - First(cnt, 10);
    if st.bits < 10 || c < 0 || c >= 256 then (-1, st) else (values[c] as int, Drop(st, 10))
  }

  /** What the decoder reads, flagged words included. */
  function Read(cnt: Counts, values: seq<byte>, st: Reservoir): (int, Reservoir)
    requires |values| == 256
  {
    if Flagged(cnt, Shr(st.buffer, 16)) then Misread(cnt, values, st) else Symbol(cnt, values, st)
  }

  /** RECEIVE and EXTEND; 0 when the data end too soon. */
  function Received(data: seq<byte>, st: Reservoir, n: nat): (int, Reservoir)
    requires 0 <= st.bits && 1 <= n <= 15
  {
    var s := Filled(data, st, n);
    if s.bits < n then (0, s) else (Extend(Shr(s.buffer, 32 - n), n), Drop(s, n))
  }

  // ---------- the tables against the definition ----------

  /** The fast table answers with the code the word starts with if it has at most nine bits. */
  lemma FastAnswers(cnt: Counts, w: nat)
    requires Total(cnt) <= 256
    ensures var d, k := Decode(cnt, w, 1), Hit(cnt, Shr(w, 7), Total(cnt));
            if d.Some? && d.value.1 <= 9 then
              d.value.0 == k && d.value.0 < Total(cnt) && d.value.1 == SizeOf(cnt, k)
            else k == 255 && Top(cnt, 9) <= w
  {
    hide Decode, SizeOf, Hit, First, Offset, Top, Shr, CodeOf;
    if Decode(cnt, w, 1).Some? {
      var s := DecodeLength(cnt, w);
      DecodeAt(cnt, w, s);
      var i := Decode(cnt, w, 1).value.0;
      StartsInterval(cnt, w, i);
      LengthUnique(cnt, s, SizeOf(cnt, i), w);
      if s <= 9 {
        FastHits(cnt, w, i);
      } else {
        forall j: nat | Starts(cnt, w, j) ensures SizeOf(cnt, j) > 9 { StartsUnique(cnt, w, i, j); }
        FastMisses(cnt, w);
        TopMonotone(cnt, 9, s - 1);
      }
    } else {
      NoneAbove(cnt, w);
      forall j: nat ensures !Starts(cnt, w, j) { DecodeIffStarts(cnt, w, j); }
      FastMisses(cnt, w);
      TopMonotone(cnt, 9, 16);
    }
  }

  lemma NoneAbove(cnt: Counts, w: nat)
    requires Decode(cnt, w, 1).None?
    ensures Top(cnt, 16) <= w
  {
    NoneAboveFrom(cnt, w, 16);
  }

  lemma {:induction false} NoneAboveFrom(cnt: Counts, w: nat, s: nat)
    requires Decode(cnt, w, 1).None? && s <= 16
    ensures Top(cnt, s) <= w
  {
    hide Decode, First;
    if s > 0 {
      NoneAboveFrom(cnt, w, s - 1);
      if w < Top(cnt, s) { DecodeAt(cnt, w, s); }
    }
  }

  /** Some table has a flagged word: 256 codes of 8 bits and a word of ones. */
  lemma FlagOccurs() returns (cnt: Counts, w: nat)
    ensures Total(cnt) == 256 && KraftHolds(cnt) && w == 65535 && Flagged(cnt, w)
  {
    cnt := seq(17, s => if s == 8 then 256 else 0);
    w := 65535;
    EmptyBelow(cnt, 8);
    assert First(cnt, 8) == 0 && Offset(cnt, 8) == 0;
    Pow2Values();
    ShlOne(8);
    ShlIsProduct(256, 8);
    FullAbove(cnt, 16);
    AllOnes();
    assert Top(cnt, 8) == 65536;
    EmptyTop(cnt);
    DecodeAt(cnt, w, 8);
  }

  /** Words are flagged exactly when the table is full and its last code is short. */
  lemma FlaggedIff(cnt: Counts)
    requires KraftHolds(cnt) && Total(cnt) <= 256
    ensures (exists w: nat :: w < 65536 && Flagged(cnt, w)) <==> Total(cnt) == 256 && SizeOf(cnt, 255) <= 9
  {
    hide Decode, SizeOf, First, Offset, Top, Shr, Shl, CodeOf, KraftHolds, Flagged;
    if Total(cnt) == 256 && SizeOf(cnt, 255) <= 9 {
      var w := LastWord(cnt);
      assert w < 65536 && Flagged(cnt, w);
    } else {
      forall w: nat | w < 65536 ensures !Flagged(cnt, w) { if Flagged(cnt, w) { FlaggedLast(cnt, w); } }
    }
  }

  lemma FlaggedLast(cnt: Counts, w: nat)
    requires Flagged(cnt, w) && Total(cnt) <= 256
    ensures Total(cnt) == 256 && SizeOf(cnt, 255) <= 9
  {
    hide Decode, SizeOf, First, Offset, Top, Shr, Shl, CodeOf;
    var s := DecodeLength(cnt, w);
    DecodeAt(cnt, w, s);
    DecodeIffStarts(cnt, w, 255);
  }

  /** The last code of a full table, with zeros after it. */
  lemma LastWord(cnt: Counts) returns (w: nat)
    requires KraftHolds(cnt) && Total(cnt) == 256 && SizeOf(cnt, 255) <= 9
    ensures w < 65536 && Flagged(cnt, w)
  {
    hide Decode, SizeFrom, First, Offset, Top, Shr, Shl, KraftHolds;
    SizeRange(cnt, 255);
    var s := SizeOf(cnt, 255);
    KraftAt(cnt, s);
    w := Shl(CodeOf(cnt, 255), 16 - s);
    Pow2Values();
    ShlMonotone(CodeOf(cnt, 255), Pow2(s), 16 - s);
    ShlOne(s);
    ShlAdd(1, s, 16 - s);
    ShlOne(16);
    SplitJoin(0, CodeOf(cnt, 255), 16 - s);
    DecodeIffStarts(cnt, w, 255);
  }

  lemma {:induction false} EmptyBelow(cnt: Counts, s: nat)
    requires 1 <= s <= 8 && forall t :: 1 <= t < 8 ==> cnt[t] == 0
    ensures First(cnt, s) == 0 && Offset(cnt, s) == 0
  {
    if s > 1 { EmptyBelow(cnt, s - 1); }
  }

  lemma EmptyTop(cnt: Counts)
    requires forall t :: 1 <= t < 8 ==> cnt[t] == 0
    ensures Top(cnt, 7) == 0
  {
    EmptyBelow(cnt, 7);
    ZeroShl(9);
  }

  lemma {:induction false} FullAbove(cnt: Counts, s: nat)
    requires 8 <= s <= 16 && cnt[8] == 256 && forall t :: 0 <= t < 17 && t != 8 ==> cnt[t] == 0
    ensures Offset(cnt, s) + cnt[s] == 256 && Space(cnt, s) == 65536
  {
    if s == 8 {
      EmptyBelow(cnt, 8);
      ShlIsProduct(256, 8);
      Pow2Values();
      EmptyTop(cnt);
      TopIsSpace(cnt, 7);
    } else {
      FullAbove(cnt, s - 1);
      ZeroShl(16 - s);
    }
  }

  lemma AllOnes()
    ensures Shr(65535, 8) == 255
  {
    Pow2Values();
    SplitJoin(255, 255, 8);
    ShlIsProduct(255, 8);
  }

  // ---------- the decoder ----------

  class JpegStream {
    const data: seq<byte>
    var pos: nat
    var codeBuffer: nat
    var codeBits: int
    var marker: byte
    var nomore: bool

    function State(): Reservoir
      reads this
    {
      Reservoir(codeBuffer, codeBits, pos, marker, nomore)
    }

    constructor (input: seq<byte>)
      ensures data == input && State() == Reservoir(0, 0, 0, 0xff, false) && Ok(State())
    {
      data, pos, codeBuffer, codeBits, marker, nomore := input, 0, 0, 0, 0xff, false;
      new;
      ZerosOk(0, pos);
    }

    method NextByte() returns (b: byte)
      modifies `pos
      ensures b == ByteAt(data, old(pos)) && pos == Next(data, old(pos))
    {
      if pos < |data| {
        b, pos := data[pos], pos + 1;
      } else {
        b := 0;
      }
    }

    /** The byte after any number of fill bytes. */
    method AfterFill() returns (c: byte)
      modifies `pos
      ensures var q := SkipFill(data, old(pos)); c == ByteAt(data, q) && pos == Next(data, q)
    {
      c := NextByte();
      while c == 0xff
        invariant var q := SkipFill(data, old(pos));
                  if c == 0xff then SkipFill(data, pos) == q && pos <= |data|
                    else c == ByteAt(data, q) && pos == Next(data, q)
        decreases c == 0xff, |data| - pos
      {
        c := NextByte();
      }
    }

    method GrowBuffer()
      requires Ok(State()) && codeBits <= 24
      modifies this
      ensures State() == Refill(data, old(State()))
      ensures Ok(State()) && (codeBits > 24 || (nomore && !old(nomore)))
    {
      hide Ok, Push, EntropyByte;
      OkBits(State());
      RefillStream(data, State(), 0);
      var more := true;
      while more
        invariant 0 <= codeBits <= 32 && (more ==> codeBits <= 24)
        invariant Refill(data, old(State())) == if more then Refill(data, State()) else State()
        decreases more, 32 - codeBits
      {
        ghost var st := State();
        var b: byte := 0;
        if !nomore {
          b := NextByte();
          EntropyCases(data, st.pos);
          if b == 0xff {
            var c := AfterFill();
            if c != 0 {
              marker, nomore := c, true;
              return;
            }
          }
        }
        PushParts(st, b, pos);
        codeBuffer := Or(codeBuffer, Shl(b, 24 - codeBits));
        codeBits := codeBits + 8;
        more := codeBits <= 24;
      }
    }

    /** `stbi__jpeg_huff_decode`: the nine-bit table, else a search by length from ten bits on.  With 16 bits held it
        does what the definition does exactly when the word is not flagged. */
    method HuffDecode(h: HuffmanTable, ghost cnt: Counts) returns (r: int)
      requires h.Built(cnt) && Ok(State())
      modifies this
      ensures var st := Filled(data, old(State()), 16);
              (r, State()) == Read(cnt, h.values[..], st)
      ensures var st := Filled(data, old(State()), 16);
              st.bits >= 16 ==> (!Flagged(cnt, Shr(st.buffer, 16)) <==> (r, State()) == Symbol(cnt, h.values[..], st))
      ensures r >= 0 ==> r < 256 && Ok(State())
    {
      hide Ok, Flagged, Symbol, Misread, Decode, Top, Hit, SizeOf, Refill;
      hide FastRight, SizesRight, CodesRight, LengthsRight, Drop, KraftHolds, First, Offset;
      OkBits(State());
      if codeBits < 16 { GrowBuffer(); OkBits(State()); }
      ghost var st := State();
      TopNine(st);
      var c := And(Shr(codeBuffer, 32 - FAST_BITS), 511);
      FastLookup(h, cnt, codeBuffer);
      var k := h.fast[c];
      if k < 255 {
        var s := h.size[k];
        FastSymbol(h, cnt, st, k);
        if s > codeBits {
          return -1;
        }
        DropParts(st, s);
        DropOk(st, s);
        codeBuffer := Low(Shl(codeBuffer, s), 32);
        codeBits := codeBits - s;
        return h.values[k];
      }
      FlaggedTop(cnt, Shr(codeBuffer, 16));
      FlaggedSymbol(cnt, h.values[..], st);
      r := SlowDecode(h, cnt);
    }

    /** The first length from ten on whose codes end above the 16 bits `temp`, or 17. */
    method SearchLength(h: HuffmanTable, temp: nat, ghost cnt: Counts) returns (k: nat)
      requires h.Built(cnt) && temp < 65536
      ensures 10 <= k <= 17 && (temp < Top(cnt, 9) ==> k == 10)
      ensures temp >= Top(cnt, 9) ==> Top(cnt, k - 1) <= temp && (k <= 16 ==> temp < Top(cnt, k))
    {
      hide Top, Hit, SizeOf, FastRight, SizesRight, CodesRight, LengthsRight, KraftHolds, First, Offset;
      k := FAST_BITS + 1;
      if temp < Top(cnt, 9) { TopMonotone(cnt, 9, 10); }
      LengthLookup(h, cnt, k);
      while temp >= h.maxcode[k]
        invariant 10 <= k <= 17 && (temp < Top(cnt, 9) ==> k == 10 && temp < Top(cnt, 10))
        invariant temp >= Top(cnt, 9) ==> Top(cnt, k - 1) <= temp
        invariant k <= 16 ==> h.maxcode[k] == Top(cnt, k)
        decreases 17 - k
      {
        k := k + 1;
        if k <= 16 { LengthLookup(h, cnt, k); }
      }
    }

    /** The symbol of the length found, or -1. */
    method SlowDecode(h: HuffmanTable, ghost cnt: Counts) returns (r: int)
      requires h.Built(cnt) && Ok(State())
      requires Flagged(cnt, Shr(codeBuffer, 16)) <==> Shr(codeBuffer, 16) < Top(cnt, 9)
      modifies this
      ensures (r, State()) == Read(cnt, h.values[..], old(State()))
      ensures Flagged(cnt, old(Shr(codeBuffer, 16))) ==> r == -1 || codeBits == old(codeBits) - 10
      ensures r >= 0 ==> r < 256 && Ok(State())
    {
      hide Ok, Flagged, Symbol, Misread, Decode, Top, Hit, SizeOf, Drop, KraftHolds, First, Offset;
      hide FastRight, SizesRight, CodesRight, LengthsRight;
      ghost var st := State();
      OkBits(st);
      WordBound(st);
      var temp := Shr(codeBuffer, 16);
      var k := SearchLength(h, temp, cnt);
      if k == 17 {
        NoSymbol(cnt, h.values[..], st);
        codeBits := codeBits - 16;
        return -1;
      }
      LengthLookup(h, cnt, k);
      if temp >= Top(cnt, 9) { LongSymbol(cnt, h.values[..], st, k); } else { MisreadParts(cnt, h.values[..], st); }
      if k > codeBits {
        return -1;
      }
      var c: int := And(Shr(codeBuffer, 32 - k), Pow2(k) - 1) + h.delta[k];
      if c < 0 || c >= 256 {
        return -1;
      }
      DropParts(st, k);
      DropOk(st, k);
      codeBits := codeBits - k;
      codeBuffer := Low(Shl(codeBuffer, k), 32);
      r := h.values[c];
    }

    /** `stbi__extend_receive`: `n` bits and their sign, by rotating them to the bottom of the word. */
    method ExtendReceive(n: nat) returns (r: int)
      requires 1 <= n <= 15 && Ok(State())
      modifies this
      ensures (r, State()) == Received(data, old(State()), n)
    {
      hide Ok, Refill, Or, And, Shr, Shl, Low, Pow2, Drop;
      OkBits(State());
      if codeBits < n { GrowBuffer(); OkBits(State()); }
      if codeBits < n {
        return 0;
      }
      ghost var st := State();
      RotateParts(st, n);
      DropParts(st, n);
      var sgn := Shr(codeBuffer, 31);
      var k := Or(Low(Shl(codeBuffer, n), 32), Shr(codeBuffer, 32 - n));
      var mask := Pow2(n) - 1;
      codeBuffer := k - And(k, mask);
      codeBits := codeBits - n;
      r := And(k, mask) + (if sgn == 1 then 0 else 1 - Pow2(n));
    }
  }

  /** After rotation the low bits are those received and the rest is the shifted word; the top bit is the sign. */
  lemma RotateParts(st: Reservoir, n: nat)
    requires 1 <= n <= 15 && Ok(st)
    ensures var k := Or(Low(Shl(st.buffer, n), 32), Shr(st.buffer, 32 - n));
            And(k, Pow2(n) - 1) == Shr(st.buffer, 32 - n) && k - And(k, Pow2(n) - 1) == Low(Shl(st.buffer, n), 32)
    ensures Pow2(n) > 0 && Extend(Shr(st.buffer, 32 - n), n) ==
            Shr(st.buffer, 32 - n) + (if Shr(st.buffer, 31) == 1 then 0 else 1 - Pow2(n))
  {
    hide Or, And, Shr, Shl, Low, Pow2;
    var b := st.buffer;
    var v := Shr(b, 32 - n);
    ShrBound(b, 32 - n, n);
    LowOfShl(b, n, 32);
    OrCommutes(Low(Shl(b, n), 32), v);
    OrDisjoint(v, Low(b, 32 - n), n);
    AndMask(v + Shl(Low(b, 32 - n), n), Pow2(n) - 1, n);
    SplitJoin(v, Low(b, 32 - n), n);
    SignBit(b, n);
  }

  lemma SignBit(b: nat, n: nat)
    requires 1 <= n <= 32 && b < Pow2(32)
    ensures Shr(b, 31) == if Shr(b, 32 - n) < Pow2(n - 1) then 0 else 1
  {
    hide Shr, Shl;
    ShrAdd(b, 32 - n, n - 1);
    ShrBound(b, 31, 1);
    Pow2Values();
    ShrCompare(Shr(b, 32 - n), 1, n - 1);
    ShlOne(n - 1);
  }

  lemma NoShift(b: nat)
    ensures Shl(b, 0) == b
  {
  }

  lemma ShlDouble(b: nat, n: nat)
    requires n > 0
    ensures Shl(b, n) == 2 * Shl(b, n - 1)
  {
  }

  lemma LowDouble(y: nat, m: nat)
    requires m > 0
    ensures Low(2 * y, m) == 2 * Low(y, m - 1)
  {
    assert (2 * y) / 2 == y && (2 * y) % 2 == 0;
  }

  lemma {:induction false} LowOfShl(b: nat, n: nat, m: nat)
    requires n <= m
    ensures Low(Shl(b, n), m) == Shl(Low(b, m - n), n)
  {
    hide Shl, Low;
    if n == 0 {
      NoShift(b);
      NoShift(Low(b, m));
    } else {
      LowOfShl(b, n - 1, m - 1);
      ShlDouble(b, n);
      LowDouble(Shl(b, n - 1), m);
      ShlDouble(Low(b, m - n), n);
    }
  }

  lemma WordBound(st: Reservoir)
    requires Ok(st)
    ensures Shr(st.buffer, 16) < 65536
  {
    hide Shr;
    ShrBound(st.buffer, 16, 16);
    Pow2Values();
  }

  /** The fast table's index is the top nine bits of the next sixteen. */
  lemma TopNine(st: Reservoir)
    requires Ok(st)
    ensures And(Shr(st.buffer, 23), 511) == Shr(Shr(st.buffer, 16), 7) < 512
  {
    hide Shr, And;
    ShrAdd(st.buffer, 16, 7);
    ShrBound(st.buffer, 23, 9);
    Pow2Values();
    AndMask(Shr(st.buffer, 23), 511, 9);
    LowIdentity(Shr(st.buffer, 23), 9);
  }

  lemma FastLookup(h: HuffmanTable, cnt: Counts, buffer: nat)
    requires h.Built(cnt) && Shr(Shr(buffer, 16), 7) < 512
    ensures h.fast[Shr(Shr(buffer, 16), 7)] == Hit(cnt, Shr(Shr(buffer, 16), 7), Total(cnt))
  {
    hide Shr, Hit;
    assert FastRight(h.fast[..], cnt, Total(cnt));
    assert h.fast[..][Shr(Shr(buffer, 16), 7)] == h.fast[Shr(Shr(buffer, 16), 7)];
  }

  lemma LengthLookup(h: HuffmanTable, cnt: Counts, k: nat)
    requires h.Built(cnt) && 1 <= k <= 16
    ensures h.maxcode[k] == Top(cnt, k) && h.delta[k] == Offset(cnt, k) - First(cnt, k)
  {
    hide Top, Offset, First;
    assert LengthsRight(h.maxcode[..], h.delta[..], cnt, 17);
    assert h.maxcode[..][k] == h.maxcode[k] && h.delta[..][k] == h.delta[k];
  }

  /** A hit is the symbol the definition gives. */
  lemma FastSymbol(h: HuffmanTable, cnt: Counts, st: Reservoir, k: byte)
    requires h.Built(cnt) && k < 255 && k == Hit(cnt, Shr(Shr(st.buffer, 16), 7), Total(cnt))
    ensures h.size[k] == SizeOf(cnt, k) && !Flagged(cnt, Shr(st.buffer, 16))
    ensures Symbol(cnt, h.values[..], st) ==
            if h.size[k] > st.bits then (-1, st) else (h.values[k] as int, Drop(st, h.size[k]))
  {
    hide Decode, SizeOf, Hit, Shr, Top;
    FastAnswers(cnt, Shr(st.buffer, 16));
    assert SizesRight(h.size[..], cnt, Total(cnt) + 1);
    assert h.size[..][k] == h.size[k];
  }

  /** After a miss, the codes of at most nine bits are exhausted unless the word is flagged. */
  lemma FlaggedTop(cnt: Counts, w: nat)
    requires Total(cnt) <= 256 && Hit(cnt, Shr(w, 7), Total(cnt)) == 255
    ensures Flagged(cnt, w) <==> w < Top(cnt, 9)
  {
    hide Decode, SizeOf, Hit, Shr, Top;
    FastAnswers(cnt, w);
    if Flagged(cnt, w) {
      var s := DecodeLength(cnt, w);
      DecodeAt(cnt, w, s);
      TopMonotone(cnt, s, 9);
    }
  }

  /** The definition decodes a flagged word, to a code of at most nine bits. */
  lemma FlaggedSymbol(cnt: Counts, values: seq<byte>, st: Reservoir)
    requires |values| == 256
    ensures Flagged(cnt, Shr(st.buffer, 16)) && st.bits >= 16 ==>
              Symbol(cnt, values, st).0 >= 0 && Symbol(cnt, values, st).1.bits >= st.bits - 9
  {
    hide Decode, Shr, Shl, Low;
  }

  lemma NoSymbol(cnt: Counts, values: seq<byte>, st: Reservoir)
    requires |values| == 256 && Top(cnt, 16) <= Shr(st.buffer, 16)
    ensures Symbol(cnt, values, st) == (-1, st.(bits := st.bits - 16))
  {
    hide Decode, Top;
    DecodeNone(cnt, Shr(st.buffer, 16));
  }

  lemma LongSymbol(cnt: Counts, values: seq<byte>, st: Reservoir, k: nat)
    requires |values| == 256 && 10 <= k <= 16 && Ok(st) && Total(cnt) <= 256
    requires Top(cnt, k - 1) <= Shr(st.buffer, 16) < Top(cnt, k)
    ensures var i := And(Shr(st.buffer, 32 - k), Pow2(k) - 1) + Offset(cnt, k) - First(cnt, k);
            0 <= i < 256 && Symbol(cnt, values, st) == if k > st.bits then (-1, st) else (values[i] as int, Drop(st, k))
  {
    hide Decode, Top, SizeOf, Shr, And, Pow2, Drop;
    var w := Shr(st.buffer, 16);
    DecodeAt(cnt, w, k);
    ShrAdd(st.buffer, 16, 16 - k);
    ShrBound(st.buffer, 32 - k, k);
    AndMask(Shr(st.buffer, 32 - k), Pow2(k) - 1, k);
    LowIdentity(Shr(st.buffer, 32 - k), k);
  }

  lemma MisreadParts(cnt: Counts, values: seq<byte>, st: Reservoir)
    requires |values| == 256 && Ok(st)
    ensures var c := And(Shr(st.buffer, 22), Pow2(10) - 1) + Offset(cnt, 10) - First(cnt, 10);
            Misread(cnt, values, st) ==
              if st.bits < 10 || c < 0 || c >= 256 then (-1, st) else (values[c] as int, Drop(st, 10))
  {
    hide Shr, And, Pow2, Drop, First, Offset;
    ShrBound(st.buffer, 22, 10);
    AndMask(Shr(st.buffer, 22), Pow2(10) - 1, 10);
    LowIdentity(Shr(st.buffer, 22), 10);
  }

  lemma DropParts(st: Reservoir, s: nat)
    ensures Drop(st, s) == Reservoir(Low(Shl(st.buffer, s), 32), st.bits - s, st.pos, st.marker, st.nomore)
  {
  }

  lemma ZerosOk(bits: nat, pos: nat)
    requires bits <= 32
    ensures Ok(Reservoir(0, bits, pos, 0xff, false))
  {
    forall i: nat ensures BitAt(0, i) == 0 { ZeroBit(i); }
  }

  lemma EntropyCases(data: seq<byte>, pos: nat)
    ensures var b, p := ByteAt(data, pos), Next(data, pos);
            var q := SkipFill(data, p);
            EntropyByte(data, pos) ==
              if b != 0xff then Data(b, p)
              else if ByteAt(data, q) != 0 then Marker(ByteAt(data, q), Next(data, q))
              else Data(0xff, Next(data, q))
  {
  }

  lemma PushParts(st: Reservoir, b: byte, p: nat)
    requires 0 <= st.bits <= 24
    ensures Push(st, b, p) == Reservoir(Or(st.buffer, Shl(b, 24 - st.bits)), st.bits + 8, p, st.marker, st.nomore)
  {
  }
}
