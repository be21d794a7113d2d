/** Blocks and the end of the data: a block that ends before the marker, or begins after it, is what the zero-extended
    stream holds; one that runs into it need not be. */
module JpegEnds {
  import opened Bits
  import opened Canonical
  import opened JpegCode
  import opened JpegHuffman
  import opened JpegReservoir
  import opened JpegSpec
  import opened JpegDecode
  import opened JpegAc
  import opened JpegRun

  // ---------- bits before the marker ----------

  /** There are `k` more bytes of data before the marker. */
  predicate HasBytes(data: seq<byte>, pos: nat, k: nat)
    decreases k
  {
    k == 0 ||
    match EntropyByte(data, pos)
    case Marker(_, _) => false
    case Data(_, p) => HasBytes(data, p, k - 1)
  }

  /** `n` more bits come before the marker, or it has been met already. */
  predicate HasBits(data: seq<byte>, st: Reservoir, n: nat) {
    st.nomore || n <= st.bits || HasBytes(data, st.pos, (n - st.bits + 7) / 8)
  }

  lemma {:induction false} HasFewerBytes(data: seq<byte>, pos: nat, k: nat, m: nat)
    requires HasBytes(data, pos, k) && m <= k
    ensures HasBytes(data, pos, m)
    decreases k
  {
    hide EntropyByte;
    if m > 0 { HasFewerBytes(data, EntropyByte(data, pos).pos, k - 1, m - 1); }
  }

  lemma HasFewer(data: seq<byte>, st: Reservoir, n: nat, m: nat)
    requires HasBits(data, st, n) && m <= n
    ensures HasBits(data, st, m)
  {
    if !st.nomore && m > st.bits { HasFewerBytes(data, st.pos, (n - st.bits + 7) / 8, (m - st.bits + 7) / 8); }
  }

  /** Refilling reaches all bits that are there, as far as it goes. */
  lemma {:induction false} RefillHas(data: seq<byte>, st: Reservoir, n: nat)
    requires Ok(st) && st.bits <= 24 && HasBits(data, st, n)
    ensures var t := Refill(data, st); HasBits(data, t, n) && (t.bits >= n || t.bits > 24) && (st.nomore ==> t.nomore)
    decreases 24 - st.bits
  {
    hide EntropyByte, Push, Ok;
    OkBits(st);
    var e := if st.nomore then Data(0, st.pos) else EntropyByte(data, st.pos);
    match e {
      case Marker(m, p) =>
      case Data(b, p) =>
        var t := Push(st, b, p);
        PushBits(st, b, p);
        PushOk(st, b, p);
        if t.bits <= 24 { RefillHas(data, t, n); }
    }
  }

  lemma FilledHas(data: seq<byte>, st: Reservoir, w: nat, n: nat)
    requires Ok(st) && 0 <= st.bits && w <= 16 && HasBits(data, st, n)
    ensures var t := Filled(data, st, w); HasBits(data, t, n) && t.bits >= Min(n, w) && (st.nomore ==> t.nomore)
  {
    hide Ok, Refill, HasBits;
    OkBits(st);
    if st.bits < w { RefillHas(data, st, n); }
  }

  lemma DropHas(data: seq<byte>, st: Reservoir, s: nat, n: nat)
    requires 0 <= s <= st.bits && s <= n && HasBits(data, st, n)
    ensures HasBits(data, Drop(st, s), n - s) && (st.nomore ==> Drop(st, s).nomore)
  {
    DropParts(st, s);
  }

  // ---------- a step before the marker ----------

  /** A step whose bits are there stays on the stream, and so are those of what follows. */
  lemma StepHas(data: seq<byte>, cnt: Counts, values: seq<byte>, st: Reservoir, n: nat)
    requires |values| == 256 && Total(cnt) <= 256 && Ok(st) && 0 <= st.bits <= 32 && !FlaggedNext(data, cnt, st)
    requires EventAt(data, cnt, values, st, 0).1 <= n && HasBits(data, st, n)
    ensures !Overrun(data, cnt, values, st) && !Cut(data, cnt, values, st)
    ensures var ((e, t), q) := (Step(data, cnt, values, st), EventAt(data, cnt, values, st, 0).1);
            !e.Bad? ==> HasBits(data, t, n - q) && (st.nomore ==> t.nomore)
  {
    hide Ok, Word, Ahead, Drop, Filled, TwoSteps, CutMagnitude, FusedEntry, Flagged, Shr, Total, EventAt, HasBits;
    ReadyReadsStream(data, st);
    FilledHas(data, st, 16, n);
    var (s, r, u) := (Filled(data, st, 16), Entry(data, cnt, values, st), Ready(data, st));
    FilledHas(data, s, 16, n);
    if r != 0 {
      FusedReadsStream(data, cnt, values, st);
      DropHas(data, s, r % 16, n);
    } else {
      EventAhead(data, cnt, values, st, 0, u);
      TwoStepsHave(data, cnt, values, u, n);
    }
  }

  lemma TwoStepsHave(data: seq<byte>, cnt: Counts, values: seq<byte>, st: Reservoir, n: nat)
    requires |values| == 256 && Ok(st) && 16 <= st.bits <= 32 && Total(cnt) <= 256
    requires !Flagged(cnt, Shr(st.buffer, 16))
    requires EventAt(data, cnt, values, st, 0).1 <= n && HasBits(data, st, n)
    ensures !CutMagnitude(data, cnt, values, st)
    ensures var ((e, t), q) := (TwoSteps(data, cnt, values, st), EventAt(data, cnt, values, st, 0).1);
            !e.Bad? ==> HasBits(data, t, n - q) && (st.nomore ==> t.nomore)
  {
    hide Ok, Word, Ahead, Drop, Filled, Symbol, Flagged, SymbolAt, MagnitudeAt, HasBits, Shr;
    SymbolReadsStream(data, cnt, values, st);
    ReadBits(cnt, values, st);
    var (d, (rs, s)) := (SymbolAt(data, cnt, values, st, 0), Symbol(cnt, values, st));
    if d.Some? {
      var len, mag := d.value.1, rs % 16;
      DropHas(data, st, len, n);
      if mag != 0 {
        AheadOk(data, st, len, s);
        FilledHas(data, s, mag, n - len);
        DropHas(data, Filled(data, s, mag), mag, n - len);
      }
    }
  }

  // ---------- a block before the marker ----------

  lemma {:induction false} CoefsUse(data: seq<byte>, cnt: Counts, values: seq<byte>, dequant: seq<nat>, st: Reservoir,
                                    p: nat, k: nat, coefs: seq<int>)
    requires |values| == 256 && |dequant| == 64 == |coefs| && 0 <= st.bits <= 32
    requires CoefsAt(data, cnt, values, dequant, st, p, k, coefs).Decoded?
    ensures CoefsAt(data, cnt, values, dequant, st, p, k, coefs).used >= p
    ensures k < 64 ==> CoefsAt(data, cnt, values, dequant, st, p, k, coefs).used >=
                       EventAt(data, cnt, values, st, p).1 >= p
    decreases 64 - k
  {
    hide Zigzag, Dequantized, Word, Decode;
    if k < 64 {
      var (e, q) := EventAt(data, cnt, values, st, p);
      if e.ZeroRun? {
        CoefsUse(data, cnt, values, dequant, st, q, k + 16, coefs);
      } else if e.Coefficient? {
        var z := Zigzag(k + e.run);
        CoefsUse(data, cnt, values, dequant, st, q, k + e.run + 1, coefs[z := Dequantized(e.value, dequant[z])]);
      }
    }
  }

  /** The loop leaves the stream at flagged words only, once the marker has been met or if the coefficients end
      before it. */
  lemma {:induction false} AcBeforeMarker(data: seq<byte>, cnt: Counts, values: seq<byte>, dequant: seq<nat>,
                                          st0: Reservoir, p: nat, st: Reservoir, k: nat, coefs: seq<int>)
    requires |values| == 256 && Total(cnt) <= 256 && |dequant| == 64 == |coefs|
    requires Ahead(data, st0, p, st) && 0 <= st0.bits <= 32 && Ok(st)
    requires st.nomore || (var d := CoefsAt(data, cnt, values, dequant, st0, p, k, coefs);
                           d.Decoded? && d.used >= p && HasBits(data, st, d.used - p))
    ensures AcDeparture(data, cnt, values, st, k).Never? || AcDeparture(data, cnt, values, st, k).AtFlag?
    decreases 64 - k
  {
    hide Ok, StreamBit, Total, Zigzag, Dequantized, Word, Ahead, Step, EventAt, Overrun, Cut, FlaggedNext, HasBits;
    if k < 64 && !FlaggedNext(data, cnt, st) {
      AheadOk(data, st0, p, st);
      StepReadsStream(data, cnt, values, st);
      StepOk(data, cnt, values, st);
      EventAhead(data, cnt, values, st0, p, st);
      var ((e, t), (f, q)) := (Step(data, cnt, values, st), EventAt(data, cnt, values, st, 0));
      var d := CoefsAt(data, cnt, values, dequant, st0, p, k, coefs);
      MarkerMet(data, st, q);
      if d.Decoded? { CoefsUse(data, cnt, values, dequant, st0, p, k, coefs); }
      StepHas(data, cnt, values, st, if st.nomore then q else d.used - p);
      if !e.Bad? {
        AheadTrans(data, st0, p, st, q, t);
        if e.ZeroRun? {
          AcBeforeMarker(data, cnt, values, dequant, st0, p + q, t, k + 16, coefs);
        } else if e.Coefficient? {
          var z := Zigzag(k + e.run);
          AcBeforeMarker(data, cnt, values, dequant, st0, p + q, t, k + e.run + 1,
                         coefs[z := Dequantized(e.value, dequant[z])]);
        }
      }
    }
  }

  lemma MarkerMet(data: seq<byte>, st: Reservoir, n: nat)
    ensures st.nomore ==> HasBits(data, st, n)
  {
  }

  /** The DC difference is not cut if its bits are there, and so are those of what follows. */
  lemma DcHas(data: seq<byte>, cnt: Counts, values: seq<byte>, st: Reservoir, n: nat)
    requires |values| == 256 && Total(cnt) <= 256 && Ok(st) && 0 <= st.bits <= 32 && !FlaggedNext(data, cnt, st)
    requires var d := DifferenceAt(data, cnt, values, st); st.nomore || (d.Some? && d.value.1 <= n)
    requires HasBits(data, st, n)
    ensures !DcCut(data, cnt, values, st)
    ensures var ((e, t), d) := (DcRun(data, cnt, values, st), DifferenceAt(data, cnt, values, st));
            e.Some? ==> d.Some? && (st.nomore ==> t.nomore) && (d.value.1 <= n ==> HasBits(data, t, n - d.value.1))
  {
    hide Ok, Word, Ahead, Drop, Filled, Ready, Symbol, Flagged, SymbolAt, Received, MagnitudeAt, HasBits, Shr;
    ReadyReadsStream(data, st);
    var u := Ready(data, st);
    ReadyHas(data, st, n);
    SymbolReadsStream(data, cnt, values, u);
    ReadOk(cnt, values, u);
    ReadBits(cnt, values, u);
    SymbolAhead(data, cnt, values, st, u);
    var (d, (t, s)) := (SymbolAt(data, cnt, values, u, 0), Symbol(cnt, values, u));
    if d.Some? {
      var len := d.value.1;
      AheadOk(data, u, len, s);
      MarkerMet(data, u, len + t);
      DropHas(data, u, len, if u.nomore then len + t else n);
      if 1 <= t <= 15 {
        var m := if u.nomore then t else n - len;
        FilledHas(data, s, t, m);
        ReceivedIs(data, s, t);
        DropHas(data, Filled(data, s, t), t, m);
        MarkerMet(data, Received(data, s, t).1, n - (if len + t <= n then len + t else n));
      } else {
        MarkerMet(data, s, n - (if len + t <= n then len + t else n));
      }
    }
  }

  lemma ReadyHas(data: seq<byte>, st: Reservoir, n: nat)
    requires Ok(st) && 0 <= st.bits && 0 <= Filled(data, st, 16).bits && HasBits(data, st, n)
    ensures HasBits(data, Ready(data, st), n) && (st.nomore ==> Ready(data, st).nomore)
  {
    hide Ok, HasBits, Refill, Filled;
    FilledAhead(data, st, 16);
    FilledHas(data, st, 16, n);
    FilledHas(data, Filled(data, st, 16), 16, n);
  }

  lemma ReceivedIs(data: seq<byte>, st: Reservoir, n: nat)
    requires 0 <= st.bits && 1 <= n <= 15
    ensures Filled(data, st, n).bits >= n ==> Received(data, st, n).1 == Drop(Filled(data, st, n), n)
  {
    hide Filled, Drop, Shr, Extend;
  }

  /** The block ends before the marker, or begins after it. */
  predicate ClearOfMarker(data: seq<byte>, st: Reservoir, d: Decoded) {
    st.nomore || (d.Decoded? && HasBits(data, st, d.used))
  }

  /** Such a block leaves the stream at flagged words only. */
  lemma BlockClear(data: seq<byte>, dc: Counts, dcValues: seq<byte>, ac: Counts, acValues: seq<byte>,
                   dequant: seq<nat>, st: Reservoir, pred: int)
    requires |dcValues| == |acValues| == 256 && |dequant| == 64 && Ok(st) && 0 <= st.bits <= 32
    requires Total(dc) <= 256 && Total(ac) <= 256
    requires ClearOfMarker(data, st, BlockAt(data, dc, dcValues, ac, acValues, dequant, st, pred).0)
    ensures var w := BlockDeparture(data, dc, dcValues, ac, acValues, dequant, st, pred); w.Never? || w.AtFlag?
  {
    hide Ok, Word, Ahead, AcDeparture, DcRun, DcCut, FlaggedNext, CoefsAt, DifferenceAt, DcOnly, Total, HasBits;
    if !FlaggedNext(data, dc, st) {
      DcReadsStream(data, dc, dcValues, st);
      var ((e, t), d) := (DcRun(data, dc, dcValues, st), DifferenceAt(data, dc, dcValues, st));
      var b := BlockAt(data, dc, dcValues, ac, acValues, dequant, st, pred).0;
      if d.Some? && DcFits(pred, d.value.0, dequant[0]) {
        var coefs := DcOnly(pred + d.value.0, dequant[0]);
        if b.Decoded? { CoefsUse(data, ac, acValues, dequant, st, d.value.1, 1, coefs); }
        MarkerMet(data, st, d.value.1);
        DcHas(data, dc, dcValues, st, if b.Decoded? && HasBits(data, st, b.used) then b.used else d.value.1);
        AcBeforeMarker(data, ac, acValues, dequant, st, d.value.1, t, 1, coefs);
      } else {
        MarkerMet(data, st, 0);
        DcHas(data, dc, dcValues, st, 0);
      }
    }
  }

  // ---------- tables without flagged words ----------

  /** Fewer than 256 codes, or a last code of more than nine bits. */
  predicate Regular(cnt: Counts) {
    Total(cnt) < 256 || SizeOf(cnt, 255) > 9
  }

  lemma NeverFlagged(data: seq<byte>, cnt: Counts, st: Reservoir)
    requires Regular(cnt) && Total(cnt) <= 256
    ensures !FlaggedNext(data, cnt, st)
  {
    hide Total, SizeOf, Flagged, Word;
    if FlaggedNext(data, cnt, st) { FlaggedLast(cnt, Word(data, st, 0, 16)); }
  }

  lemma {:induction false} AcNeverFlagged(data: seq<byte>, cnt: Counts, values: seq<byte>, st: Reservoir, k: nat)
    requires |values| == 256 && Regular(cnt) && Total(cnt) <= 256 && Ok(st)
    ensures !AcDeparture(data, cnt, values, st, k).AtFlag?
    decreases 64 - k
  {
    hide Ok, Total, Regular, Zigzag, Step, EventAt, Overrun, Cut, FlaggedNext;
    NeverFlagged(data, cnt, st);
    StepOk(data, cnt, values, st);
    var (e, t) := Step(data, cnt, values, st);
    if k < 64 && e.ZeroRun? {
      AcNeverFlagged(data, cnt, values, t, k + 16);
    } else if k < 64 && e.Coefficient? {
      AcNeverFlagged(data, cnt, values, t, k + e.run + 1);
    }
  }

  /** With regular tables a block clear of the marker is what the stream holds. */
  lemma ClearBlockIsStream(data: seq<byte>, dc: Counts, dcValues: seq<byte>, ac: Counts, acValues: seq<byte>,
                           dequant: seq<nat>, st: Reservoir, pred: int)
    requires |dcValues| == |acValues| == 256 && |dequant| == 64 && Ok(st) && 0 <= st.bits <= 32 && IsInt(pred)
    requires Total(dc) <= 256 && Total(ac) <= 256 && Regular(dc) && Regular(ac)
    requires ClearOfMarker(data, st, BlockAt(data, dc, dcValues, ac, acValues, dequant, st, pred).0)
    ensures BlockDeparture(data, dc, dcValues, ac, acValues, dequant, st, pred).Never?
    ensures var ((b, r), (d, q)) := (BlockRun(data, dc, dcValues, ac, acValues, dequant, st, pred),
                                     BlockAt(data, dc, dcValues, ac, acValues, dequant, st, pred));
            Agrees(data, st, b, d) && r == q
  {
    hide Ok, Word, Ahead, AcDeparture, DcRun, DcCut, FlaggedNext, AcRun, BlockAt, DifferenceAt, Total, Regular,
         ClearOfMarker;
    BlockClear(data, dc, dcValues, ac, acValues, dequant, st, pred);
    BlockFollowsStream(data, dc, dcValues, ac, acValues, dequant, st, pred);
    NeverFlagged(data, dc, st);
    var (e, t) := DcRun(data, dc, dcValues, st);
    if e.Some? { AcNeverFlagged(data, ac, acValues, t, 1); }
  }

  // ---------- a block that runs into the marker ----------

  /** A table of one code, the two bits 00. */
  function OneCode(): Counts {
    seq(17, s => if s == 2 then 1 else 0)
  }

  /** All of its symbols are `v`. */
  function OneSymbol(v: byte): (r: seq<byte>)
    ensures |r| == 256
  {
    seq(256, i => v)
  }

  lemma OneCodeParts()
    ensures var cnt := OneCode();
            Total(cnt) == 1 && SizeOf(cnt, 0) == 2 && Decode(cnt, 0, 1) == Some((0, 2)) && Hit(cnt, 0, 1) == 0
  {
    var cnt := OneCode();
    OneCodeOffsets(16);
    assert First(cnt, 1) == 0 && First(cnt, 2) == 0 && Offset(cnt, 2) == 0;
    ZeroShr(15);
    ZeroShr(14);
    ZeroShr(7);
    assert SizeFrom(cnt, 0, 2) == 2;
    assert Decode(cnt, 0, 2) == Some((0, 2));
  }

  lemma {:induction false} OneCodeOffsets(s: nat)
    requires 2 <= s <= 16
    ensures Offset(OneCode(), s) + OneCode()[s] == 1
  {
    if s > 2 { OneCodeOffsets(s - 1); }
  }

  lemma {:induction false} ZeroShr(n: nat)
    ensures Shr(0, n) == 0
  {
    if n > 0 { ZeroShr(n - 1); }
  }

  lemma {:induction false} OneCodeSpace(s: nat)
    requires 2 <= s <= 16
    ensures Space(OneCode(), s) == Shl(1, 14)
  {
    if s == 2 {
      ZeroShl(15);
      assert Space(OneCode(), 1) == 0;
    } else {
      ZeroShl(16 - s);
      OneCodeSpace(s - 1);
    }
  }

  lemma OneCodeHolds()
    ensures KraftHolds(OneCode())
  {
    OneCodeSpace(16);
    ShlOne(14);
    Pow2Values();
    Pow2Monotone(14, 16);
  }

  lemma ZeroEntry()
    ensures Total(OneCode()) <= 256 && FusedEntry(OneCode(), OneSymbol(7), 0) == 256 * -127 + 9
    ensures FusedEntry(OneCode(), OneSymbol(15), 0) == 0
  {
    hide SizeOf, Hit, Decode;
    OneCodeParts();
    ZeroShr(0);
    LowIdentity(0, 7);
    Pow2Values();
  }

  lemma ExtendZero()
    ensures Extend(0, 15) == -32767
  {
    Pow2Values();
  }

  /** Four bytes of zeros and the marker. */
  const FOUR_ZEROS: seq<byte> := [0, 0, 0, 0, 0xff, 0xd9]

  /** No quantization. */
  function Unit(): (q: seq<nat>)
    ensures |q| == 64
  {
    seq(64, i => 1)
  }

  /** Zeros held, with the marker still ahead. */
  function ZerosHeld(bits: nat): Reservoir {
    Reservoir(0, bits, 4, 0xff, false)
  }

  lemma FirstRefill()
    ensures Ok(Reservoir(0, 0, 0, 0xff, false)) && Refill(FOUR_ZEROS, Reservoir(0, 0, 0, 0xff, false)) == ZerosHeld(32)
  {
    hide Shl, Or, Ok;
    ZerosOk(0, 0);
    var data := FOUR_ZEROS;
    ZeroPush(data, 0, 0);
    ZeroPush(data, 1, 8);
    ZeroPush(data, 2, 16);
    ZeroPush(data, 3, 24);
    assert Refill(data, Reservoir(0, 24, 3, 0xff, false)) == ZerosHeld(32);
    assert Refill(data, Reservoir(0, 16, 2, 0xff, false)) == ZerosHeld(32);
    assert Refill(data, Reservoir(0, 8, 1, 0xff, false)) == ZerosHeld(32);
  }

  lemma ZeroPush(data: seq<byte>, pos: nat, bits: nat)
    requires data == FOUR_ZEROS && pos < 4 && bits <= 24
    ensures EntropyByte(data, pos) == Data(0, pos + 1)
    ensures Push(Reservoir(0, bits, pos, 0xff, false), 0, pos + 1) == Reservoir(0, bits + 8, pos + 1, 0xff, false)
  {
    hide Shl, Or;
    EntropyCases(data, pos);
    ZeroShl(24 - bits);
    OrZero(0);
  }

  lemma AtMarker(bits: nat)
    requires bits <= 24
    ensures Refill(FOUR_ZEROS, ZerosHeld(bits)).bits == bits && Refill(FOUR_ZEROS, ZerosHeld(bits)).buffer == 0
  {
    EntropyCases(FOUR_ZEROS, 4);
  }

  lemma ZeroDrop(bits: nat, s: nat)
    requires s <= bits <= 32
    ensures Drop(ZerosHeld(bits), s) == ZerosHeld(bits - s)
  {
    ZeroShl(s);
    LowIdentity(0, 32);
    Pow2Values();
  }

  /** The code is the one code, and it is not flagged. */
  lemma ZeroRead(v: byte, bits: nat)
    requires 2 <= bits <= 32
    ensures Read(OneCode(), OneSymbol(v), ZerosHeld(bits)) == (v as int, ZerosHeld(bits - 2))
    ensures !Flagged(OneCode(), 0)
  {
    hide Decode, Drop;
    OneCodeParts();
    ZeroShr(16);
    ZeroDrop(bits, 2);
  }

  lemma HeldNotFlagged(bits: nat)
    requires bits <= 32
    ensures Ok(ZerosHeld(bits)) && !FlaggedNext(FOUR_ZEROS, OneCode(), ZerosHeld(bits))
  {
    hide Flagged, Ok, Word, Refill;
    var st := ZerosHeld(bits);
    ZeroFilled(bits);
    ReadyReadsStream(FOUR_ZEROS, st);
    ZeroShr(16);
    ZeroRead(0, 16);
  }

  lemma ZeroFilled(bits: nat)
    requires bits <= 32
    ensures Ok(ZerosHeld(bits)) && Filled(FOUR_ZEROS, ZerosHeld(bits), 16).buffer == 0
    ensures Filled(FOUR_ZEROS, ZerosHeld(bits), 16).bits == bits
  {
    hide Refill, Ok;
    HeldOk(bits);
    if bits < 16 { AtMarker(bits); }
  }

  lemma HeldOk(bits: nat)
    requires bits <= 32
    ensures Ok(ZerosHeld(bits))
  {
    forall i: nat ensures BitAt(0, i) == 0 { ZeroBit(i); }
  }

  /** The DC coefficient of both blocks: size 14, all 14 bits zero, which leaves 16 of the 32 bits. */
  lemma FirstDc()
    ensures var st := Reservoir(0, 0, 0, 0xff, false);
            && Ok(st) && !FlaggedNext(FOUR_ZEROS, OneCode(), st) && !DcCut(FOUR_ZEROS, OneCode(), OneSymbol(14), st)
            && DcRun(FOUR_ZEROS, OneCode(), OneSymbol(14), st) == (Some(-16383), ZerosHeld(16))
  {
    hide Flagged, Ok, Word, Refill, Read, Drop, Extend;
    var st := Reservoir(0, 0, 0, 0xff, false);
    FirstRefill();
    ReadyReadsStream(FOUR_ZEROS, st);
    ZeroShr(16);
    ZeroShr(18);
    ZeroRead(14, 32);
    ZeroDrop(30, 14);
    Extend14();
  }

  lemma Extend14()
    ensures Extend(0, 14) == -16383
  {
    Pow2Values();
  }

  lemma OneCodeTotal()
    ensures Total(OneCode()) == 1 && Regular(OneCode()) && KraftHolds(OneCode())
  {
    OneCodeParts();
    OneCodeHolds();
  }

  /** The departure of a block with that DC coefficient is that of its AC coefficients. */
  lemma AfterFirstDc(acValues: seq<byte>)
    requires |acValues| == 256
    ensures Total(OneCode()) <= 256 && Ok(Reservoir(0, 0, 0, 0xff, false)) && Ok(ZerosHeld(16))
    ensures BlockDeparture(FOUR_ZEROS, OneCode(), OneSymbol(14), OneCode(), acValues, Unit(),
                           Reservoir(0, 0, 0, 0xff, false), 0) ==
            AcDeparture(FOUR_ZEROS, OneCode(), acValues, ZerosHeld(16), 1)
  {
    hide Flagged, Ok, Word, Refill, Read, Drop, Extend, AcDeparture, FlaggedNext, DcRun, DcCut, DifferenceAt;
    OneCodeTotal();
    FirstDc();
    HeldOk(16);
    assert Unit()[0] == 1;
  }

  /** In the block of `OverrunOccurs` the first AC coefficient comes from the fused table. */
  lemma FirstFused()
    ensures Total(OneCode()) <= 256 && Ok(ZerosHeld(16)) && Ok(ZerosHeld(7))
    ensures !FlaggedNext(FOUR_ZEROS, OneCode(), ZerosHeld(16))
    ensures !Overrun(FOUR_ZEROS, OneCode(), OneSymbol(7), ZerosHeld(16))
    ensures !Cut(FOUR_ZEROS, OneCode(), OneSymbol(7), ZerosHeld(16))
    ensures Step(FOUR_ZEROS, OneCode(), OneSymbol(7), ZerosHeld(16)) == (Coefficient(0, -127), ZerosHeld(7))
  {
    hide Flagged, Ok, Word, Refill, Drop, FlaggedNext, FusedEntry, TwoSteps, Cut, Total;
    OneCodeTotal();
    HeldNotFlagged(16);
    HeldNotFlagged(7);
    ZeroFilled(16);
    ZeroShr(16);
    ZeroEntry();
    ZeroDrop(16, 9);
    FusedNotCut(FOUR_ZEROS, OneCode(), OneSymbol(7), ZerosHeld(16));
  }

  /** Of the second only seven bits are left for nine. */
  lemma SecondFused()
    ensures Total(OneCode()) <= 256 && Ok(ZerosHeld(7))
    ensures !FlaggedNext(FOUR_ZEROS, OneCode(), ZerosHeld(7))
    ensures Overrun(FOUR_ZEROS, OneCode(), OneSymbol(7), ZerosHeld(7))
  {
    hide Flagged, Ok, Word, Refill, FlaggedNext, FusedEntry, Total;
    OneCodeTotal();
    HeldNotFlagged(7);
    ZeroFilled(7);
    ZeroShr(7);
    ZeroEntry();
  }

  lemma OverrunSteps()
    ensures Total(OneCode()) <= 256 && Ok(ZerosHeld(16)) &&
            AcDeparture(FOUR_ZEROS, OneCode(), OneSymbol(7), ZerosHeld(16), 1).AtOverrun?
  {
    hide Ok, FlaggedNext, Overrun, Cut, Step, Total, EventAt;
    FirstFused();
    SecondFused();
    assert AcDeparture(FOUR_ZEROS, OneCode(), OneSymbol(7), ZerosHeld(7), 2).AtOverrun?;
  }

  lemma FusedNotCut(data: seq<byte>, cnt: Counts, values: seq<byte>, st: Reservoir)
    requires |values| == 256 && Total(cnt) <= 256 && Ok(st) && 0 <= st.bits && Entry(data, cnt, values, st) != 0
    ensures !Cut(data, cnt, values, st)
  {
  }

  /** From the start of the data a block can run into the marker within a fused entry: it is refused, where the stream
      holds a whole block. */
  lemma OverrunOccurs()
    ensures Total(OneCode()) <= 256 && KraftHolds(OneCode()) && Ok(Reservoir(0, 0, 0, 0xff, false))
    ensures var st := Reservoir(0, 0, 0, 0xff, false);
            && BlockDeparture(FOUR_ZEROS, OneCode(), OneSymbol(14), OneCode(), OneSymbol(7), Unit(), st, 0).AtOverrun?
            && BlockRun(FOUR_ZEROS, OneCode(), OneSymbol(14), OneCode(), OneSymbol(7), Unit(), st, 0).0.Broken?
            && BlockAt(FOUR_ZEROS, OneCode(), OneSymbol(14), OneCode(), OneSymbol(7), Unit(), st, 0).0.Decoded?
  {
    hide Ok, BlockDeparture, BlockRun, BlockAt, AcDeparture, KraftHolds, Total;
    OneCodeTotal();
    AfterFirstDc(OneSymbol(7));
    OverrunSteps();
    BlockFollowsStream(FOUR_ZEROS, OneCode(), OneSymbol(14), OneCode(), OneSymbol(7), Unit(),
                       Reservoir(0, 0, 0, 0xff, false), 0);
  }

  lemma CutSteps()
    ensures Total(OneCode()) <= 256 && Ok(ZerosHeld(16))
    ensures Step(FOUR_ZEROS, OneCode(), OneSymbol(15), ZerosHeld(16)).0 == Coefficient(0, 0)
    ensures AcDeparture(FOUR_ZEROS, OneCode(), OneSymbol(15), ZerosHeld(16), 1) == AtCut(1, -32767)
  {
    hide Flagged, Ok, Word, Refill, Drop, FlaggedNext, FusedEntry, Total, Read;
    OneCodeTotal();
    HeldNotFlagged(16);
    ZeroFilled(16);
    ZeroShr(16);
    ZeroShr(7);
    ZeroEntry();
    ZeroRead(15, 16);
    AtMarker(14);
    assert Cut(FOUR_ZEROS, OneCode(), OneSymbol(15), ZerosHeld(16));
    CutValue();
    FirstZigzag();
  }

  lemma FirstZigzag()
    ensures Zigzag(1) == 1
  {
  }

  /** What the stream holds there. */
  lemma CutValue()
    ensures EventAt(FOUR_ZEROS, OneCode(), OneSymbol(15), ZerosHeld(16), 0).0 == Coefficient(0, -32767)
  {
    hide Decode, StreamBit;
    var st := ZerosHeld(16);
    forall k: nat ensures StreamBit(FOUR_ZEROS, st, k) == 0 { HeldZeros(16, k); }
    ZeroWord(FOUR_ZEROS, st, 0, 16);
    ZeroWord(FOUR_ZEROS, st, 2, 15);
    OneCodeParts();
    ExtendZero();
  }

  lemma HeldZeros(bits: nat, k: nat)
    requires bits <= 32
    ensures StreamBit(FOUR_ZEROS, ZerosHeld(bits), k) == 0
  {
    EntropyCases(FOUR_ZEROS, 4);
    if k < bits { ZeroBit(31 - k); } else { ZeroBit(7 - (k - bits) % 8); }
  }

  /** And within a magnitude: 0 is read where the stream holds -32767, and the block is another one. */
  lemma CutOccurs()
    ensures Total(OneCode()) <= 256 && KraftHolds(OneCode()) && Ok(Reservoir(0, 0, 0, 0xff, false))
    ensures var st := Reservoir(0, 0, 0, 0xff, false);
            var ((b, r), (d, q)) :=
              (BlockRun(FOUR_ZEROS, OneCode(), OneSymbol(14), OneCode(), OneSymbol(15), Unit(), st, 0),
               BlockAt(FOUR_ZEROS, OneCode(), OneSymbol(14), OneCode(), OneSymbol(15), Unit(), st, 0));
            && BlockDeparture(FOUR_ZEROS, OneCode(), OneSymbol(14), OneCode(), OneSymbol(15), Unit(), st, 0) ==
               AtCut(1, -32767)
            && !(Agrees(FOUR_ZEROS, st, b, d) && r == q)
  {
    hide Ok, BlockDeparture, BlockRun, BlockAt, AcDeparture, KraftHolds, Total, Agrees;
    OneCodeTotal();
    AfterFirstDc(OneSymbol(15));
    CutSteps();
    BlockFollowsStream(FOUR_ZEROS, OneCode(), OneSymbol(14), OneCode(), OneSymbol(15), Unit(),
                       Reservoir(0, 0, 0, 0xff, false), 0);
    assert Unit()[1] == 1;
    assert Dequantized(-32767, 1) == -32767;
  }
}
