/** What the loops over a baseline JPEG block do to the reservoir, for every reservoir, and when that is what the
    zero-extended stream holds. */
module JpegRun {
  import opened Bits
  import opened Canonical
  import opened JpegCode
  import opened JpegHuffman
  import opened JpegReservoir
  import opened JpegSpec
  import opened JpegDecode
  import opened JpegAc

  // ---------- the loop on the reservoir ----------

  datatype Block = Broken | Block(coefs: seq<int>, st: Reservoir)

  /** Coefficients `k` to 63, one step after the other. */
  ghost function AcRun(data: seq<byte>, cnt: Counts, values: seq<byte>, dequant: seq<nat>, st: Reservoir, k: nat,
                       coefs: seq<int>): Block
    requires |values| == 256 && Total(cnt) <= 256 && |dequant| == 64 == |coefs| && Ok(st)
    decreases 64 - k
  {
    if k >= 64 then Block(coefs, st)
    else
      StepOk(data, cnt, values, st);
      var (e, t) := Step(data, cnt, values, st);
      match e
      case Bad => Broken
      case EndOfBlock => Block(coefs, t)
      case ZeroRun => AcRun(data, cnt, values, dequant, t, k + 16, coefs)
      case Coefficient(run, v) =>
        var z := Zigzag(k + run);
        AcRun(data, cnt, values, dequant, t, k + run + 1, coefs[z := Dequantized(v, dequant[z])])
  }

  /** The first thing that makes the loop leave the stream, if any. */
  datatype Departure = Never | AtFlag | AtOverrun | AtCut(place: Position, value: int) | AtDcCut(diff: int)

  ghost function AcDeparture(data: seq<byte>, cnt: Counts, values: seq<byte>, st: Reservoir, k: nat): Departure
    requires |values| == 256 && Total(cnt) <= 256 && Ok(st)
    decreases 64 - k
  {
    if k >= 64 then Never
    else if FlaggedNext(data, cnt, st) then AtFlag
    else if Overrun(data, cnt, values, st) then AtOverrun
    else if Cut(data, cnt, values, st) then
      OkBits(st);
      var f := EventAt(data, cnt, values, st, 0).0;
      if f.Coefficient? then AtCut(Zigzag(k + f.run), f.value) else Never
    else
      StepOk(data, cnt, values, st);
      var (e, t) := Step(data, cnt, values, st);
      match e
      case Bad => Never
      case EndOfBlock => Never
      case ZeroRun => AcDeparture(data, cnt, values, t, k + 16)
      case Coefficient(run, _) => AcDeparture(data, cnt, values, t, k + run + 1)
  }

  ghost predicate Agrees(data: seq<byte>, st: Reservoir, b: Block, d: Decoded) {
    match b
    case Broken => d.Corrupt?
    case Block(coefs, t) => d.Decoded? && coefs == d.coefs && Ahead(data, st, d.used, t)
  }

  /** Past the end of the data there is always a code to read. */
  lemma {:induction false} ZerosDecode(data: seq<byte>, cnt: Counts, values: seq<byte>, dequant: seq<nat>,
                                       st: Reservoir, p: nat, k: nat, coefs: seq<int>)
    requires |values| == 256 && Total(cnt) <= 256 && |dequant| == 64 == |coefs| && 0 <= st.bits <= 32
    requires Top(cnt, 16) > 0 && forall n: nat :: n >= p ==> StreamBit(data, st, n) == 0
    ensures CoefsAt(data, cnt, values, dequant, st, p, k, coefs).Decoded?
    decreases 64 - k
  {
    hide Top, StreamBit, Total, Zigzag, Dequantized, Word;
    if k < 64 {
      ZeroWord(data, st, p, 16);
      ZeroSymbol(cnt);
      var (e, q) := EventAt(data, cnt, values, st, p);
      if e.ZeroRun? {
        ZerosDecode(data, cnt, values, dequant, st, q, k + 16, coefs);
      } else if e.Coefficient? {
        var z := Zigzag(k + e.run);
        ZerosDecode(data, cnt, values, dequant, st, q, k + e.run + 1, coefs[z := Dequantized(e.value, dequant[z])]);
      }
    }
  }

  lemma {:induction false} ZeroWord(data: seq<byte>, st: Reservoir, p: nat, n: nat)
    requires 0 <= st.bits <= 32 && forall k: nat :: k >= p ==> StreamBit(data, st, k) == 0
    ensures Word(data, st, p, n) == 0
  {
    hide StreamBit;
    if n > 0 { ZeroWord(data, st, p, n - 1); }
  }

  lemma ZeroSymbol(cnt: Counts)
    requires Top(cnt, 16) > 0 && Total(cnt) <= 256
    ensures Decode(cnt, 0, 1).Some? && Decode(cnt, 0, 1).value.0 < 256
  {
    hide Decode, Top, First, Offset, Shr, SizeOf, CodeOf;
    if Decode(cnt, 0, 1).None? {
      NoneAbove(cnt, 0);
    } else {
      var s := DecodeLength(cnt, 0);
      DecodeAt(cnt, 0, s);
    }
  }

  /** A word that starts with a code shows that there are codes. */
  lemma HasCodes(data: seq<byte>, cnt: Counts, values: seq<byte>, st: Reservoir)
    requires |values| == 256 && 0 <= st.bits <= 32 && !EventAt(data, cnt, values, st, 0).0.Bad?
    ensures Top(cnt, 16) > 0
  {
    hide Decode, Top, Word;
    var s := DecodeLength(cnt, Word(data, st, 0, 16));
    TopMonotone(cnt, s, 16);
  }

  /** Neither the loop nor the stream writes a coefficient twice. */
  lemma {:induction false} RunKeeps(data: seq<byte>, cnt: Counts, values: seq<byte>, dequant: seq<nat>, st: Reservoir,
                                    k: nat, coefs: seq<int>, i: nat)
    requires |values| == 256 && Total(cnt) <= 256 && |dequant| == 64 == |coefs| && Ok(st) && i < k
    ensures var b := AcRun(data, cnt, values, dequant, st, k, coefs); b.Block? ==>
              |b.coefs| == 64 && b.coefs[Zigzag(i)] == coefs[Zigzag(i)]
    decreases 64 - k
  {
    hide Ok, Total, Zigzag, Dequantized, Step;
    if k < 64 {
      StepOk(data, cnt, values, st);
      var (e, t) := Step(data, cnt, values, st);
      if e.ZeroRun? {
        RunKeeps(data, cnt, values, dequant, t, k + 16, coefs, i);
      } else if e.Coefficient? {
        var z := Zigzag(k + e.run);
        ZigzagOnce(i, k + e.run);
        RunKeeps(data, cnt, values, dequant, t, k + e.run + 1, coefs[z := Dequantized(e.value, dequant[z])], i);
      }
    }
  }

  lemma {:induction false} StreamKeeps(data: seq<byte>, cnt: Counts, values: seq<byte>, dequant: seq<nat>,
                                       st: Reservoir, p: nat, k: nat, coefs: seq<int>, i: nat)
    requires |values| == 256 && |dequant| == 64 == |coefs| && 0 <= st.bits <= 32 && i < k
    ensures var d := CoefsAt(data, cnt, values, dequant, st, p, k, coefs); d.Decoded? ==>
              |d.coefs| == 64 && d.coefs[Zigzag(i)] == coefs[Zigzag(i)]
    decreases 64 - k
  {
    hide Zigzag, Dequantized, EventAt;
    if k < 64 {
      var (e, q) := EventAt(data, cnt, values, st, p);
      if e.ZeroRun? {
        StreamKeeps(data, cnt, values, dequant, st, q, k + 16, coefs, i);
      } else if e.Coefficient? {
        var z := Zigzag(k + e.run);
        ZigzagOnce(i, k + e.run);
        StreamKeeps(data, cnt, values, dequant, st, q, k + e.run + 1, coefs[z := Dequantized(e.value, dequant[z])], i);
      }
    }
  }

  /** At a cut magnitude the loop leaves a zero where the stream holds a value. */
  lemma CutDiffers(data: seq<byte>, cnt: Counts, values: seq<byte>, dequant: seq<nat>, st0: Reservoir, p: nat,
                   st: Reservoir, k: nat, coefs: seq<int>)
    requires |values| == 256 && Total(cnt) <= 256 && |dequant| == 64 == |coefs| && k < 64
    requires Ahead(data, st0, p, st) && 0 <= st0.bits <= 32 && Ok(st) && 0 <= st.bits <= 32
    requires Cut(data, cnt, values, st) && !FlaggedNext(data, cnt, st) && !Overrun(data, cnt, values, st)
    ensures var f := EventAt(data, cnt, values, st, 0).0;
            f.Coefficient? && (Dequantized(f.value, dequant[Zigzag(k + f.run)]) != 0 ==>
              !Agrees(data, st0, AcRun(data, cnt, values, dequant, st, k, coefs),
                      CoefsAt(data, cnt, values, dequant, st0, p, k, coefs)))
  {
    hide Ok, StreamBit, Total, Zigzag, Word, Ahead, Step, EventAt, Overrun, Cut, FlaggedNext, Dequantized;
    StepReadsStream(data, cnt, values, st);
    StepOk(data, cnt, values, st);
    EventAhead(data, cnt, values, st0, p, st);
    var ((e, t), (f, q)) := (Step(data, cnt, values, st), EventAt(data, cnt, values, st, 0));
    var i := k + f.run;
    var z := Zigzag(i);
    ZeroShort(dequant[z]);
    RunKeeps(data, cnt, values, dequant, t, i + 1, coefs[z := Dequantized(0, dequant[z])], i);
    StreamKeeps(data, cnt, values, dequant, st0, p + q, i + 1, coefs[z := Dequantized(f.value, dequant[z])], i);
    var b := AcRun(data, cnt, values, dequant, st, k, coefs);
    var d := CoefsAt(data, cnt, values, dequant, st0, p, k, coefs);
    assert b == AcRun(data, cnt, values, dequant, t, i + 1, coefs[z := Dequantized(0, dequant[z])]);
    assert d == CoefsAt(data, cnt, values, dequant, st0, p + q, i + 1, coefs[z := Dequantized(f.value, dequant[z])]);
    HasCodes(data, cnt, values, st);
    CutEnds(data, cnt, values, st);
    AheadZeros(data, st0, p, st, q);
    ZerosDecode(data, cnt, values, dequant, st0, p + q, i + 1, coefs[z := Dequantized(f.value, dequant[z])]);
    if b.Block? { assert b.coefs[z] == 0 && d.coefs[z] == Dequantized(f.value, dequant[z]); }
  }

  lemma AheadZeros(data: seq<byte>, st0: Reservoir, p: nat, st: Reservoir, q: nat)
    requires Ahead(data, st0, p, st) && 0 <= st0.bits <= 32 && 0 <= st.bits <= 32
    requires forall n: nat :: n >= q ==> StreamBit(data, st, n) == 0
    ensures forall n: nat :: n >= p + q ==> StreamBit(data, st0, n) == 0
  {
    hide StreamBit, Ok;
    forall n: nat | n >= p + q ensures StreamBit(data, st0, n) == 0 {
      assert StreamBit(data, st, n - p) == StreamBit(data, st0, p + (n - p));
    }
  }

  lemma ZeroShort(q: nat)
    ensures Dequantized(0, q) == 0
  {
  }

  /** Without a departure the loop gives what the stream holds.  An overrun entry is refused where the stream goes on
      with zeros and a whole block; a cut magnitude is lost. */
  lemma {:induction false} AcFollowsStream(data: seq<byte>, cnt: Counts, values: seq<byte>, dequant: seq<nat>,
                                           st0: Reservoir, p: nat, st: Reservoir, k: nat, coefs: seq<int>)
    requires |values| == 256 && Total(cnt) <= 256 && |dequant| == 64 == |coefs|
    requires Ahead(data, st0, p, st) && 0 <= st0.bits <= 32 && Ok(st)
    ensures var (b, d) := (AcRun(data, cnt, values, dequant, st, k, coefs),
                           CoefsAt(data, cnt, values, dequant, st0, p, k, coefs));
            && (AcDeparture(data, cnt, values, st, k).Never? ==> Agrees(data, st0, b, d))
            && (AcDeparture(data, cnt, values, st, k).AtOverrun? ==> b.Broken? && d.Decoded?)
            && !AcDeparture(data, cnt, values, st, k).AtDcCut?
            && match AcDeparture(data, cnt, values, st, k)
               case AtCut(z, v) => Dequantized(v, dequant[z]) != 0 ==> !Agrees(data, st0, b, d)
               case _ => true
    decreases 64 - k
  {
    hide Ok, StreamBit, Total, Zigzag, Dequantized, Word, Ahead, Step, EventAt, Overrun, Cut, FlaggedNext;
    if k < 64 && !FlaggedNext(data, cnt, st) {
      AheadOk(data, st0, p, st);
      StepReadsStream(data, cnt, values, st);
      StepOk(data, cnt, values, st);
      EventAhead(data, cnt, values, st0, p, st);
      var ((e, t), (f, q)) := (Step(data, cnt, values, st), EventAt(data, cnt, values, st, 0));
      if Overrun(data, cnt, values, st) {
        HasCodes(data, cnt, values, st);
        EndsHere(data, st0, p, st, 16, q);
        var z := Zigzag(k + f.run);
        ZerosDecode(data, cnt, values, dequant, st0, p + q, k + f.run + 1,
                    coefs[z := Dequantized(f.value, dequant[z])]);
      } else if Cut(data, cnt, values, st) {
        CutDiffers(data, cnt, values, dequant, st0, p, st, k, coefs);
      } else if !e.Bad? {
        AheadTrans(data, st0, p, st, q, t);
        if e.ZeroRun? {
          AcFollowsStream(data, cnt, values, dequant, st0, p + q, t, k + 16, coefs);
        } else if e.Coefficient? {
          var z := Zigzag(k + e.run);
          AcFollowsStream(data, cnt, values, dequant, st0, p + q, t, k + e.run + 1,
                          coefs[z := Dequantized(e.value, dequant[z])]);
        }
      }
    }
  }

  // ---------- the DC coefficient ----------

  /** The DC difference, whose magnitude if any is the size the symbol says. */
  ghost function DcRun(data: seq<byte>, cnt: Counts, values: seq<byte>, st: Reservoir): (r: (Option<int>, Reservoir))
    requires |values| == 256 && Ok(st)
    ensures r.0.Some? ==> Ok(r.1)
  {
    ReadyReadsStream(data, st);
    ReadOk(cnt, values, Ready(data, st));
    var (t, s) := Read(cnt, values, Ready(data, st));
    if t < 0 || t > 15 then (None, s)
    else if t == 0 then (Some(0), s)
    else
      ReceivedOk(data, s, t);
      (Some(Received(data, s, t).0), Received(data, s, t).1)
  }

  /** The magnitude of the DC difference is longer than the data left. */
  ghost predicate DcCut(data: seq<byte>, cnt: Counts, values: seq<byte>, st: Reservoir)
    requires |values| == 256 && Ok(st)
  {
    ReadyReadsStream(data, st);
    ReadBits(cnt, values, Ready(data, st));
    var (t, s) := Read(cnt, values, Ready(data, st));
    1 <= t <= 15 && Filled(data, s, t).bits < t
  }

  /** The difference is the one the stream holds exactly when its magnitude is not cut. */
  lemma DcReadsStream(data: seq<byte>, cnt: Counts, values: seq<byte>, st: Reservoir)
    requires |values| == 256 && Total(cnt) <= 256 && Ok(st) && 0 <= st.bits <= 32 && !FlaggedNext(data, cnt, st)
    ensures var ((e, t), d) := (DcRun(data, cnt, values, st), DifferenceAt(data, cnt, values, st));
            && (e.None? <==> d.None?)
            && (e.Some? ==> (e.value == d.value.0 <==> !DcCut(data, cnt, values, st)))
            && (e.Some? && !DcCut(data, cnt, values, st) ==> Ahead(data, st, d.value.1, t))
            && (DcCut(data, cnt, values, st) ==> e == Some(0) && d.Some?)
  {
    hide Ok, Word, Ahead, Drop, Filled, Ready, Symbol, Flagged, SymbolAt, Received, MagnitudeAt;
    ReadyReadsStream(data, st);
    var u := Ready(data, st);
    SymbolReadsStream(data, cnt, values, u);
    ReadOk(cnt, values, u);
    ReadBits(cnt, values, u);
    SymbolAhead(data, cnt, values, st, u);
    var (d, (t, s)) := (SymbolAt(data, cnt, values, u, 0), Symbol(cnt, values, u));
    if d.Some? {
      var len := d.value.1;
      AheadTrans(data, st, 0, u, len, s);
      if 1 <= t <= 15 {
        ReceivedOk(data, s, t);
        ReceivedReadsStream(data, s, t);
        MagnitudeAhead(data, st, len, s, t);
        if !DcCut(data, cnt, values, st) { AheadTrans(data, st, len, s, t, Received(data, s, t).1); }
      }
    }
  }

  lemma SymbolAhead(data: seq<byte>, cnt: Counts, values: seq<byte>, st: Reservoir, u: Reservoir)
    requires |values| == 256 && Ahead(data, st, 0, u)
    ensures 0 <= st.bits <= 32 && 0 <= u.bits <= 32 &&
            SymbolAt(data, cnt, values, u, 0) == SymbolAt(data, cnt, values, st, 0)
  {
    hide Ahead, Word, Decode;
    WordAhead(data, st, 0, u, 0, 16);
  }

  // ---------- the whole block ----------

  ghost function BlockRun(data: seq<byte>, dc: Counts, dcValues: seq<byte>, ac: Counts, acValues: seq<byte>,
                          dequant: seq<nat>, st: Reservoir, pred: int): (Block, int)
    requires |dcValues| == |acValues| == 256 && |dequant| == 64 && Ok(st) && Total(ac) <= 256
  {
    match DcRun(data, dc, dcValues, st)
    case (None, _) => (Broken, pred)
    case (Some(diff), t) =>
      if !DcFits(pred, diff, dequant[0]) then (Broken, Carried(pred, diff))
      else (AcRun(data, ac, acValues, dequant, t, 1, DcOnly(pred + diff, dequant[0])), pred + diff)
  }

  ghost function BlockDeparture(data: seq<byte>, dc: Counts, dcValues: seq<byte>, ac: Counts, acValues: seq<byte>,
                                dequant: seq<nat>, st: Reservoir, pred: int): Departure
    requires |dcValues| == |acValues| == 256 && |dequant| == 64 && Ok(st) && Total(ac) <= 256
  {
    if FlaggedNext(data, dc, st) then AtFlag
    else
      OkBits(st);
      var d := DifferenceAt(data, dc, dcValues, st);
      if DcCut(data, dc, dcValues, st) then AtDcCut(if d.Some? then d.value.0 else 0)
      else
      match DcRun(data, dc, dcValues, st)
      case (None, _) => Never
      case (Some(diff), t) =>
        if !DcFits(pred, diff, dequant[0]) then Never else AcDeparture(data, ac, acValues, t, 1)
  }

  /** The departures that are known to show: an overrun entry, a cut magnitude that does not dequantize to 0, and a
      cut DC difference that would have been accepted. */
  predicate Shows(w: Departure, dequant: seq<nat>, pred: int)
    requires |dequant| == 64
  {
    match w
    case AtOverrun => true
    case AtCut(z, v) => Dequantized(v, dequant[z]) != 0
    case AtDcCut(diff) => DcFits(pred, diff, dequant[0])
    case _ => false
  }

  /** From any reservoir and whatever ends the data, a block is what the stream holds if the loop never leaves the
      stream, and is not if the departure shows. */
  lemma BlockFollowsStream(data: seq<byte>, dc: Counts, dcValues: seq<byte>, ac: Counts, acValues: seq<byte>,
                           dequant: seq<nat>, st: Reservoir, pred: int)
    requires |dcValues| == |acValues| == 256 && |dequant| == 64 && Ok(st) && 0 <= st.bits <= 32 && IsInt(pred)
    requires Total(dc) <= 256 && Total(ac) <= 256
    ensures var ((b, r), (d, q)) := (BlockRun(data, dc, dcValues, ac, acValues, dequant, st, pred),
                                     BlockAt(data, dc, dcValues, ac, acValues, dequant, st, pred));
            var w := BlockDeparture(data, dc, dcValues, ac, acValues, dequant, st, pred);
            && (w.Never? || Shows(w, dequant, pred) ==> (w.Never? <==> Agrees(data, st, b, d) && r == q))
            && (w.AtOverrun? ==> b.Broken? && d.Decoded? && r == q)
  {
    hide Ok, Word, Ahead, AcRun, AcDeparture, DcRun, DcCut, FlaggedNext, CoefsAt, DifferenceAt, DcOnly, Total;
    if !FlaggedNext(data, dc, st) { DcReadsStream(data, dc, dcValues, st); }
    var ((e, t), d) := (DcRun(data, dc, dcValues, st), DifferenceAt(data, dc, dcValues, st));
    if !FlaggedNext(data, dc, st) && e.Some? && !DcCut(data, dc, dcValues, st) {
      AcFollowsStream(data, ac, acValues, dequant, st, d.value.1, t, 1, DcOnly(pred + e.value, dequant[0]));
    }
  }
}
