/** AC coefficients: the table that decodes a symbol and its magnitude in one step, and
    the loop of a block that uses it, against decoding the two one after the other
    (section F.2.2.2 of ITU-T T.81). */
module JpegAc {
  import opened Bits
  import opened Canonical
  import opened JpegCode
  import opened JpegHuffman
  import opened JpegReservoir
  import opened JpegSpec
  import opened JpegDecode

  // ---------- what decoding reads from the stream ----------

  /** With 16 bits held, a symbol is the one the stream gives next, and takes the bits of its code. */
  lemma SymbolReadsStream(data: seq<byte>, cnt: Counts, values: seq<byte>, st: Reservoir)
    requires |values| == 256 && Ok(st) && st.bits >= 16 && Total(cnt) <= 256
    ensures var (d, (v, t)) := (SymbolAt(data, cnt, values, st, 0), Symbol(cnt, values, st));
            if d.None? then v == -1
            else
              v == d.value.0 as int && 1 <= d.value.1 <= 16 && t == Drop(st, d.value.1) && Ahead(data, st, d.value.1, t)
  {
    hide Decode, Shr, Word, Ok, StreamBit, Drop, Ahead, Top, First, Offset, SizeOf, CodeOf;
    OkBits(st);
    TopIsWord(data, st, 16);
    var w := Shr(st.buffer, 16);
    if Decode(cnt, w, 1).Some? {
      var s := DecodeLength(cnt, w);
      DecodeAt(cnt, w, s);
      DropAhead(data, st, s);
    }
  }

  lemma ExtendNotZero(v: nat, n: nat)
    requires n >= 1
    ensures Extend(v, n) != 0
  {
  }

  /** A magnitude is the next `size` bits of the stream exactly when so many are held after refilling; else it reads
      as 0 and takes none. */
  lemma ReceivedReadsStream(data: seq<byte>, st: Reservoir, size: nat)
    requires Ok(st) && 1 <= size <= 15
    ensures var (v, t) := Received(data, st, size);
            && (Filled(data, st, size).bits >= size <==> v == MagnitudeAt(data, st, 0, size))
            && (Filled(data, st, size).bits >= size ==> Ahead(data, st, size, t))
            && (Filled(data, st, size).bits < size ==> v == 0 && Ahead(data, st, 0, t))
  {
    hide Shr, Ok, StreamBit, Drop, Refill, Ahead, Word, Extend;
    OkBits(st);
    var s := Filled(data, st, size);
    FilledAhead(data, st, size);
    ExtendNotZero(Word(data, st, 0, size), size);
    if s.bits >= size {
      WordAhead(data, st, 0, s, 0, size);
      TopIsWord(data, s, size);
      DropAhead(data, s, size);
      AheadTrans(data, st, 0, s, size, Drop(s, size));
    }
  }

  lemma FilledAhead(data: seq<byte>, st: Reservoir, n: nat)
    requires Ok(st) && n <= 16
    ensures var s := Filled(data, st, n);
            0 <= st.bits && Ok(s) && 0 <= s.bits <= 32 && Ahead(data, st, 0, s) && (s.bits >= n || s.nomore)
  {
    hide Ok, Refill, Ahead;
    OkBits(st);
    if st.bits < n { RefillAhead(data, st); RefillStream(data, st, 0); } else { SelfAhead(data, st); }
    AheadOk(data, st, 0, Filled(data, st, n));
  }

  /** The reservoir a symbol is decoded from: a refill that met the marker is followed by one that adds zeros. */
  function Ready(data: seq<byte>, st: Reservoir): Reservoir
    requires 0 <= st.bits
    requires Filled(data, st, 16).bits >= 0
  {
    Filled(data, Filled(data, st, 16), 16)
  }

  /** Either way the top of the reservoir is the next 16 bits of the stream. */
  lemma ReadyReadsStream(data: seq<byte>, st: Reservoir)
    requires Ok(st)
    ensures 0 <= st.bits <= 32 && 0 <= Filled(data, st, 16).bits <= 32
    ensures var (s, u) := (Filled(data, st, 16), Ready(data, st));
            && Ok(s) && Ahead(data, st, 0, s) && (s.bits >= 16 || s.nomore)
            && Ok(u) && Ahead(data, st, 0, u) && 16 <= u.bits <= 32 && u.buffer == s.buffer
            && Shr(s.buffer, 16) == Word(data, st, 0, 16)
  {
    hide Ok, Refill, Ahead, Word, Shr;
    FilledAhead(data, st, 16);
    var s := Filled(data, st, 16);
    FilledAhead(data, s, 16);
    var u := Ready(data, st);
    if s.bits < 16 { RefillPads(data, s); }
    AheadTrans(data, st, 0, s, 0, u);
    WordAhead(data, st, 0, u, 0, 16);
    TopIsWord(data, u, 16);
  }

  // ---------- the fused table ----------

  /** The `mag` bits after the first `len` of the nine bits `i`. */
  function MagnitudeBits(i: nat, len: nat, mag: nat): nat
    requires len + mag <= 9
  {
    Low(Shr(i, 9 - len - mag), mag)
  }

  /** Entry `i`: value, run and bits used in one number if nine bits hold a short code and all of a small magnitude,
      else 0. */
  function FusedEntry(cnt: Counts, values: seq<byte>, i: nat): int
    requires |values| == 256 && Total(cnt) <= 256
  {
    var k := Hit(cnt, i, Total(cnt));
    var len, mag := SizeOf(cnt, k), values[k] % 16;
    if k == 255 || mag == 0 || len + mag > 9 then 0
    else
      var v := Extend(MagnitudeBits(i, len, mag), mag);
      if -128 <= v <= 127 then 256 * v + 16 * (values[k] / 16) + len + mag else 0
  }

  /** `stbi__build_fast_ac`. */
  method BuildFastAc(fastAc: array<int>, h: HuffmanTable, ghost cnt: Counts)
    requires h.Built(cnt) && fastAc.Length == 512 && fastAc != h.delta
    modifies fastAc
    ensures forall i: nat :: i < 512 ==> fastAc[i] == FusedEntry(cnt, h.values[..], i)
  {
    hide FusedEntry, FastRight, SizesRight, CodesRight, LengthsRight, KraftHolds;
    for i := 0 to 512
      invariant h.Built(cnt)
      invariant forall j: nat :: j < i ==> fastAc[j] == FusedEntry(cnt, h.values[..], j)
    {
      var r := FastAcEntry(i, h, cnt);
      fastAc[i] := r;
    }
  }

  method FastAcEntry(i: nat, h: HuffmanTable, ghost cnt: Counts) returns (r: int)
    requires h.Built(cnt) && i < 512
    ensures r == FusedEntry(cnt, h.values[..], i)
  {
    hide Hit, SizeOf, SizesRight, CodesRight, LengthsRight, KraftHolds, Low, Shr, Shl, And, Pow2, Top, First, Offset;
    var fast := h.fast[i];
    assert FastRight(h.fast[..], cnt, Total(cnt)) && h.fast[..][i] == fast;
    r := 0;
    if fast < 255 {
      var rs := h.values[fast];
      var run, magbits := rs / 16, rs % 16;
      HitListed(h, cnt, i);
      var len := h.size[fast];
      if magbits != 0 && len + magbits <= FAST_BITS {
        MagnitudeShift(i, len, magbits);
        var k: int := Shr(And(Shl(i, len), 511), FAST_BITS - magbits);
        ShlOne(magbits - 1);
        var m := Shl(1, magbits - 1);
        if k < m { k := k - Pow2(magbits) + 1; }
        if -128 <= k <= 127 {
          r := k * 256 + run * 16 + (len + magbits);
        }
      }
    }
  }

  lemma HitListed(h: HuffmanTable, cnt: Counts, c: nat)
    requires h.Built(cnt) && Hit(cnt, c, Total(cnt)) < 255
    ensures h.size[Hit(cnt, c, Total(cnt))] == SizeOf(cnt, Hit(cnt, c, Total(cnt)))
    ensures 1 <= SizeOf(cnt, Hit(cnt, c, Total(cnt))) <= 9 && Hit(cnt, c, Total(cnt)) < Total(cnt)
  {
    hide SizeOf, Total;
    HitBound(cnt, c, Total(cnt));
    assert h.size[..][Hit(cnt, c, Total(cnt))] == h.size[Hit(cnt, c, Total(cnt))];
  }

  lemma {:induction false} HitBound(cnt: Counts, c: nat, n: nat)
    requires n <= 256
    ensures Hit(cnt, c, n) == 255 || (Hit(cnt, c, n) < n && ShortStart(cnt, c, Hit(cnt, c, n)))
  {
    if n > 0 { HitBound(cnt, c, n - 1); }
  }

  lemma MagnitudeShift(i: nat, len: nat, mag: nat)
    requires i < 512 && len + mag <= 9
    ensures Shr(And(Shl(i, len), 511), 9 - mag) == MagnitudeBits(i, len, mag)
  {
    hide Shr, And, Shl, Low;
    Pow2Values();
    AndMask(Shl(i, len), 511, 9);
    ShiftedTop(i, len, mag, 9);
  }

  // ---------- one step ----------

  /** A symbol, then its magnitude if it has one. */
  function TwoSteps(data: seq<byte>, cnt: Counts, values: seq<byte>, st: Reservoir): (Event, Reservoir)
    requires |values| == 256 && st.bits >= 16
  {
    var (rs, s) := Read(cnt, values, st);
    ReadBits(cnt, values, st);
    if rs < 0 then (Bad, s)
    else if rs % 16 == 0 then (Plain(rs), s)
    else
      var (v, t) := Received(data, s, rs % 16);
      (Coefficient(rs / 16, v), t)
  }

  /** The magnitude is longer than the data left after its symbol. */
  predicate CutMagnitude(data: seq<byte>, cnt: Counts, values: seq<byte>, st: Reservoir)
    requires |values| == 256 && st.bits >= 16
  {
    var (rs, s) := Read(cnt, values, st);
    ReadBits(cnt, values, st);
    rs >= 0 && rs % 16 > 0 && Filled(data, s, rs % 16).bits < rs % 16
  }

  /** Decoding a symbol and then its magnitude gives what the stream holds, exactly when the magnitude is not cut. */
  lemma TwoStepsReadStream(data: seq<byte>, cnt: Counts, values: seq<byte>, st: Reservoir)
    requires |values| == 256 && Ok(st) && 16 <= st.bits <= 32 && Total(cnt) <= 256
    requires !Flagged(cnt, Shr(st.buffer, 16))
    ensures var ((e, t), (f, q)) := (TwoSteps(data, cnt, values, st), EventAt(data, cnt, values, st, 0));
            && (e == f <==> !CutMagnitude(data, cnt, values, st))
            && (e == f && !e.Bad? ==> Ahead(data, st, q, t))
            && (e != f ==> e.Coefficient? && f.Coefficient? && e.run == f.run && e.value == 0)
  {
    hide Ok, Word, Ahead, Drop, Filled, Symbol, Flagged, SymbolAt, Received, MagnitudeAt;
    SymbolReadsStream(data, cnt, values, st);
    ReadBits(cnt, values, st);
    var (d, (rs, s)) := (SymbolAt(data, cnt, values, st, 0), Symbol(cnt, values, st));
    if d.Some? && rs % 16 != 0 {
      var len := d.value.1;
      AheadOk(data, st, len, s);
      ReceivedReadsStream(data, s, rs % 16);
      MagnitudeAhead(data, st, len, s, rs % 16);
      var t := Received(data, s, rs % 16).1;
      if !CutMagnitude(data, cnt, values, st) { AheadTrans(data, st, len, s, rs % 16, t); }
    }
  }

  /** Where a refill meets the marker too soon, the stream ends with the bits held. */
  lemma EndsHere(data: seq<byte>, st0: Reservoir, p: nat, st: Reservoir, n: nat, q: nat)
    requires Ahead(data, st0, p, st) && 0 <= st0.bits <= 32 && 0 <= st.bits && n <= 16
    requires Filled(data, st, n).bits < n && Filled(data, st, n).bits <= q
    ensures forall k: nat :: k >= p + q ==> StreamBit(data, st0, k) == 0
  {
    hide Ok, Filled;
    AheadOk(data, st0, p, st);
    FilledAhead(data, st, n);
    var s := Filled(data, st, n);
    AheadTrans(data, st0, p, st, 0, s);
    forall k: nat | k >= p + q ensures StreamBit(data, st0, k) == 0 {
      assert StreamBit(data, s, k - p) == StreamBit(data, st0, p + (k - p));
      ZeroBit(7 - (k - p - s.bits) % 8);
    }
  }

  /** After a cut magnitude the stream holds zeros only. */
  lemma MagnitudeEnds(data: seq<byte>, cnt: Counts, values: seq<byte>, st: Reservoir)
    requires |values| == 256 && Ok(st) && 16 <= st.bits <= 32 && Total(cnt) <= 256
    requires !Flagged(cnt, Shr(st.buffer, 16)) && CutMagnitude(data, cnt, values, st)
    ensures forall k: nat :: k >= EventAt(data, cnt, values, st, 0).1 ==> StreamBit(data, st, k) == 0
  {
    hide Ok, Word, Ahead, Drop, Filled, Symbol, Flagged, SymbolAt, MagnitudeAt, StreamBit;
    SymbolReadsStream(data, cnt, values, st);
    ReadBits(cnt, values, st);
    var (d, (rs, s)) := (SymbolAt(data, cnt, values, st, 0), Symbol(cnt, values, st));
    EndsHere(data, st, d.value.1, s, rs % 16, rs % 16);
  }

  lemma MagnitudeAhead(data: seq<byte>, st: Reservoir, p: nat, t: Reservoir, n: nat)
    requires Ahead(data, st, p, t) && n >= 1
    ensures 0 <= st.bits <= 32 && 0 <= t.bits <= 32 && MagnitudeAt(data, t, 0, n) == MagnitudeAt(data, st, p, n)
  {
    hide Ahead, Word;
    WordAhead(data, st, p, t, 0, n);
  }

  lemma ReadBits(cnt: Counts, values: seq<byte>, st: Reservoir)
    requires |values| == 256 && st.bits >= 16
    ensures Read(cnt, values, st).0 >= 0 ==> Read(cnt, values, st).1.bits >= 0 && Read(cnt, values, st).0 < 256
  {
    hide Decode, Shr, Drop, Shl, Low, First, Offset, Flagged;
    var d := Decode(cnt, Shr(st.buffer, 16), 1);
    if d.Some? && d.value.1 <= st.bits { DropParts(st, d.value.1); }
    DropParts(st, 10);
  }

  /** A nonzero entry of the fused table gives the same run, value and remaining bits as the two steps. */
  lemma FusedIsTwoSteps(data: seq<byte>, cnt: Counts, values: seq<byte>, st: Reservoir)
    requires |values| == 256 && Total(cnt) <= 256 && Ok(st) && st.bits >= 16
    requires FusedEntry(cnt, values, Shr(Shr(st.buffer, 16), 7)) != 0
    ensures var r := FusedEntry(cnt, values, Shr(Shr(st.buffer, 16), 7));
            TwoSteps(data, cnt, values, st) == (Coefficient((r / 16) % 16, r / 256), Drop(st, r % 16))
    ensures !CutMagnitude(data, cnt, values, st) && !Flagged(cnt, Shr(st.buffer, 16))
    ensures var (rs, s) := Symbol(cnt, values, st);
            rs >= 0 && s.bits + FusedEntry(cnt, values, Shr(Shr(st.buffer, 16), 7)) % 16 == st.bits + rs % 16
  {
    hide Decode, Hit, SizeOf, Extend, Shr, Top, Drop, Low, Pow2, First, Offset;
    var w := Shr(st.buffer, 16);
    var k := Hit(cnt, Shr(w, 7), Total(cnt));
    FastAnswers(cnt, w);
    var len, mag, rs := SizeOf(cnt, k), values[k] % 16, values[k];
    OkBits(st);
    assert Symbol(cnt, values, st) == (rs as int, Drop(st, len));
    DropParts(st, len);
    MagnitudeShifted(st, len, mag);
    DropDrop(st, len, mag);
    Unpack(Extend(MagnitudeBits(Shr(w, 7), len, mag), mag), rs / 16, len + mag);
  }

  lemma Unpack(v: int, run: nat, bits: nat)
    requires run < 16 && bits < 16
    ensures var r := 256 * v + 16 * run + bits; r / 256 == v && (r / 16) % 16 == run && r % 16 == bits
  {
    var r := 256 * v + 16 * run + bits;
    assert r / 16 == 16 * v + run;
  }

  lemma MagnitudeShifted(st: Reservoir, len: nat, mag: nat)
    requires Ok(st) && len + mag <= 9
    ensures Shr(Drop(st, len).buffer, 32 - mag) == MagnitudeBits(Shr(Shr(st.buffer, 16), 7), len, mag)
  {
    hide Shr, Low, Shl;
    ShiftedTop(st.buffer, len, mag, 32);
    ShrAdd(st.buffer, 16, 7);
    ShrAdd(st.buffer, 23, 9 - len - mag);
  }

  lemma DropDrop(st: Reservoir, a: nat, b: nat)
    ensures Drop(Drop(st, a), b) == Drop(st, a + b)
  {
    ShiftedMore(st.buffer, a, b, 32);
  }

  // ---------- the step of the block loop ----------

  /** The fast table reads the next word as "not accelerated" although its code is short. */
  predicate FlaggedNext(data: seq<byte>, cnt: Counts, st: Reservoir) {
    0 <= st.bits <= 32 && Flagged(cnt, Word(data, st, 0, 16))
  }

  /** The fused entry the loop looks up. */
  function Entry(data: seq<byte>, cnt: Counts, values: seq<byte>, st: Reservoir): int
    requires |values| == 256 && Total(cnt) <= 256 && 0 <= st.bits
  {
    FusedEntry(cnt, values, Shr(Shr(Filled(data, st, 16).buffer, 16), 7))
  }

  /** One step on the reservoir: the fused table if its entry is not 0, else symbol and magnitude. */
  ghost function Step(data: seq<byte>, cnt: Counts, values: seq<byte>, st: Reservoir): (Event, Reservoir)
    requires |values| == 256 && Total(cnt) <= 256 && Ok(st)
  {
    ReadyReadsStream(data, st);
    var (s, r) := (Filled(data, st, 16), Entry(data, cnt, values, st));
    if r == 0 then TwoSteps(data, cnt, values, Ready(data, st))
    else if r % 16 > s.bits then (Bad, s)
    else (Coefficient((r / 16) % 16, r / 256), Drop(s, r % 16))
  }

  /** The refill met the marker and the fused entry needs more bits than are held. */
  predicate Overrun(data: seq<byte>, cnt: Counts, values: seq<byte>, st: Reservoir)
    requires |values| == 256 && Total(cnt) <= 256 && 0 <= st.bits
  {
    Entry(data, cnt, values, st) != 0 && Entry(data, cnt, values, st) % 16 > Filled(data, st, 16).bits
  }

  /** The magnitude of a symbol not in the fused table is longer than the data left. */
  ghost predicate Cut(data: seq<byte>, cnt: Counts, values: seq<byte>, st: Reservoir)
    requires |values| == 256 && Total(cnt) <= 256 && Ok(st)
  {
    ReadyReadsStream(data, st);
    Entry(data, cnt, values, st) == 0 && CutMagnitude(data, cnt, values, Ready(data, st))
  }

  /** The events of a stream from a later position on. */
  lemma EventAhead(data: seq<byte>, cnt: Counts, values: seq<byte>, st: Reservoir, p: nat, t: Reservoir)
    requires |values| == 256 && Ahead(data, st, p, t)
    ensures 0 <= st.bits <= 32 && 0 <= t.bits <= 32
    ensures var (e, q) := EventAt(data, cnt, values, t, 0); EventAt(data, cnt, values, st, p) == (e, p + q)
  {
    hide Ahead, Word, Decode, Extend;
    WordAhead(data, st, p, t, 0, 16);
    var d := SymbolAt(data, cnt, values, t, 0);
    if d.Some? { WordAhead(data, st, p, t, d.value.1, d.value.0 % 16); }
  }

  /** A nonzero entry is what the stream holds, whether or not all of its bits are held. */
  lemma FusedReadsStream(data: seq<byte>, cnt: Counts, values: seq<byte>, st: Reservoir)
    requires |values| == 256 && Total(cnt) <= 256 && Ok(st) && 0 <= st.bits && Entry(data, cnt, values, st) != 0
    ensures var r := Entry(data, cnt, values, st);
            st.bits <= 32 && EventAt(data, cnt, values, st, 0) == (Coefficient((r / 16) % 16, r / 256), r % 16)
  {
    hide Ok, Word, Ahead, Drop, Filled, TwoSteps, CutMagnitude, FusedEntry, Flagged, Shr, Total, Symbol, SymbolAt,
         MagnitudeAt;
    hide Ready;
    ReadyReadsStream(data, st);
    var u := Ready(data, st);
    FusedIsTwoSteps(data, cnt, values, u);
    TwoStepsReadStream(data, cnt, values, u);
    SymbolReadsStream(data, cnt, values, u);
    DropParts(u, SymbolAt(data, cnt, values, u, 0).value.1);
    EventAhead(data, cnt, values, st, 0, u);
  }

  /** A step gives what the stream holds, exactly when neither the fused entry nor the magnitude runs past the data. */
  lemma StepReadsStream(data: seq<byte>, cnt: Counts, values: seq<byte>, st: Reservoir)
    requires |values| == 256 && Total(cnt) <= 256 && Ok(st) && 0 <= st.bits <= 32 && !FlaggedNext(data, cnt, st)
    ensures var ((e, t), (f, q)) := (Step(data, cnt, values, st), EventAt(data, cnt, values, st, 0));
            && (e == f <==> !Overrun(data, cnt, values, st) && !Cut(data, cnt, values, st))
            && (e == f && !e.Bad? ==> Ahead(data, st, q, t))
            && (Overrun(data, cnt, values, st) ==> e.Bad? && f.Coefficient? && Filled(data, st, 16).bits < q < 16)
            && (Cut(data, cnt, values, st) ==> e.Coefficient? && f.Coefficient? && e.run == f.run && e.value == 0)
  {
    hide Ok, Word, Ahead, Drop, Filled, TwoSteps, CutMagnitude, FusedEntry, Flagged, Shr, Total, EventAt, Ready;
    ReadyReadsStream(data, st);
    var (s, r, u) := (Filled(data, st, 16), Entry(data, cnt, values, st), Ready(data, st));
    if r != 0 {
      FusedReadsStream(data, cnt, values, st);
      if r % 16 <= s.bits {
        DropAhead(data, s, r % 16);
        AheadTrans(data, st, 0, s, r % 16, Drop(s, r % 16));
      }
    } else {
      TwoStepsReadStream(data, cnt, values, u);
      EventAhead(data, cnt, values, st, 0, u);
      var ((e, t), (f, q)) := (TwoSteps(data, cnt, values, u), EventAt(data, cnt, values, u, 0));
      if e == f && !e.Bad? { AheadTrans(data, st, 0, u, q, t); }
    }
  }

  lemma CutEnds(data: seq<byte>, cnt: Counts, values: seq<byte>, st: Reservoir)
    requires |values| == 256 && Total(cnt) <= 256 && Ok(st) && 0 <= st.bits <= 32
    requires !FlaggedNext(data, cnt, st) && Cut(data, cnt, values, st)
    ensures forall k: nat :: k >= EventAt(data, cnt, values, st, 0).1 ==> StreamBit(data, st, k) == 0
  {
    hide Ok, Word, Drop, Filled, FusedEntry, Shr, Total, EventAt, Ready, StreamBit, CutMagnitude;
    ReadyReadsStream(data, st);
    var u := Ready(data, st);
    MagnitudeEnds(data, cnt, values, u);
    EventAhead(data, cnt, values, st, 0, u);
    forall k: nat | k >= EventAt(data, cnt, values, st, 0).1 ensures StreamBit(data, st, k) == 0 {
      assert StreamBit(data, u, k) == StreamBit(data, st, 0 + k);
    }
  }

  /** What a step leaves, cut or not. */
  lemma StepOk(data: seq<byte>, cnt: Counts, values: seq<byte>, st: Reservoir)
    requires |values| == 256 && Total(cnt) <= 256 && Ok(st)
    ensures var (e, t) := Step(data, cnt, values, st); (!e.Bad? ==> Ok(t)) && (e.Coefficient? ==> e.run < 16)
  {
    hide Ok, Word, Ahead, Drop, Filled, FusedEntry, Shr, Ready, Read, SymbolAt, Received;
    ReadyReadsStream(data, st);
    var (s, r, u) := (Filled(data, st, 16), Entry(data, cnt, values, st), Ready(data, st));
    if r != 0 {
      if r % 16 <= s.bits { DropOk(s, r % 16); }
    } else {
      ReadBits(cnt, values, u);
      ReadOk(cnt, values, u);
      var (rs, s1) := Read(cnt, values, u);
      if rs >= 0 && rs % 16 != 0 { ReceivedOk(data, s1, rs % 16); }
    }
  }

  lemma ReadOk(cnt: Counts, values: seq<byte>, st: Reservoir)
    requires |values| == 256 && Ok(st)
    ensures Read(cnt, values, st).0 >= 0 ==> Ok(Read(cnt, values, st).1) && Read(cnt, values, st).0 < 256
  {
    hide Decode, Drop, First, Offset, Flagged, Ok;
    var d := Decode(cnt, Shr(st.buffer, 16), 1);
    if d.Some? && d.value.1 <= st.bits { DropOk(st, d.value.1); }
    if st.bits >= 10 { DropOk(st, 10); }
  }

  lemma ReceivedOk(data: seq<byte>, st: Reservoir, n: nat)
    requires Ok(st) && 1 <= n <= 15
    ensures 0 <= st.bits && Ok(Received(data, st, n).1)
  {
    hide Refill, Drop;
    if st.bits < n { RefillStream(data, st, 0); }
    var s := Filled(data, st, n);
    if s.bits >= n { DropOk(s, n); }
  }

  /** The step of the block loop, flagged words included.  If the word is not flagged, it does what the stream says
      exactly when the entry and the magnitude do not run past the data. */
  method AcStep(j: JpegStream, fac: array<int>, h: HuffmanTable, ghost cnt: Counts) returns (e: Event)
    requires h.Built(cnt) && Ok(j.State())
    requires fac.Length == 512 && forall i: nat :: i < 512 ==> fac[i] == FusedEntry(cnt, h.values[..], i)
    modifies j
    ensures (e, j.State()) == Step(j.data, cnt, h.values[..], old(j.State()))
    ensures !FlaggedNext(j.data, cnt, old(j.State())) ==>
              var (f, q) := EventAt(j.data, cnt, h.values[..], old(j.State()), 0);
              && (e == f <==>
                  && !Overrun(j.data, cnt, h.values[..], old(j.State()))
                  && !Cut(j.data, cnt, h.values[..], old(j.State())))
              && (e == f && !e.Bad? ==> Ahead(j.data, old(j.State()), q, j.State()))
    ensures (!e.Bad? ==> Ok(j.State())) && (e.Coefficient? ==> e.run < 16)
  {
    hide Ok, Flagged, TwoSteps, FusedEntry, Refill, FastRight, SizesRight, CodesRight, LengthsRight, KraftHolds, Total;
    hide EventAt, Ahead, Overrun, Cut, Word;
    ghost var st := j.State();
    OkBits(st);
    BuiltTotal(h, cnt);
    if !FlaggedNext(j.data, cnt, st) { StepReadsStream(j.data, cnt, h.values[..], st); }
    StepOk(j.data, cnt, h.values[..], st);
    ReadyReadsStream(j.data, st);
    if j.codeBits < 16 { j.GrowBuffer(); OkBits(j.State()); }
    ghost var s1 := j.State();
    TopNine(s1);
    var c := And(Shr(j.codeBuffer, 32 - FAST_BITS), 511);
    var r := fac[c];
    assert r == Entry(j.data, cnt, h.values[..], st);
    if r != 0 {
      var run, s := (r / 16) % 16, r % 16;
      if s > j.codeBits {
        return Bad;
      }
      DropParts(s1, s);
      DropOk(s1, s);
      j.codeBuffer := Low(Shl(j.codeBuffer, s), 32);
      j.codeBits := j.codeBits - s;
      e := Coefficient(run, r / 256);
    } else {
      e := AcSlowStep(j, h, cnt);
    }
  }

  lemma BuiltTotal(h: HuffmanTable, cnt: Counts)
    requires h.Built(cnt)
    ensures Total(cnt) <= 256
  {
  }

  method AcSlowStep(j: JpegStream, h: HuffmanTable, ghost cnt: Counts) returns (e: Event)
    requires h.Built(cnt) && Ok(j.State())
    modifies j
    ensures var st := Filled(j.data, old(j.State()), 16);
            st.bits >= 16 ==> (e, j.State()) == TwoSteps(j.data, cnt, h.values[..], st)
    ensures (!e.Bad? ==> Ok(j.State())) && (e.Coefficient? ==> e.run < 16)
  {
    hide Ok, Read, Received, Refill, FastRight, SizesRight, CodesRight, LengthsRight, KraftHolds, Total;
    OkBits(j.State());
    ghost var st := Filled(j.data, j.State(), 16);
    var rs := j.HuffDecode(h, cnt);
    if rs < 0 {
      return Bad;
    }
    var s, r := rs % 16, rs / 16;
    if s == 0 {
      e := if rs != 0xf0 then EndOfBlock else ZeroRun;
    } else {
      ghost var before := j.State();
      OkBits(before);
      var v := j.ExtendReceive(s);
      ReceivedOk(j.data, before, s);
      e := Coefficient(r, v);
    }
  }
}
