/** The bits of JPEG entropy-coded data: byte stuffing, markers, and the 32-bit left-aligned
    reservoir they pass through (section F.2.2.5 of ITU-T T.81). */
module JpegReservoir {
  import opened Bits

  /** `code_buffer`, `code_bits`, the position in the input, and the marker that ended the data if `nomore`. */
  datatype Reservoir = Reservoir(buffer: nat, bits: int, pos: nat, marker: byte, nomore: bool)

  function Next(data: seq<byte>, pos: nat): nat {
    if pos < |data| then pos + 1 else pos
  }

  function SkipFill(data: seq<byte>, pos: nat): nat
    decreases |data| - pos
  {
    if pos < |data| && data[pos] == 0xff then SkipFill(data, pos + 1) else pos
  }

  /** All bytes up to there are 0xff, and the next one is not. */
  lemma {:induction false} SkipFillIs(data: seq<byte>, pos: nat)
    ensures pos <= SkipFill(data, pos) && (forall i :: pos <= i < SkipFill(data, pos) ==> ByteAt(data, i) == 0xff)
    ensures ByteAt(data, SkipFill(data, pos)) != 0xff
    decreases |data| - pos
  {
    if pos < |data| && data[pos] == 0xff { SkipFillIs(data, pos + 1); }
  }

  datatype Entropy = Data(value: byte, pos: nat) | Marker(code: byte, pos: nat)

  /** The next byte of entropy-coded data: an 0xff is data when a zero follows it, and else begins a marker. */
  function EntropyByte(data: seq<byte>, pos: nat): Entropy {
    var b, p := ByteAt(data, pos), Next(data, pos);
    if b != 0xff then Data(b, p)
    else
      var q := SkipFill(data, p);
      if ByteAt(data, q) != 0 then Marker(ByteAt(data, q), Next(data, q)) else Data(0xff, Next(data, q))
  }

  /** Byte `k` of the entropy-coded data from `pos` on: zeros after a marker. */
  function StreamByte(data: seq<byte>, pos: nat, nomore: bool, k: nat): byte
    decreases k
  {
    if nomore then 0
    else
      match EntropyByte(data, pos)
      case Marker(_, _) => 0
      case Data(b, p) => if k == 0 then b else StreamByte(data, p, false, k - 1)
  }

  /** Bit `n` still to be decoded: those held, most significant first, then those of the data. */
  function StreamBit(data: seq<byte>, st: Reservoir, n: nat): nat
    requires 0 <= st.bits <= 32
  {
    if n < st.bits then BitAt(st.buffer, 31 - n)
    else BitAt(StreamByte(data, st.pos, st.nomore, (n - st.bits) / 8), 7 - (n - st.bits) % 8)
  }

  /** The `n` bits of the stream after its first `p`, as a number. */
  function Word(data: seq<byte>, st: Reservoir, p: nat, n: nat): nat
    requires 0 <= st.bits <= 32
  {
    if n == 0 then 0 else 2 * Word(data, st, p, n - 1) + StreamBit(data, st, p + n - 1)
  }

  /** Bits are held at the top of the word, and the rest of it is zero. */
  ghost predicate Ok(st: Reservoir) {
    && 0 <= st.bits <= 32 && st.buffer < Pow2(32)
    && forall i: nat :: i < 32 - st.bits ==> BitAt(st.buffer, i) == 0
  }

  /** Taking `s` bits off the top. */
  function Drop(st: Reservoir, s: nat): Reservoir {
    st.(buffer := Low(Shl(st.buffer, s), 32), bits := st.bits - s)
  }

  lemma DropOk(st: Reservoir, s: nat)
    requires Ok(st) && s <= st.bits
    ensures Ok(Drop(st, s))
  {
    hide Shl, Low, Pow2;
    JoinSplit(Shl(st.buffer, s), 32);
    forall i: nat | i < 32 - (st.bits - s) ensures BitAt(Low(Shl(st.buffer, s), 32), i) == 0 {
      LowBit(Shl(st.buffer, s), 32, i);
      ShlBit(st.buffer, s, i);
    }
  }

  lemma DropStream(data: seq<byte>, st: Reservoir, s: nat, n: nat)
    requires Ok(st) && s <= st.bits
    ensures Ok(Drop(st, s)) && StreamBit(data, Drop(st, s), n) == StreamBit(data, st, n + s)
  {
    hide Shl, Low, Ok, Pow2;
    DropOk(st, s);
    OkBits(st);
    if n < st.bits - s {
      LowBit(Shl(st.buffer, s), 32, 31 - n);
      ShlBit(st.buffer, s, 31 - n);
    }
  }

  lemma OkBits(st: Reservoir)
    requires Ok(st)
    ensures 0 <= st.bits <= 32
  {
  }

  /** The top of the reservoir is the front of the stream. */
  lemma {:induction false} TopIsWord(data: seq<byte>, st: Reservoir, n: nat)
    requires Ok(st) && n <= st.bits
    ensures Shr(st.buffer, 32 - n) == Word(data, st, 0, n)
  {
    if n == 0 {
      Pow2Of0();
      ShrBound(st.buffer, 32, 0);
    } else {
      TopIsWord(data, st, n - 1);
      ShrAdd(st.buffer, 32 - n, 1);
      ShrBit(st.buffer, 32 - n, 0);
    }
  }

  lemma Pow2Of0()
    ensures Pow2(0) == 1
  {
  }

  /** One more byte of data into the reservoir. */
  function Push(st: Reservoir, b: byte, p: nat): Reservoir
    requires 0 <= st.bits <= 24
  {
    st.(buffer := Or(st.buffer, Shl(b, 24 - st.bits)), bits := st.bits + 8, pos := p)
  }

  lemma {:induction false} HighBitZero(b: nat, k: nat, i: nat)
    requires b < Pow2(k) && k <= i
    ensures BitAt(b, i) == 0
  {
    if k > 0 { HighBitZero(b / 2, k - 1, i - 1); } else { ZeroBit(i); }
  }

  lemma PushBit(st: Reservoir, b: byte, p: nat, i: nat)
    requires Ok(st) && st.bits <= 24 && i < 32
    ensures BitAt(Push(st, b, p).buffer, i) ==
            if i >= 32 - st.bits then BitAt(st.buffer, i)
            else if i >= 24 - st.bits then BitAt(b, i - (24 - st.bits))
            else 0
  {
    hide Or, Shl;
    OrBit(st.buffer, Shl(b, 24 - st.bits), i);
    ShlBit(b, 24 - st.bits, i);
    Pow2Values();
    if i >= 32 - st.bits { HighBitZero(b, 8, i - (24 - st.bits)); }
  }

  lemma PushOk(st: Reservoir, b: byte, p: nat)
    requires Ok(st) && st.bits <= 24
    ensures Ok(Push(st, b, p))
  {
    var t := Push(st, b, p);
    ShlSmall(b, 24 - st.bits);
    OrBound(st.buffer, Shl(b, 24 - st.bits), 32);
    forall i: nat | i < 32 - t.bits ensures BitAt(t.buffer, i) == 0 {
      PushBit(st, b, p, i);
    }
  }

  lemma ShlSmall(b: byte, n: nat)
    requires n <= 24
    ensures Shl(b, n) < Pow2(32)
  {
    hide Shl, Pow2;
    Pow2Values();
    ShlMonotone(b, Pow2(8), n);
    ShlOne(8);
    ShlAdd(1, 8, n);
    ShlOne(8 + n);
    Pow2Monotone(8 + n, 32);
  }

  /** A byte moved from the data into the reservoir leaves the stream as it was. */
  lemma PushStream(data: seq<byte>, st: Reservoir, b: byte, p: nat, n: nat)
    requires Ok(st) && st.bits <= 24
    requires if st.nomore then b == 0 else EntropyByte(data, st.pos) == Data(b, p)
    ensures Ok(Push(st, b, p)) && StreamBit(data, Push(st, b, p), n) == StreamBit(data, st, n)
  {
    hide Or, Shl, EntropyByte;
    PushOk(st, b, p);
    var k := n - st.bits;
    if n < st.bits + 8 {
      PushBit(st, b, p, 31 - n);
      if n >= st.bits { assert k / 8 == 0 && k % 8 == k; }
    } else {
      assert k / 8 == (k - 8) / 8 + 1 && k % 8 == (k - 8) % 8;
    }
  }

  /** `stbi__grow_buffer_unsafe`: bytes are added until more than 24 bits are held or a marker is met. */
  function Refill(data: seq<byte>, st: Reservoir): Reservoir
    requires 0 <= st.bits <= 24
    decreases 24 - st.bits
  {
    var e := if st.nomore then Data(0, st.pos) else EntropyByte(data, st.pos);
    match e
    case Marker(m, p) => st.(marker := m, nomore := true, pos := p)
    case Data(b, p) =>
      var t := Push(st, b, p);
      if t.bits <= 24 then Refill(data, t) else t
  }

  /** Refilling loses and invents nothing: the stream is the same, and enough of it is held unless a marker ends it. */
  lemma {:induction false} RefillStream(data: seq<byte>, st: Reservoir, n: nat)
    requires Ok(st) && st.bits <= 24
    ensures Ok(Refill(data, st)) && StreamBit(data, Refill(data, st), n) == StreamBit(data, st, n)
    ensures Refill(data, st).bits > 24 || (Refill(data, st).nomore && !st.nomore)
    ensures Refill(data, st).bits >= st.bits
    decreases 24 - st.bits
  {
    hide Push, StreamBit, EntropyByte, Ok;
    OkBits(st);
    var e := if st.nomore then Data(0, st.pos) else EntropyByte(data, st.pos);
    match e {
      case Marker(m, p) =>
        MarkerStream(data, st, n);
      case Data(b, p) =>
        var t := Push(st, b, p);
        PushBits(st, b, p);
        PushOk(st, b, p);
        PushStream(data, st, b, p, n);
        if t.bits <= 24 { RefillStream(data, t, n); }
    }
  }

  lemma PushBits(st: Reservoir, b: byte, p: nat)
    requires 0 <= st.bits <= 24
    ensures Push(st, b, p).bits == st.bits + 8 && Push(st, b, p).nomore == st.nomore && Push(st, b, p).pos == p
  {
  }

  lemma MarkerStream(data: seq<byte>, st: Reservoir, n: nat)
    requires Ok(st) && !st.nomore && EntropyByte(data, st.pos).Marker?
    ensures var m := EntropyByte(data, st.pos);
            var t := st.(marker := m.code, nomore := true, pos := m.pos);
            Ok(t) && StreamBit(data, t, n) == StreamBit(data, st, n)
  {
    hide EntropyByte;
  }

  // ---------- positions in the stream ----------

  /** The stream of `t` is that of `st` after its first `p` bits. */
  ghost predicate Ahead(data: seq<byte>, st: Reservoir, p: nat, t: Reservoir) {
    Ok(st) && Ok(t) && forall n: nat :: StreamBit(data, t, n) == StreamBit(data, st, p + n)
  }

  lemma AheadOk(data: seq<byte>, st: Reservoir, p: nat, t: Reservoir)
    requires Ahead(data, st, p, t)
    ensures Ok(st) && Ok(t) && 0 <= st.bits <= 32 && 0 <= t.bits <= 32
  {
  }

  lemma AheadTrans(data: seq<byte>, st: Reservoir, p: nat, t: Reservoir, q: nat, u: Reservoir)
    requires Ahead(data, st, p, t) && Ahead(data, t, q, u)
    ensures Ahead(data, st, p + q, u)
  {
    hide StreamBit, Ok;
    AheadOk(data, st, p, t);
    AheadOk(data, t, q, u);
    forall n: nat ensures StreamBit(data, u, n) == StreamBit(data, st, (p + q) + n) {
      assert StreamBit(data, u, n) == StreamBit(data, t, q + n);
      assert StreamBit(data, t, q + n) == StreamBit(data, st, p + (q + n));
    }
  }

  lemma {:induction false} WordAhead(data: seq<byte>, st: Reservoir, p: nat, t: Reservoir, q: nat, n: nat)
    requires Ahead(data, st, p, t)
    ensures 0 <= st.bits <= 32 && 0 <= t.bits <= 32
    ensures Word(data, t, q, n) == Word(data, st, p + q, n)
  {
    hide StreamBit, Ok;
    AheadOk(data, st, p, t);
    if n > 0 {
      WordAhead(data, st, p, t, q, n - 1);
      assert StreamBit(data, t, q + n - 1) == StreamBit(data, st, p + (q + n - 1));
    }
  }

  lemma SelfAhead(data: seq<byte>, st: Reservoir)
    requires Ok(st)
    ensures Ahead(data, st, 0, st)
  {
    hide StreamBit;
  }

  lemma DropAhead(data: seq<byte>, st: Reservoir, s: nat)
    requires Ok(st) && s <= st.bits
    ensures Ahead(data, st, s, Drop(st, s))
  {
    hide StreamBit, Drop, Ok;
    OkBits(st);
    DropOk(st, s);
    OkBits(Drop(st, s));
    forall n: nat ensures StreamBit(data, Drop(st, s), n) == StreamBit(data, st, s + n) {
      DropStream(data, st, s, n);
    }
  }

  lemma RefillAhead(data: seq<byte>, st: Reservoir)
    requires Ok(st) && st.bits <= 24
    ensures Ahead(data, st, 0, Refill(data, st))
  {
    hide StreamBit, Refill, Ok;
    OkBits(st);
    RefillStream(data, st, 0);
    OkBits(Refill(data, st));
    forall n: nat ensures StreamBit(data, Refill(data, st), n) == StreamBit(data, st, 0 + n) {
      RefillStream(data, st, n);
    }
  }

  /** After the marker only zeros are added, which leave the word as it was. */
  lemma {:induction false} RefillPads(data: seq<byte>, st: Reservoir)
    requires Ok(st) && st.bits <= 24 && st.nomore
    ensures Refill(data, st).buffer == st.buffer && Refill(data, st).nomore && Refill(data, st).bits > 24
    decreases 24 - st.bits
  {
    hide Ok, Shl, Or;
    OkBits(st);
    ZeroShl(24 - st.bits);
    OrZero(st.buffer);
    PushOk(st, 0, st.pos);
    var t := Push(st, 0, st.pos);
    if t.bits <= 24 { RefillPads(data, t); }
  }
}
