/** The zlib decoder `stbi__zbuf`: byte cursor, bit reservoir, decoding tables and output buffer. */
module Inflate {
  import opened Bits
  import opened BitReversal
  import opened BitStream
  import opened Canonical
  import opened PrefixCode
  import opened ZHuffmanTables
  import opened ZLookup
  import opened InflateSpec
  import opened InflateSteps
  import opened InflateStrict

  const UINT_MAX: nat := 0xFFFF_FFFF

  /** The size doubling stops at: the first that can no longer be doubled. */
  function MaxCapacity(cap: nat): nat
    requires cap > 0
    decreases UINT_MAX - cap
  {
    if cap > UINT_MAX / 2 then cap else MaxCapacity(2 * cap)
  }

  lemma {:induction false} MaxCapacityBound(cap: nat)
    requires 0 < cap <= UINT_MAX
    ensures cap <= MaxCapacity(cap) <= UINT_MAX
    decreases UINT_MAX - cap
  {
    if cap <= UINT_MAX / 2 { MaxCapacityBound(2 * cap); }
  }

  /** Doubling reaches a power of two times the size, more than half of what 32 bits can say. */
  lemma {:induction false} MaxCapacityReached(cap: nat) returns (k: nat)
    requires 0 < cap <= 0xFFFF_FFFF
    ensures 0x7FFF_FFFF < MaxCapacity(cap) <= 0xFFFF_FFFF && MaxCapacity(cap) == Shl(cap, k)
    decreases UINT_MAX - cap
  {
    k := 0;
    if cap <= UINT_MAX / 2 {
      k := MaxCapacityReached(2 * cap);
      ShlAdd(cap, 1, k);
      k := k + 1;
    }
  }

  datatype Progress = More | Finished | Failed

  /** Dropping the bits held beyond whole bytes moves on to the next byte boundary. */
  lemma AlignedBits(loaded: nat, numBits: nat)
    requires numBits <= 8 * loaded
    ensures 8 * loaded - numBits + numBits % 8 == 8 * ((8 * loaded - numBits + 7) / 8)
    ensures (numBits - numBits % 8) % 8 == 0
  {
    var q, r := numBits / 8, numBits % 8;
    assert 8 * loaded - numBits + 7 == 8 * (loaded - q) + (7 - r);
  }

  class ZBuf {
    const data: seq<byte>
    var zpos: nat
    var numBits: nat
    var codeBuffer: nat
    var hitZeofOnce: bool
    /** Bytes moved into the reservoir, implicit zero bytes past the end included. */
    ghost var loaded: nat

    var zoutStart: array<byte>
    var zout: nat
    const expandable: bool

    const zLength: ZHuffman
    const zDistance: ZHuffman

    constructor (data: seq<byte>, obuf: array<byte>, expandable: bool)
      ensures this.data == data && this.expandable == expandable && zoutStart == obuf && zout == 0
      ensures zLength.Shape() && zDistance.Shape()
      ensures fresh(zLength.Repr()) && fresh(zDistance.Repr()) && zLength.Repr() !! zDistance.Repr()
      ensures zpos == 0 && loaded == 0
    {
      this.data := data;
      this.expandable := expandable;
      zpos, numBits, codeBuffer, hitZeofOnce, loaded := 0, 0, 0, false, 0;
      zoutStart, zout := obuf, 0;
      zLength := new ZHuffman();
      zDistance := new ZHuffman();
    }

    // ---------- the bit reservoir ----------

    /** The reservoir holds the next `numBits` bits of the zero-extended input, and no others. */
    ghost predicate Valid()
      reads `zpos, `numBits, `codeBuffer, `hitZeofOnce, `loaded
    {
      && numBits <= 32 && numBits <= 8 * loaded
      && zpos == Min(loaded, |data|)
      && codeBuffer == Window(data, 8 * loaded - numBits, numBits)
      && (hitZeofOnce ==> loaded >= |data| + 2)
    }

    /** The position of the next bit to be consumed. */
    ghost function Pos(): nat
      requires numBits <= 8 * loaded
      reads `numBits, `loaded
    {
      8 * loaded - numBits
    }

    /** `stbi__zeof`. */
    predicate Zeof()
      reads `zpos
    {
      zpos >= |data|
    }

    /** `stbi__zget8`: the next byte, or zero at the end. */
    method ZGet8() returns (b: byte)
      requires zpos == Min(loaded, |data|)
      modifies `zpos, `loaded
      ensures b == ByteAt(data, old(loaded)) && loaded == old(loaded) + 1 && zpos == Min(loaded, |data|)
    {
      loaded := loaded + 1;
      if Zeof() { return 0; }
      b := data[zpos];
      zpos := zpos + 1;
    }

    /** `stbi__fill_bits`: at least 25 bits in view, none consumed.  The guard that
        would abandon the input when the reservoir holds stray bits never fires. */
    method FillBits()
      requires Valid() && numBits <= 24
      modifies `zpos, `numBits, `codeBuffer, `loaded
      ensures Valid() && Pos() == old(Pos()) && 24 < numBits && loaded > old(loaded)
    {
      ghost var p := Pos();
      while true
        invariant Valid() && Pos() == p && numBits <= 24 && loaded >= old(loaded)
        decreases 24 - numBits
      {
        WindowBound(data, p, numBits);
        if codeBuffer >= Pow2(numBits) {
          assert false;
        }
        ghost var n := numBits;
        var b := ZGet8();
        WindowExtended(data, loaded - 1, n);
        codeBuffer := Or(codeBuffer, Shl(b, numBits));
        numBits := numBits + 8;
        if numBits > 24 { return; }
      }
    }

    /** `stbi__zreceive`: the next `n` bits, the first one least significant. */
    method ZReceive(n: nat) returns (k: nat)
      requires Valid() && n <= 16
      modifies `zpos, `numBits, `codeBuffer, `loaded
      ensures Valid() && Pos() == old(Pos()) + n && loaded >= old(loaded)
      ensures k == Window(data, old(Pos()), n)
      ensures old(numBits) >= n ==> loaded == old(loaded)
    {
      if numBits < n { FillBits(); }
      AndMask(codeBuffer, Pow2(n) - 1, n);
      WindowSplit(data, Pos(), n, numBits);
      k := And(codeBuffer, Pow2(n) - 1);
      Drop(n);
    }

    /** Remove `n` bits from the reservoir. */
    method Drop(n: nat)
      requires Valid() && n <= numBits
      modifies `numBits, `codeBuffer
      ensures Valid() && Pos() == old(Pos()) + n && numBits == old(numBits) - n
    {
      WindowSplit(data, Pos(), n, numBits);
      codeBuffer := Shr(codeBuffer, n);
      numBits := numBits - n;
    }

    // ---------- decoding one symbol ----------

    /** `stbi__zhuffman_decode_slowpath`, for a word above every short code. */
    method DecodeSlow(z: ZHuffman, ghost lens: Lengths) returns (r: int)
      requires Valid() && numBits >= 16 && z.Built(lens)
      requires Top(LengthCounts(lens), 9) <= Rev(codeBuffer, 16)
      modifies `numBits, `codeBuffer
      ensures Valid()
      ensures r >= 0 ==> Symbol(lens, data, old(Pos())) == Some((r, Pos()))
      ensures r < 0 ==> Symbol(lens, data, Pos()).None? && Pos() == old(Pos())
    {
      hide ZHuffman.Built;
      var s;
      r, s := SlowLookup(z, lens, codeBuffer, data, Pos(), numBits);
      if r >= 0 { Drop(s); }
    }

    /** `stbi__zhuffman_decode`.  A symbol is returned exactly when the bits at the
        cursor start with its code; otherwise either no code matches, or the cursor
        is already past the real input. */
    method ZHuffmanDecode(z: ZHuffman, ghost lens: Lengths) returns (r: int)
      requires Valid() && z.Built(lens)
      modifies `zpos, `numBits, `codeBuffer, `hitZeofOnce, `loaded
      ensures Valid() && loaded >= old(loaded)
      ensures r >= 0 ==> Symbol(lens, data, old(Pos())) == Some((r, Pos()))
      ensures r < 0 ==> Pos() == old(Pos()) && (Symbol(lens, data, Pos()).None? || Pos() > 8 * |data|)
      ensures r < 0 && old(numBits) >= 16 ==> Symbol(lens, data, Pos()).None?
    {
      hide ZHuffman.Built;
      if numBits < 16 {
        var starved := Refill();
        if starved { return -1; }
      }
      var found, i, s := FastSymbol(z, lens, codeBuffer, data, Pos(), numBits);
      if found {
        Drop(s);
        return i;
      }
      r := DecodeSlow(z, lens);
    }

    /** The refill at the head of `stbi__zhuffman_decode`: sixteen implicit zero bits
        at the end of the input, but only once. */
    method Refill() returns (starved: bool)
      requires Valid() && numBits < 16
      modifies `zpos, `numBits, `codeBuffer, `hitZeofOnce, `loaded
      ensures Valid() && Pos() == old(Pos()) && loaded >= old(loaded)
      ensures if starved then Pos() > 8 * |data| else numBits >= 16
    {
      if Zeof() {
        if hitZeofOnce { return true; }
        PaddingIsZero(data, loaded, numBits);
        hitZeofOnce := true;
        numBits := numBits + 16;
        loaded := loaded + 2;
      } else {
        FillBits();
      }
      starved := false;
    }

    // ---------- the output buffer ----------

    ghost predicate OutOk()
      reads `zoutStart
    {
      && zoutStart.Length <= UINT_MAX && (expandable ==> zoutStart.Length > 0)
      && zLength.Shape() && zDistance.Shape() && zLength.Repr() !! zDistance.Repr()
      && zoutStart !in zLength.Repr() && zoutStart !in zDistance.Repr()
    }

    /** The most bytes the output can ever hold. */
    ghost function Capacity(): nat
      requires OutOk()
      reads `zoutStart
    {
      if expandable then MaxCapacity(zoutStart.Length) else zoutStart.Length
    }

    lemma CapacityHolds()
      requires OutOk()
      ensures zoutStart.Length <= Capacity()
    {
      if expandable { MaxCapacityBound(zoutStart.Length); }
    }

    /** The output buffer still is the one of the old state, or a new one in its place. */
    twostate predicate SameOrMoved()
      reads `zoutStart
    {
      zoutStart == old(zoutStart) || fresh(zoutStart)
    }

    /** `stbi__zexpand`: make room for `n` more bytes at `at`, keeping those already
        written.  It fails exactly when they exceed what doubling can reach. */
    method ZExpand(at: nat, n: nat) returns (ok: bool)
      requires OutOk() && at <= zoutStart.Length < at + n
      modifies `zout, `zoutStart
      ensures OutOk() && Capacity() == old(Capacity()) && zout == at
      ensures ok <==> at + n <= Capacity()
      ensures expandable && at + n <= 0x7FFF_FFFF ==> ok
      ensures if ok then fresh(zoutStart) && at + n <= zoutStart.Length else zoutStart == old(zoutStart)
      ensures at <= zoutStart.Length && zoutStart[..at] == old(zoutStart[..at])
    {
      zout := at;
      if !expandable { return false; }
      var limit := zoutStart.Length;
      MaxCapacityBound(limit);
      ghost var _ := MaxCapacityReached(limit);
      if UINT_MAX - at < n { return false; }
      while at + n > limit
        invariant 0 < limit <= UINT_MAX && zoutStart.Length <= limit
        invariant MaxCapacity(limit) == MaxCapacity(zoutStart.Length)
        decreases UINT_MAX - limit
      {
        if limit > UINT_MAX / 2 { return false; }
        limit := 2 * limit;
      }
      MaxCapacityBound(limit);
      zoutStart := Realloc(zoutStart, limit);
      ok := true;
    }

    static method Realloc(a: array<byte>, limit: nat) returns (q: array<byte>)
      requires a.Length <= limit
      ensures fresh(q) && q.Length == limit && q[..a.Length] == a[..]
    {
      q := new byte[limit](_ => 0);
      forall i | 0 <= i < a.Length { q[i] := a[i]; }
    }

    // ---------- compressed blocks ----------

    /** Store one literal, growing the buffer when it is full. */
    method PutLiteral(at: nat, z: byte) returns (ok: bool, end: nat)
      requires OutOk() && at <= zoutStart.Length
      modifies `zout, `zoutStart, zoutStart
      ensures OutOk() && Capacity() == old(Capacity()) && SameOrMoved()
      ensures if ok then end == at + 1 <= zoutStart.Length && zoutStart[..end] == old(zoutStart[..at]) + [z]
              else at + 1 > Capacity()
    {
      if at >= zoutStart.Length {
        ok := ZExpand(at, 1);
        if !ok { return false, at; }
      }
      zoutStart[at] := z;
      return true, at + 1;
    }

    /** Copy `len` bytes from `dist` back, growing the buffer when they do not fit. */
    method PutCopy(at: nat, len: nat, dist: nat) returns (ok: bool, end: nat)
      requires OutOk() && 1 <= dist <= at <= zoutStart.Length
      modifies `zout, `zoutStart, zoutStart
      ensures OutOk() && Capacity() == old(Capacity()) && SameOrMoved()
      ensures if ok then end == at + len <= zoutStart.Length &&
                         zoutStart[..end] == LzCopy(old(zoutStart[..at]), len, dist)
              else at + len > Capacity()
    {
      if len > zoutStart.Length - at {
        ok := ZExpand(at, len);
        if !ok { return false, at; }
      }
      if dist == 1 {
        RepeatByte(zoutStart, at, len);
      } else {
        CopyBytes(zoutStart, at, len, dist);
      }
      return true, at + len;
    }

    /** The length and distance after length symbol `257 + c`. */
    method ReadPair(c: nat, ghost dist: Lengths) returns (ok: bool, len: nat, d: nat)
      requires Valid() && zDistance.Built(dist) && c < 29
      modifies `zpos, `numBits, `codeBuffer, `hitZeofOnce, `loaded
      ensures Valid() && loaded >= old(loaded)
      ensures ok ==> PairAt(dist, data, c, old(Pos())) == Some((Copy(len, d), Pos())) && len >= 3 && d >= 1
      ensures !ok ==> var t := PairAt(dist, data, c, old(Pos())); t.None? || t.value.1 > 8 * |data|
    {
      hide ZHuffman.Built;
      var base, extra := LengthEntry(c);
      ghost var p := Pos();
      var k := ReceiveExtra(extra);
      len := base + k;
      ok, d := ReadDistance(dist);
      PairFrom(dist, data, c, p, base, extra, k);
    }

    /** The extra bits of a length or distance, if it has any. */
    method ReceiveExtra(extra: nat) returns (k: nat)
      requires Valid() && extra <= 16
      modifies `zpos, `numBits, `codeBuffer, `loaded
      ensures Valid() && Pos() == old(Pos()) + extra && loaded >= old(loaded)
      ensures k == Window(data, old(Pos()), extra)
    {
      k := 0;
      if extra != 0 { k := ZReceive(extra); }
    }

    method ReadDistance(ghost dist: Lengths) returns (ok: bool, d: nat)
      requires Valid() && zDistance.Built(dist)
      modifies `zpos, `numBits, `codeBuffer, `hitZeofOnce, `loaded
      ensures Valid() && loaded >= old(loaded)
      ensures ok ==> DistanceAt(dist, data, old(Pos())) == Some((d, Pos())) && d >= 1
      ensures !ok ==> DistanceAt(dist, data, old(Pos())).None? || old(Pos()) > 8 * |data|
    {
      hide ZHuffman.Built;
      var z := ZHuffmanDecode(zDistance, dist);
      if z < 0 || z >= 30 { return false, 0; }
      var base, extra := DistEntry(z);
      ghost var q := Pos();
      var k := ReceiveExtra(extra);
      DistanceFrom(dist, data, old(Pos()), z, q, base, extra, k);
      return true, base + k;
    }

    /** One pass of the loop of `stbi__parse_huffman_block`, with the output written up to `at`. */
    method HuffmanStep(at: nat, ghost lit: Lengths, ghost dist: Lengths) returns (next: Progress, end: nat)
      requires Valid() && OutOk() && at <= zoutStart.Length && zLength.Built(lit) && zDistance.Built(dist)
      modifies `zpos, `numBits, `codeBuffer, `hitZeofOnce, `loaded, `zout, `zoutStart, zoutStart
      ensures Valid() && OutOk() && Capacity() == old(Capacity()) && SameOrMoved() && loaded >= old(loaded)
      ensures next.More? ==> at < end <= zoutStart.Length
      ensures next.More? ==> Continues(lit, dist, data, old(Pos()), old(zoutStart[..at]), Pos(), zoutStart[..end])
      ensures next.Finished? ==> zout == at <= zoutStart.Length
      ensures next.Finished? ==> Ends(lit, dist, data, old(Pos()), old(zoutStart[..at]), Pos(), zoutStart[..at])
      ensures next.Failed? ==> Fails(lit, dist, data, old(Pos()), old(zoutStart[..at]), Capacity())
    {
      hide ZHuffman.Built;
      ghost var p, out := Pos(), zoutStart[..at];
      var z := ZHuffmanDecode(zLength, lit);
      if z < 0 || z >= 286 {
        NoTokenFails(lit, dist, data, p, out, Capacity());
        return Failed, at;
      }
      if z < 256 {
        next, end := LiteralPass(at, z, lit, dist, p);
      } else if z == 256 {
        zout := at;
        EndStep(lit, dist, data, p, out, Pos());
        if hitZeofOnce && numBits < 16 {
          return Failed, at;
        }
        return Finished, at;
      } else {
        next, end := PairPass(at, z, lit, dist, p);
      }
    }

    method LiteralPass(at: nat, z: byte, ghost lit: Lengths, ghost dist: Lengths, ghost p: nat)
      returns (next: Progress, end: nat)
      requires Valid() && OutOk() && at <= zoutStart.Length && Symbol(lit, data, p) == Some((z, Pos()))
      modifies `zout, `zoutStart, zoutStart
      ensures OutOk() && Capacity() == old(Capacity()) && SameOrMoved() && (next.More? || next.Failed?)
      ensures next.More? ==> at < end <= zoutStart.Length
      ensures next.More? ==> Continues(lit, dist, data, p, old(zoutStart[..at]), Pos(), zoutStart[..end])
      ensures next.Failed? ==> Fails(lit, dist, data, p, old(zoutStart[..at]), Capacity())
    {
      ghost var out := zoutStart[..at];
      LiteralStep(lit, dist, data, p, out, z, Pos());
      var ok;
      ok, end := PutLiteral(at, z);
      if ok { return More, end; }
      OutgrownFails(lit, dist, data, p, out, Pos(), out + [z], Capacity());
      return Failed, at;
    }

    method PairPass(at: nat, z: nat, ghost lit: Lengths, ghost dist: Lengths, ghost p: nat)
      returns (next: Progress, end: nat)
      requires Valid() && OutOk() && at <= zoutStart.Length && zDistance.Built(dist)
      requires 257 <= z < 286 && Symbol(lit, data, p) == Some((z, Pos()))
      modifies `zpos, `numBits, `codeBuffer, `hitZeofOnce, `loaded, `zout, `zoutStart, zoutStart
      ensures Valid() && OutOk() && Capacity() == old(Capacity()) && SameOrMoved() && loaded >= old(loaded)
      ensures next.More? || next.Failed?
      ensures next.More? ==> at < end <= zoutStart.Length
      ensures next.More? ==> Continues(lit, dist, data, p, old(zoutStart[..at]), Pos(), zoutStart[..end])
      ensures next.Failed? ==> Fails(lit, dist, data, p, old(zoutStart[..at]), Capacity())
    {
      hide ZHuffman.Built;
      ghost var out, m := zoutStart[..at], Pos();
      var ok, len, d := ReadPair(z - 257, dist);
      if !ok {
        NoTokenFails(lit, dist, data, p, out, Capacity());
        return Failed, at;
      }
      if at < d {
        DistanceTooFar(lit, dist, data, p, out, z, m, len, d, Pos(), Capacity());
        return Failed, at;
      }
      CopyStep(lit, dist, data, p, out, z, m, len, d, Pos());
      ok, end := PutCopy(at, len, d);
      if ok { return More, end; }
      OutgrownFails(lit, dist, data, p, out, Pos(), LzCopy(out, len, d), Capacity());
      return Failed, at;
    }

    /** `stbi__parse_huffman_block`: on success the reference decoder ends the block at
        the same bit with the same output; on failure it cannot end it within the input
        and the capacity.  Every continuing pass writes at least one byte. */
    method ParseHuffmanBlock(ghost lit: Lengths, ghost dist: Lengths) returns (ok: bool)
      requires Valid() && OutOk() && zout <= zoutStart.Length && zLength.Built(lit) && zDistance.Built(dist)
      modifies `zpos, `numBits, `codeBuffer, `hitZeofOnce, `loaded, `zout, `zoutStart, zoutStart
      ensures Valid() && OutOk() && Capacity() == old(Capacity()) && SameOrMoved()
      ensures ok ==> zout <= zoutStart.Length
      ensures ok ==> Ends(lit, dist, data, old(Pos()), old(zoutStart[..zout]), Pos(), zoutStart[..zout])
      ensures !ok ==> Fails(lit, dist, data, old(Pos()), old(zoutStart[..zout]), Capacity())
    {
      hide ZHuffman.Built;
      ghost var p, out := Pos(), zoutStart[..zout];
      var at := zout;
      while true
        invariant Valid() && OutOk() && Capacity() == old(Capacity()) && SameOrMoved()
        invariant at <= zoutStart.Length && zLength.Built(lit) && zDistance.Built(dist)
        invariant Continues(lit, dist, data, p, out, Pos(), zoutStart[..at])
        decreases Capacity() - at
      {
        ghost var q, out' := Pos(), zoutStart[..at];
        CapacityHolds();
        var next;
        next, at := HuffmanStep(at, lit, dist);
        CapacityHolds();
        if next.Finished? {
          ThenEnds(lit, dist, data, p, out, q, out', Pos(), zoutStart[..zout]);
          return true;
        }
        if next.Failed? {
          ThenFails(lit, dist, data, p, out, q, out', Capacity());
          return false;
        }
        ThenContinues(lit, dist, data, p, out, q, out', Pos(), zoutStart[..at]);
      }
    }

    // ---------- stored blocks ----------

    /** `stbi__parse_uncompressed_block`: on success the reference decoder copies the same
        bytes; on failure it cannot, within the input and the capacity. */
    method ParseUncompressedBlock() returns (ok: bool)
      requires Valid() && OutOk() && zout <= zoutStart.Length
      modifies `zpos, `numBits, `codeBuffer, `loaded, `zout, `zoutStart, zoutStart
      ensures OutOk() && Capacity() == old(Capacity()) && SameOrMoved()
      ensures ok ==> Valid() && zout <= zoutStart.Length && Pos() <= 8 * |data|
      ensures ok ==> StoredEnds(data, old(Pos()), old(zoutStart[..zout]), Pos(), zoutStart[..zout])
      ensures !ok ==> StoredFails(data, old(Pos()), old(zoutStart[..zout]), Capacity())
    {
      hide StoredEnds, StoredFails, Xor;
      ghost var p, out := Pos(), zoutStart[..zout];
      var header := ReadStoredHeader();
      ghost var k := (p + 7) / 8;
      var len: nat, nlen: nat := WordOf(header[0], header[1]), WordOf(header[2], header[3]);
      Complement(len);
      if nlen != Xor(len, 0xffff) || zpos + len > |data| {
        StoredRejected(data, p, out, len, nlen, Capacity());
        return false;
      }
      StoredHeaderReal(data, k, len, nlen, zpos);
      StoredAccepted(data, p, out, len);
      ok := PutStored(len);
      if !ok { StoredOutgrown(data, p, out, len, Capacity()); }
    }

    /** Copy `len` bytes from the input, growing the buffer when they do not fit. */
    method PutStored(len: nat) returns (ok: bool)
      requires Valid() && numBits == 0 && OutOk() && zout <= zoutStart.Length
      requires zpos == loaded && zpos + len <= |data|
      modifies `zpos, `loaded, `zout, `zoutStart, zoutStart
      ensures OutOk() && Capacity() == old(Capacity()) && SameOrMoved()
      ensures ok ==> Valid() && zout <= zoutStart.Length && Pos() == 8 * (old(zpos) + len) <= 8 * |data|
      ensures ok ==> zoutStart[..zout] == old(zoutStart[..zout]) + Bytes(data, old(zpos), len)
      ensures !ok ==> old(zout) + len > Capacity()
    {
      if zout + len > zoutStart.Length {
        ok := ZExpand(zout, len);
        if !ok { return false; }
      }
      CopyInput(zoutStart, zout, data, zpos, len);
      zpos := zpos + len;
      loaded := loaded + len;
      zout := zout + len;
      ok := true;
    }

    /** Discard to a byte boundary and collect the four header bytes: as many as the
        reservoir holds, at most four, which empties it, then the rest from the input. */
    method ReadStoredHeader() returns (header: seq<byte>)
      requires Valid()
      modifies `zpos, `numBits, `codeBuffer, `loaded
      ensures Valid() && numBits == 0 && loaded == (old(Pos()) + 7) / 8 + 4
      ensures |header| == 4 && header == Bytes(data, (old(Pos()) + 7) / 8, 4)
    {
      hide Window, Bytes;
      ghost var k := (Pos() + 7) / 8;
      AlignedBits(loaded, numBits);
      if numBits % 8 != 0 {
        var discarded := ZReceive(numBits % 8);
      }
      header := DrainReservoir(k);
      header := FinishHeader(k, header);
    }

    method DrainReservoir(ghost k: nat) returns (header: seq<byte>)
      requires Valid() && numBits % 8 == 0 && Pos() == 8 * k
      modifies `numBits, `codeBuffer
      ensures Valid() && numBits == 0 && |header| <= 4 && loaded == k + |header|
      ensures header == Bytes(data, k, |header|)
    {
      header := [];
      while numBits > 0
        invariant Valid() && numBits % 8 == 0
        invariant numBits + 8 * |header| <= 32 && Pos() == 8 * (k + |header|)
        invariant header == Bytes(data, k, |header|)
      {
        var b := LowByte(k + |header|);
        BytesExtended(data, k, |header|);
        header := header + [b];
      }
    }

    method FinishHeader(ghost k: nat, drained: seq<byte>) returns (header: seq<byte>)
      requires Valid() && numBits == 0 && |drained| <= 4 && loaded == k + |drained|
      requires drained == Bytes(data, k, |drained|)
      modifies `zpos, `loaded
      ensures Valid() && loaded == k + 4 && header == Bytes(data, k, 4)
    {
      header := drained;
      while |header| < 4
        invariant Valid() && |header| <= 4 && loaded == k + |header|
        invariant header == Bytes(data, k, |header|)
      {
        var b := ZGet8();
        BytesExtended(data, k, |header|);
        header := header + [b];
      }
    }

    /** Take the low byte of a reservoir that starts at byte `k`. */
    method LowByte(ghost k: nat) returns (b: byte)
      requires Valid() && numBits >= 8 && Pos() == 8 * k
      modifies `numBits, `codeBuffer
      ensures Valid() && numBits == old(numBits) - 8 && b == ByteAt(data, k)
    {
      EightBits(data, k, numBits);
      b := And(codeBuffer, 255);
      Drop(8);
    }

    // ---------- dynamic codes ----------

    /** `stbi__compute_huffman_codes`: on success both tables decode the codes described in
        the input; on failure the input does not describe two codes. */
    method ComputeHuffmanCodes() returns (ok: bool, ghost lit: Lengths, ghost dist: Lengths)
      requires Valid() && OutOk()
      modifies `zpos, `numBits, `codeBuffer, `hitZeofOnce, `loaded, zLength.Repr(), zDistance.Repr()
      ensures Valid() && OutOk() && loaded >= old(loaded)
      ensures ok ==> DynamicCodes(data, old(Pos())) == Some(Codes(lit, dist, Pos()))
      ensures ok ==> zLength.Built(lit) && zDistance.Built(dist)
      ensures !ok ==> var c := DynamicCodes(data, old(Pos())); c.None? || c.value.pos > 8 * |data|
    {
      hide ZHuffman.Built;
      ghost var p := Pos();
      var codes, hlit;
      ok, codes, hlit := ReadDescription();
      if !ok { return false, [], []; }
      lit, dist := codes[..hlit], codes[hlit..];
      ok := zLength.Build(codes[..hlit]);
      if !ok { return; }
      ok := zDistance.Build(codes[hlit..]);
    }

    /** The three counts, the code length code and the run-length coded lengths. */
    method ReadDescription() returns (ok: bool, codes: seq<nat>, hlit: nat)
      requires Valid()
      modifies `zpos, `numBits, `codeBuffer, `hitZeofOnce, `loaded
      ensures Valid() && loaded >= old(loaded)
      ensures ok ==> Description(data, old(Pos())) == Some((codes, hlit, Pos())) && IsDescription(codes, hlit)
      ensures !ok ==> var d := Description(data, old(Pos())); d.None? || d.value.2 > 8 * |data|
    {
      hide ZHuffman.Built, CodeLengths, Kraft;
      ghost var p := Pos();
      var hdist, hclen;
      hlit, hdist, hclen := ReadCounts();
      var sizes := ReadCodeLengthSizes(hclen);
      var z := new ZHuffman();
      ok := z.Build(sizes);
      if !ok {
        DescriptionFrom(data, p, sizes, None);
        return false, [], hlit;
      }
      ghost var r := ReadLengths(sizes, data, Pos(), hlit + hdist, []);
      DescriptionFrom(data, p, sizes, r);
      ok, codes := ReadRuns(z, sizes, hlit + hdist);
    }

    method ReadCounts() returns (hlit: nat, hdist: nat, hclen: nat)
      requires Valid()
      modifies `zpos, `numBits, `codeBuffer, `loaded
      ensures Valid() && Pos() == old(Pos()) + 14 && loaded >= old(loaded)
      ensures hlit == Hlit(data, old(Pos())) && hdist == Hdist(data, old(Pos())) && hclen == Hclen(data, old(Pos()))
    {
      hlit := ZReceive(5);
      hlit := hlit + 257;
      hdist := ZReceive(5);
      hdist := hdist + 1;
      hclen := ZReceive(4);
      hclen := hclen + 4;
    }

    method ReadCodeLengthSizes(hclen: nat) returns (sizes: Lengths)
      requires Valid() && hclen <= 19
      modifies `zpos, `numBits, `codeBuffer, `loaded
      ensures Valid() && Pos() == old(Pos()) + 3 * hclen && loaded >= old(loaded)
      ensures sizes == CodeLengths(data, old(Pos()), hclen)
    {
      hide Window;
      ghost var p := Pos();
      sizes := seq(19, i => 0);
      var i := 0;
      while i < hclen
        invariant i <= hclen && Valid() && Pos() == p + 3 * i && loaded >= old(loaded)
        invariant sizes == CodeLengths(data, p, i)
      {
        var s := ZReceive(3);
        CodeLengthsExtended(data, p, i);
        sizes := sizes[ORDER[i] := s];
        i := i + 1;
      }
    }

    /** The loop over run-length coded lengths; each pass adds at least one. */
    method ReadRuns(z: ZHuffman, ghost cl: Lengths, total: nat) returns (ok: bool, codes: seq<nat>)
      requires Valid() && z.Built(cl) && |cl| == 19
      modifies `zpos, `numBits, `codeBuffer, `hitZeofOnce, `loaded
      ensures Valid() && loaded >= old(loaded)
      ensures ok ==> ReadLengths(cl, data, old(Pos()), total, []) == Some((codes, Pos()))
      ensures !ok ==> var r := ReadLengths(cl, data, old(Pos()), total, []); r.None? || r.value.1 > 8 * |data|
    {
      hide ZHuffman.Built;
      codes := [];
      while |codes| < total
        invariant Valid() && loaded >= old(loaded) && z.Built(cl)
        invariant |codes| <= total && AllLengths(codes)
        invariant ReadLengths(cl, data, old(Pos()), total, []) == ReadLengths(cl, data, Pos(), total, codes)
        decreases total - |codes|
      {
        ok, codes := ReadRun(z, cl, total, codes);
        if !ok { return; }
      }
      ok := true;
    }

    method ReadRun(z: ZHuffman, ghost cl: Lengths, total: nat, acc: seq<nat>) returns (ok: bool, codes: seq<nat>)
      requires Valid() && z.Built(cl) && |cl| == 19 && |acc| < total && AllLengths(acc)
      modifies `zpos, `numBits, `codeBuffer, `hitZeofOnce, `loaded
      ensures Valid() && loaded >= old(loaded)
      ensures ok ==> |acc| < |codes| <= total && AllLengths(codes)
      ensures ok ==> ReadLengths(cl, data, old(Pos()), total, acc) == ReadLengths(cl, data, Pos(), total, codes)
      ensures !ok ==> var r := ReadLengths(cl, data, old(Pos()), total, acc); r.None? || r.value.1 > 8 * |data|
    {
      hide ZHuffman.Built;
      var c := ZHuffmanDecode(z, cl);
      if c < 0 || c >= 19 { return false, acc; }
      if c < 16 { return true, acc + [c]; }
      ghost var q := Pos();
      var n, fill := 0, 0;
      if c == 16 {
        n := ZReceive(2);
        n := n + 3;
        if |acc| == 0 { return false, acc; }
        fill := acc[|acc| - 1];
      } else if c == 17 {
        n := ZReceive(3);
        n := n + 3;
      } else {
        n := ZReceive(7);
        n := n + 11;
      }
      RunStep(cl, data, old(Pos()), total, acc, c, q, n);
      if total - |acc| < n { return false, acc; }
      return true, acc + Repeat(fill, n);
    }

    // ---------- blocks ----------

    /** One pass of the loop of `stbi__parse_zlib`.  A successful pass starts inside the
        real input and consumes at least one bit. */
    method ParseBlock() returns (ok: bool, final: bool)
      requires Valid() && OutOk() && zout <= zoutStart.Length
      modifies this, zoutStart, zLength.Repr(), zDistance.Repr()
      ensures OutOk() && Capacity() == old(Capacity()) && SameOrMoved()
      ensures ok ==> Valid() && zout <= zoutStart.Length && old(Pos()) < Pos() && old(Pos()) < 8 * |data|
      ensures ok ==> BlockEnds(data, old(Pos()), old(zoutStart[..zout]), Pos(), zoutStart[..zout])
      ensures ok ==> final == (Bit(data, old(Pos())) == 1)
      ensures !ok ==> BlockFails(data, old(Pos()), old(zoutStart[..zout]), Capacity())
    {
      ghost var p, out := Pos(), zoutStart[..zout];
      var bit := ZReceive(1);
      OneBit(data, p);
      final := bit == 1;
      KindBound(data, p);
      var kind := ZReceive(2);
      if kind == 0 {
        ok := ParseUncompressedBlock();
        if ok {
          StoredBlockEnds(data, p, out, Pos(), zoutStart[..zout]);
        } else {
          StoredBlockFails(data, p, out, Capacity());
        }
      } else if kind == 3 {
        NoCodesFails(data, p, out, Capacity());
        ok := false;
      } else {
        ok := ParseCodedBlock(kind, p);
      }
    }

    /** The body of a block of kind 1 or 2 whose header starts at `p`. */
    method ParseCodedBlock(kind: nat, ghost p: nat) returns (ok: bool)
      requires Valid() && OutOk() && zout <= zoutStart.Length
      requires Pos() == p + 3 && kind == Window(data, p + 1, 2) && kind != 0 && kind != 3 && kind < 4
      modifies this, zoutStart, zLength.Repr(), zDistance.Repr()
      ensures OutOk() && Capacity() == old(Capacity()) && SameOrMoved()
      ensures ok ==> Valid() && zout <= zoutStart.Length && p < Pos() && p < 8 * |data|
      ensures ok ==> BlockEnds(data, p, old(zoutStart[..zout]), Pos(), zoutStart[..zout])
      ensures !ok ==> BlockFails(data, p, old(zoutStart[..zout]), Capacity())
    {
      hide ZHuffman.Built;
      ghost var out := zoutStart[..zout];
      KindIsReal(data, p);
      ghost var lit, dist, q;
      ok, lit, dist := PrepareCodes(kind);
      if !ok {
        NoCodesFails(data, p, out, Capacity());
        return;
      }
      q := Pos();
      ok := ParseHuffmanBlock(lit, dist);
      if ok {
        CodedBlockEnds(data, p, out, lit, dist, q, Pos(), zoutStart[..zout]);
      } else {
        CodedBlockFails(data, p, out, lit, dist, q, Capacity());
      }
    }

    /** Build the fixed or the described tables. */
    method PrepareCodes(kind: nat) returns (ok: bool, ghost lit: Lengths, ghost dist: Lengths)
      requires Valid() && OutOk() && kind != 0 && kind != 3 && kind < 4
      modifies `zpos, `numBits, `codeBuffer, `hitZeofOnce, `loaded, zLength.Repr(), zDistance.Repr()
      ensures Valid() && OutOk() && loaded >= old(loaded)
      ensures ok ==> zLength.Built(lit) && zDistance.Built(dist)
      ensures ok ==> BlockCodes(data, old(Pos()), kind) == Some(Codes(lit, dist, Pos()))
      ensures !ok ==> var c := BlockCodes(data, old(Pos()), kind); c.None? || c.value.pos > 8 * |data|
    {
      hide ZHuffman.Built;
      if kind == 1 {
        ok, lit, dist := BuildFixed();
      } else {
        ok, lit, dist := ComputeHuffmanCodes();
      }
    }

    method BuildFixed() returns (ok: bool, ghost lit: Lengths, ghost dist: Lengths)
      requires OutOk()
      modifies zLength.Repr(), zDistance.Repr()
      ensures ok && lit == FixedLit() && dist == FixedDist() && zLength.Built(lit) && zDistance.Built(dist)
    {
      hide ZHuffman.Built;
      FixedLitKraft();
      FixedDistKraft();
      lit, dist := FixedLit(), FixedDist();
      ok := zLength.Build(FixedLit());
      if ok { ok := zDistance.Build(FixedDist()); }
    }

    // ---------- the stream ----------

    /** `stbi__parse_zlib_header`. */
    method ParseZlibHeader() returns (ok: bool)
      requires zpos == 0 && loaded == 0
      modifies `zpos, `loaded
      ensures ok <==> ZlibHeader(data)
      ensures loaded == 2 && zpos == Min(loaded, |data|)
    {
      var cmf: nat := ZGet8();
      var flg: nat := ZGet8();
      HeaderBits(cmf, flg);
      if Zeof() { return false; }
      if (cmf * 256 + flg) % 31 != 0 { return false; }
      if And(flg, 32) != 0 { return false; }
      if And(cmf, 15) != 8 { return false; }
      ok := true;
    }

    /** `stbi__parse_zlib`: a stream is accepted only if the reference decoder reads it, to
        the same bit and with the same output, from the input followed by zero bits; and it
        is refused only if the reference decoder cannot read it from the input alone, or
        its output exceeds the capacity.  What is accepted keeps the ranges of RFC 1951 exactly
        when no dynamic block reached describes too many literal and length codes and no length
        reached is code 284 with all extra bits set.  The loop ends on every input. */
    method ParseZlib(parseHeader: bool) returns (ok: bool)
      requires zpos == 0 && loaded == 0 && OutOk() && zout <= zoutStart.Length
      modifies this, zoutStart, zLength.Repr(), zDistance.Repr()
      ensures OutOk() && Capacity() == old(Capacity()) && SameOrMoved()
      ensures ok ==> Valid() && zout <= zoutStart.Length && (parseHeader ==> ZlibHeader(data))
      ensures ok ==> StreamEnds(data, Start(parseHeader), old(zoutStart[..zout]), Pos(), zoutStart[..zout])
      ensures ok ==> Conforms(data, Start(parseHeader), old(zoutStart[..zout]), Pos(), zoutStart[..zout])
      ensures !ok ==> (parseHeader && !ZlibHeader(data)) ||
                      StreamFails(data, Start(parseHeader), old(zoutStart[..zout]), Capacity())
    {
      hide Conforms, StreamEnds, StreamFails, Inflate, OneBlock, BlockEnds, BlockFails;
      ghost var p, out := Start(parseHeader), zoutStart[..zout];
      if parseHeader {
        ok := ParseZlibHeader();
        if !ok { return; }
      }
      numBits, codeBuffer, hitZeofOnce := 0, 0, false;
      while true
        invariant Valid() && OutOk() && Capacity() == old(Capacity()) && SameOrMoved()
        invariant zout <= zoutStart.Length
        invariant StreamContinues(data, p, out, Pos(), zoutStart[..zout])
        decreases if Pos() < 8 * |data| then 8 * |data| - Pos() else 0
      {
        ghost var q, out' := Pos(), zoutStart[..zout];
        var final;
        ok, final := ParseBlock();
        if !ok {
          LastBlockFails(data, p, out, q, out', Capacity());
          return;
        }
        if final {
          LastBlockEnds(data, p, out, q, out', Pos(), zoutStart[..zout]);
          EndsConforms(data, p, out, Pos(), zoutStart[..zout]);
          return;
        }
        NextBlock(data, p, out, q, out', Pos(), zoutStart[..zout]);
      }
    }
  }

  /** Where the DEFLATE data starts. */
  function Start(parseHeader: bool): nat {
    if parseHeader then 16 else 0
  }

  /** `stbi_zlib_decode_malloc_guesssize_headerflag`: decode into a buffer that starts at
      `initialSize` bytes and grows by doubling. */
  method ZlibDecodeMalloc(data: seq<byte>, initialSize: nat, parseHeader: bool) returns (r: Option<seq<byte>>)
    requires 0 < initialSize <= UINT_MAX
    ensures r.Some? ==> parseHeader ==> ZlibHeader(data)
    ensures r.Some? ==> exists q :: StreamEnds(data, Start(parseHeader), [], q, r.value) &&
                                    Conforms(data, Start(parseHeader), [], q, r.value)
    ensures (parseHeader ==> ZlibHeader(data)) ==>
              var s := Inflate(data, Start(parseHeader), [], 8 * |data|);
              s.Done? && |s.out| <= MaxCapacity(initialSize) ==> r == Some(s.out)
    ensures (parseHeader ==> ZlibHeader(data)) ==>
              var s := Inflate(data, Start(parseHeader), [], 8 * |data|);
              s.Done? && |s.out| <= 0x7FFF_FFFF ==> r == Some(s.out)
    ensures (parseHeader ==> ZlibHeader(data)) ==>
              var s := StrictInflate(data, Start(parseHeader), [], 8 * |data|);
              s.Done? && |s.out| <= MaxCapacity(initialSize) ==> r == Some(s.out)
  {
    StrictIs(data, Start(parseHeader), [], 8 * |data|);
    ghost var _ := MaxCapacityReached(initialSize);
    var obuf := new byte[initialSize](_ => 0);
    var a := new ZBuf(data, obuf, true);
    assert a.zoutStart[..a.zout] == [];
    var ok := a.ParseZlib(parseHeader);
    if ok {
      r := Some(a.zoutStart[..a.zout]);
      assert StreamEnds(data, Start(parseHeader), [], a.Pos(), a.zoutStart[..a.zout]);
    } else {
      r := None;
    }
  }

  lemma HeaderBits(cmf: nat, flg: nat)
    ensures And(cmf, 15) == cmf % 16
    ensures And(flg, 32) != 0 <==> flg / 32 % 2 == 1
  {
    hide And, Shl, Shr, Low, Pow2;
    Pow2Values();
    AndMask(cmf, 15, 4);
    JoinSplit(cmf, 4);
    ShlIsProduct(Shr(cmf, 4), 4);
    AndPower(flg, 5);
    JoinSplit(flg, 5);
    ShlIsProduct(Shr(flg, 5), 5);
  }

  lemma {:induction false} AndPower(x: nat, k: nat)
    ensures And(x, Pow2(k)) != 0 <==> Shr(x, k) % 2 == 1
    decreases k
  {
    if k > 0 {
      AndPower(x / 2, k - 1);
    } else {
      assert And(x / 2, 0) == 0;
    }
  }

  // ---------- constant tables ----------

  method LengthEntry(c: nat) returns (base: nat, extra: nat)
    requires c < 29
    ensures base == LengthBase(c) >= 3 && extra == LengthExtra(c) <= 5
  {
    base, extra := ZLENGTH_BASE[c], ZLENGTH_EXTRA[c];
    LengthTable(c);
  }

  method DistEntry(c: nat) returns (base: nat, extra: nat)
    requires c < 30
    ensures base == DistBase(c) >= 1 && extra == DistExtra(c) <= 13
  {
    base, extra := ZDIST_BASE[c], ZDIST_EXTRA[c];
    DistTable(c);
  }

  // ---------- stored data ----------

  function WordOf(lo: byte, hi: byte): nat {
    256 * hi + lo
  }

  lemma EightBits(data: seq<byte>, k: nat, n: nat)
    requires n >= 8
    ensures And(Window(data, 8 * k, n), 255) == ByteAt(data, k)
  {
    Pow2Values();
    AndMask(Window(data, 8 * k, n), 255, 8);
    WindowSplit(data, 8 * k, 8, n);
    WindowByte(data, k);
  }

  lemma BytesExtended(data: seq<byte>, k: nat, n: nat)
    ensures Bytes(data, k, n + 1) == Bytes(data, k, n) + [ByteAt(data, k + n)]
  {
  }

  lemma Complement(len: nat)
    requires len < 0x10000
    ensures Xor(len, 0xffff) == 65535 - len
  {
    Pow2Values();
    XorMask(len, 0xffff, 16);
  }

  /** The copy of stored bytes from the input. */
  method CopyInput(a: array<byte>, at: nat, data: seq<byte>, from: nat, len: nat)
    requires at + len <= a.Length && from + len <= |data|
    modifies a
    ensures a[..at + len] == old(a[..at]) + Bytes(data, from, len)
  {
    forall j | at <= j < at + len { a[j] := data[from + (j - at)]; }
    ghost var copied := a[at..at + len];
    forall i | 0 <= i < len ensures copied[i] == ByteAt(data, from + i) {
      assert copied[i] == a[at + i];
      assert a[at + i] == data[from + i];
    }
    assert copied == Bytes(data, from, len);
    assert a[..at + len] == a[..at] + copied;
  }

  // ---------- copying ----------

  /** The distance-one case: a run of the last byte. */
  method RepeatByte(a: array<byte>, at: nat, len: nat)
    requires 1 <= at && at + len <= a.Length
    modifies a
    ensures a[..at + len] == LzCopy(old(a[..at]), len, 1)
  {
    var v := a[at - 1];
    var left: nat, i: nat := len, at;
    while left > 0
      invariant i + left == at + len && at <= i
      invariant a[i - 1] == v
      invariant LzCopy(a[..i], left, 1) == LzCopy(old(a[..at]), len, 1)
    {
      ghost var done := a[..i];
      a[i] := v;
      assert a[..i + 1] == done + [v];
      i := i + 1;
      left := left - 1;
    }
  }

  /** The general case, byte by byte. */
  method CopyBytes(a: array<byte>, at: nat, len: nat, dist: nat)
    requires 1 <= dist <= at && at + len <= a.Length
    modifies a
    ensures a[..at + len] == LzCopy(old(a[..at]), len, dist)
  {
    var left: nat, i: nat, p: nat := len, at, at - dist;
    while left > 0
      invariant i + left == at + len && at <= i && p == i - dist
      invariant LzCopy(a[..i], left, dist) == LzCopy(old(a[..at]), len, dist)
    {
      ghost var done := a[..i];
      a[i] := a[p];
      assert a[..i + 1] == done + [done[i - dist]];
      i := i + 1;
      p := p + 1;
      left := left - 1;
    }
  }

  // ---------- table lookups ----------

  /** The fast table: the symbol whose code of at most nine bits comes next, if there is one. */
  method FastSymbol(z: ZHuffman, ghost lens: Lengths, v: nat, ghost data: seq<byte>, ghost p: nat, ghost n: nat)
    returns (found: bool, i: nat, s: nat)
    requires z.Built(lens) && n >= 16 && v == Window(data, p, n)
    ensures found ==> s <= 9 && Symbol(lens, data, p) == Some((i, p + s))
    ensures !found ==> Top(LengthCounts(lens), 9) <= Rev(v, 16)
  {
    NineBits(v);
    var j := And(v, 511);
    var b := z.fast[j];
    if b != 0 {
      FastReads(lens, z.fast[..], data, p, n, j);
      i, s := UnpackFast(b);
      return true, i, s;
    }
    FastMiss(lens, z.fast[..], v);
    return false, 0, 0;
  }

  method UnpackFast(b: nat) returns (i: nat, s: nat)
    ensures i == b % 512 && s == b / 512
  {
    i, s := And(b, 511), Shr(b, 9);
    UnpackEntry(b);
  }

  /** The slow path: the next symbol and its length, or -1 when no code comes next. */
  method SlowLookup(z: ZHuffman, ghost lens: Lengths, v: nat, ghost data: seq<byte>, ghost p: nat, ghost n: nat)
    returns (r: int, s: nat)
    requires z.Built(lens) && n >= 16 && v == Window(data, p, n)
    requires Top(LengthCounts(lens), 9) <= Rev(v, 16)
    ensures s <= 16
    ensures r >= 0 ==> Symbol(lens, data, p) == Some((r, p + s))
    ensures r < 0 ==> Symbol(lens, data, p).None?
  {
    var k := Reverse16(v);
    s := SlowLength(z, lens, k);
    if s >= 16 {
      NothingReads(lens, data, p, n);
      return -1, s;
    }
    r := SlowSymbol(z, lens, k, s, data, p, n);
  }

  /** The search for the length: the first preshifted end above the word. */
  method SlowLength(z: ZHuffman, ghost lens: Lengths, k: nat) returns (s: nat)
    requires z.Built(lens) && k < 0x10000 && Top(LengthCounts(lens), 9) <= k
    ensures 10 <= s <= 16 && Top(LengthCounts(lens), s - 1) <= k
    ensures s < 16 ==> k < Top(LengthCounts(lens), s)
  {
    s := ZFAST_BITS + 1;
    MaxcodeIs(lens, z, s);
    while k >= z.maxcode[s]
      invariant 10 <= s <= 16 && Top(LengthCounts(lens), s - 1) <= k
      invariant z.maxcode[s] == if s < 16 then Top(LengthCounts(lens), s) else 0x10000
      decreases 16 - s
    {
      s := s + 1;
      MaxcodeIs(lens, z, s);
    }
  }

  /** The slot of a word of known code length: the range and size checks never fire. */
  method SlowSymbol(z: ZHuffman, ghost lens: Lengths, k: nat, s: nat, ghost data: seq<byte>, ghost p: nat, ghost n: nat)
    returns (i: nat)
    requires z.Built(lens) && 10 <= s <= 15 && n >= 16 && k == Rev(Window(data, p, n), 16)
    requires Top(LengthCounts(lens), s - 1) <= k < Top(LengthCounts(lens), s)
    ensures Symbol(lens, data, p) == Some((i, p + s))
  {
    MaxcodeIs(lens, z, s);
    ghost var slot := SlowReads(lens, z.size[..], z.value[..], data, p, n, s);
    var b := Shr(k, 16 - s) - z.firstcode[s] + z.firstsymbol[s];
    if b >= ZNSYMS || z.size[b] != s {
      assert false;
    }
    i := z.value[b];
  }

  method Reverse16(v: nat) returns (k: nat)
    ensures k == Rev(v, 16) < 0x10000
  {
    k := BitReverse(v, 16);
    BitReverseReverses(v, 16);
    RevBound(v, 16);
    Pow2Values();
  }

  lemma NineBits(v: nat)
    ensures And(v, 511) == Low(v, 9) < 512
  {
    Pow2Values();
    AndMask(v, 511, 9);
    JoinSplit(v, 9);
  }

  lemma MaxcodeIs(lens: Lengths, z: ZHuffman, s: nat)
    requires z.Built(lens) && 1 <= s <= 16
    ensures s < 16 ==> z.maxcode[s] == Top(LengthCounts(lens), s)
    ensures s < 16 ==> z.firstcode[s] == First(LengthCounts(lens), s)
    ensures s < 16 ==> z.firstsymbol[s] == Offset(LengthCounts(lens), s)
    ensures s == 16 ==> z.maxcode[s] == 0x10000
  {
    if s < 16 {
      assert z.maxcode[..][s] == Tops(LengthCounts(lens))[s];
      assert z.firstcode[..][s] == Firsts(LengthCounts(lens))[s];
      assert z.firstsymbol[..][s] == Offsets(LengthCounts(lens))[s];
    }
  }

  /** At the end of the input sixteen implicit zero bits leave the reservoir's value as it is. */
  lemma PaddingIsZero(data: seq<byte>, k: nat, n: nat)
    requires n <= 8 * k && k >= |data|
    ensures Window(data, 8 * k - n, n + 16) == Window(data, 8 * k - n, n)
  {
    WindowJoin(data, 8 * k - n, n, 16);
    WindowPastEnd(data, 8 * k, 16);
    ZeroShl(n);
  }
}
