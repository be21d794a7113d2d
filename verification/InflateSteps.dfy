/** How the reference decoder of RFC 1951 proceeds across one token, and what the
    decoder's constant tables have to do with section 3.2.5. */
module InflateSteps {
  import opened Bits
  import opened BitStream
  import opened PrefixCode
  import opened InflateSpec

  const ZLENGTH_BASE: seq<nat> :=
    [3, 4, 5, 6, 7, 8, 9, 10, 11, 13, 15, 17, 19, 23, 27, 31, 35, 43, 51, 59,
     67, 83, 99, 115, 131, 163, 195, 227, 258, 0, 0]

  const ZLENGTH_EXTRA: seq<nat> :=
    [0, 0, 0, 0, 0, 0, 0, 0, 1, 1, 1, 1, 2, 2, 2, 2, 3, 3, 3, 3, 4, 4, 4, 4, 5, 5, 5, 5, 0, 0, 0]

  const ZDIST_BASE: seq<nat> :=
    [1, 2, 3, 4, 5, 7, 9, 13, 17, 25, 33, 49, 65, 97, 129, 193, 257, 385, 513, 769, 1025,
     1537, 2049, 3073, 4097, 6145, 8193, 12289, 16385, 24577, 0, 0]

  const ZDIST_EXTRA: seq<nat> :=
    [0, 0, 0, 0, 1, 1, 2, 2, 3, 3, 4, 4, 5, 5, 6, 6, 7, 7, 8, 8, 9, 9, 10, 10, 11, 11, 12, 12, 13, 13]

  lemma SmallPowers()
    ensures Pow2(0) == 1 && Pow2(1) == 2 && Pow2(2) == 4 && Pow2(3) == 8 && Pow2(4) == 16 && Pow2(5) == 32
  {
  }

  lemma LengthExtraTable(c: nat)
    requires c < 29
    ensures ZLENGTH_EXTRA[c] == LengthExtra(c) <= 5
  {
  }

  lemma LengthBases(c: nat)
    requires 1 <= c < 28
    ensures ZLENGTH_BASE[c] == ZLENGTH_BASE[c - 1] +
              (match LengthExtra(c - 1) case 0 => 1 case 1 => 2 case 2 => 4 case 3 => 8 case 4 => 16 case _ => 32)
  {
  }

  /** Each tabulated base starts where the range of the previous code ends. */
  lemma {:induction false} LengthTable(c: nat)
    requires c < 29
    ensures ZLENGTH_BASE[c] == LengthBase(c) >= 3 && ZLENGTH_EXTRA[c] == LengthExtra(c) <= 5
  {
    LengthExtraTable(c);
    if 1 <= c < 28 {
      LengthTable(c - 1);
      LengthBases(c);
      SmallPowers();
    }
  }

  lemma DistExtraTable(c: nat)
    requires c < 30
    ensures ZDIST_EXTRA[c] == DistExtra(c) <= 13
  {
  }

  /** From the third code on, two codes share each power of two. */
  lemma DistBases(c: nat)
    requires 2 <= c < 28
    ensures ZDIST_BASE[c + 2] == 2 * ZDIST_BASE[c] - 1
  {
  }

  lemma {:induction false} DistClosed(c: nat)
    ensures DistBase(c + 4) == 2 * DistBase(c + 2) - 1
  {
    if c > 0 {
      DistClosed(c - 1);
      assert DistExtra(c + 3) == DistExtra(c + 1) + 1;
    } else {
      assert DistBase(2) == 3 && DistBase(4) == 5;
    }
  }

  /** Each tabulated distance starts where the range of the previous code ends. */
  lemma {:induction false} DistTable(c: nat)
    requires c < 30
    ensures ZDIST_BASE[c] == DistBase(c) >= 1 && ZDIST_EXTRA[c] == DistExtra(c) <= 13
  {
    DistExtraTable(c);
    if c >= 4 {
      DistTable(c - 2);
      DistBases(c - 2);
      DistClosed(c - 4);
    }
  }

  lemma DistanceFrom(dist: Lengths, data: seq<byte>, p: nat, c: nat, q: nat, base: nat, extra: nat, k: nat)
    requires Symbol(dist, data, p) == Some((c, q)) && c < 30 && base == DistBase(c) && extra == DistExtra(c)
    requires k == Window(data, q, extra)
    ensures DistanceAt(dist, data, p) == Some((base + k, q + extra))
  {
  }

  lemma PairFrom(dist: Lengths, data: seq<byte>, c: nat, p: nat, base: nat, extra: nat, k: nat)
    requires base == LengthBase(c) && extra == LengthExtra(c) && k == Window(data, p, extra)
    ensures var d, t := DistanceAt(dist, data, p + extra), PairAt(dist, data, c, p);
            if d.None? then t.None? else t == Some((Copy(base + k, d.value.0), d.value.1)) && p + extra < t.value.1
  {
  }

  /** Decoding from the first state and from the second gives the same outcome under every limit. */
  ghost predicate Continues(lit: Lengths, dist: Lengths, data: seq<byte>, p: nat, out: seq<byte>, q: nat,
                            out': seq<byte>) {
    forall limit: nat :: Block(lit, dist, data, p, out, limit) == Block(lit, dist, data, q, out', limit)
  }

  /** Decoding from the state ends the block at `q` with `out'`, unless the limit comes first. */
  ghost predicate Ends(lit: Lengths, dist: Lengths, data: seq<byte>, p: nat, out: seq<byte>, q: nat, out': seq<byte>) {
    forall limit: nat :: Block(lit, dist, data, p, out, limit) == if q <= limit then Done(q, out') else Short
  }

  /** Decoding the real input from the state does not end the block within `capacity` bytes of output. */
  ghost predicate Fails(lit: Lengths, dist: Lengths, data: seq<byte>, p: nat, out: seq<byte>, capacity: nat) {
    var r := Block(lit, dist, data, p, out, 8 * |data|);
    r.Done? ==> |r.out| > capacity
  }

  lemma ThenContinues(lit: Lengths, dist: Lengths, data: seq<byte>, p: nat, out: seq<byte>,
                      q: nat, out': seq<byte>, r: nat, out'': seq<byte>)
    requires Continues(lit, dist, data, p, out, q, out') && Continues(lit, dist, data, q, out', r, out'')
    ensures Continues(lit, dist, data, p, out, r, out'')
  {
    forall limit: nat ensures Block(lit, dist, data, p, out, limit) == Block(lit, dist, data, r, out'', limit) {
      assert Block(lit, dist, data, p, out, limit) == Block(lit, dist, data, q, out', limit);
    }
  }

  lemma ThenEnds(lit: Lengths, dist: Lengths, data: seq<byte>, p: nat, out: seq<byte>,
                 q: nat, out': seq<byte>, r: nat, out'': seq<byte>)
    requires Continues(lit, dist, data, p, out, q, out') && Ends(lit, dist, data, q, out', r, out'')
    ensures Ends(lit, dist, data, p, out, r, out'')
  {
    forall limit: nat ensures Block(lit, dist, data, p, out, limit) == if r <= limit then Done(r, out'') else Short {
      assert Block(lit, dist, data, p, out, limit) == Block(lit, dist, data, q, out', limit);
    }
  }

  lemma ThenFails(lit: Lengths, dist: Lengths, data: seq<byte>, p: nat, out: seq<byte>,
                  q: nat, out': seq<byte>, capacity: nat)
    requires Continues(lit, dist, data, p, out, q, out') && Fails(lit, dist, data, q, out', capacity)
    ensures Fails(lit, dist, data, p, out, capacity)
  {
    var limit := 8 * |data|;
    assert Block(lit, dist, data, p, out, limit) == Block(lit, dist, data, q, out', limit);
  }

  lemma LiteralStep(lit: Lengths, dist: Lengths, data: seq<byte>, p: nat, out: seq<byte>, z: byte, q: nat)
    requires Symbol(lit, data, p) == Some((z, q))
    ensures Continues(lit, dist, data, p, out, q, out + [z])
  {
    assert TokenAt(lit, dist, data, p) == Some((Literal(z), q));
  }

  lemma CopyStep(lit: Lengths, dist: Lengths, data: seq<byte>, p: nat, out: seq<byte>,
                 z: nat, m: nat, len: nat, d: nat, q: nat)
    requires Symbol(lit, data, p) == Some((z, m)) && 257 <= z < 286
    requires PairAt(dist, data, z - 257, m) == Some((Copy(len, d), q)) && 1 <= d <= |out|
    ensures Continues(lit, dist, data, p, out, q, LzCopy(out, len, d))
  {
    assert TokenAt(lit, dist, data, p) == Some((Copy(len, d), q));
  }

  lemma EndStep(lit: Lengths, dist: Lengths, data: seq<byte>, p: nat, out: seq<byte>, q: nat)
    requires Symbol(lit, data, p) == Some((256, q))
    ensures Ends(lit, dist, data, p, out, q, out)
  {
    assert TokenAt(lit, dist, data, p) == Some((EndOfBlock, q));
  }

  /** A missing symbol, or one that lies past the real input, ends decoding without success. */
  lemma NoTokenFails(lit: Lengths, dist: Lengths, data: seq<byte>, p: nat, out: seq<byte>, capacity: nat)
    requires var t := TokenAt(lit, dist, data, p); t.None? || t.value.1 > 8 * |data|
    ensures Fails(lit, dist, data, p, out, capacity)
  {
  }

  lemma DistanceTooFar(lit: Lengths, dist: Lengths, data: seq<byte>, p: nat, out: seq<byte>,
                       z: nat, m: nat, len: nat, d: nat, q: nat, capacity: nat)
    requires Symbol(lit, data, p) == Some((z, m)) && 257 <= z < 286
    requires PairAt(dist, data, z - 257, m) == Some((Copy(len, d), q)) && d > |out|
    ensures Fails(lit, dist, data, p, out, capacity)
  {
    assert TokenAt(lit, dist, data, p) == Some((Copy(len, d), q));
  }

  /** Output only grows, so one that has outgrown the capacity never fits again. */
  lemma OutgrownFails(lit: Lengths, dist: Lengths, data: seq<byte>, p: nat, out: seq<byte>, q: nat, out': seq<byte>,
                      capacity: nat)
    requires Continues(lit, dist, data, p, out, q, out') && |out'| > capacity
    ensures Fails(lit, dist, data, p, out, capacity)
  {
    var limit := 8 * |data|;
    assert Block(lit, dist, data, p, out, limit) == Block(lit, dist, data, q, out', limit);
  }

  // ---------- section 3.2.4: stored blocks ----------

  ghost predicate StoredEnds(data: seq<byte>, p: nat, out: seq<byte>, q: nat, out': seq<byte>) {
    forall limit: nat :: Stored(data, p, out, limit) == if q <= limit then Done(q, out') else Short
  }

  ghost predicate StoredFails(data: seq<byte>, p: nat, out: seq<byte>, capacity: nat) {
    var r := Stored(data, p, out, 8 * |data|);
    r.Done? ==> |r.out| > capacity
  }

  /** A header that does not check, or a payload that runs past the input. */
  lemma StoredRejected(data: seq<byte>, p: nat, out: seq<byte>, len: nat, nlen: nat, capacity: nat)
    requires var k := (p + 7) / 8; len == Word(data, k) && nlen == Word(data, k + 2)
    requires var k := (p + 7) / 8; nlen != 65535 - len || Min(k + 4, |data|) + len > |data|
    ensures StoredFails(data, p, out, capacity)
  {
  }

  lemma StoredAccepted(data: seq<byte>, p: nat, out: seq<byte>, len: nat)
    requires var k := (p + 7) / 8; len == Word(data, k) && Word(data, k + 2) == 65535 - len
    ensures var k := (p + 7) / 8; StoredEnds(data, p, out, 8 * (k + 4 + len), out + Bytes(data, k + 4, len))
  {
  }

  lemma StoredOutgrown(data: seq<byte>, p: nat, out: seq<byte>, len: nat, capacity: nat)
    requires len == Word(data, (p + 7) / 8) && |out| + len > capacity
    ensures StoredFails(data, p, out, capacity)
  {
  }

  /** A header that checks and a payload inside the input show that the header was inside it too:
      of two complementary words one is not zero. */
  lemma StoredHeaderReal(data: seq<byte>, k: nat, len: nat, nlen: nat, zpos: nat)
    requires len == Word(data, k) && nlen == Word(data, k + 2) == 65535 - len
    requires zpos == Min(k + 4, |data|) && zpos + len <= |data|
    ensures k + 4 <= |data| && zpos == k + 4
  {
  }

  // ---------- section 3.2.7: code descriptions ----------

  lemma CodeLengthsExtended(data: seq<byte>, p: nat, n: nat)
    requires n < 19
    ensures Window(data, p + 3 * n, 3) < 8
    ensures CodeLengths(data, p, n + 1) == CodeLengths(data, p, n)[ORDER[n] := Window(data, p + 3 * n, 3)]
  {
    WindowBound(data, p + 3 * n, 3);
    assert Pow2(3) == 8;
  }

  /** A run symbol stands for `n` copies of the previous length, or of zero. */
  lemma RunStep(cl: Lengths, data: seq<byte>, p: nat, total: nat, acc: seq<nat>, c: nat, q: nat, n: nat)
    requires |cl| == 19 && |acc| < total && AllLengths(acc) && Symbol(cl, data, p) == Some((c, q))
    requires 16 <= c && (c == 16 ==> |acc| > 0)
    requires n == Window(data, q, RunBits(c)) + (if c == 18 then 11 else 3)
    ensures if total - |acc| < n then ReadLengths(cl, data, p, total, acc).None?
            else var fill := if c == 16 then acc[|acc| - 1] else 0;
                 AllLengths(acc + Repeat(fill, n)) &&
                 ReadLengths(cl, data, p, total, acc) ==
                 ReadLengths(cl, data, q + RunBits(c), total, acc + Repeat(fill, n))
  {
  }

  // ---------- section 3.2.6: the fixed codes ----------

  lemma KraftStart(lens: Lengths)
    ensures KraftSum(lens, 0) == 0
  {
  }

  lemma KraftNext(lens: Lengths, n: nat)
    requires n < |lens| && lens[n] > 0
    ensures KraftSum(lens, n + 1) == KraftSum(lens, n) + Pow2(16 - lens[n])
  {
  }

  lemma MulMore(a: nat, w: nat)
    ensures (a + 1) * w == a * w + w
  {
  }

  /** A run of `c` symbols of length `s`, of weight `w` each. */
  lemma {:induction false} KraftRun(lens: Lengths, m: nat, c: nat, s: nat, w: nat)
    requires m + c <= |lens| && 1 <= s <= 15 && w == Pow2(16 - s)
    requires forall i :: m <= i < m + c ==> lens[i] == s
    ensures KraftSum(lens, m + c) == KraftSum(lens, m) + c * w
    decreases c
  {
    hide KraftSum, Pow2;
    if c > 0 {
      var a := c - 1;
      KraftRun(lens, m, a, s, w);
      KraftNext(lens, m + a);
      MulMore(a, w);
    }
  }

  lemma FixedLitKraft()
    ensures Kraft(FixedLit())
  {
    hide KraftSum, Pow2;
    Pow2Values();
    var lit := FixedLit();
    KraftStart(lit);
    KraftRun(lit, 0, 144, 8, 256);
    KraftRun(lit, 144, 112, 9, 128);
    KraftRun(lit, 256, 24, 7, 512);
    KraftRun(lit, 280, 8, 8, 256);
  }

  lemma FixedDistKraft()
    ensures Kraft(FixedDist())
  {
    Pow2Values();
    KraftRun(FixedDist(), 0, 32, 5, 2048);
  }

  // ---------- section 3.2.3: blocks ----------

  ghost predicate BlockEnds(data: seq<byte>, p: nat, out: seq<byte>, q: nat, out': seq<byte>) {
    forall limit: nat :: OneBlock(data, p, out, limit) == if q <= limit then Done(q, out') else Short
  }

  ghost predicate BlockFails(data: seq<byte>, p: nat, out: seq<byte>, capacity: nat) {
    var r := OneBlock(data, p, out, 8 * |data|);
    r.Done? ==> |r.out| > capacity
  }

  lemma OneBit(data: seq<byte>, p: nat)
    ensures Window(data, p, 1) == Bit(data, p)
  {
    assert Window(data, p + 1, 0) == 0;
  }

  lemma KindBound(data: seq<byte>, p: nat)
    ensures Window(data, p + 1, 2) < 4
  {
    WindowBound(data, p + 1, 2);
    assert Pow2(2) == 4;
  }

  lemma DescriptionFrom(data: seq<byte>, p: nat, cl: Lengths, r: Option<(seq<nat>, nat)>)
    requires cl == CodeLengths(data, p + 14, Hclen(data, p))
    requires Kraft(cl) ==> r == ReadLengths(cl, data, p + 14 + 3 * Hclen(data, p), Hlit(data, p) + Hdist(data, p), [])
    ensures var d := Description(data, p);
            if !Kraft(cl) || r.None? then d.None?
            else d == Some((r.value.0, Hlit(data, p), r.value.1)) && IsDescription(r.value.0, Hlit(data, p))
  {
  }

  /** Without codes, or with codes described past the real input, the block cannot be decoded. */
  lemma NoCodesFails(data: seq<byte>, p: nat, out: seq<byte>, capacity: nat)
    requires var c := BlockCodes(data, p + 3, Window(data, p + 1, 2)); c.None? || c.value.pos > 8 * |data|
    requires Window(data, p + 1, 2) != 0
    ensures BlockFails(data, p, out, capacity)
  {
  }

  /** A block that is not stored starts inside the real input. */
  lemma KindIsReal(data: seq<byte>, p: nat)
    requires Window(data, p + 1, 2) != 0
    ensures p < 8 * |data|
  {
    if p >= 8 * |data| { WindowPastEnd(data, p + 1, 2); }
  }

  lemma StoredBlockEnds(data: seq<byte>, p: nat, out: seq<byte>, q: nat, out': seq<byte>)
    requires Window(data, p + 1, 2) == 0 && StoredEnds(data, p + 3, out, q, out')
    ensures BlockEnds(data, p, out, q, out') && p + 3 < q
  {
    assert Stored(data, p + 3, out, q) == Done(q, out');
    forall limit: nat ensures OneBlock(data, p, out, limit) == if q <= limit then Done(q, out') else Short {
      assert Stored(data, p + 3, out, limit) == if q <= limit then Done(q, out') else Short;
    }
  }

  lemma StoredBlockFails(data: seq<byte>, p: nat, out: seq<byte>, capacity: nat)
    requires Window(data, p + 1, 2) == 0 && StoredFails(data, p + 3, out, capacity)
    ensures BlockFails(data, p, out, capacity)
  {
  }

  lemma CodedBlockEnds(data: seq<byte>, p: nat, out: seq<byte>, lit: Lengths, dist: Lengths, m: nat,
                       q: nat, out': seq<byte>)
    requires Window(data, p + 1, 2) != 0
    requires BlockCodes(data, p + 3, Window(data, p + 1, 2)) == Some(Codes(lit, dist, m))
    requires Ends(lit, dist, data, m, out, q, out')
    ensures BlockEnds(data, p, out, q, out') && p + 3 < q
  {
    assert Block(lit, dist, data, m, out, q) == Done(q, out');
    forall limit: nat ensures OneBlock(data, p, out, limit) == if q <= limit then Done(q, out') else Short {
      assert Block(lit, dist, data, m, out, limit) == if q <= limit then Done(q, out') else Short;
    }
  }

  lemma CodedBlockFails(data: seq<byte>, p: nat, out: seq<byte>, lit: Lengths, dist: Lengths, m: nat, capacity: nat)
    requires Window(data, p + 1, 2) != 0
    requires BlockCodes(data, p + 3, Window(data, p + 1, 2)) == Some(Codes(lit, dist, m))
    requires Fails(lit, dist, data, m, out, capacity)
    ensures BlockFails(data, p, out, capacity)
  {
  }

  // ---------- the stream of blocks ----------

  /** Decoding the stream from the first state and from the second gives the same outcome under every limit. */
  ghost predicate StreamContinues(data: seq<byte>, p: nat, out: seq<byte>, q: nat, out': seq<byte>) {
    forall limit: nat :: Inflate(data, p, out, limit) == Inflate(data, q, out', limit)
  }

  /** Decoding the stream ends at `q` with `out'`, unless the limit comes first. */
  ghost predicate StreamEnds(data: seq<byte>, p: nat, out: seq<byte>, q: nat, out': seq<byte>) {
    forall limit: nat :: Inflate(data, p, out, limit) == if q <= limit then Done(q, out') else Short
  }

  /** Decoding the real input does not end within `capacity` bytes of output. */
  ghost predicate StreamFails(data: seq<byte>, p: nat, out: seq<byte>, capacity: nat) {
    var r := Inflate(data, p, out, 8 * |data|);
    r.Done? ==> |r.out| > capacity
  }

  lemma NextBlock(data: seq<byte>, p: nat, out: seq<byte>, q: nat, out': seq<byte>, r: nat, out'': seq<byte>)
    requires StreamContinues(data, p, out, q, out') && BlockEnds(data, q, out', r, out'') && Bit(data, q) != 1
    ensures StreamContinues(data, p, out, r, out'')
  {
    forall limit: nat ensures Inflate(data, p, out, limit) == Inflate(data, r, out'', limit) {
      assert Inflate(data, p, out, limit) == Inflate(data, q, out', limit);
      assert OneBlock(data, q, out', limit) == if r <= limit then Done(r, out'') else Short;
      if r > limit { PastLimit(data, r, out'', limit); }
    }
  }

  lemma PastLimit(data: seq<byte>, p: nat, out: seq<byte>, limit: nat)
    requires p > limit
    ensures Inflate(data, p, out, limit).Short?
  {
    assert OneBlock(data, p, out, limit).Short?;
  }

  lemma LastBlockEnds(data: seq<byte>, p: nat, out: seq<byte>, q: nat, out': seq<byte>, r: nat, out'': seq<byte>)
    requires StreamContinues(data, p, out, q, out') && BlockEnds(data, q, out', r, out'') && Bit(data, q) == 1
    ensures StreamEnds(data, p, out, r, out'')
  {
    forall limit: nat ensures Inflate(data, p, out, limit) == if r <= limit then Done(r, out'') else Short {
      assert Inflate(data, p, out, limit) == Inflate(data, q, out', limit);
      assert OneBlock(data, q, out', limit) == if r <= limit then Done(r, out'') else Short;
    }
  }

  lemma LastBlockFails(data: seq<byte>, p: nat, out: seq<byte>, q: nat, out': seq<byte>, capacity: nat)
    requires StreamContinues(data, p, out, q, out') && BlockFails(data, q, out', capacity)
    ensures StreamFails(data, p, out, capacity)
  {
    var limit := 8 * |data|;
    assert Inflate(data, p, out, limit) == Inflate(data, q, out', limit);
  }

  // ---------- section 3.2.3: copying ----------

  /** Copying is periodic extension: byte `k` repeats the last `dist` bytes in turn. */
  lemma CopyPeriodic(out: seq<byte>, len: nat, dist: nat, k: nat)
    requires 1 <= dist <= |out| && k < len
    ensures LzCopy(out, len, dist)[|out| + k] == out[|out| - dist + k % dist]
  {
    CopyRound(out, len, dist, k / dist, k % dist);
  }

  lemma {:induction false} CopyRound(out: seq<byte>, len: nat, dist: nat, q: nat, m: nat)
    requires 1 <= dist <= |out| && m < dist && 0 <= q * dist && q * dist + m < len
    ensures LzCopy(out, len, dist)[|out| + (q * dist + m)] == out[|out| - dist + m]
    decreases q
  {
    if q == 0 {
      CopyDirect(out, len, dist, m);
    } else {
      var k := q * dist + m;
      assert k - dist == (q - 1) * dist + m;
      MulMonotone(dist, 0, q - 1);
      CopyShift(out, len, dist, k);
      CopyRound(out, len, dist, q - 1, m);
    }
  }

  lemma {:induction false} CopyDirect(out: seq<byte>, len: nat, dist: nat, k: nat)
    requires 1 <= dist <= |out| && k < len && k < dist
    ensures LzCopy(out, len, dist)[|out| + k] == out[|out| - dist + k]
    decreases k
  {
    var next := out + [out[|out| - dist]];
    if k > 0 { CopyDirect(next, len - 1, dist, k - 1); }
  }

  /** Every copied byte equals the byte `dist` before it. */
  lemma {:induction false} CopyShift(out: seq<byte>, len: nat, dist: nat, k: nat)
    requires 1 <= dist <= |out| && k < len
    ensures LzCopy(out, len, dist)[|out| + k] == LzCopy(out, len, dist)[|out| + k - dist]
    decreases k
  {
    var next := out + [out[|out| - dist]];
    if k > 0 {
      CopyShift(next, len - 1, dist, k - 1);
    } else {
      var r := LzCopy(next, len - 1, dist);
      assert r[..|next|] == next;
      assert r[|out|] == next[|out|] && r[|out| - dist] == next[|out| - dist];
    }
  }
}
