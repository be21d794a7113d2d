/** The data sub-blocks of a GIF raster, and the raster an encoder makes. */
module GifBlocks {
  import opened Bits
  import opened BitPack
  import opened BitStream
  import opened GifLzw

  /** The bytes of the sub-blocks from `pos` on, each led by its length, up to an empty one or the end of the input. */
  function Deblock(data: seq<byte>, pos: nat): seq<byte>
    decreases if pos <= |data| then |data| - pos else 0
  {
    var n := ByteAt(data, pos);
    if n == 0 then [] else Bytes(data, pos + 1, n) + Deblock(data, pos + 1 + n)
  }

  /** Cut into sub-blocks of at most 255 bytes, and end with an empty one. */
  function Enblock(payload: seq<byte>): (r: seq<byte>)
    decreases |payload|
  {
    if payload == [] then [0]
    else
      var n: byte := if |payload| < 255 then |payload| else 255;
      [n] + payload[..n] + Enblock(payload[n..])
  }

  /** Reading the sub-blocks back gives the payload, whatever comes before and after. */
  lemma {:induction false} DeblockEnblock(pre: seq<byte>, payload: seq<byte>, post: seq<byte>)
    ensures Deblock(pre + Enblock(payload) + post, |pre|) == payload
    decreases |payload|
  {
    var data := pre + Enblock(payload) + post;
    if payload != [] {
      var n: byte := if |payload| < 255 then |payload| else 255;
      var head := pre + [n] + payload[..n];
      assert data == head + Enblock(payload[n..]) + post;
      DeblockEnblock(head, payload[n..], post);
      assert ByteAt(data, |pre|) == n;
      forall i | 0 <= i < n ensures ByteAt(data, |pre| + 1 + i) == payload[i] {
        assert head[|pre| + 1 + i] == payload[i];
      }
      assert Bytes(data, |pre| + 1, n) == payload[..n];
    }
  }

  // ---------- the encoder's codes fit their widths ----------

  lemma {:induction false} WidthCovers(c: nat, n: nat, w: nat)
    requires w <= 12 && c <= n && c < CODE_SPACE
    ensures c < Pow2(WidthFor(n, w))
    decreases 12 - w
  {
    Pow2Values();
    if w < 12 && n >= Pow2(w) { WidthCovers(c, n, w + 1); }
  }

  lemma ControlFits(cs: nat, k: nat)
    requires 1 <= cs <= 8
    ensures Pow2(cs) + 1 < Pow2(WidthAfter(cs, k))
  {
    CodeSpaceBounds(cs);
    WidthCovers(Pow2(cs) + 1, Pow2(cs) + 1 + k, cs + 1);
  }

  lemma StringFits(cs: nat, entries: seq<Str>, cur: Str, k: nat)
    requires 1 <= cs <= 8 && |entries| <= k && Avail(cs, entries) <= CODE_SPACE
    requires CodeOf(cs, entries, cur).Some? && Below(cur, Pow2(cs))
    ensures CodeOf(cs, entries, cur).value < Pow2(WidthAfter(cs, k))
  {
    CodeSpaceBounds(cs);
    WidthCovers(CodeOf(cs, entries, cur).value, Pow2(cs) + 1 + k, cs + 1);
  }

  lemma {:induction false} EncodeFits(cs: nat, policy: Policy, entries: seq<Str>, cur: Str, rest: Str, k: nat)
    requires 1 <= cs <= 8 && |entries| <= k && Avail(cs, entries) <= CODE_SPACE
    requires CodeOf(cs, entries, cur).Some? && Below(cur, Pow2(cs)) && Below(rest, Pow2(cs))
    ensures AllFit(Encode(cs, policy, entries, cur, rest, k))
    decreases |rest|
  {
    hide CodeOf, WidthAfter, Pow2;
    CodeSpaceBounds(cs);
    ControlFits(cs, k + 1);
    StringFits(cs, entries, cur, k);
    var out := Coded(CodeOf(cs, entries, cur).value, WidthAfter(cs, k));
    if rest != [] {
      var c := rest[0];
      OneByte(cs, [], c);
      if CodeOf(cs, entries, cur + [c]).Some? {
        EncodeFits(cs, policy, entries, cur + [c], rest[1..], k);
      } else if Resets(cs, policy, entries, |rest|) {
        EncodeFits(cs, policy, [], [c], rest[1..], 0);
        JoinFit([out, Coded(Pow2(cs), WidthAfter(cs, k + 1))], Encode(cs, policy, [], [c], rest[1..], 0));
      } else {
        var added := Added(cs, entries, cur + [c]);
        OneByte(cs, added, c);
        EncodeFits(cs, policy, added, [c], rest[1..], k + 1);
        JoinFit([out], Encode(cs, policy, added, [c], rest[1..], k + 1));
      }
    }
  }

  lemma EncodeAllFits(cs: nat, policy: Policy, input: Str)
    requires 1 <= cs <= 8 && Below(input, Pow2(cs))
    ensures AllFit(EncodeAll(cs, policy, input))
  {
    CodeSpaceBounds(cs);
    var first := [Coded(Pow2(cs), cs + 1)];
    if input == [] {
      JoinFit(first, [Coded(Pow2(cs) + 1, cs + 1)]);
    } else {
      EncodeFits(cs, policy, [], [input[0]], input[1..], 0);
      JoinFit(first, Encode(cs, policy, [], [input[0]], input[1..], 0));
    }
  }

  // ---------- the whole raster ----------

  /** What the raster at `pos` decodes to: a minimum code size, then sub-blocks of packed codes. */
  function RasterIndices(data: seq<byte>, pos: nat): (Str, bool) {
    var cs := ByteAt(data, pos);
    if cs > 12 then ([], false) else Run(cs, Deblock(data, pos + 1), 0, GifLzw.Start(cs))
  }

  /** The raster an encoder writes for `input`. */
  function Raster(cs: byte, policy: Policy, input: Str): seq<byte>
    requires cs <= 8
  {
    [cs] + Enblock(Pack(EncodeAll(cs, policy, input)))
  }

  /** Decoding an encoded raster gives the input back, if and only if no run between clear
      codes outgrows the decoder's table. */
  lemma RasterRoundTrip(cs: byte, policy: Policy, input: Str, pre: seq<byte>, post: seq<byte>)
    requires 1 <= cs <= 8 && Below(input, Pow2(cs)) && input != []
    ensures Outcome(RasterIndices(pre + Raster(cs, policy, input) + post, |pre|), input,
                    RunsFit(cs, policy, [], [input[0]], input[1..], 0))
  {
    hide Run, EncodeAll, Pack, Enblock, Deblock, RunsFit, CodesAt;
    var codes := EncodeAll(cs, policy, input);
    var data := pre + Raster(cs, policy, input) + post;
    EncodeAllFits(cs, policy, input);
    PackHolds(codes);
    DeblockEnblock(pre + [cs], Pack(codes), post);
    assert data == pre + [cs] + Enblock(Pack(codes)) + post;
    RoundTrip(cs, policy, input, Pack(codes));
  }

  /** With an encoder that clears a full table the raster always decodes to the input. */
  lemma EagerRasterRoundTrip(cs: byte, policy: Policy, input: Str, pre: seq<byte>, post: seq<byte>)
    requires 1 <= cs <= 8 && Below(input, Pow2(cs)) && input != [] && policy.eager
    ensures RasterIndices(pre + Raster(cs, policy, input) + post, |pre|) == (input, true)
  {
    CodeSpaceBounds(cs);
    RasterRoundTrip(cs, policy, input, pre, post);
    EagerFits(cs, policy, [], [input[0]], input[1..], 0);
  }
}
