/** Huffman codes as JPEG describes them: how many codes of each length from 1 to 16,
    and decoding one bit at a time (annex C.2 and section F.2.2.3 of ITU-T T.81). */
module JpegCode {
  import opened Bits
  import opened Canonical

  function Total(cnt: Counts): nat {
    Offset(cnt, 16) + cnt[16]
  }

  /** The length of code `i` in the list of table C.1, and 0 past the last. */
  function SizeOf(cnt: Counts, i: nat): nat {
    SizeFrom(cnt, i, 1)
  }

  function SizeFrom(cnt: Counts, i: nat, s: nat): nat
    requires 1 <= s <= 17
    decreases 17 - s
  {
    if s == 17 then 0 else if i < Offset(cnt, s) + cnt[s] then s else SizeFrom(cnt, i, s + 1)
  }

  /** Code `i` of figure C.2: the codes of one length count up. */
  function CodeOf(cnt: Counts, i: nat): int {
    var s := SizeOf(cnt, i);
    if 1 <= s <= 16 then First(cnt, s) + i - Offset(cnt, s) else 0
  }

  /** Figure F.16: one more bit of the 16-bit word `w` is taken until the bits so far are a code of that length;
      gives the index of the code and its length. */
  function Decode(cnt: Counts, w: nat, s: nat): Option<(nat, nat)>
    requires 1 <= s <= 17
    decreases 17 - s
  {
    if s == 17 then None
    else
      var bits := Shr(w, 16 - s);
      if bits < First(cnt, s) + cnt[s] then
        Some((if bits >= First(cnt, s) then Offset(cnt, s) + bits - First(cnt, s) else 0, s))
      else Decode(cnt, w, s + 1)
  }

  lemma {:induction false} SizeSkips(cnt: Counts, i: nat, s: nat, t: nat)
    requires 1 <= s <= t <= 16 && Offset(cnt, t) <= i
    ensures SizeFrom(cnt, i, s) == SizeFrom(cnt, i, t)
    decreases t - s
  {
    if s < t {
      OffsetMonotone(cnt, s, t);
      SizeSkips(cnt, i, s + 1, t);
    }
  }

  lemma SizeAt(cnt: Counts, s: nat, i: nat)
    requires 1 <= s <= 16 && Offset(cnt, s) <= i
    ensures i < Offset(cnt, s) + cnt[s] ==> SizeOf(cnt, i) == s
    ensures i >= Offset(cnt, s) + cnt[s] ==> SizeOf(cnt, i) != s
  {
    SizeSkips(cnt, i, 1, s);
    if i >= Offset(cnt, s) + cnt[s] { SizeLater(cnt, i, s + 1); }
  }

  lemma {:induction false} SizeLater(cnt: Counts, i: nat, s: nat)
    requires 1 <= s <= 17
    ensures SizeFrom(cnt, i, s) == 0 || s <= SizeFrom(cnt, i, s) <= 16
    decreases 17 - s
  {
    if s < 17 { SizeLater(cnt, i, s + 1); }
  }

  lemma {:induction false} SizeRangeFrom(cnt: Counts, i: nat, s: nat)
    requires 1 <= s <= 16 && Offset(cnt, s) <= i < Total(cnt)
    ensures var t := SizeFrom(cnt, i, s); s <= t <= 16 && Offset(cnt, t) <= i < Offset(cnt, t) + cnt[t]
    decreases 17 - s
  {
    if i >= Offset(cnt, s) + cnt[s] { SizeRangeFrom(cnt, i, s + 1); }
  }

  lemma SizeRange(cnt: Counts, i: nat)
    requires i < Total(cnt)
    ensures var s := SizeOf(cnt, i);
            1 <= s <= 16 && Offset(cnt, s) <= i < Offset(cnt, s) + cnt[s] &&
            CodeOf(cnt, i) == First(cnt, s) + i - Offset(cnt, s)
  {
    SizeRangeFrom(cnt, i, 1);
  }

  lemma SizeEnd(cnt: Counts, i: nat)
    requires Total(cnt) <= i
    ensures SizeOf(cnt, i) == 0
  {
    SizeSkips(cnt, i, 1, 16);
  }

  /** The word starts with code `i`. */
  predicate Starts(cnt: Counts, w: nat, i: nat) {
    var s := SizeOf(cnt, i);
    i < Total(cnt) && 1 <= s <= 16 && Shr(w, 16 - s) == CodeOf(cnt, i)
  }

  lemma {:induction false} DecodeSkips(cnt: Counts, w: nat, s: nat, t: nat)
    requires 1 <= s <= t <= 17 && Top(cnt, t - 1) <= w
    ensures Decode(cnt, w, s) == Decode(cnt, w, t)
    decreases t - s
  {
    if s < t {
      TopMonotone(cnt, s, t - 1);
      ShrCompare(w, First(cnt, s) + cnt[s], 16 - s);
      DecodeSkips(cnt, w, s + 1, t);
    }
  }

  /** A word in the interval of length `s` decodes to the code of that length it starts with. */
  lemma DecodeAt(cnt: Counts, w: nat, s: nat)
    requires 1 <= s <= 16 && Top(cnt, s - 1) <= w < Top(cnt, s)
    ensures First(cnt, s) <= Shr(w, 16 - s) < First(cnt, s) + cnt[s]
    ensures Decode(cnt, w, 1) == Some((Offset(cnt, s) + Shr(w, 16 - s) - First(cnt, s), s))
    ensures Starts(cnt, w, Offset(cnt, s) + Shr(w, 16 - s) - First(cnt, s))
  {
    hide First, Offset, Shr, Top, SizeFrom;
    DecodeSkips(cnt, w, 1, s);
    IntervalOfLength(cnt, s, w);
    var i := Offset(cnt, s) + Shr(w, 16 - s) - First(cnt, s);
    SizeAt(cnt, s, i);
    if s < 16 { OffsetMonotone(cnt, s, 16); }
  }

  lemma DecodeNone(cnt: Counts, w: nat)
    requires Top(cnt, 16) <= w
    ensures Decode(cnt, w, 1) == None
  {
    DecodeSkips(cnt, w, 1, 17);
  }

  /** Bit-at-a-time decoding finds code `i` exactly when the word starts with it. */
  lemma DecodeIffStarts(cnt: Counts, w: nat, i: nat)
    ensures Starts(cnt, w, i) <==> Decode(cnt, w, 1) == Some((i, SizeOf(cnt, i)))
  {
    hide Decode, Starts, First, Offset, Top;
    if Starts(cnt, w, i) {
      StartsInterval(cnt, w, i);
      DecodeAt(cnt, w, SizeOf(cnt, i));
    } else if Decode(cnt, w, 1) == Some((i, SizeOf(cnt, i))) {
      var s := DecodeLength(cnt, w);
      DecodeAt(cnt, w, s);
    }
  }

  lemma StartsInterval(cnt: Counts, w: nat, i: nat)
    requires Starts(cnt, w, i)
    ensures var s := SizeOf(cnt, i);
            1 <= s <= 16 && Top(cnt, s - 1) <= w < Top(cnt, s) && i == Offset(cnt, s) + Shr(w, 16 - s) - First(cnt, s)
  {
    SizeRange(cnt, i);
    IntervalOfLength(cnt, SizeOf(cnt, i), w);
  }

  lemma DecodeLength(cnt: Counts, w: nat) returns (s: nat)
    requires Decode(cnt, w, 1).Some?
    ensures 1 <= s <= 16 && Top(cnt, s - 1) <= w < Top(cnt, s)
  {
    s := DecodeLengthFrom(cnt, w, 1);
  }

  lemma {:induction false} DecodeLengthFrom(cnt: Counts, w: nat, s: nat) returns (t: nat)
    requires 1 <= s <= 17 && Decode(cnt, w, s).Some? && Top(cnt, s - 1) <= w
    ensures 1 <= t <= 16 && Top(cnt, t - 1) <= w < Top(cnt, t)
    decreases 17 - s
  {
    ShrCompare(w, First(cnt, s) + cnt[s], 16 - s);
    if w < Top(cnt, s) {
      t := s;
    } else {
      t := DecodeLengthFrom(cnt, w, s + 1);
    }
  }

  /** At most one code starts a word. */
  lemma StartsUnique(cnt: Counts, w: nat, i: nat, j: nat)
    requires Starts(cnt, w, i) && Starts(cnt, w, j)
    ensures i == j
  {
    StartsInterval(cnt, w, i);
    StartsInterval(cnt, w, j);
    LengthUnique(cnt, SizeOf(cnt, i), SizeOf(cnt, j), w);
  }

  /** The lengths satisfy the Kraft inequality: the shares of the codes of each length sum to at most 1. */
  predicate KraftHolds(cnt: Counts) {
    Space(cnt, 16) <= 65536
  }

  /** Which is to say that no length overflows its width. */
  lemma KraftAt(cnt: Counts, s: nat)
    requires 1 <= s <= 16
    ensures KraftHolds(cnt) ==> First(cnt, s) + cnt[s] <= Pow2(s)
    ensures First(cnt, s) + cnt[s] > Pow2(s) ==> !KraftHolds(cnt)
  {
    TopIsSpace(cnt, 16);
    FitsAtLength(cnt, s);
    TopMonotone(cnt, s, 16);
  }
}
