/** Canonical prefix codes, described by how many codes there are of each length.
    Codes of one length are consecutive, and each length continues, one bit wider,
    where the previous one stopped (section 3.2.2 of RFC 1951, annex C.2 of ITU-T T.81). */
module Canonical {
  import opened Bits

  /** `cnt[s]` codes of `s` bits, for `s` in 1..16; entry 0 is not used. */
  type Counts = c: seq<nat> | |c| == 17 witness seq(17, i => 0)

  /** The first code of length `s`. */
  function First(cnt: Counts, s: nat): nat
    requires 1 <= s <= 16
  {
    if s == 1 then 0 else 2 * (First(cnt, s - 1) + cnt[s - 1])
  }

  /** How many codes are shorter than `s`. */
  function Offset(cnt: Counts, s: nat): nat
    requires 1 <= s <= 16
  {
    if s == 1 then 0 else Offset(cnt, s - 1) + cnt[s - 1]
  }

  /** One past the last code of length `s`, left-aligned in 16 bits. */
  function Top(cnt: Counts, s: nat): nat
    requires s <= 16
  {
    if s == 0 then 0 else Shl(First(cnt, s) + cnt[s], 16 - s)
  }

  /** The share of the 16-bit code space taken by codes of length up to `s`. */
  function Space(cnt: Counts, s: nat): nat
    requires s <= 16
  {
    if s == 0 then 0 else Space(cnt, s - 1) + Shl(cnt[s], 16 - s)
  }

  lemma FirstAligned(cnt: Counts, s: nat)
    requires 1 <= s <= 16
    ensures Shl(First(cnt, s), 16 - s) == Top(cnt, s - 1)
  {
    if s == 1 {
      ZeroShl(15);
    } else {
      var e := First(cnt, s - 1) + cnt[s - 1];
      ShlSum(e, e, 16 - s);
    }
  }

  /** The codes up to length `s` tile the code space from its start. */
  lemma {:induction false} TopIsSpace(cnt: Counts, s: nat)
    requires s <= 16
    ensures Top(cnt, s) == Space(cnt, s)
  {
    if s > 0 {
      TopIsSpace(cnt, s - 1);
      FirstAligned(cnt, s);
      ShlSum(First(cnt, s), cnt[s], 16 - s);
    }
  }

  lemma {:induction false} TopMonotone(cnt: Counts, s: nat, t: nat)
    requires s <= t <= 16
    ensures Top(cnt, s) <= Top(cnt, t)
    decreases t
  {
    if s < t {
      TopMonotone(cnt, s, t - 1);
      TopIsSpace(cnt, t - 1);
      TopIsSpace(cnt, t);
    }
  }

  lemma {:induction false} OffsetMonotone(cnt: Counts, s: nat, t: nat)
    requires 1 <= s < t <= 16
    ensures Offset(cnt, s) + cnt[s] <= Offset(cnt, t)
    decreases t
  {
    if s < t - 1 { OffsetMonotone(cnt, s, t - 1); }
  }

  /** A 16-bit word starts with a code of length `s` exactly when it lies in the interval of that length. */
  lemma IntervalOfLength(cnt: Counts, s: nat, k: nat)
    requires 1 <= s <= 16
    ensures Top(cnt, s - 1) <= k < Top(cnt, s) <==>
            First(cnt, s) <= Shr(k, 16 - s) < First(cnt, s) + cnt[s]
  {
    FirstAligned(cnt, s);
    ShrCompare(k, First(cnt, s), 16 - s);
    ShrCompare(k, First(cnt, s) + cnt[s], 16 - s);
  }

  /** The intervals of different lengths are disjoint. */
  lemma LengthUnique(cnt: Counts, s: nat, t: nat, k: nat)
    requires 1 <= s <= 16 && 1 <= t <= 16
    requires Top(cnt, s - 1) <= k < Top(cnt, s)
    requires Top(cnt, t - 1) <= k < Top(cnt, t)
    ensures s == t
  {
    if s < t {
      TopMonotone(cnt, s, t - 1);
    } else if t < s {
      TopMonotone(cnt, t, s - 1);
    }
  }

  /** A length does not overflow its code width exactly when its share ends inside the code space. */
  lemma FitsAtLength(cnt: Counts, s: nat)
    requires 1 <= s <= 16
    ensures First(cnt, s) + cnt[s] <= Pow2(s) <==> Top(cnt, s) <= 65536
  {
    hide First;
    Pow2Values();
    ShlOne(s);
    ShlAdd(1, s, 16 - s);
    ShlOne(16);
    ShlMonotone(First(cnt, s) + cnt[s], Pow2(s), 16 - s);
    ShlMonotone(Pow2(s), First(cnt, s) + cnt[s], 16 - s);
  }
}
