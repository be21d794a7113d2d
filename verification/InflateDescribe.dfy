/** Writing the two codes of a dynamic block: their lengths as runs, the runs in a third code, and the lengths of
    that one three bits each (section 3.2.7 of RFC 1951). */
module InflateDescribe {
  import opened Bits
  import opened BitStream
  import opened BitPack
  import opened PrefixCode
  import opened InflateSpec
  import InflateSteps
  import opened InflateRoundTrip

  // ---------- runs ----------

  /** A length, 3 to 6 copies of the previous one, 3 to 10 zeros, or 11 to 138 zeros. */
  datatype Run = One(x: nat) | Previous(n: nat) | FewZeros(n: nat) | ManyZeros(n: nat)

  function RunSymbol(r: Run): nat {
    match r
    case One(x) => x
    case Previous(_) => 16
    case FewZeros(_) => 17
    case ManyZeros(_) => 18
  }

  function RunRest(r: Run): Coded
    requires RunFits(r, 1)
  {
    match r
    case One(_) => Coded(0, 0)
    case Previous(n) => Coded(n - 3, 2)
    case FewZeros(n) => Coded(n - 3, 3)
    case ManyZeros(n) => Coded(n - 11, 7)
  }

  /** A run that may follow `k` lengths. */
  predicate RunFits(r: Run, k: nat) {
    match r
    case One(x) => x <= 15
    case Previous(n) => 3 <= n <= 6 && k > 0
    case FewZeros(n) => 3 <= n <= 10
    case ManyZeros(n) => 11 <= n <= 138
  }

  function RunSize(r: Run): nat {
    if r.One? then 1 else r.n
  }

  function ApplyRun(r: Run, acc: seq<nat>): (l: seq<nat>)
    requires RunFits(r, |acc|)
    ensures |l| == |acc| + RunSize(r) > |acc|
  {
    match r
    case One(x) => acc + [x]
    case Previous(n) => acc + Repeat(acc[|acc| - 1], n)
    case FewZeros(n) => acc + Repeat(0, n)
    case ManyZeros(n) => acc + Repeat(0, n)
  }

  /** Runs that may follow `k` lengths and have codes. */
  predicate RunsFit(cl: Lengths, runs: seq<Run>, k: nat)
    decreases |runs|
  {
    runs == [] ||
    (RunFits(runs[0], k) && HasCode(cl, RunSymbol(runs[0])) && RunsFit(cl, runs[1..], k + RunSize(runs[0])))
  }

  function ApplyRuns(cl: Lengths, runs: seq<Run>, acc: seq<nat>): (l: seq<nat>)
    requires RunsFit(cl, runs, |acc|)
    ensures |l| >= |acc|
    decreases |runs|
  {
    if runs == [] then acc else ApplyRuns(cl, runs[1..], ApplyRun(runs[0], acc))
  }

  function EncodeRun(cl: Lengths, r: Run): seq<Coded>
    requires HasCode(cl, RunSymbol(r)) && RunFits(r, 1)
  {
    [SymbolCode(cl, RunSymbol(r)), RunRest(r)]
  }

  function EncodeRuns(cl: Lengths, runs: seq<Run>, k: nat): seq<Coded>
    requires RunsFit(cl, runs, k)
    decreases |runs|
  {
    if runs == [] then [] else EncodeRun(cl, runs[0]) + EncodeRuns(cl, runs[1..], k + RunSize(runs[0]))
  }

  lemma TwoCodes(data: seq<byte>, p: nat, a: Coded, b: Coded)
    requires CodesAt(data, p, [a, b])
    ensures Window(data, p, a.width) == a.code && Window(data, p + a.width, b.width) == b.code
    ensures TotalBits([a, b]) == a.width + b.width
  {
    assert [a, b][1..] == [b];
    assert CodesAt(data, p + a.width, [b]);
    assert TotalBits([b]) == b.width;
  }

  /** A run written is the run read. */
  lemma RunRead(cl: Lengths, data: seq<byte>, p: nat, total: nat, acc: seq<nat>, r: Run)
    requires |cl| == 19 && Kraft(cl) && AllLengths(acc) && HasCode(cl, RunSymbol(r)) && RunFits(r, |acc|)
    requires |acc| + RunSize(r) <= total && CodesAt(data, p, EncodeRun(cl, r))
    ensures AllLengths(ApplyRun(r, acc))
    ensures ReadLengths(cl, data, p, total, acc) ==
            ReadLengths(cl, data, p + TotalBits(EncodeRun(cl, r)), total, ApplyRun(r, acc))
  {
    hide Kraft, SymbolCode, CodesAt, TotalBits, Symbol, Window;
    TwoCodes(data, p, SymbolCode(cl, RunSymbol(r)), RunRest(r));
    RunSymbolRead(cl, data, p, RunSymbol(r));
  }

  lemma RunSymbolRead(cl: Lengths, data: seq<byte>, p: nat, i: nat)
    requires Kraft(cl) && HasCode(cl, i)
    requires Window(data, p, SymbolCode(cl, i).width) == SymbolCode(cl, i).code
    ensures Symbol(cl, data, p) == Some((i, p + SymbolCode(cl, i).width))
  {
    SymbolRead(cl, data, p, i);
  }

  lemma {:induction false} RunsRead(cl: Lengths, data: seq<byte>, p: nat, total: nat, acc: seq<nat>, runs: seq<Run>)
    requires |cl| == 19 && Kraft(cl) && AllLengths(acc) && RunsFit(cl, runs, |acc|)
    requires |ApplyRuns(cl, runs, acc)| == total && CodesAt(data, p, EncodeRuns(cl, runs, |acc|))
    ensures ReadLengths(cl, data, p, total, acc) ==
            Some((ApplyRuns(cl, runs, acc), p + TotalBits(EncodeRuns(cl, runs, |acc|))))
    decreases |runs|
  {
    hide Kraft, SymbolCode, CodesAt, TotalBits, EncodeRun, ReadLengths, ApplyRun, HasCode, AllLengths;
    if runs == [] {
      NoRuns(cl, data, p, acc);
    } else {
      var next := ApplyRun(runs[0], acc);
      var head, tail := EncodeRun(cl, runs[0]), EncodeRuns(cl, runs[1..], |next|);
      CodesSplit(data, p, head, tail);
      TotalSum(head, tail);
      RunRead(cl, data, p, total, acc, runs[0]);
      RunsRead(cl, data, p + TotalBits(head), total, next, runs[1..]);
    }
  }

  lemma NoRuns(cl: Lengths, data: seq<byte>, p: nat, acc: seq<nat>)
    requires |cl| == 19 && AllLengths(acc)
    ensures ReadLengths(cl, data, p, |acc|, acc) == Some((acc, p)) && TotalBits([]) == 0
  {
  }

  // ---------- the code of the runs ----------

  /** The first `n` lengths in the order of section 3.2.7. */
  function LengthCodes(cl: Lengths, n: nat): seq<Coded>
    requires |cl| == 19 && n <= 19
  {
    if n == 0 then [] else LengthCodes(cl, n - 1) + [Coded(cl[ORDER[n - 1]], 3)]
  }

  /** What remains of `cl` when only those are sent. */
  function Sent(cl: Lengths, n: nat): (l: Lengths)
    requires |cl| == 19 && n <= 19
    ensures |l| == 19
  {
    if n == 0 then seq(19, i => 0) else Sent(cl, n - 1)[ORDER[n - 1] := cl[ORDER[n - 1]]]
  }

  lemma {:induction false} LengthCodesRead(cl: Lengths, data: seq<byte>, p: nat, n: nat)
    requires |cl| == 19 && n <= 19 && CodesAt(data, p, LengthCodes(cl, n))
    ensures TotalBits(LengthCodes(cl, n)) == 3 * n && CodeLengths(data, p, n) == Sent(cl, n)
  {
    hide CodesAt, TotalBits;
    if n == 0 {
      NoCodes();
    } else {
      var last := Coded(cl[ORDER[n - 1]], 3);
      CodesSplit(data, p, LengthCodes(cl, n - 1), [last]);
      TotalSum(LengthCodes(cl, n - 1), [last]);
      LengthCodesRead(cl, data, p, n - 1);
      OneCode(data, p + 3 * (n - 1), last);
    }
  }

  lemma NoCodes()
    ensures TotalBits([]) == 0
  {
  }

  lemma OneCode(data: seq<byte>, p: nat, c: Coded)
    ensures TotalBits([c]) == c.width && (CodesAt(data, p, [c]) ==> Window(data, p, c.width) == c.code)
  {
  }

  // ---------- the description ----------

  /** Two codes, the runs that give their lengths, and the code of the runs with how many of its lengths are sent. */
  datatype Header = Header(lit: Lengths, dist: Lengths, runs: seq<Run>, cl: Lengths, hclen: nat)

  ghost predicate Describes(h: Header) {
    && 257 <= |h.lit| <= 288 && 1 <= |h.dist| <= 32 && |h.cl| == 19 && 4 <= h.hclen <= 19
    && Kraft(h.lit) && Kraft(h.dist) && Kraft(h.cl)
    && (forall i :: 0 <= i < 19 ==> h.cl[i] <= 7) && Sent(h.cl, h.hclen) == h.cl
    && RunsFit(h.cl, h.runs, 0) && ApplyRuns(h.cl, h.runs, []) == h.lit + h.dist
  }

  function Sizes(h: Header): seq<Coded>
    requires 257 <= |h.lit| && 1 <= |h.dist| && 4 <= h.hclen
  {
    [Coded(|h.lit| - 257, 5), Coded(|h.dist| - 1, 5), Coded(h.hclen - 4, 4)]
  }

  ghost function EncodeDescription(h: Header): seq<Coded>
    requires Describes(h)
  {
    Sizes(h) + (LengthCodes(h.cl, h.hclen) + EncodeRuns(h.cl, h.runs, 0))
  }

  lemma SizesRead(data: seq<byte>, p: nat, h: Header)
    requires 257 <= |h.lit| && 1 <= |h.dist| && 4 <= h.hclen && CodesAt(data, p, Sizes(h))
    ensures Hlit(data, p) == |h.lit| && Hdist(data, p) == |h.dist| && Hclen(data, p) == h.hclen
    ensures TotalBits(Sizes(h)) == 14
  {
    var a, b, c := Coded(|h.lit| - 257, 5), Coded(|h.dist| - 1, 5), Coded(h.hclen - 4, 4);
    assert [a, b, c][1..] == [b, c] && [b, c][1..] == [c];
    assert CodesAt(data, p + 5, [b, c]);
    assert CodesAt(data, p + 10, [c]);
    assert TotalBits([c]) == 4 && TotalBits([b, c]) == 9;
  }

  /** A description is read back as the two codes it was written for. */
  lemma DescriptionRoundTrip(h: Header, data: seq<byte>, p: nat)
    requires Describes(h) && CodesAt(data, p, EncodeDescription(h))
    ensures DynamicCodes(data, p) == Some(Codes(h.lit, h.dist, p + TotalBits(EncodeDescription(h))))
  {
    hide CodesAt, TotalBits, Kraft, RunsFit, ApplyRuns, EncodeRuns, LengthCodes, Sizes, Sent, Hlit, Hdist, Hclen;
    hide CodeLengths, ReadLengths;
    var sizes, rest := Sizes(h), LengthCodes(h.cl, h.hclen) + EncodeRuns(h.cl, h.runs, 0);
    CodesSplit(data, p, sizes, rest);
    TotalSum(sizes, rest);
    SizesRead(data, p, h);
    CodesSplit(data, p + 14, LengthCodes(h.cl, h.hclen), EncodeRuns(h.cl, h.runs, 0));
    TotalSum(LengthCodes(h.cl, h.hclen), EncodeRuns(h.cl, h.runs, 0));
    LengthCodesRead(h.cl, data, p + 14, h.hclen);
    RunsRead(h.cl, data, p + 14 + 3 * h.hclen, |h.lit| + |h.dist|, [], h.runs);
    var l := h.lit + h.dist;
    assert l[..|h.lit|] == h.lit && l[|h.lit|..] == h.dist;
  }

  // ---------- the codes fit ----------

  lemma {:induction false} RunsPack(cl: Lengths, runs: seq<Run>, k: nat)
    requires Kraft(cl) && RunsFit(cl, runs, k)
    ensures AllFit(EncodeRuns(cl, runs, k))
    decreases |runs|
  {
    hide Kraft, SymbolCode, HasCode;
    if runs != [] {
      SymbolFits(cl, RunSymbol(runs[0]));
      Pow2Values();
      RunsPack(cl, runs[1..], k + RunSize(runs[0]));
      JoinFit(EncodeRun(cl, runs[0]), EncodeRuns(cl, runs[1..], k + RunSize(runs[0])));
    }
  }

  lemma {:induction false} LengthsPack(cl: Lengths, n: nat)
    requires |cl| == 19 && n <= 19 && forall i :: 0 <= i < 19 ==> cl[i] <= 7
    ensures AllFit(LengthCodes(cl, n))
  {
    if n > 0 {
      LengthsPack(cl, n - 1);
      Pow2Values();
      JoinFit(LengthCodes(cl, n - 1), [Coded(cl[ORDER[n - 1]], 3)]);
    }
  }

  lemma DescriptionPack(h: Header)
    requires Describes(h)
    ensures AllFit(EncodeDescription(h))
  {
    hide Kraft, RunsFit, ApplyRuns, EncodeRuns, LengthCodes, Sent;
    RunsPack(h.cl, h.runs, 0);
    LengthsPack(h.cl, h.hclen);
    Pow2Values();
    JoinFit(LengthCodes(h.cl, h.hclen), EncodeRuns(h.cl, h.runs, 0));
    JoinFit(Sizes(h), LengthCodes(h.cl, h.hclen) + EncodeRuns(h.cl, h.runs, 0));
  }

  // ---------- there is always a description ----------

  function Ones(l: seq<nat>): seq<Run> {
    seq(|l|, i requires 0 <= i < |l| => One(l[i]))
  }

  lemma {:induction false} OnesApply(cl: Lengths, l: seq<nat>, acc: seq<nat>)
    requires AllLengths(l) && |cl| == 19 && forall i :: 0 <= i < 19 ==> cl[i] > 0
    ensures RunsFit(cl, Ones(l), |acc|) && ApplyRuns(cl, Ones(l), acc) == acc + l
    decreases |l|
  {
    if l == [] {
      assert acc + l == acc;
    } else {
      assert Ones(l)[1..] == Ones(l[1..]);
      OnesApply(cl, l[1..], acc + [l[0]]);
      assert acc + [l[0]] + l[1..] == acc + l;
    }
  }

  /** Any two codes of the right sizes can be described. */
  lemma Describable(lit: Lengths, dist: Lengths) returns (h: Header)
    requires 257 <= |lit| <= 288 && 1 <= |dist| <= 32 && Kraft(lit) && Kraft(dist)
    ensures Describes(h) && h.lit == lit && h.dist == dist
  {
    hide Kraft;
    var cl: Lengths := seq(19, i => 5);
    h := Header(lit, dist, Ones(lit + dist), cl, 19);
    OnesApply(cl, lit + dist, []);
    EqualKraft(cl);
    AllSent(cl);
  }

  lemma EqualKraft(cl: Lengths)
    requires |cl| == 19 && forall i :: 0 <= i < 19 ==> cl[i] == 5
    ensures Kraft(cl)
  {
    Pow2Values();
    InflateSteps.KraftRun(cl, 0, 19, 5, 2048);
  }

  lemma {:induction false} SentAt(cl: Lengths, n: nat, j: nat)
    requires |cl| == 19 && j < n <= 19
    ensures Sent(cl, n)[ORDER[j]] == cl[ORDER[j]]
  {
    if j < n - 1 { SentAt(cl, n - 1, j); }
  }

  /** Where each length stands in the order. */
  const PLACE: seq<nat> := [3, 17, 15, 13, 11, 9, 7, 5, 4, 6, 8, 10, 12, 14, 16, 18, 0, 1, 2]

  lemma PlaceInOrder(i: nat)
    requires i < 19
    ensures PLACE[i] < 19 && ORDER[PLACE[i]] == i
  {
  }

  lemma OrderPlaces(j: nat)
    requires j < 19
    ensures ORDER[j] < 19 && PLACE[ORDER[j]] == j
  {
  }

  /** The lengths not sent are 0. */
  lemma {:induction false} NotSent(cl: Lengths, n: nat, j: nat)
    requires |cl| == 19 && n <= j < 19
    ensures Sent(cl, n)[ORDER[j]] == 0
  {
    if n > 0 {
      NotSent(cl, n - 1, j);
      OrderPlaces(n - 1);
      OrderPlaces(j);
    }
  }

  /** The order leaves out none. */
  lemma AllSent(cl: Lengths)
    requires |cl| == 19
    ensures Sent(cl, 19) == cl
  {
    hide Sent;
    forall i | 0 <= i < 19 ensures Sent(cl, 19)[i] == cl[i] {
      PlaceInOrder(i);
      SentAt(cl, 19, PLACE[i]);
    }
  }
}
