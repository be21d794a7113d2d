/** LZW as GIF uses it (Appendix F of the GIF89a specification), with the dictionary
    as a list of strings: the decoder the program is measured against, an encoder, and
    why the one undoes the other. */
module GifLzw {
  import opened Bits
  import opened BitStream
  import opened BitPack

  type Str = seq<byte>

  /** The decoder's dictionary has room for this many codes. */
  const MAX_CODES: nat := 8192

  /** No code is wider than 12 bits, so none is larger than 4095. */
  const CODE_SPACE: nat := 4096

  // ---------- decoding ----------

  /** `entries` are the strings of the codes from `2^cs + 2` on; `prev` is the last string decoded since a clear
      code. */
  datatype State = State(entries: seq<Str>, width: nat, prev: Str, cleared: bool)

  datatype Step = Next(st: State, emitted: Str) | Stop | Bad

  ghost predicate NonEmpty(entries: seq<Str>) {
    forall i :: 0 <= i < |entries| ==> |entries[i]| > 0
  }

  /** The first code without a string. */
  function Avail(cs: nat, entries: seq<Str>): nat {
    Pow2(cs) + 2 + |entries|
  }

  /** The string of a code. */
  function StringOf(cs: nat, entries: seq<Str>, code: nat): (s: Str)
    requires code < Avail(cs, entries) && code != Pow2(cs) && code != Pow2(cs) + 1
    ensures NonEmpty(entries) ==> |s| > 0
  {
    if code < Pow2(cs) then [code % 256] else entries[code - Pow2(cs) - 2]
  }

  /** Widen the code when the next free one is the first that does not fit. */
  function Widened(avail: nat, width: nat): (w: nat)
    ensures w >= width
  {
    if Low(avail, width) == 0 && avail <= 0x0FFF then width + 1 else width
  }

  function Follow(cs: nat, entries: seq<Str>, width: nat, s: Str): Step {
    Next(State(entries, Widened(Avail(cs, entries), width), s, true), s)
  }

  function TakeCode(cs: nat, st: State, code: nat): (r: Step)
    requires NonEmpty(st.entries)
    ensures r.Next? ==> NonEmpty(r.st.entries) && r.st.width > 0
  {
    if code == Pow2(cs) then Next(State([], cs + 1, [], true), [])
    else if code == Pow2(cs) + 1 then Stop
    else if code > Avail(cs, st.entries) || !st.cleared || st.width == 0 then Bad
    else if st.prev == [] then
      if code == Avail(cs, st.entries) then Bad
      else Follow(cs, st.entries, st.width, StringOf(cs, st.entries, code))
    else if Avail(cs, st.entries) >= MAX_CODES then Bad
    else
      var known := if code == Avail(cs, st.entries) then st.prev else StringOf(cs, st.entries, code);
      var entries := st.entries + [st.prev + [known[0]]];
      Follow(cs, entries, st.width, StringOf(cs, entries, code))
  }

  /** Decode the codes packed in `payload` from bit `p` on: the bytes emitted, and whether all codes were legal. */
  function Run(cs: nat, payload: seq<byte>, p: nat, st: State): (r: (Str, bool))
    requires NonEmpty(st.entries) && st.width > 0
    decreases if p <= 8 * |payload| then 8 * |payload| - p else 0
  {
    if p + st.width > 8 * |payload| then ([], true)
    else match TakeCode(cs, st, Window(payload, p, st.width))
      case Stop => ([], true)
      case Bad => ([], false)
      case Next(next, s) => var (t, ok) := Run(cs, payload, p + st.width, next); (s + t, ok)
  }

  function Start(cs: nat): State {
    State([], cs + 1, [], false)
  }

  // ---------- encoding ----------

  function Find(entries: seq<Str>, s: Str, i: nat): (r: Option<nat>)
    ensures r.Some? ==> i <= r.value < |entries| && entries[r.value] == s
    decreases |entries| - i
  {
    if i >= |entries| then None else if entries[i] == s then Some(i) else Find(entries, s, i + 1)
  }

  /** The code of a string, if it has one. */
  function CodeOf(cs: nat, entries: seq<Str>, s: Str): (r: Option<nat>)
    ensures r.Some? && |s| != 1 ==>
              Pow2(cs) + 2 <= r.value < Avail(cs, entries) && entries[r.value - Pow2(cs) - 2] == s
    ensures |s| == 1 ==> r == Some(s[0])
  {
    if |s| == 1 then Some(s[0])
    else match Find(entries, s, 0)
      case None => None
      case Some(i) => Some(Pow2(cs) + 2 + i)
  }

  /** The least width above `w` that holds code `n`, but at most 12. */
  function WidthFor(n: nat, w: nat): (r: nat)
    requires w <= 12
    ensures w <= r <= 12
    decreases 12 - w
  {
    if w == 12 || n < Pow2(w) then w else WidthFor(n, w + 1)
  }

  /** The width in use when `k` codes have been written since the clear code. */
  function WidthAfter(cs: nat, k: nat): (r: nat)
    requires cs <= 8
    ensures cs < r <= 12
  {
    WidthFor(Pow2(cs) + 1 + k, cs + 1)
  }

  /** A full table is used as it is. */
  function Added(cs: nat, entries: seq<Str>, s: Str): seq<Str> {
    if Avail(cs, entries) < CODE_SPACE then entries + [s] else entries
  }

  /** When to write a clear code: wherever `resets` asks for it, given the number of bytes left,
      and, if `eager`, whenever the table is full. */
  datatype Policy = Policy(resets: nat -> bool, eager: bool)

  predicate Resets(cs: nat, policy: Policy, entries: seq<Str>, left: nat) {
    policy.resets(left) || (policy.eager && Avail(cs, entries) >= CODE_SPACE)
  }

  /** The codes for `cur + rest`, when `k` codes have been written since the clear code
      and `cur` is the longest string matched so far. */
  function Encode(cs: nat, policy: Policy, entries: seq<Str>, cur: Str, rest: Str, k: nat): seq<Coded>
    requires cs <= 8 && CodeOf(cs, entries, cur).Some?
    decreases |rest|
  {
    var out := Coded(CodeOf(cs, entries, cur).value, WidthAfter(cs, k));
    if rest == [] then [out, Coded(Pow2(cs) + 1, WidthAfter(cs, k + 1))]
    else if CodeOf(cs, entries, cur + [rest[0]]).Some? then
      Encode(cs, policy, entries, cur + [rest[0]], rest[1..], k)
    else if Resets(cs, policy, entries, |rest|) then
      [out, Coded(Pow2(cs), WidthAfter(cs, k + 1))] + Encode(cs, policy, [], [rest[0]], rest[1..], 0)
    else
      [out] + Encode(cs, policy, Added(cs, entries, cur + [rest[0]]), [rest[0]], rest[1..], k + 1)
  }

  /** A whole image: a clear code, the data, and the end code. */
  function EncodeAll(cs: nat, policy: Policy, input: Str): seq<Coded>
    requires cs <= 8
  {
    [Coded(Pow2(cs), cs + 1)] +
    (if input == [] then [Coded(Pow2(cs) + 1, cs + 1)]
     else Encode(cs, policy, [], [input[0]], input[1..], 0))
  }

  /** No run of codes between clear codes is longer than the decoder's table allows. */
  predicate RunsFit(cs: nat, policy: Policy, entries: seq<Str>, cur: Str, rest: Str, k: nat)
    requires cs <= 8
    decreases |rest|
  {
    if rest == [] then Holds(cs, k)
    else if CodeOf(cs, entries, cur + [rest[0]]).Some? then
      RunsFit(cs, policy, entries, cur + [rest[0]], rest[1..], k)
    else if Resets(cs, policy, entries, |rest|) then
      Holds(cs, k) && RunsFit(cs, policy, [], [rest[0]], rest[1..], 0)
    else
      Holds(cs, k) && RunsFit(cs, policy, Added(cs, entries, cur + [rest[0]]), [rest[0]], rest[1..], k + 1)
  }

  /** The decoder still has room for the entry it makes at the next code. */
  predicate Holds(cs: nat, k: nat) {
    k == 0 || Pow2(cs) + 1 + k < MAX_CODES
  }

  /** In numbers: the decoder takes 8191 - 2^cs codes between clear codes, and its encoder fills 4096 codes. */
  lemma TableSizes(cs: nat, entries: seq<Str>, k: nat)
    ensures Holds(cs, k) <==> k == 0 || k <= 8190 - Pow2(cs)
    ensures Avail(cs, entries) >= CODE_SPACE <==> |entries| >= 4094 - Pow2(cs)
  {
  }

  // ---------- decoding undoes encoding ----------

  ghost predicate Below(s: Str, bound: nat) {
    forall i :: 0 <= i < |s| ==> s[i] < bound
  }

  /** Encoder and decoder in step, `k` codes after a clear code: the encoder knows one entry
      more, which extends the last string by the byte that comes next. */
  ghost predicate InStep(cs: nat, st: State, entries: seq<Str>, cur: Str, k: nat) {
    && 1 <= cs <= 8 && st.cleared && NonEmpty(st.entries) && |cur| > 0
    && st.width == WidthAfter(cs, k)
    && (k == 0 ==> st.prev == [] && st.entries == [] && entries == [])
    && (k > 0 ==> |st.prev| > 0 && |st.entries| == k - 1 && entries <= st.entries + [st.prev + [cur[0]]])
    && |entries| == Min(k, CODE_SPACE - Pow2(cs) - 2)
  }

  lemma CodeSpaceBounds(cs: nat)
    requires cs <= 8
    ensures Pow2(cs) <= 256 && (cs >= 1 ==> Pow2(cs) >= 2) && Pow2(cs + 1) == 2 * Pow2(cs)
  {
    Pow2Values();
    Pow2Monotone(cs, 8);
    if cs >= 1 { Pow2Monotone(1, cs); }
  }

  lemma {:induction false} WidthHolds(n: nat, w: nat)
    requires w <= 12 && n < 4096
    ensures n < Pow2(WidthFor(n, w))
    decreases 12 - w
  {
    Pow2Values();
    if w < 12 && n >= Pow2(w) { WidthHolds(n, w + 1); }
  }

  lemma LowOfPower(w: nat)
    ensures Low(Pow2(w), w) == 0
  {
    ShlOne(w);
    SplitJoin(0, 1, w);
  }

  /** The decoder widens at each code exactly as the encoder does. */
  lemma {:induction false} WidthStep(n: nat, w: nat)
    requires 1 <= w <= 12 && n >= 1
    ensures Widened(n, WidthFor(n - 1, w)) == WidthFor(n, w)
    decreases 12 - w
  {
    Pow2Values();
    if w < 12 && n - 1 >= Pow2(w) {
      WidthStep(n, w + 1);
    } else if n < Pow2(w) {
      LowIdentity(n, w);
    } else if w < 12 {
      Pow2Monotone(w, 11);
      LowOfPower(w);
    }
  }

  /** The state after the code of `cur`. */
  ghost function After(cs: nat, st: State, cur: Str, k: nat): State
    requires cs <= 8 && |cur| > 0
  {
    State(if k == 0 then st.entries else st.entries + [st.prev + [cur[0]]], WidthAfter(cs, k + 1), cur, true)
  }

  lemma WidthFollows(cs: nat, st: State, entries: seq<Str>, cur: Str, k: nat)
    requires InStep(cs, st, entries, cur, k)
    ensures Widened(Avail(cs, After(cs, st, cur, k).entries), st.width) == WidthAfter(cs, k + 1)
  {
    WidthStep(Pow2(cs) + 1 + (k + 1), cs + 1);
  }

  lemma LiteralString(cs: nat, entries: seq<Str>, b: byte)
    requires b < Pow2(cs)
    ensures StringOf(cs, entries, b) == [b]
  {
  }

  /** A string that is one byte is its own code. */
  lemma LiteralTaken(cs: nat, st: State, entries: seq<Str>, b: byte, k: nat)
    requires InStep(cs, st, entries, [b], k) && b < Pow2(cs) && Holds(cs, k)
    ensures TakeCode(cs, st, b) == Next(After(cs, st, [b], k), [b])
  {
    hide Widened, WidthAfter, StringOf, Pow2;
    CodeSpaceBounds(cs);
    WidthFollows(cs, st, entries, [b], k);
    LiteralString(cs, st.entries, b);
    LiteralString(cs, After(cs, st, [b], k).entries, b);
  }

  /** A longer string has an entry the decoder knows or is about to make. */
  lemma EntryTaken(cs: nat, st: State, entries: seq<Str>, cur: Str, k: nat, code: nat)
    requires InStep(cs, st, entries, cur, k) && |cur| > 1 && Holds(cs, k)
    requires CodeOf(cs, entries, cur) == Some(code)
    ensures TakeCode(cs, st, code) == Next(After(cs, st, cur, k), cur)
  {
    CodeSpaceBounds(cs);
    WidthFollows(cs, st, entries, cur, k);
    var i := code - Pow2(cs) - 2;
    var grown := st.entries + [st.prev + [cur[0]]];
    assert grown[i] == entries[i] == cur;
    if i == k - 1 {
      assert cur == st.prev + [cur[0]];
      assert cur[0] == st.prev[0];
    }
  }

  /** The decoder follows the code of `cur`, unless its table is full. */
  lemma CodeTaken(cs: nat, st: State, entries: seq<Str>, cur: Str, k: nat, code: nat)
    requires InStep(cs, st, entries, cur, k) && Below(cur, Pow2(cs)) && CodeOf(cs, entries, cur) == Some(code)
    ensures TakeCode(cs, st, code) == if Holds(cs, k) then Next(After(cs, st, cur, k), cur) else Bad
  {
    if Holds(cs, k) {
      if |cur| == 1 {
        assert cur == [cur[0]];
        LiteralTaken(cs, st, entries, cur[0], k);
      } else {
        EntryTaken(cs, st, entries, cur, k, code);
      }
    } else {
      CodeSpaceBounds(cs);
    }
  }

  lemma OneByte(cs: nat, entries: seq<Str>, c: byte)
    ensures CodeOf(cs, entries, [c]).Some?
  {
  }

  lemma InStepWidth(cs: nat, st: State, entries: seq<Str>, cur: Str, k: nat)
    requires InStep(cs, st, entries, cur, k)
    ensures 1 <= cs <= 8 && |cur| > 0 && NonEmpty(st.entries) && st.width == WidthAfter(cs, k)
  {
  }

  lemma AfterIs(cs: nat, st: State, entries: seq<Str>, cur: Str, k: nat)
    requires InStep(cs, st, entries, cur, k)
    ensures NonEmpty(After(cs, st, cur, k).entries) && After(cs, st, cur, k).width == WidthAfter(cs, k + 1)
  {
  }

  lemma InStepExtends(cs: nat, st: State, entries: seq<Str>, cur: Str, k: nat, c: byte)
    requires InStep(cs, st, entries, cur, k)
    ensures InStep(cs, st, entries, cur + [c], k)
  {
  }

  lemma StillInStep(cs: nat, st: State, entries: seq<Str>, cur: Str, k: nat, c: byte)
    requires InStep(cs, st, entries, cur, k)
    ensures InStep(cs, After(cs, st, cur, k), Added(cs, entries, cur + [c]), [c], k + 1)
  {
    CodeSpaceBounds(cs);
    var next := After(cs, st, cur, k);
    assert entries <= next.entries;
    if Avail(cs, entries) < CODE_SPACE {
      assert entries == next.entries;
    }
  }

  lemma ClearInStep(cs: nat, c: byte)
    requires 1 <= cs <= 8
    ensures InStep(cs, State([], cs + 1, [], true), [], [c], 0)
  {
    CodeSpaceBounds(cs);
  }

  /** One code at the head of the payload. */
  lemma RunCode(cs: nat, payload: seq<byte>, p: nat, st: State, codes: seq<Coded>)
    requires NonEmpty(st.entries) && st.width > 0
    requires |codes| > 0 && CodesAt(payload, p, codes) && codes[0].width == st.width
    ensures Run(cs, payload, p, st) ==
            match TakeCode(cs, st, codes[0].code)
            case Stop => ([], true)
            case Bad => ([], false)
            case Next(next, s) =>
              (s + Run(cs, payload, p + st.width, next).0, Run(cs, payload, p + st.width, next).1)
    ensures CodesAt(payload, p + st.width, codes[1..])
  {
  }

  /** A clear code at the head of the payload. */
  lemma RunClear(cs: nat, payload: seq<byte>, p: nat, st: State, codes: seq<Coded>)
    requires NonEmpty(st.entries) && st.width > 0
    requires |codes| > 0 && CodesAt(payload, p, codes) && codes[0] == Coded(Pow2(cs), st.width)
    ensures Run(cs, payload, p, st) == Run(cs, payload, p + st.width, State([], cs + 1, [], true))
    ensures CodesAt(payload, p + st.width, codes[1..])
  {
    RunCode(cs, payload, p, st, codes);
    var r := Run(cs, payload, p + st.width, State([], cs + 1, [], true));
    assert [] + r.0 == r.0;
  }

  /** The end code at the head of the payload. */
  lemma RunEnd(cs: nat, payload: seq<byte>, p: nat, st: State, codes: seq<Coded>)
    requires NonEmpty(st.entries) && st.width > 0
    requires |codes| > 0 && CodesAt(payload, p, codes) && codes[0] == Coded(Pow2(cs) + 1, st.width)
    ensures Run(cs, payload, p, st) == ([], true)
  {
    RunCode(cs, payload, p, st, codes);
  }

  /** The outcome of decoding: all of `expected`, or a refusal when a run was too long. */
  ghost predicate Outcome(r: (Str, bool), expected: Str, fits: bool) {
    if fits then r == (expected, true) else !r.1
  }

  lemma {:induction false} EncodeDecodes(cs: nat, policy: Policy, payload: seq<byte>, p: nat, st: State,
                                         entries: seq<Str>, cur: Str, rest: Str, k: nat)
    requires InStep(cs, st, entries, cur, k) && CodeOf(cs, entries, cur).Some?
    requires Below(cur, Pow2(cs)) && Below(rest, Pow2(cs))
    requires CodesAt(payload, p, Encode(cs, policy, entries, cur, rest, k))
    ensures Outcome(Run(cs, payload, p, st), cur + rest, RunsFit(cs, policy, entries, cur, rest, k))
    decreases |rest|
  {
    hide InStep, TakeCode, CodeOf, WidthAfter, Added, Pow2, StringOf, Widened, Run;
    InStepWidth(cs, st, entries, cur, k);
    var code := CodeOf(cs, entries, cur).value;
    var codes := Encode(cs, policy, entries, cur, rest, k);
    if rest != [] && CodeOf(cs, entries, cur + [rest[0]]).Some? {
      InStepExtends(cs, st, entries, cur, k, rest[0]);
      EncodeDecodes(cs, policy, payload, p, st, entries, cur + [rest[0]], rest[1..], k);
      assert cur + [rest[0]] + rest[1..] == cur + rest;
    } else {
      CodeTaken(cs, st, entries, cur, k, code);
      RunCode(cs, payload, p, st, codes);
      if Holds(cs, k) {
        AfterCode(cs, policy, payload, p + st.width, After(cs, st, cur, k), st, entries, cur, rest, k);
      }
    }
  }

  /** What follows the code of `cur`: the end code, a clear code, or the next string. */
  lemma {:induction false} AfterCode(cs: nat, policy: Policy, payload: seq<byte>, p: nat, next: State, st: State,
                                     entries: seq<Str>, cur: Str, rest: Str, k: nat)
    requires InStep(cs, st, entries, cur, k) && CodeOf(cs, entries, cur).Some? && Holds(cs, k)
    requires Below(cur, Pow2(cs)) && Below(rest, Pow2(cs)) && next == After(cs, st, cur, k)
    requires rest != [] ==> CodeOf(cs, entries, cur + [rest[0]]).None?
    requires CodesAt(payload, p, Encode(cs, policy, entries, cur, rest, k)[1..])
    ensures NonEmpty(next.entries)
    ensures Outcome(Run(cs, payload, p, next), rest, RunsFit(cs, policy, entries, cur, rest, k))
    decreases |rest|, 0
  {
    hide InStep, TakeCode, CodeOf, WidthAfter, Added, Pow2, StringOf, Widened, Run;
    InStepWidth(cs, st, entries, cur, k);
    AfterIs(cs, st, entries, cur, k);
    var codes := Encode(cs, policy, entries, cur, rest, k);
    if rest == [] {
      RunEnd(cs, payload, p, next, codes[1..]);
    } else {
      var c := rest[0];
      assert [c] + rest[1..] == rest;
      if Resets(cs, policy, entries, |rest|) {
        var tail := Encode(cs, policy, [], [c], rest[1..], 0);
        assert codes[1..] == [Coded(Pow2(cs), WidthAfter(cs, k + 1))] + tail;
        RunClear(cs, payload, p, next, codes[1..]);
        assert codes[1..][1..] == tail;
        ClearInStep(cs, c);
        OneByte(cs, [], c);
        EncodeDecodes(cs, policy, payload, p + next.width, State([], cs + 1, [], true), [], [c], rest[1..], 0);
      } else {
        var added := Added(cs, entries, cur + [c]);
        assert codes[1..] == Encode(cs, policy, added, [c], rest[1..], k + 1);
        StillInStep(cs, st, entries, cur, k, c);
        OneByte(cs, added, c);
        EncodeDecodes(cs, policy, payload, p, next, added, [c], rest[1..], k + 1);
      }
    }
  }

  /** Decoding what the encoder wrote gives the input back if and only if no run between
      clear codes outgrows the decoder's table. */
  lemma RoundTrip(cs: nat, policy: Policy, input: Str, payload: seq<byte>)
    requires 1 <= cs <= 8 && Below(input, Pow2(cs)) && CodesAt(payload, 0, EncodeAll(cs, policy, input))
    ensures input != [] ==>
              Outcome(Run(cs, payload, 0, Start(cs)), input, RunsFit(cs, policy, [], [input[0]], input[1..], 0))
    ensures input == [] ==> Run(cs, payload, 0, Start(cs)) == ([], true)
  {
    hide Run, RunsFit;
    var codes := EncodeAll(cs, policy, input);
    RunClear(cs, payload, 0, Start(cs), codes);
    var cleared := State([], cs + 1, [], true);
    if input == [] {
      RunEnd(cs, payload, cs + 1, cleared, codes[1..]);
    } else {
      assert codes[1..] == Encode(cs, policy, [], [input[0]], input[1..], 0);
      assert [input[0]] + input[1..] == input;
      ClearInStep(cs, input[0]);
      EncodeDecodes(cs, policy, payload, cs + 1, cleared, [], [input[0]], input[1..], 0);
    }
  }

  /** An encoder that clears a full table never writes too long a run. */
  lemma {:induction false} EagerFits(cs: nat, policy: Policy, entries: seq<Str>, cur: Str, rest: Str, k: nat)
    requires 1 <= cs <= 8 && policy.eager && |entries| == k && Pow2(cs) + 2 + k <= CODE_SPACE
    ensures RunsFit(cs, policy, entries, cur, rest, k)
    decreases |rest|
  {
    CodeSpaceBounds(cs);
    if rest != [] {
      if CodeOf(cs, entries, cur + [rest[0]]).Some? {
        EagerFits(cs, policy, entries, cur + [rest[0]], rest[1..], k);
      } else if Resets(cs, policy, entries, |rest|) {
        EagerFits(cs, policy, [], [rest[0]], rest[1..], 0);
      } else {
        EagerFits(cs, policy, Added(cs, entries, cur + [rest[0]]), [rest[0]], rest[1..], k + 1);
      }
    }
  }

  // ---------- a table that is never cleared ----------

  /** Every entry is at most one byte longer than the entries before it allow. */
  ghost predicate ShortEntries(entries: seq<Str>) {
    forall i :: 0 <= i < |entries| ==> |entries[i]| <= i + 2
  }

  /** Without clear codes every input long enough is refused: each code stands for at most 4096 bytes. */
  lemma {:induction false} LongRunFails(cs: nat, policy: Policy, entries: seq<Str>, cur: Str, rest: Str, k: nat)
    requires 1 <= cs <= 8 && !policy.eager && (forall n: nat :: !policy.resets(n))
    requires ShortEntries(entries) && Avail(cs, entries) <= CODE_SPACE && CodeOf(cs, entries, cur).Some?
    requires |cur| + |rest| > (MAX_CODES - 1 - Pow2(cs) - k) * CODE_SPACE && k > 0
    ensures !RunsFit(cs, policy, entries, cur, rest, k)
    decreases |rest|
  {
    CodeSpaceBounds(cs);
    assert |cur| <= CODE_SPACE;
    if rest != [] {
      var c := rest[0];
      if CodeOf(cs, entries, cur + [c]).Some? {
        LongRunFails(cs, policy, entries, cur + [c], rest[1..], k);
      } else if Holds(cs, k) {
        LongRunFails(cs, policy, Added(cs, entries, cur + [c]), [c], rest[1..], k + 1);
      }
    }
  }

  /** An encoder that leaves a full table in use, as the specification permits, can write
      rasters this decoder refuses: 2^25 bytes of one colour are enough. */
  lemma DeferredClearRefused(cs: nat, payload: seq<byte>)
    requires 1 <= cs <= 8
    requires CodesAt(payload, 0, EncodeAll(cs, Policy(n => false, false), seq(MAX_CODES * CODE_SPACE, i => 0)))
    ensures !Run(cs, payload, 0, Start(cs)).1
  {
    var policy, input := Policy(n => false, false), seq(MAX_CODES * CODE_SPACE, i => 0 as byte);
    CodeSpaceBounds(cs);
    RoundTrip(cs, policy, input, payload);
    assert CodeOf(cs, [], [0, 0]).None?;
    assert [input[0]] + [input[1..][0]] == [0, 0];
    LongRunFails(cs, policy, Added(cs, [], [0, 0]), [0], input[1..][1..], 1);
  }
}
