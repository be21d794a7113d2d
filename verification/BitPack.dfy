/** Codes of any width packed one after another into bytes, least significant bits first. */
module BitPack {
  import opened Bits
  import opened BitStream

  datatype Coded = Coded(code: nat, width: nat)

  /** The bits of `payload` from `p` on are the given codes. */
  predicate CodesAt(payload: seq<byte>, p: nat, codes: seq<Coded>)
    decreases |codes|
  {
    codes == [] ||
    (p + codes[0].width <= 8 * |payload| && Window(payload, p, codes[0].width) == codes[0].code &&
     CodesAt(payload, p + codes[0].width, codes[1..]))
  }

  function TotalBits(codes: seq<Coded>): nat {
    if codes == [] then 0 else codes[0].width + TotalBits(codes[1..])
  }

  /** All codes as one number, the first in the least significant bits. */
  function Joined(codes: seq<Coded>): nat {
    if codes == [] then 0 else codes[0].code + Shl(Joined(codes[1..]), codes[0].width)
  }

  ghost predicate AllFit(codes: seq<Coded>) {
    forall i :: 0 <= i < |codes| ==> codes[i].code < Pow2(codes[i].width)
  }

  /** The low `n` bytes of a number, least significant first. */
  function BytesOf(v: nat, n: nat): (r: seq<byte>)
    ensures |r| == n
  {
    if n == 0 then [] else [v % 256] + BytesOf(v / 256, n - 1)
  }

  function Pack(codes: seq<Coded>): seq<byte> {
    BytesOf(Joined(codes), (TotalBits(codes) + 7) / 8)
  }

  lemma {:induction false} WindowTail(data: seq<byte>, p: nat, n: nat)
    requires |data| > 0
    ensures Window(data, p + 8, n) == Window(data[1..], p, n)
    decreases n
  {
    if n > 0 { WindowTail(data, p + 1, n - 1); }
  }

  lemma {:induction false} WindowOfBytes(v: nat, n: nat)
    requires v < Pow2(8 * n)
    ensures Window(BytesOf(v, n), 0, 8 * n) == v
    decreases n
  {
    if n > 0 {
      var data := BytesOf(v, n);
      WindowJoin(data, 0, 8, 8 * (n - 1));
      WindowByte(data, 0);
      WindowTail(data, 0, 8 * (n - 1));
      ShrBound(v, 8, 8 * (n - 1));
      ShrEight(v);
      WindowOfBytes(v / 256, n - 1);
    }
  }

  lemma ShrEight(v: nat)
    ensures Shr(v, 8) == v / 256 && v == v % 256 + Shl(v / 256, 8)
  {
    Pow2Values();
    JoinSplit(v, 8);
    ShlIsProduct(Shr(v, 8), 8);
  }

  lemma {:induction false} JoinedBound(codes: seq<Coded>)
    requires AllFit(codes)
    ensures Joined(codes) < Pow2(TotalBits(codes))
  {
    if codes != [] {
      var w, t := codes[0].width, TotalBits(codes[1..]);
      assert AllFit(codes[1..]) by {
        forall i | 0 <= i < |codes[1..]| ensures codes[1..][i].code < Pow2(codes[1..][i].width) {
          assert codes[1..][i] == codes[i + 1];
        }
      }
      JoinedBound(codes[1..]);
      ShlBound(codes[0].code, Joined(codes[1..]), w, t);
    }
  }

  /** Codes joined in a window are found there one after the other. */
  lemma {:induction false} CodesInWindow(payload: seq<byte>, p: nat, n: nat, codes: seq<Coded>)
    requires AllFit(codes) && TotalBits(codes) <= n && p + n <= 8 * |payload|
    requires Window(payload, p, n) == Joined(codes)
    ensures CodesAt(payload, p, codes)
    decreases |codes|
  {
    if codes != [] {
      var w := codes[0].width;
      WindowSplit(payload, p, w, n);
      SplitJoin(codes[0].code, Joined(codes[1..]), w);
      assert AllFit(codes[1..]) by {
        forall i | 0 <= i < |codes[1..]| ensures codes[1..][i].code < Pow2(codes[1..][i].width) {
          assert codes[1..][i] == codes[i + 1];
        }
      }
      CodesInWindow(payload, p + w, n - w, codes[1..]);
    }
  }

  lemma PackHolds(codes: seq<Coded>)
    requires AllFit(codes)
    ensures CodesAt(Pack(codes), 0, codes)
  {
    var t := TotalBits(codes);
    var n := (t + 7) / 8;
    JoinedBound(codes);
    Pow2Monotone(t, 8 * n);
    WindowOfBytes(Joined(codes), n);
    CodesInWindow(Pack(codes), 0, 8 * n, codes);
  }

  lemma JoinFit(a: seq<Coded>, b: seq<Coded>)
    requires AllFit(a) && AllFit(b)
    ensures AllFit(a + b)
  {
  }

  // ---------- codes in pieces ----------

  lemma {:induction false} TotalSum(a: seq<Coded>, b: seq<Coded>)
    ensures TotalBits(a + b) == TotalBits(a) + TotalBits(b)
    decreases |a|
  {
    if a == [] {
      assert a + b == b;
    } else {
      assert (a + b)[1..] == a[1..] + b;
      TotalSum(a[1..], b);
    }
  }

  lemma {:induction false} CodesSplit(data: seq<byte>, p: nat, a: seq<Coded>, b: seq<Coded>)
    requires CodesAt(data, p, a + b)
    ensures CodesAt(data, p, a) && CodesAt(data, p + TotalBits(a), b)
    decreases |a|
  {
    if a == [] {
      assert a + b == b;
    } else {
      assert (a + b)[1..] == a[1..] + b;
      CodesSplit(data, p + a[0].width, a[1..], b);
    }
  }

  lemma {:induction false} CodesEnd(data: seq<byte>, p: nat, codes: seq<Coded>)
    requires CodesAt(data, p, codes) && p <= 8 * |data|
    ensures p + TotalBits(codes) <= 8 * |data|
    decreases |codes|
  {
    if codes != [] { CodesEnd(data, p + codes[0].width, codes[1..]); }
  }

  /** Codes stay where they are when bytes are put in front. */
  lemma {:induction false} CodesBehind(pre: seq<byte>, data: seq<byte>, p: nat, codes: seq<Coded>)
    requires CodesAt(data, p, codes)
    ensures CodesAt(pre + data, 8 * |pre| + p, codes)
    decreases |codes|
  {
    if codes != [] {
      WindowBehind(pre, data, p, codes[0].width);
      CodesBehind(pre, data, p + codes[0].width, codes[1..]);
    }
  }

  lemma {:induction false} WindowBehind(pre: seq<byte>, data: seq<byte>, p: nat, n: nat)
    ensures Window(pre + data, 8 * |pre| + p, n) == Window(data, p, n)
    decreases |pre|
  {
    if pre == [] {
      assert pre + data == data;
    } else {
      assert (pre + data)[1..] == pre[1..] + data;
      WindowTail(pre + data, 8 * |pre[1..]| + p, n);
      WindowBehind(pre[1..], data, p, n);
    }
  }
}
