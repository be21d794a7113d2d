/** The GIF raster decoder `stbi__gif`: the prefix dictionary, the code reader and the
    walk over the image rectangle. */
module GifDecoder {
  import opened Bits
  import opened BitStream
  import opened GifRows
  import opened GifScreen
  import opened GifLzw
  import opened GifBlocks

  /** `stbi__gif_lzw`: the code of all but the last byte, or -1; the first and the last byte. */
  datatype Link = Link(prefix: int, first: byte, suffix: byte)

  /** The string of a code: the string of its prefix, then its suffix. */
  function Expand(t: seq<Link>, c: nat): (s: Str)
    requires c < |t|
    ensures |s| > 0
    decreases c
  {
    if 0 <= t[c].prefix < c then Expand(t, t[c].prefix) + [t[c].suffix] else [t[c].suffix]
  }

  predicate Control(cs: nat, c: nat) {
    c == Pow2(cs) || c == Pow2(cs) + 1
  }

  /** Every prefix below `n` is an earlier code that is not a control code. */
  ghost predicate Linked(cs: nat, t: seq<Link>, n: nat)
    requires n <= |t|
  {
    forall c :: 0 <= c < n && !Control(cs, c) ==>
      t[c].prefix < 0 || (t[c].prefix < c && !Control(cs, t[c].prefix))
  }

  /** The linked dictionary stands for the given strings. */
  ghost predicate Dictionary(cs: nat, t: seq<Link>, entries: seq<Str>) {
    && |t| == MAX_CODES && Avail(cs, entries) <= MAX_CODES && NonEmpty(entries)
    && Linked(cs, t, Avail(cs, entries))
    && (forall c :: 0 <= c < Pow2(cs) ==> t[c] == Link(-1, c % 256, c % 256))
    && (forall i :: 0 <= i < |entries| ==>
          t[Pow2(cs) + 2 + i].first == entries[i][0] && Expand(t, Pow2(cs) + 2 + i) == entries[i])
  }

  /** A code's expansion depends only on the codes up to it. */
  lemma {:induction false} ExpandFrame(t: seq<Link>, u: seq<Link>, c: nat)
    requires c < |t| && c < |u| && forall i :: 0 <= i <= c ==> t[i] == u[i]
    ensures Expand(t, c) == Expand(u, c)
    decreases c
  {
    if 0 <= t[c].prefix < c { ExpandFrame(t, u, t[c].prefix); }
  }

  /** In a dictionary every code below the next free one expands to its string, whose first byte it records. */
  lemma CodeString(cs: nat, t: seq<Link>, entries: seq<Str>, c: nat)
    requires Dictionary(cs, t, entries) && c < Avail(cs, entries) && !Control(cs, c)
    ensures Expand(t, c) == StringOf(cs, entries, c) && t[c].first == StringOf(cs, entries, c)[0]
  {
    if c >= Pow2(cs) {
      var i := c - Pow2(cs) - 2;
      assert t[Pow2(cs) + 2 + i] == t[c];
      assert Expand(t, Pow2(cs) + 2 + i) == entries[i];
    }
  }

  lemma LinkedGrows(cs: nat, t: seq<Link>, a: nat, e: Link)
    requires a < |t| && Linked(cs, t, a) && 0 <= e.prefix < a && !Control(cs, e.prefix)
    ensures Linked(cs, t[a := e], a + 1)
  {
  }

  lemma StringsGrow(cs: nat, t: seq<Link>, entries: seq<Str>, e: Link, s: Str)
    requires Dictionary(cs, t, entries) && Avail(cs, entries) < MAX_CODES
    requires |s| > 0 && e.first == s[0] && 0 <= e.prefix < Avail(cs, entries)
    requires s == Expand(t, e.prefix) + [e.suffix]
    ensures var u, grown := t[Avail(cs, entries) := e], entries + [s];
            forall i :: 0 <= i < |grown| ==>
              u[Pow2(cs) + 2 + i].first == grown[i][0] && Expand(u, Pow2(cs) + 2 + i) == grown[i]
  {
    hide Linked, Control, Pow2;
    var a := Avail(cs, entries);
    var u, grown := t[a := e], entries + [s];
    ExpandFrame(t, u, e.prefix);
    forall i | 0 <= i < |grown|
      ensures u[Pow2(cs) + 2 + i].first == grown[i][0] && Expand(u, Pow2(cs) + 2 + i) == grown[i]
    {
      if i < |entries| {
        ExpandFrame(t, u, Pow2(cs) + 2 + i);
      } else {
        assert u[a] == e;
      }
    }
  }

  /** A new code extends the string of an old one by a byte. */
  lemma DictionaryGrows(cs: nat, t: seq<Link>, entries: seq<Str>, old_: nat, b: byte)
    requires Dictionary(cs, t, entries) && Avail(cs, entries) < MAX_CODES
    requires old_ < Avail(cs, entries) && !Control(cs, old_)
    ensures Dictionary(cs, t[Avail(cs, entries) := Link(old_, t[old_].first, b)],
                       entries + [StringOf(cs, entries, old_) + [b]])
  {
    hide Expand, StringOf, Linked;
    var a, e := Avail(cs, entries), Link(old_, t[old_].first, b);
    CodeString(cs, t, entries, old_);
    LinkedGrows(cs, t, a, e);
    StringsGrow(cs, t, entries, e, StringOf(cs, entries, old_) + [b]);
  }

  /** The local variables of the raster decoder that change from code to code. */
  datatype Vars = Vars(codesize: nat, codemask: nat, avail: nat, oldcode: int, first: bool)

  datatype Action = GoOn | StopHere | Refuse

  class Gif {
    const data: seq<byte>
    var pos: nat

    const w: nat
    const h: nat
    const out: array<byte>
    const history: array<byte>
    const codes: array<Link>
    var colorTable: seq<byte>

    var parse: nat
    var step: nat
    var startX: nat
    var startY: nat
    var maxX: nat
    var maxY: nat
    var curX: nat
    var curY: nat
    var lineSize: nat

    /** The image being drawn, the rows and column left to visit, and the row step of the pass. */
    ghost var frame: Frame
    ghost var rest: seq<nat>
    ghost var col: nat
    ghost var stride: nat

    constructor (data: seq<byte>, pos: nat, w: nat, h: nat)
      ensures this.data == data && this.pos == pos && this.w == w && this.h == h && Shape()
      ensures fresh(out) && fresh(history) && fresh(codes)
      ensures forall i :: 0 <= i < out.Length ==> out[i] == 0
    {
      this.data, this.pos, this.w, this.h := data, pos, w, h;
      out := new byte[4 * Times(h, w)](_ => 0);
      history := new byte[Times(h, w)](_ => 0);
      codes := new Link[MAX_CODES](_ => Link(-1, 0, 0));
      colorTable := [];
      parse, step, startX, startY, maxX, maxY, curX, curY, lineSize := 0, 0, 0, 0, 0, 0, 0, 0, 0;
      frame, rest, col, stride := Frame(w, h, 0, 0, 0, 0, []), [], 0, 1;
    }

    ghost predicate Shape() {
      && history.Length == Times(h, w) && out.Length == 4 * history.Length && codes.Length == MAX_CODES
      && out != history && out as object != codes && history as object != codes
    }

    /** The byte positions of the structure stand for the rows and column left to visit. */
    ghost predicate Valid()
      reads `colorTable, `parse, `step, `startX, `startY, `maxX, `maxY, `curX, `curY, `lineSize
      reads `frame, `rest, `col, `stride
    {
      && Shape() && FrameOk(frame) && frame.gw == w && frame.gh == h && frame.colors == colorTable
      && lineSize == 4 * w
      && startX == 4 * frame.x0 && maxX == 4 * (frame.x0 + frame.w)
      && startY == Times(frame.y0, lineSize) && maxY == Times(frame.y0 + frame.h, lineSize)
      && parse <= 3 && IsStep(stride) && step == Times(stride, lineSize)
      && (forall i :: 0 <= i < |rest| ==> rest[i] < frame.h)
      && (rest == [] ==> curY >= maxY)
      && (rest != [] ==> AtRow(rest[0]) && col < frame.w && curX == 4 * (frame.x0 + col))
    }

    /** The cursor is on row `r`, from which the passes go on. */
    ghost predicate AtRow(r: nat)
      reads `curY, `lineSize, `frame, `rest, `stride, `parse
    {
      curY == Times(frame.y0 + r, lineSize) && IsStep(stride) &&
      rest == PassRows(frame.h, r, stride) + Later(frame.h, parse)
    }

    ghost function View(): Screen
      reads out, history, `rest, `col
    {
      Screen(out[..], history[..], rest, col)
    }

    // ---------- drawing ----------

    /** The part of `stbi__out_gif_code` that follows the recursion: one pixel. */
    method EmitPixel(suffix: byte)
      requires Valid() && ScreenOk(frame, View())
      modifies `parse, `step, `curX, `curY, `rest, `col, `stride, out, history
      ensures Valid() && ScreenOk(frame, View())
      ensures View() == DrawOne(frame, old(View()), suffix)
    {
      CursorInside();
      if curY >= maxY { return; }
      ghost var p := PixelAt(frame, rest[0], col);
      PixelBound(frame, rest[0], col);
      var idx := curX + curY;
      CursorPixel();
      history[idx / 4] := 1;
      PlotPixel(idx, suffix, p);
      MoveOn();
    }

    /** Copy a colour to byte `idx` of the screen, unless it is transparent. */
    method PlotPixel(idx: nat, suffix: byte, ghost p: nat)
      requires Shape() && FrameOk(frame) && frame.colors == colorTable && idx == 4 * p && 4 * p + 4 <= out.Length
      modifies out
      ensures out[..] == Plot(frame, old(out[..]), p, suffix)
    {
      var c := 4 * suffix;
      if colorTable[c + 3] > 128 {
        out[idx] := colorTable[c + 2];
        out[idx + 1] := colorTable[c + 1];
        out[idx + 2] := colorTable[c];
        out[idx + 3] := colorTable[c + 3];
      }
    }

    /** Advance the cursor past the pixel just drawn. */
    method MoveOn()
      requires Valid() && rest != []
      modifies `parse, `step, `curX, `curY, `rest, `col, `stride
      ensures Valid()
      ensures rest == NextRows(frame.w, old(rest), old(col)) && col == NextCol(frame.w, old(col))
    {
      hide PassRows, Later, Times;
      curX := curX + 4;
      if curX >= maxX {
        curX := startX;
        NextRow();
        col := 0;
      } else {
        col := col + 1;
      }
    }

    /** Go to the next row of the pass, or to the first row of the next pass that has one. */
    method NextRow()
      requires Valid0() && rest != [] && AtRow(rest[0]) && rest[0] < frame.h
      modifies `parse, `step, `curY, `rest, `stride
      ensures Valid0() && rest == old(rest)[1..]
      ensures if rest == [] then curY >= maxY else AtRow(rest[0])
    {
      hide PassRows, Later, Times;
      ghost var r: nat := rest[0];
      TimesAdd(frame.y0 + r, stride, lineSize);
      RowsNext(frame.h, r, stride, parse);
      curY := curY + step;
      r := r + stride;
      rest := rest[1..];
      while curY >= maxY && parse > 0
        invariant Valid0() && rest == old(rest)[1..] && AtRow(r)
        decreases parse
      {
        r := NextPass(r);
      }
      TimesLess(frame.y0 + r, frame.y0 + frame.h, lineSize);
      RowsFrom(frame.h, r, stride, parse);
    }

    /** Start the next pass of an interlaced image. */
    method NextPass(ghost r: nat) returns (ghost s: nat)
      requires Valid0() && AtRow(r) && curY >= maxY && parse > 0
      modifies `parse, `step, `curY, `stride
      ensures Valid0() && AtRow(s) && parse == old(parse) - 1
    {
      TimesLess(frame.y0 + r, frame.y0 + frame.h, lineSize);
      assert PassRows(frame.h, r, stride) == [];
      TimesIsProduct(Pow2(parse), lineSize);
      TimesHalf(Pow2(parse - 1), lineSize);
      s := Pow2(parse - 1);
      TimesAdd(frame.y0, s, lineSize);
      SmallSteps(parse);
      step := Pow2(parse) * lineSize;
      curY := startY + Shr(step, 1);
      stride := Pow2(parse);
      parse := parse - 1;
    }

    /** The part of `Valid` that moving between rows keeps. */
    ghost predicate Valid0()
      reads `step, `startY, `maxY, `lineSize, `frame, `parse, `stride, `rest
    {
      && FrameOk(frame) && 0 < lineSize
      && startY == Times(frame.y0, lineSize) && maxY == Times(frame.y0 + frame.h, lineSize)
      && parse <= 3 && IsStep(stride) && step == Times(stride, lineSize)
    }

    // ---------- setting up an image ----------

    /** The image descriptor: refused when the rectangle leaves the screen. */
    method BeginImage(x: nat, y: nat, iw: nat, ih: nat, interlaced: bool, table: seq<byte>) returns (ok: bool)
      requires Shape() && |table| == 1024
      modifies `colorTable, `parse, `step, `startX, `startY, `maxX, `maxY, `curX, `curY, `lineSize
      modifies `frame, `rest, `col, `stride
      ensures ok <==> x + iw <= w && y + ih <= h
      ensures ok ==> Valid() && ScreenOk(frame, View()) && frame == Frame(w, h, x, y, iw, ih, table)
      ensures ok ==> col == 0 && rest == if iw == 0 then [] else Order(ih, interlaced)
    {
      if x + iw > w || y + ih > h { return false; }
      colorTable := table;
      frame := Frame(w, h, x, y, iw, ih, table);
      SetRectangle(x, y, iw, ih);
      SetPasses(interlaced);
      ok := true;
    }

    method SetRectangle(x: nat, y: nat, iw: nat, ih: nat)
      modifies `startX, `startY, `maxX, `maxY, `curX, `curY, `lineSize
      ensures lineSize == 4 * w && startX == 4 * x && maxX == 4 * (x + iw)
      ensures startY == Times(y, lineSize) && maxY == Times(y + ih, lineSize)
      ensures curX == startX && curY == if iw == 0 then maxY else startY
    {
      lineSize := w * 4;
      startX := x * 4;
      startY := LineOffset(y, lineSize);
      maxX := startX + iw * 4;
      var height := LineOffset(ih, lineSize);
      TimesAdd(y, ih, lineSize);
      maxY := startY + height;
      curX, curY := startX, startY;
      if iw == 0 { curY := maxY; }
    }

    method SetPasses(interlaced: bool)
      requires Shape() && FrameOk(frame) && frame.gw == w && frame.gh == h && frame.colors == colorTable
      requires lineSize == 4 * w && startX == 4 * frame.x0 && maxX == 4 * (frame.x0 + frame.w)
      requires startY == Times(frame.y0, lineSize) && maxY == Times(frame.y0 + frame.h, lineSize)
      requires curX == startX && curY == if frame.w == 0 then maxY else startY
      modifies `parse, `step, `rest, `col, `stride
      ensures Valid() && col == 0 && rest == if frame.w == 0 then [] else Order(frame.h, interlaced)
      ensures ScreenOk(frame, View())
    {
      hide Order, PassRows, Later, Times;
      OrderRows(frame.h, interlaced);
      rest := if frame.w == 0 then [] else Order(frame.h, interlaced);
      col := 0;
      if interlaced {
        step := 8 * lineSize;
        parse, stride := 3, 8;
      } else {
        step := lineSize;
        parse, stride := 0, 1;
      }
      StepSize(stride, lineSize);
    }

    // ---------- decoding ----------

    /** `stbi__out_gif_code`: draw the string of a code, prefix first. */
    method OutGifCode(ghost cs: nat, ghost n: nat, code: nat)
      requires Valid() && ScreenOk(frame, View())
      requires n <= MAX_CODES && Linked(cs, codes[..], n) && code < n && !Control(cs, code)
      modifies `parse, `step, `curX, `curY, `rest, `col, `stride, out, history
      ensures Valid() && ScreenOk(frame, View())
      ensures View() == Draw(frame, old(View()), Expand(old(codes[..]), code))
      decreases code
    {
      ghost var before, t := View(), codes[..];
      assert t[code] == codes[code];
      if codes[code].prefix >= 0 {
        OutGifCode(cs, n, codes[code].prefix);
        DrawLast(frame, before, Expand(t, codes[code].prefix), codes[code].suffix);
      } else {
        DrawLast(frame, before, [], codes[code].suffix);
      }
      EmitPixel(codes[code].suffix);
    }

    /** `stbi__get8`. */
    method Get8() returns (b: byte)
      modifies `pos
      ensures b == ByteAt(data, old(pos))
      ensures pos == if old(pos) < |data| then old(pos) + 1 else old(pos)
    {
      if pos < |data| {
        b := data[pos];
        pos := pos + 1;
      } else {
        b := 0;
      }
    }

    /** The decoder's variables stand for the state `st` of the reference decoder. */
    ghost predicate Stands(cs: nat, st: State, v: Vars)
      reads codes
    {
      && Dictionary(cs, codes[..], st.entries) && st.width > 0
      && v.codesize == st.width && v.codemask == Pow2(st.width) - 1
      && v.avail == Avail(cs, st.entries) && v.first == !st.cleared
      && (if st.prev == [] then v.oldcode == -1
          else 0 <= v.oldcode < v.avail && !Control(cs, v.oldcode) && StringOf(cs, st.entries, v.oldcode) == st.prev)
    }

    /** `stbi__process_gif_raster`: draws exactly what the reference decoder emits, and
        reports exactly whether all codes were legal. */
    method ProcessRaster() returns (ok: bool)
      requires Valid() && ScreenOk(frame, View())
      modifies `pos, `parse, `step, `curX, `curY, `rest, `col, `stride, out, history, codes
      ensures Valid() && ScreenOk(frame, View())
      ensures ok == RasterIndices(data, old(pos)).1
      ensures View() == Draw(frame, old(View()), RasterIndices(data, old(pos)).0)
    {
      hide Run, Draw, Valid, ScreenOk, Stands;
      ghost var start, before := pos, View();
      var cs: nat := Get8();
      DrawNothing(frame, before);
      if cs > 12 { return false; }
      DeblockFrom(data, pos, start + 1);
      ShapeHolds();
      InitCodes(cs);
      var v := Vars(cs + 1, Pow2(cs + 1) - 1, Pow2(cs) + 2, -1, true);
      InitStands(cs, v);
      ok := ReadCodes(cs, v);
    }

    /** The literal codes; the other entries are written before they are used. */
    method InitCodes(cs: nat)
      requires Shape() && cs <= 12
      modifies codes
      ensures forall c :: 0 <= c < Pow2(cs) ==> c < codes.Length && codes[c] == Link(-1, c % 256, c % 256)
      ensures Pow2(cs) <= 4096
    {
      Pow2Values();
      Pow2Monotone(cs, 12);
      var i := 0;
      while i < Pow2(cs)
        invariant i <= Pow2(cs)
        invariant forall c :: 0 <= c < i ==> codes[c] == Link(-1, c % 256, c % 256)
      {
        codes[i] := Link(-1, i % 256, i % 256);
        i := i + 1;
      }
    }

    lemma InitStands(cs: nat, v: Vars)
      requires Shape() && cs <= 12 && Pow2(cs) <= 4096
      requires forall c :: 0 <= c < Pow2(cs) ==> c < codes.Length && codes[c] == Link(-1, c % 256, c % 256)
      requires v == Vars(cs + 1, Pow2(cs + 1) - 1, Pow2(cs) + 2, -1, true)
      ensures Stands(cs, GifLzw.Start(cs), v)
    {
      forall c | 0 <= c < Pow2(cs) ensures codes[..][c] == Link(-1, c % 256, c % 256) {
        assert codes[..][c] == codes[c];
      }
    }

    /** The loop over bytes and codes. */
    method ReadCodes(cs: nat, v0: Vars) returns (ok: bool)
      requires Valid() && ScreenOk(frame, View()) && cs <= 12 && Stands(cs, GifLzw.Start(cs), v0)
      modifies `pos, `parse, `step, `curX, `curY, `rest, `col, `stride, out, history, codes
      ensures Valid() && ScreenOk(frame, View())
      ensures var r := Run(cs, Deblock(data, old(pos)), 0, GifLzw.Start(cs));
              ok == r.1 && View() == Draw(frame, old(View()), r.0)
    {
      hide Run, Draw, Deblock, Valid, ScreenOk, Stands, TakeCode, RunIs, Window;
      ghost var payload, before := Deblock(data, pos), View();
      ghost var st, done := GifLzw.Start(cs), [];
      ghost var p: nat, m: nat, q: nat := 0, 0, pos;
      var v := v0;
      var len: nat, bits: nat, validBits: nat := 0, 0, 0;
      ReadStart(cs, payload, data, pos);
      DrawNothing(frame, before);
      while true
        invariant Valid() && ScreenOk(frame, View()) && Stands(cs, st, v)
        invariant SamePlace(data, pos, q) && Feed(data, q, len, payload, m)
        invariant p + validBits == 8 * m && bits == Window(payload, p, validBits)
        invariant ScreenOk(frame, before) && View() == Draw(frame, before, done)
        invariant RunIs(cs, payload, p, st, done)
        decreases |payload| - m, validBits
      {
        StandsFor(cs, st, v);
        if validBits < v.codesize {
          var more, b;
          more, len, b, q := NextByte(len, payload, m, q);
          if !more {
            RunStarved(cs, payload, p, st, done);
            return true;
          }
          AddBits(payload, p, m, validBits);
          bits := Or(bits, Shl(b, validBits));
          validBits := validBits + 8;
          m := m + 1;
        } else {
          var code;
          code, bits := SplitBits(bits, v.codesize, v.codemask, payload, p, validBits);
          validBits := validBits - v.codesize;
          ghost var next := TakeCode(cs, st, code);
          RunTakes(cs, payload, p, st, done);
          p := p + v.codesize;
          ghost var shown := View();
          var action;
          action, v := TakeOne(cs, v, code, st);
          if action.StopHere? {
            SkipBlocks(len);
            return true;
          }
          if action.Refuse? { return false; }
          DrawAppend(frame, before, done, next.emitted);
          done := done + next.emitted;
          st := next.st;
        }
      }
    }

    /** The next payload byte, from this sub-block or the one that follows. */
    method NextByte(len0: nat, ghost payload: seq<byte>, ghost m: nat, ghost q0: nat)
      returns (more: bool, len: nat, b: byte, ghost q: nat)
      requires SamePlace(data, pos, q0) && Feed(data, q0, len0, payload, m)
      modifies `pos
      ensures if more then m < |payload| && b == payload[m] && SamePlace(data, pos, q) &&
              Feed(data, q, len, payload, m + 1)
              else m == |payload|
    {
      hide Deblock, Bytes;
      len, q := len0, q0;
      if len == 0 {
        len := Get8();
        if len == 0 {
          FeedEnds(data, q, payload, m);
          return false, 0, 0, q;
        }
        FeedBlock(data, q, payload, m, len);
        q := q + 1;
      }
      FeedByte(data, q, len, payload, m);
      len := len - 1;
      b := Get8();
      return true, len, b, q + 1;
    }

    lemma StandsFor(cs: nat, st: State, v: Vars)
      requires Stands(cs, st, v)
      ensures NonEmpty(st.entries) && v.codesize == st.width > 0 && v.codemask == Pow2(st.width) - 1
    {
    }

    /** One code: `stbi__process_gif_raster` from the clear test to the end of the pass. */
    method TakeOne(cs: nat, v: Vars, code: nat, ghost st: State) returns (action: Action, u: Vars)
      requires Valid() && ScreenOk(frame, View()) && Stands(cs, st, v)
      modifies `parse, `step, `curX, `curY, `rest, `col, `stride, out, history, codes
      ensures Valid() && ScreenOk(frame, View())
      ensures NonEmpty(st.entries)
      ensures match TakeCode(cs, st, code)
              case Stop => action.StopHere? && View() == old(View())
              case Bad => action.Refuse? && View() == old(View())
              case Next(next, s) => action.GoOn? && Stands(cs, next, u) && View() == Draw(frame, old(View()), s)
    {
      hide Valid, ScreenOk, Draw, Expand, StringOf, Widened;
      u := v;
      if code == Pow2(cs) {
        u := Vars(cs + 1, Pow2(cs + 1) - 1, Pow2(cs) + 2, -1, false);
        DictionaryReset(cs, codes[..], st.entries);
        DrawNothing(frame, View());
        return GoOn, u;
      }
      if code == Pow2(cs) + 1 { return StopHere, u; }
      if code > v.avail || v.first { return Refuse, u; }
      ShapeHolds();
      ghost var entries := st.entries;
      if v.oldcode >= 0 {
        if v.avail + 1 > MAX_CODES { return Refuse, u; }
        AddEntry(cs, v, code, st);
        entries := entries + [st.prev + [FirstOf(cs, st, code)]];
        u := u.(avail := v.avail + 1);
      } else if code == v.avail {
        return Refuse, u;
      }
      CodeString(cs, codes[..], entries, code);
      OutGifCode(cs, u.avail, code);
      u := Widen(u, code);
      action := GoOn;
    }

    /** Record the string of the last code extended by the first byte of this one's. */
    method AddEntry(cs: nat, v: Vars, code: nat, ghost st: State)
      requires Shape() && Stands(cs, st, v) && v.oldcode >= 0 && v.avail < MAX_CODES
      requires code <= v.avail && !Control(cs, code)
      modifies codes
      ensures Dictionary(cs, codes[..], st.entries + [st.prev + [FirstOf(cs, st, code)]])
    {
      hide Expand;
      ghost var t := codes[..];
      CodeString(cs, t, st.entries, v.oldcode);
      if code < v.avail { CodeString(cs, t, st.entries, code); }
      var a := v.avail;
      var first := codes[v.oldcode].first;
      codes[a] := Link(v.oldcode, first, codes[a].suffix);
      codes[a] := Link(v.oldcode, first, if code == a + 1 then first else codes[code].first);
      assert codes[..] == t[a := Link(v.oldcode, t[v.oldcode].first, FirstOf(cs, st, code))];
      DictionaryGrows(cs, t, st.entries, v.oldcode, FirstOf(cs, st, code));
    }

    /** The end code: skip what is left of the sub-blocks. */
    method SkipBlocks(len0: nat)
      modifies `pos
    {
      pos := pos + len0;
      var len := Get8();
      while len > 0
        invariant len > 0 ==> pos <= |data|
        decreases if len == 0 then 0 else |data| + 1 - pos
      {
        pos := pos + len;
        len := Get8();
      }
    }

    lemma ShapeHolds()
      requires Valid()
      ensures Shape()
    {
    }

    lemma CursorInside()
      requires Valid()
      ensures curY < maxY <==> rest != []
    {
      if rest != [] { TimesLess(frame.y0 + rest[0], frame.y0 + frame.h, lineSize); }
    }

    lemma CursorPixel()
      requires Valid() && rest != []
      ensures curX + curY == 4 * PixelAt(frame, rest[0], col)
    {
      TimesFour(frame.y0 + rest[0], w);
    }
  }

  lemma RowsNext(h: nat, r: nat, step: nat, parse: nat)
    requires r < h && step > 0
    ensures (PassRows(h, r, step) + Later(h, parse))[1..] == PassRows(h, r + step, step) + Later(h, parse)
  {
  }

  /** The rows from `r` on start with `r`, if it is a row; with no pass left there are none otherwise. */
  lemma RowsFrom(h: nat, r: nat, step: nat, parse: nat)
    requires step > 0
    ensures var rows := PassRows(h, r, step) + Later(h, parse);
            if r < h then rows != [] && rows[0] == r else parse == 0 ==> rows == []
  {
  }

  lemma {:induction false} TimesHalf(a: nat, b: nat)
    ensures Shr(Times(2 * a, b), 1) == Times(a, b)
  {
    TimesAdd(a, a, b);
  }

  lemma SmallSteps(parse: nat)
    requires 1 <= parse <= 3
    ensures IsStep(Pow2(parse))
  {
    Pow2Values();
  }

  lemma StepSize(k: nat, lineSize: nat)
    ensures k == 1 ==> Times(k, lineSize) == lineSize
    ensures k == 8 ==> Times(k, lineSize) == 8 * lineSize
  {
    TimesIsProduct(k, lineSize);
  }

  /** The byte offset of a row: a row number times the bytes in a line. */
  method LineOffset(row: nat, lineSize: nat) returns (offset: nat)
    ensures offset == Times(row, lineSize)
  {
    TimesIsProduct(row, lineSize);
    offset := row * lineSize;
  }

  lemma OrderRows(h: nat, interlaced: bool)
    ensures forall i :: 0 <= i < |Order(h, interlaced)| ==> Order(h, interlaced)[i] < h
    ensures h > 0 ==> Order(h, interlaced) != [] && Order(h, interlaced)[0] == 0
    ensures h == 0 ==> Order(h, interlaced) == []
    ensures Order(h, interlaced) == if interlaced then PassRows(h, 0, 8) + Later(h, 3)
            else PassRows(h, 0, 1) + Later(h, 0)
  {
    OrderPermutes(h, interlaced);
    var order := Order(h, interlaced);
    forall i | 0 <= i < |order| ensures order[i] < h {
      assert order[i] in order;
    }
  }

  // ---------- reading codes ----------

  /** The first byte of the string of a code, which may be the one about to be entered. */
  ghost function FirstOf(cs: nat, st: State, code: nat): byte
    requires NonEmpty(st.entries) && |st.prev| > 0 && code <= Avail(cs, st.entries) && !Control(cs, code)
  {
    if code == Avail(cs, st.entries) then st.prev[0] else StringOf(cs, st.entries, code)[0]
  }

  method Widen(v: Vars, code: nat) returns (u: Vars)
    requires v.codemask == Pow2(v.codesize) - 1
    ensures u == Vars(Widened(v.avail, v.codesize), Pow2(Widened(v.avail, v.codesize)) - 1, v.avail, code, v.first)
  {
    AndMask(v.avail, v.codemask, v.codesize);
    u := v.(oldcode := code);
    if And(v.avail, v.codemask) == 0 && v.avail <= 0x0FFF {
      u := u.(codesize := v.codesize + 1);
      u := u.(codemask := Pow2(u.codesize) - 1);
    }
  }

  /** A clear code forgets the entries but keeps the literal codes. */
  lemma DictionaryReset(cs: nat, t: seq<Link>, entries: seq<Str>)
    requires Dictionary(cs, t, entries)
    ensures Dictionary(cs, t, [])
  {
  }

  lemma DrawNothing(f: Frame, s: Screen)
    requires ScreenOk(f, s)
    ensures Draw(f, s, []) == s
  {
  }

  /** Two read positions that see the same bytes: equal, or both past the end. */
  predicate SamePlace(data: seq<byte>, pos: nat, q: nat) {
    pos == q || (pos >= |data| && q >= |data|)
  }

  lemma DeblockFrom(data: seq<byte>, pos: nat, q: nat)
    requires SamePlace(data, pos, q)
    ensures Deblock(data, pos) == Deblock(data, q)
  {
  }

  /** The payload bytes from `m` on are the `len` bytes left of this sub-block and the later ones. */
  ghost predicate Feed(data: seq<byte>, q: nat, len: nat, payload: seq<byte>, m: nat) {
    m <= |payload| && payload[m..] == Bytes(data, q, len) + Deblock(data, q + len)
  }

  lemma FeedEnds(data: seq<byte>, q: nat, payload: seq<byte>, m: nat)
    requires Feed(data, q, 0, payload, m) && ByteAt(data, q) == 0
    ensures m == |payload|
  {
  }

  lemma FeedBlock(data: seq<byte>, q: nat, payload: seq<byte>, m: nat, n: nat)
    requires Feed(data, q, 0, payload, m) && ByteAt(data, q) == n > 0
    ensures Feed(data, q + 1, n, payload, m)
  {
    assert Bytes(data, q, 0) == [];
  }

  lemma FeedByte(data: seq<byte>, q: nat, len: nat, payload: seq<byte>, m: nat)
    requires Feed(data, q, len, payload, m) && len > 0
    ensures m < |payload| && payload[m] == ByteAt(data, q) && Feed(data, q + 1, len - 1, payload, m + 1)
  {
    assert Bytes(data, q, len) == [ByteAt(data, q)] + Bytes(data, q + 1, len - 1);
    assert payload[m] == payload[m..][0];
    assert payload[m + 1..] == payload[m..][1..];
  }

  lemma AddBits(payload: seq<byte>, p: nat, m: nat, n: nat)
    requires p + n == 8 * m && m < |payload|
    ensures Or(Window(payload, p, n), Shl(payload[m], n)) == Window(payload, p, n + 8)
  {
    WindowExtended(payload, m, n);
  }

  method SplitBits(bits: nat, codesize: nat, codemask: nat, ghost payload: seq<byte>, ghost p: nat, ghost n: nat)
    returns (code: nat, rest: nat)
    requires bits == Window(payload, p, n) && codesize <= n && codemask == Pow2(codesize) - 1
    ensures code == Window(payload, p, codesize) && rest == Window(payload, p + codesize, n - codesize)
  {
    AndMask(bits, codemask, codesize);
    WindowSplit(payload, p, codesize, n);
    code := And(bits, codemask);
    rest := Shr(bits, codesize);
  }

  /** The reference run emits `done` first and then what it emits from `p` and `st`. */
  ghost predicate RunIs(cs: nat, payload: seq<byte>, p: nat, st: State, done: Str) {
    NonEmpty(st.entries) && st.width > 0 &&
    var r, s := Run(cs, payload, 0, GifLzw.Start(cs)), Run(cs, payload, p, st);
    r == (done + s.0, s.1)
  }

  lemma ReadStart(cs: nat, payload: seq<byte>, data: seq<byte>, q: nat)
    requires payload == Deblock(data, q)
    ensures RunIs(cs, payload, 0, GifLzw.Start(cs), [])
    ensures Feed(data, q, 0, payload, 0) && Window(payload, 0, 0) == 0
  {
    var r := Run(cs, payload, 0, GifLzw.Start(cs));
    assert [] + r.0 == r.0;
    assert payload[0..] == Bytes(data, q, 0) + Deblock(data, q);
  }

  lemma RunStarved(cs: nat, payload: seq<byte>, p: nat, st: State, done: Str)
    requires RunIs(cs, payload, p, st, done) && p + st.width > 8 * |payload|
    ensures Run(cs, payload, 0, GifLzw.Start(cs)) == (done, true)
  {
    assert done + [] == done;
  }

  lemma RunTakes(cs: nat, payload: seq<byte>, p: nat, st: State, done: Str)
    requires RunIs(cs, payload, p, st, done) && p + st.width <= 8 * |payload|
    ensures var r := Run(cs, payload, 0, GifLzw.Start(cs));
            match TakeCode(cs, st, Window(payload, p, st.width))
            case Stop => r == (done, true)
            case Bad => r == (done, false)
            case Next(next, s) => RunIs(cs, payload, p + st.width, next, done + s)
  {
    assert done + [] == done;
    match TakeCode(cs, st, Window(payload, p, st.width))
    case Next(next, s) =>
      var t := Run(cs, payload, p + st.width, next);
      assert done + (s + t.0) == (done + s) + t.0;
    case _ =>
  }

  // ---------- a whole image ----------

  /** An image encoded with an encoder that clears full tables is shown pixel for pixel, in
      row order or interlaced: every pixel of the rectangle shows the index the encoder was
      given for it. */
  lemma EncodedImageShown(f: Frame, s: Screen, interlaced: bool, cs: byte, policy: Policy, input: Str,
                          pre: seq<byte>, post: seq<byte>, r: nat, c: nat) returns (k: nat)
    requires ScreenOk(f, s) && f.w > 0 && s.rest == Order(f.h, interlaced) && s.col == 0
    requires 1 <= cs <= 8 && policy.eager && Below(input, Pow2(cs)) && |input| == f.w * f.h
    requires r < f.h && c < f.w
    ensures k < |input| && Visit(f.w, Order(f.h, interlaced), 0, k) == Some((r, c))
    ensures PixelAt(f, r, c) < |s.hist|
    ensures var t := Draw(f, s, RasterIndices(pre + Raster(cs, policy, input) + post, |pre|).0);
            PixelOf(t.img, PixelAt(f, r, c)) == Shown(f, input[k], PixelOf(s.img, PixelAt(f, r, c)))
  {
    hide Draw, RasterIndices, Raster;
    OrderPermutes(f.h, interlaced);
    k := PixelVisited(f.w, f.h, interlaced, r, c);
    EagerRasterRoundTrip(cs, policy, input, pre, post);
    DrawShows(f, s, input, k);
  }
}
