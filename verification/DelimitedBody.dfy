/**
  * Beginning a quote-like body: a lookahead walks the lines to the matching close, the parent is suspended just past it,
  * and the body's frame ends where it begins.  The walk over lines is the walk over their joined bytes.
  */
module DelimitedBody {
  import opened DelimiterScan
  import opened Lookahead
  import opened SourceLines
  import opened Wrappers

  // ── The joined bytes ────────────────────────────────────────────

  /** How many bytes a view delivers, its newline included. */
  function Width(view: View): nat {
    |view.line| + if view.terminated then 1 else 0
  }

  function ByteAt(view: View, pos: nat): byte
    requires pos < Width(view)
  {
    if pos < |view.line| then view.line[pos] else Newline
  }

  function LineToks(offset: nat, view: View, pos: nat): (r: seq<Tok>)
    ensures |r| == if pos < Width(view) then Width(view) - pos else 0
  {
    if pos < Width(view) then
      seq(Width(view) - pos, k requires 0 <= k < Width(view) - pos => Tok(ByteAt(view, pos + k), offset + pos + k))
    else []
  }

  /** The lines a bound leaves to be delivered, joined. */
  function Joined(lines: seq<Core>, bound: Option<nat>): seq<Tok> {
    if lines == [] || Beyond(lines[0], bound) then []
    else LineToks(lines[0].offset, SetEof(lines[0], bound), lines[0].indent) + Joined(lines[1..], bound)
  }

  /** Everything from a line's cursor on. */
  function Stream(line: Line, lines: seq<Core>, bound: Option<nat>): seq<Tok> {
    LineToks(line.core.offset, line.view, line.pos) + Joined(lines, bound)
  }

  /** The source byte by byte: a carriage return before a newline is not delivered, and the newline stands at its place. */
  function Flat(src: seq<byte>, i: nat): seq<Tok>
    decreases if i < |src| then |src| - i else 0
  {
    if i >= |src| then []
    else if src[i] == Return && i + 1 < |src| && src[i + 1] == Newline then [Tok(Newline, i)] + Flat(src, i + 2)
    else [Tok(src[i], i)] + Flat(src, i + 1)
  }

  /** What is left of a line, byte by byte, and then the source after it. */
  lemma {:induction false} LineIsFlat(src: seq<byte>, start: nat, pos: nat)
    requires start < |src|
    ensures var core := RawLine(src, start);
            pos <= Width(SetEof(core, None)) ==>
              LineToks(start, SetEof(core, None), pos) + Flat(src, NextStart(src, start)) ==
              if pos == Width(SetEof(core, None)) then Flat(src, NextStart(src, start)) else Flat(src, start + pos)
    decreases Width(SetEof(RawLine(src, start), None)) - pos
  {
    hide RawLine, NextStart, SetEof, LineToks, Flat, ByteAt;
    var next, view := NextStart(src, start), SetEof(RawLine(src, start), None);
    var toks := LineToks(start, view, pos);
    if pos == Width(view) {
      assert toks + Flat(src, next) == Flat(src, next);
    } else if pos < Width(view) {
      LineToksStep(start, view, pos);
      LineIsFlat(src, start, pos + 1);
      assert toks == [toks[0]] + toks[1..];
      assert toks + Flat(src, next) == [toks[0]] + (toks[1..] + Flat(src, next));
      LineByte(src, start, pos);
    }
  }

  lemma LineByte(src: seq<byte>, start: nat, pos: nat)
    requires start < |src| && pos < Width(SetEof(RawLine(src, start), None))
    ensures var view, next := SetEof(RawLine(src, start), None), NextStart(src, start);
            Flat(src, start + pos) ==
            [Tok(ByteAt(view, pos), start + pos)] + Flat(src, if pos + 1 == Width(view) then next else start + pos + 1)
  {
    hide Flat;
    FlatStep(src, start + pos);
    var core, end := RawLine(src, start), NewlineAt(src, start);
    if pos < |core.full| {
      assert core.full[pos] == src[start + pos];
    }
  }

  lemma FlatStep(src: seq<byte>, i: nat)
    requires i < |src|
    ensures Flat(src, i) == if src[i] == Return && i + 1 < |src| && src[i + 1] == Newline
                            then [Tok(Newline, i)] + Flat(src, i + 2) else [Tok(src[i], i)] + Flat(src, i + 1)
  {}

  /** The lines of the source, joined, are the source. */
  lemma {:induction false} JoinedIsFlat(src: seq<byte>, cursor: nat)
    ensures Joined(RawLines(src, cursor), None) == Flat(src, cursor)
    decreases if cursor < |src| then |src| - cursor else 0
  {
    hide RawLine, RawLines, NextStart, LineToks, SetEof, Joined, Flat;
    RawLinesStep(src, cursor);
    if cursor < |src| {
      RawLineStands(src, cursor);
      JoinedStep(RawLine(src, cursor), RawLines(src, NextStart(src, cursor)));
      JoinedIsFlat(src, NextStart(src, cursor));
      LineIsFlat(src, cursor, 0);
    } else {
      NothingIsFlat(src, cursor);
    }
  }

  lemma RawLinesStep(src: seq<byte>, cursor: nat)
    ensures RawLines(src, cursor)
         == if cursor >= |src| then [] else [RawLine(src, cursor)] + RawLines(src, NextStart(src, cursor))
  {}

  lemma JoinedStep(core: Core, rest: seq<Core>)
    ensures Joined([core] + rest, None) == LineToks(core.offset, SetEof(core, None), core.indent) + Joined(rest, None)
  {
    hide LineToks, SetEof;
    assert ([core] + rest)[1..] == rest;
  }

  lemma NothingIsFlat(src: seq<byte>, i: nat)
    requires i >= |src|
    ensures Joined([], None) == Flat(src, i)
  {}

  lemma RawLineStands(src: seq<byte>, start: nat)
    requires start < |src|
    ensures RawLine(src, start).offset == start && RawLine(src, start).indent == 0
    ensures Width(SetEof(RawLine(src, start), None)) > 0
  {
    RawLineSpells(src, start);
  }

  lemma LineToksStep(offset: nat, view: View, pos: nat)
    requires pos < Width(view)
    ensures LineToks(offset, view, pos)[0] == Tok(ByteAt(view, pos), offset + pos)
    ensures LineToks(offset, view, pos)[1..] == LineToks(offset, view, pos + 1)
  {}

  /** A view that does not end in a newline is the last there is. */
  lemma UnterminatedIsLast(core: Core, lines: seq<Core>, bound: Option<nat>)
    requires InOrder([core] + lines) && !SetEof(core, bound).terminated
    ensures lines == [] || Beyond(lines[0], bound)
  {
    if lines != [] {
      assert Before(([core] + lines)[0], ([core] + lines)[1]);
    }
  }

  /** One byte on. */
  lemma StreamStep(line: Line, lines: seq<Core>, bound: Option<nat>)
    requires line.pos < Width(line.view)
    ensures var s := Stream(line, lines, bound);
            && s != [] && s[0] == Tok(ByteAt(line.view, line.pos), line.core.offset + line.pos)
            && s[1..] == Stream(line.(pos := line.pos + 1), lines, bound)
  {
    LineToksStep(line.core.offset, line.view, line.pos);
    var here, rest := LineToks(line.core.offset, line.view, line.pos), Joined(lines, bound);
    assert (here + rest)[1..] == here[1..] + rest;
  }

  /** Two bytes on, from a byte that is not a newline: the line's end, if it comes first, is the end of everything. */
  lemma StreamSkip(line: Line, lines: seq<Core>, bound: Option<nat>)
    requires line.pos < |line.view.line| && InOrder([line.core] + lines) && line.view == SetEof(line.core, bound)
    ensures var s := Stream(line, lines, bound);
            (if |s| >= 2 then s[2..] else []) == Stream(line.(pos := line.pos + 2), lines, bound)
  {
    hide InOrder, SetEof;
    StreamStep(line, lines, bound);
    var next := line.(pos := line.pos + 1);
    if next.pos < Width(next.view) {
      StreamStep(next, lines, bound);
      assert Stream(line, lines, bound)[2..] == Stream(line, lines, bound)[1..][1..];
    } else {
      UnterminatedIsLast(line.core, lines, bound);
    }
  }

  /** On to the next line. */
  lemma StreamCross(line: Line, lines: seq<Core>, bound: Option<nat>, number: nat)
    requires line.pos >= Width(line.view)
    ensures lines == [] || Beyond(lines[0], bound) ==> Stream(line, lines, bound) == []
    ensures lines != [] && !Beyond(lines[0], bound) ==>
              Stream(line, lines, bound) == Stream(Delivered(lines[0], number, bound), lines[1..], bound)
  {
    assert [] + Joined(lines, bound) == Joined(lines, bound);
  }

  // ── The scan ────────────────────────────────────────────────────

  /** A delimiter longer than a byte holds no newline. */
  predicate OnOneLine(d: Delims) {
    AreDelims(d) && (|d.close| > 1 ==> Newline !in d.close)
  }

  datatype Close = Close(bound: nat, parent: Line)

  ghost predicate ScanOk(lx: Lexer, entry: Line, ahead: seq<Core>, bound: Option<nat>)
    reads lx
  {
    && lx.Scanning(entry, ahead) && TopBound(lx.stack) == bound && lx.line.Some?
    && lx.line.value.view == SetEof(lx.line.value.core, bound)
    && InOrder([lx.line.value.core] + lx.Future())
  }

  /** Move the cursor of the current line. */
  method Forward(lx: Lexer, n: nat, ghost entry: Line, ghost ahead: seq<Core>, ghost bound: Option<nat>)
    requires ScanOk(lx, entry, ahead, bound)
    modifies lx`line
    ensures ScanOk(lx, entry, ahead, bound) && lx.Future() == old(lx.Future())
    ensures lx.line.value == old(lx.line).value.(pos := old(lx.line).value.pos + n)
  {
    hide InOrder, RawLines, Partway, SetEof;
    PartwayForward(lx.captured, lx.line.value, n, lx.Future(), bound, entry, ahead);
    lx.line := Some(lx.line.value.(pos := lx.line.value.pos + n));
  }

  /** Cross to the next line. */
  method Cross(lx: Lexer, ghost entry: Line, ghost ahead: seq<Core>, ghost bound: Option<nat>) returns (delivered: bool)
    requires ScanOk(lx, entry, ahead, bound) && lx.line.value.pos >= Width(lx.line.value.view)
    modifies lx`cursor, lx`lineNumber, lx`line, lx`queued, lx`captured, lx`endOffset, lx`endPos
    ensures ScanOk(lx, entry, ahead, bound)
    ensures !delivered ==> Stream(old(lx.line).value, old(lx.Future()), bound) == []
    ensures delivered ==>
              && Stream(lx.line.value, lx.Future(), bound) == Stream(old(lx.line).value, old(lx.Future()), bound)
              && |lx.Future()| < |old(lx.Future())| && old(lx.line).value.view.terminated
  {
    hide InOrder, RawLines, Partway, SetEof, LineToks, Stream, Joined, ByteAt;
    ghost var seen, future, before := lx.Seen(), lx.Future(), lx.line.value;
    PartwayInOrder(lx.captured, lx.line, future, bound, entry, ahead);
    StreamCross(before, future, bound, lx.lineNumber);
    if !before.view.terminated {
      UnterminatedIsLast(before.core, future, bound);
    }
    delivered := lx.NextLine();
    if delivered {
      PartwayNext(seen, future, bound, entry, ahead, lx.line.value);
      assert [future[0]] + future[1..] == future;
      InOrderTail([before.core], future);
    }
  }

  /** The byte walk, line by line. */
  method ScanToClose(lx: Lexer, d: Delims, ghost entry: Line, ghost ahead: seq<Core>, ghost bound: Option<nat>)
    returns (r: Option<Close>)
    requires OnOneLine(d) && ScanOk(lx, entry, ahead, bound)
    modifies lx`cursor, lx`lineNumber, lx`line, lx`queued, lx`captured, lx`endOffset, lx`endPos
    ensures lx.Scanning(entry, ahead)
    ensures var end := Walk(Stream(old(lx.line).value, old(lx.Future()), bound), d, 0, 0, 0);
            && (r.None? <==> end.None?)
            && (r.Some? ==>
                  && r.value.bound + |d.close| == end.value + 1
                  && r.value.parent.core.offset + r.value.parent.pos == end.value + 1)
  {
    hide InOrder, RawLines, Partway, SetEof, Stream;
    var i, j, depth := 0, 0, 0;
    ghost var whole := Walk(Stream(lx.line.value, lx.Future(), bound), d, 0, 0, 0);
    while true
      invariant ScanOk(lx, entry, ahead, bound)
      invariant 0 <= i < |d.close| && 0 <= j && 0 <= depth
      invariant i <= lx.line.value.pos && (i > 0 ==> lx.line.value.pos <= |lx.line.value.view.line|)
      invariant Walk(Stream(lx.line.value, lx.Future(), bound), d, i, j, depth) == whole
      decreases |lx.Future()|, Width(lx.line.value.view) - lx.line.value.pos
    {
      var line := lx.line.value;
      ghost var future := lx.Future();
      if line.pos >= Width(line.view) {
        var delivered := Cross(lx, entry, ahead, bound);
        if !delivered {
          return None;
        }
        continue;
      }
      StreamStep(line, future, bound);
      var b := ByteAt(line.view, line.pos);
      if b == Backslash && Escapes(d) {
        StreamSkip(line, future, bound);
        Forward(lx, 2, entry, ahead, bound);
        i, j := 0, 0;
        continue;
      }
      i := Matched(d.close, i, b);
      j := MatchedOpen(d, j, b);
      if i == |d.close| {
        if depth == 0 {
          return Some(Close(line.core.offset + line.pos - (|d.close| - 1), line.(pos := line.pos + 1)));
        }
        depth := depth - 1;
        i, j := 0, 0;
      } else if d.open.Some? && j == |d.open.value| {
        depth := depth + 1;
        i, j := 0, 0;
      }
      Forward(lx, 1, entry, ahead, bound);
    }
  }

  // ── Beginning the body ──────────────────────────────────────────

  /** Scan to the close, suspend the parent past it, and narrow the body's first line to its bound. */
  method StartDelimitedBody(lx: Lexer, d: Delims) returns (found: bool)
    requires lx.Settled() && lx.line.Some? && OnOneLine(d)
    modifies lx
    ensures lx.Settled() && lx.Future() == old(lx.Future())
    ensures var end := Walk(Stream(old(lx.line).value, old(lx.Future()), TopBound(old(lx.stack))), d, 0, 0, 0);
            && found == end.Some?
            && (!found ==> lx.line == old(lx.line) && lx.stack == old(lx.stack))
            && (found ==>
                  && |lx.stack| == |old(lx.stack)| + 1 && lx.stack[..|old(lx.stack)|] == old(lx.stack)
                  && var top := lx.stack[|old(lx.stack)|];
                     && top.bound.Some? && top.bound.value + |d.close| == end.value + 1
                     && top.line.Some? && top.line.value.core.offset + top.line.value.pos == end.value + 1
                     && lx.line == Some(old(lx.line).value.(view := SetEof(old(lx.line).value.core, top.bound))))
  {
    hide InOrder, RawLines, Partway, SetEof, Walk, Stream;
    ghost var entry, ahead, bound := lx.line.value, lx.Future(), TopBound(lx.stack);
    var guard := lx.BeginLookahead();
    var close := ScanToClose(lx, d, entry, ahead, bound);
    lx.EndLookahead(guard, entry, ahead);
    found := close.Some?;
    if found {
      lx.stack := lx.stack + [Frame(Some(close.value.bound), Some(close.value.parent))];
      lx.line := Some(lx.line.value.(view := SetEof(lx.line.value.core, Some(close.value.bound))));
    }
  }

  /**
    * Over text of whole characters the frame ends at the first close that is neither escaped nor nested, and the body is
    * unterminated exactly when there is none.
    */
  method StartBodyOfCharacters(lx: Lexer, d: Delims, ghost units: seq<Unit>) returns (found: bool)
    requires lx.Settled() && lx.line.Some? && OnOneLine(d)
    requires AllDistinct(units, d) && Flatten(units) == Stream(lx.line.value, lx.Future(), TopBound(lx.stack))
    modifies lx
    ensures lx.Settled() && lx.Future() == old(lx.Future())
    ensures found == FindClose(units, d, 0).Some?
    ensures found ==> lx.stack != [] && TopBound(lx.stack) == FindClose(units, d, 0)
    ensures !found ==> forall k :: 0 <= k < |units| ==> !EndsBody(units, d, k)
    ensures found ==> exists k: nat :: IsFirstEnd(units, d, k) && TopBound(lx.stack) == Some(units[k][0].at)
  {
    hide InOrder, RawLines, SetEof, Walk, Stream, FindClose, AllDistinct, EndsBody, IsFirstEnd;
    WalkFindsClose(units, d, 0);
    ghost var begin := FindClose(units, d, 0);
    FindCloseIff(units, d, if begin.Some? then begin.value else 0);
    found := StartDelimitedBody(lx, d);
  }
}
