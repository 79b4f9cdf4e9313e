/**
  * Line delivery with rewindable lookahead.  A scan runs on the ordinary line interface; when its guard drops, the
  * lexer is back on the line where the scan began and everything previewed is queued to be delivered again.
  */
module Lookahead {
  import opened SourceLines
  import opened Wrappers

  /** A delivered line: its physical core, the number stamped at delivery, the cursor, and the view its bound leaves. */
  datatype Line = Line(core: Core, number: nat, pos: nat, view: View)

  datatype Frame = Frame(bound: Option<nat>, line: Option<Line>)

  /** What a lookahead guard carries to its drop. */
  datatype Guard = Guard(entryPos: nat, saved: Option<Option<nat>>)

  function Cores(lines: seq<Line>): (r: seq<Core>)
    ensures |r| == |lines| && forall i :: 0 <= i < |lines| ==> r[i] == lines[i].core
  {
    seq(|lines|, i requires 0 <= i < |lines| => lines[i].core)
  }

  function Present(line: Option<Line>): seq<Line> {
    if line.Some? then [line.value] else []
  }

  function PresentCore(line: Option<Line>): seq<Core> {
    if line.Some? then [line.value.core] else []
  }

  /** A line as it is put back for another delivery: from its required indent. */
  function Rewound(line: Line): Line {
    line.(pos := line.core.indent)
  }

  function AllRewound(lines: seq<Line>): (r: seq<Line>)
    ensures |r| == |lines| && Cores(r) == Cores(lines)
    ensures forall i :: 0 <= i < |r| ==> r[i] == Rewound(lines[i])
  {
    seq(|lines|, i requires 0 <= i < |lines| => Rewound(lines[i]))
  }

  function TopBound(stack: seq<Frame>): Option<nat> {
    if stack == [] then None else stack[|stack| - 1].bound
  }

  /** The line `next_line` delivers from a core: stamped, rewound and narrowed. */
  function Delivered(core: Core, number: nat, bound: Option<nat>): Line {
    Line(core, number, core.indent, SetEof(core, bound))
  }

  predicate Beyond(core: Core, bound: Option<nat>) {
    bound.Some? && core.offset > bound.value
  }

  class Lexer {
    const src: seq<byte>
    var cursor: nat
    var lineNumber: nat
    var line: Option<Line>
    var queued: seq<Line>
    var mode: bool
    var captured: seq<Line>
    var endOffset: Option<nat>
    var endPos: Option<nat>
    var stack: seq<Frame>

    /** Every line still to be delivered, queued or unread. */
    ghost function Future(): seq<Core>
      reads this
    {
      Cores(queued) + RawLines(src, cursor)
    }

    ghost predicate Valid()
      reads this
    {
      && InOrder(PresentCore(line) + Future())
      && (forall i :: 0 <= i < |queued| ==> queued[i].pos == queued[i].core.indent)
      && (!mode ==> captured == [])
    }

    /** Outside a scan the current line is narrowed to the top frame's bound. */
    ghost predicate Settled()
      reads this
    {
      Valid() && !mode && (line.Some? ==> line.value.view == SetEof(line.value.core, TopBound(stack)))
    }

    /** The next line to be delivered, and whether the bound withholds it. */
    ghost function Upcoming(): Option<Core>
      reads this
    {
      if Future() == [] || Beyond(Future()[0], TopBound(stack)) then None else Some(Future()[0])
    }

    // ── Delivery ──────────────────────────────────────────────────

    /** Make a line current.  A lookahead captures the line it displaces; otherwise the consume window may close. */
    method InstallLine(l: Line)
      modifies this`line, this`captured, this`endOffset, this`endPos
      ensures line == Some(l.(view := SetEof(l.core, TopBound(stack))))
      ensures captured == if mode then old(captured) + Present(old(line)) else old(captured)
      ensures endOffset == if !mode && old(endOffset) == Some(l.core.offset) then None else old(endOffset)
      ensures endPos == if !mode && old(endOffset).None? then None else old(endPos)
    {
      if mode && line.Some? {
        captured := captured + [line.value];
      }
      line := Some(l.(view := SetEof(l.core, TopBound(stack))));
      if !mode {
        match endOffset
        case Some(off) =>
          if l.core.offset == off {
            endOffset := None;
          }
        case None => endPos := None;
      }
    }

    /** Take the next line off the replay queue, or read it. */
    method TakeLine() returns (next: Option<Line>)
      requires forall i :: 0 <= i < |queued| ==> queued[i].pos == queued[i].core.indent
      modifies this`cursor, this`queued
      ensures forall i :: 0 <= i < |queued| ==> queued[i].pos == queued[i].core.indent
      ensures next.None? ==> Future() == old(Future()) == []
      ensures next.Some? ==> old(Future()) == [next.value.core] + Future() && next.value.pos == next.value.core.indent
    {
      if queued != [] {
        next := Some(queued[0]);
        assert Cores(queued) == [queued[0].core] + Cores(queued[1..]);
        queued := queued[1..];
      } else {
        var raw, after := ReadRawLine(src, cursor);
        if raw.None? {
          return None;
        }
        cursor := after;
        next := Some(Line(raw.value, 0, 0, View(raw.value.full, raw.value.newline)));
      }
    }

    /** Deliver the next line, or nothing where the bound or the source ends; then the current line stays. */
    method NextLine() returns (delivered: bool)
      requires Valid()
      modifies this`cursor, this`lineNumber, this`line, this`queued, this`captured, this`endOffset, this`endPos
      ensures Valid()
      ensures delivered == old(Upcoming()).Some?
      ensures !delivered ==> line == old(line) && Future() == old(Future()) && captured == old(captured)
      ensures !delivered ==> lineNumber == old(lineNumber) && endOffset == old(endOffset) && endPos == old(endPos)
      ensures delivered ==> line == Some(Delivered(old(Upcoming()).value, old(lineNumber), TopBound(stack)))
      ensures delivered ==> Future() == old(Future())[1..] && lineNumber == old(lineNumber) + 1
      ensures delivered ==> captured == if mode then old(captured) + Present(old(line)) else []
      ensures delivered ==> endOffset == if !mode && old(endOffset) == Some(old(Upcoming()).value.offset) then None else old(endOffset)
      ensures delivered ==> endPos == if !mode && old(endOffset).None? then None else old(endPos)
    {
      hide InOrder, RawLines;
      var bound := TopBound(stack);
      var nextStart := if queued != [] then queued[0].core.offset else cursor;
      FrontStarts();
      if bound.Some? && nextStart > bound.value {
        return false;
      }
      var next := TakeLine();
      if next.None? {
        return false;
      }
      InOrderTail(PresentCore(line), old(Future()));
      assert old(Future())[1..] == Future();
      lineNumber := lineNumber + 1;
      InstallLine(next.value.(number := lineNumber - 1));
      delivered := true;
    }

    /** Where the next line would start is known before it is taken. */
    lemma FrontStarts()
      ensures Future() != [] ==> Future()[0].offset == if queued != [] then queued[0].core.offset else cursor
    {}

    // ── Lookahead ─────────────────────────────────────────────────

    /** The lines a scan has had current, in order. */
    ghost function Seen(): seq<Line>
      reads this
    {
      captured + Present(line)
    }

    /** A scan begun on `entry` with `ahead` to come. */
    ghost predicate Scanning(entry: Line, ahead: seq<Core>)
      reads this
    {
      && mode
      && (forall i :: 0 <= i < |queued| ==> queued[i].pos == queued[i].core.indent)
      && Partway(Seen(), Future(), TopBound(stack), entry, ahead)
    }

    method BeginLookahead() returns (guard: Guard)
      requires Settled() && line.Some?
      modifies this`mode, this`endOffset, this`endPos
      ensures Scanning(line.value, Future()) && captured == []
      ensures guard == Guard(line.value.pos, None)
    {
      hide InOrder, RawLines, Partway;
      ScanBegins(line.value, Future(), TopBound(stack));
      assert [] + [line.value] == [line.value];
      endOffset, endPos := None, None;
      mode := true;
      guard := Guard(line.value.pos, None);
    }

    /** As `BeginLookahead`, the top frame's bound lent to a ceiling until the guard drops. */
    method BeginLookaheadTo(ceiling: Option<nat>) returns (guard: Guard)
      requires Settled() && line.Some?
      modifies this`mode, this`endOffset, this`endPos, this`stack
      ensures Scanning(line.value, Future()) && captured == []
      ensures guard == Guard(line.value.pos, if old(stack) == [] then None else Some(TopBound(old(stack))))
      ensures Restored(stack, guard) == old(stack) && TopBound(stack) == if old(stack) == [] then None else ceiling
    {
      hide InOrder, RawLines, Partway;
      ScanBegins(line.value, Future(), if stack == [] then None else ceiling);
      assert [] + [line.value] == [line.value];
      endOffset, endPos := None, None;
      mode := true;
      guard := Guard(line.value.pos, if stack == [] then None else Some(TopBound(stack)));
      if stack != [] {
        var top := |stack| - 1;
        stack := stack[top := stack[top].(bound := ceiling)];
      }
    }

    /** Queue the captured lines for another delivery, ahead of what was queued already. */
    method Replay()
      requires forall i :: 0 <= i < |queued| ==> queued[i].pos == queued[i].core.indent
      modifies this`queued, this`captured
      ensures captured == [] && Future() == Cores(old(captured)) + old(Future())
      ensures forall i :: 0 <= i < |queued| ==> queued[i].pos == queued[i].core.indent
    {
      hide RawLines;
      AllRewoundThen(captured, queued);
      JoinCores(Cores(captured), Cores(queued), RawLines(src, cursor));
      queued := AllRewound(captured) + queued;
      captured := [];
    }

    /** The line a scan began on: the first captured, or the current one while nothing is. */
    method TakeBack() returns (back: Line)
      requires Seen() != []
      modifies this`captured, this`line
      ensures back == old(Seen())[0] && captured + Present(line) == old(Seen())[1..]
    {
      ghost var seen := Seen();
      if captured != [] {
        back := captured[0];
        captured := captured[1..];
      } else {
        back := line.value;
        line := None;
      }
      assert captured + Present(line) == seen[1..];
    }

    /** The borrowed bound given back, the entry line current at its cursor, and the lines seen after it captured. */
    method Rewind(guard: Guard)
      requires mode && Seen() != [] && (guard.saved.Some? ==> stack != [])
      modifies this`stack, this`captured, this`line, this`endOffset, this`endPos
      ensures stack == Restored(old(stack), guard) && captured == old(Seen())[1..]
      ensures var back := old(Seen())[0];
              line == Some(back.(pos := guard.entryPos, view := SetEof(back.core, TopBound(stack))))
    {
      hide SetEof;
      ghost var seen := Seen();
      stack := Restored(stack, guard);
      var back := TakeBack();
      InstallLine(back.(pos := guard.entryPos));
      assert captured == seen[1..];
    }

    /** The guard's drop. */
    method EndLookahead(guard: Guard, ghost entry: Line, ghost ahead: seq<Core>)
      requires Scanning(entry, ahead) && (guard.saved.Some? ==> stack != [])
      modifies this
      ensures Settled() && stack == Restored(old(stack), guard)
      ensures line == Some(Line(entry.core, entry.number, guard.entryPos, SetEof(entry.core, TopBound(stack))))
      ensures Future() == ahead && lineNumber == entry.number + 1 && cursor == old(cursor)
      ensures endOffset == if old(captured) != [] && old(line).Some? then Some(old(line).value.core.offset) else None
      ensures endPos == Some(if old(line).Some? then old(line).value.pos else 0)
    {
      hide InOrder, RawLines, Partway, SetEof;
      ghost var seen, future := Seen(), Future();
      PartwayEnds(seen, future, TopBound(stack), entry, ahead);
      var at := line;
      var displaced := captured != [];
      Rewind(guard);
      Replay();
      endOffset := if displaced && at.Some? then Some(at.value.core.offset) else None;
      endPos := Some(if at.Some? then at.value.pos else 0);
      lineNumber := line.value.number + 1;
      mode := false;
    }

    // ── Any scan at all ───────────────────────────────────────────

    method ScanNext(ghost entry: Line, ghost ahead: seq<Core>)
      requires Scanning(entry, ahead)
      modifies this`cursor, this`lineNumber, this`line, this`queued, this`captured, this`endOffset, this`endPos
      ensures Scanning(entry, ahead) && (old(line).Some? ==> line.Some?)
    {
      hide InOrder, RawLines, Partway, SetEof;
      ghost var seen, future := Seen(), Future();
      PartwayInOrder(captured, line, future, TopBound(stack), entry, ahead);
      var delivered := NextLine();
      if delivered {
        PartwayNext(seen, future, TopBound(stack), entry, ahead, line.value);
      }
    }

    method ScanForward(n: nat, ghost entry: Line, ghost ahead: seq<Core>)
      requires Scanning(entry, ahead)
      modifies this`line
      ensures Scanning(entry, ahead) && (old(line).Some? ==> line.Some?)
    {
      hide InOrder, RawLines, Partway;
      if line.Some? {
        PartwayForward(captured, line.value, n, Future(), TopBound(stack), entry, ahead);
        line := Some(line.value.(pos := line.value.pos + n));
      }
    }

    method Scan(moves: seq<Move>, ghost entry: Line, ghost ahead: seq<Core>)
      requires Scanning(entry, ahead)
      modifies this`cursor, this`lineNumber, this`line, this`queued, this`captured, this`endOffset, this`endPos
      ensures Scanning(entry, ahead) && (old(line).Some? ==> line.Some?)
    {
      for i := 0 to |moves|
        invariant Scanning(entry, ahead) && (old(line).Some? ==> line.Some?)
      {
        match moves[i]
        case Next => ScanNext(entry, ahead);
        case Forward(n) => ScanForward(n, entry, ahead);
      }
    }

    /**
      * Whatever a lookahead scans, it leaves no trace: the current line, the lines to come with their offsets, contents
      * and indents, and the frames are what they were.  The numbers to come are too, where the counter stood one past the
      * current line's.
      */
    method Preview(moves: seq<Move>) returns (end: Line, ghost left: seq<Core>)
      requires Settled() && line.Some?
      modifies this
      ensures Settled() && stack == old(stack)
      ensures line == old(line) && Future() == old(Future()) && lineNumber == old(line).value.number + 1
      ensures Reached(old(line).value, old(Future()), TopBound(stack), end, left)
      ensures endPos == Some(end.pos)
      ensures endOffset == if |left| == |old(Future())| then None else Some(end.core.offset)
    {
      hide InOrder, RawLines, Partway, SetEof;
      ghost var entry, ahead := line.value, Future();
      var guard := BeginLookahead();
      Scan(moves, entry, ahead);
      end := line.value;
      left := Future();
      PartwayReached(captured, end, left, TopBound(stack), entry, ahead);
      EndLookahead(guard, entry, ahead);
    }

    /** Deliver `n` lines, to the one the last lookahead ended on. */
    method DeliverToEnd(ghost n: nat) returns (ok: bool)
      requires Settled() && n <= |Future()| && (n == 0 ==> line.Some?) && endPos.Some?
      requires forall i :: 0 <= i < n ==> !Beyond(Future()[i], TopBound(stack))
      requires endOffset == if n == 0 then None else Some(Future()[n - 1].offset)
      modifies this`cursor, this`lineNumber, this`line, this`queued, this`captured, this`endOffset, this`endPos
      ensures ok && Settled() && Future() == old(Future())[n..] && line.Some?
      ensures endOffset.None? && endPos == old(endPos)
      ensures if n == 0 then line == old(line)
              else line.value.core == old(Future())[n - 1] && line.value.pos == line.value.core.indent
    {
      hide RawLines, SetEof, InOrder;
      ghost var m: nat := n;
      while endOffset.Some?
        invariant Settled() && m <= n && m <= |Future()| && (m == 0 ==> line.Some?) && endPos == old(endPos)
        invariant forall i :: 0 <= i < m ==> !Beyond(Future()[i], TopBound(stack))
        invariant endOffset == if m == 0 then None else Some(Future()[m - 1].offset)
        invariant Future()[m..] == old(Future())[n..]
        invariant if m > 0 then Future()[m - 1] == old(Future())[n - 1]
                  else if n == 0 then line == old(line)
                  else line.value.core == old(Future())[n - 1] && line.value.pos == line.value.core.indent
        decreases m
      {
        ghost var ahead := Future();
        InOrderTail(PresentCore(line), ahead);
        StillToCome(ahead, m);
        var delivered := NextLine();
        if !delivered {
          return false;
        }
        m := m - 1;
      }
      assert Future()[0..] == Future();
      ok := true;
    }

    /** Commit to where the last plain lookahead ended: on its line, at its cursor, with the same lines to come. */
    method ConsumeLookahead(ghost end: Line, ghost left: seq<Core>) returns (ok: bool)
      requires Settled() && line.Some? && Reached(line.value, Future(), TopBound(stack), end, left)
      requires endPos == Some(end.pos)
      requires endOffset == if |left| == |Future()| then None else Some(end.core.offset)
      modifies this`cursor, this`lineNumber, this`line, this`queued, this`captured, this`endOffset, this`endPos
      ensures ok && Settled() && Future() == left
      ensures line.Some? && line.value.core == end.core && line.value.pos == end.pos
      ensures endOffset.None? && endPos.None?
    {
      hide RawLines, SetEof, InOrder;
      ok := DeliverToEnd(|Future()| - |left|);
      if endPos.Some? && endPos.value > line.value.pos {
        line := Some(line.value.(pos := endPos.value));
      }
      endPos := None;
    }
  }

  /**
    * A scan has moved lines from those ahead to those seen and lost none; every line it reached lies within its bound, and
    * no cursor has fallen behind its line's indent.
    */
  ghost predicate Partway(seen: seq<Line>, future: seq<Core>, bound: Option<nat>, entry: Line, ahead: seq<Core>) {
    && InOrder([entry.core] + ahead)
    && seen != [] && seen[0].core == entry.core && seen[0].number == entry.number && seen[0].pos >= entry.pos
    && Cores(seen) + future == [entry.core] + ahead
    && forall i :: 1 <= i < |seen| ==> !Beyond(seen[i].core, bound) && seen[i].pos >= seen[i].core.indent
  }

  lemma ScanBegins(entry: Line, ahead: seq<Core>, bound: Option<nat>)
    requires InOrder([entry.core] + ahead)
    ensures Partway([entry], ahead, bound, entry, ahead)
  {}

  lemma PartwayNext(seen: seq<Line>, future: seq<Core>, bound: Option<nat>, entry: Line, ahead: seq<Core>, l: Line)
    requires Partway(seen, future, bound, entry, ahead)
    requires future != [] && l.core == future[0] && !Beyond(l.core, bound) && l.pos >= l.core.indent
    ensures Partway(seen + [l], future[1..], bound, entry, ahead)
  {
    hide InOrder;
    CoresJoin(seen, [l]);
    assert [l.core] + future[1..] == future;
    JoinCores(Cores(seen), [l.core], future[1..]);
  }

  lemma PartwayForward(captured: seq<Line>, l: Line, n: nat, future: seq<Core>, bound: Option<nat>, entry: Line,
                       ahead: seq<Core>)
    requires Partway(captured + [l], future, bound, entry, ahead)
    ensures Partway(captured + [l.(pos := l.pos + n)], future, bound, entry, ahead)
  {
    hide InOrder;
    CoresJoin(captured, [l]);
    CoresJoin(captured, [l.(pos := l.pos + n)]);
    var seen, moved := captured + [l], captured + [l.(pos := l.pos + n)];
    assert forall i :: 0 <= i < |captured| ==> moved[i] == seen[i];
    assert moved[|captured|].core == seen[|captured|].core;
    assert Cores([l]) == [l.core] == Cores([l.(pos := l.pos + n)]);
  }

  lemma PartwayInOrder(captured: seq<Line>, line: Option<Line>, future: seq<Core>, bound: Option<nat>, entry: Line,
                       ahead: seq<Core>)
    requires Partway(captured + Present(line), future, bound, entry, ahead)
    ensures InOrder(PresentCore(line) + future)
  {
    hide InOrder;
    CoresJoin(captured, Present(line));
    assert Cores(Present(line)) == PresentCore(line);
    JoinCores(Cores(captured), PresentCore(line), future);
    InOrderTail(Cores(captured), PresentCore(line) + future);
  }

  lemma PartwayEnds(seen: seq<Line>, future: seq<Core>, bound: Option<nat>, entry: Line, ahead: seq<Core>)
    requires Partway(seen, future, bound, entry, ahead)
    ensures seen != [] && seen[0].core == entry.core && seen[0].number == entry.number
    ensures Cores(seen[1..]) + future == ahead && InOrder([entry.core] + ahead)
  {
    hide InOrder;
    assert Cores(seen) == [seen[0].core] + Cores(seen[1..]);
    JoinCores([entry.core], Cores(seen[1..]), future);
    assert ([entry.core] + ahead)[1..] == ahead;
    assert ([entry.core] + (Cores(seen[1..]) + future))[1..] == Cores(seen[1..]) + future;
  }

  /** Where a scan has got to: on `end`, with `left` to come, having passed nothing beyond its bound. */
  ghost predicate Reached(entry: Line, ahead: seq<Core>, bound: Option<nat>, end: Line, left: seq<Core>) {
    && |left| <= |ahead| && left == ahead[|ahead| - |left|..]
    && if |left| == |ahead| then end.core == entry.core && end.pos >= entry.pos
       else
         && end.core == ahead[|ahead| - |left| - 1] && end.pos >= end.core.indent
         && forall i :: 0 <= i < |ahead| - |left| ==> !Beyond(ahead[i], bound)
  }

  lemma PartwayReached(captured: seq<Line>, end: Line, left: seq<Core>, bound: Option<nat>, entry: Line, ahead: seq<Core>)
    requires Partway(captured + [end], left, bound, entry, ahead)
    ensures Reached(entry, ahead, bound, end, left) && |ahead| - |left| == |captured|
  {
    hide InOrder, Cores;
    var seen, n := captured + [end], |captured|;
    PartwayEnds(seen, left, bound, entry, ahead);
    var mid := Cores(seen[1..]);
    assert forall i :: 0 <= i < n ==> mid[i] == seen[i + 1].core;
    Concatenated(mid, left, ahead);
  }

  lemma Concatenated(a: seq<Core>, b: seq<Core>, c: seq<Core>)
    requires a + b == c
    ensures |c| == |a| + |b| && c[|a|..] == b && forall i :: 0 <= i < |a| ==> c[i] == a[i]
  {}

  /** In order, no line before the last of `n` shares its offset. */
  lemma StillToCome(ahead: seq<Core>, n: nat)
    requires InOrder(ahead) && 0 < n <= |ahead|
    ensures ahead[0].offset == ahead[n - 1].offset <==> n == 1
    ensures forall i :: 0 <= i < n - 1 ==> ahead[1..][i] == ahead[i + 1]
    ensures ahead[1..][n - 1..] == ahead[n..]
  {}

  lemma JoinCores(a: seq<Core>, b: seq<Core>, c: seq<Core>)
    ensures (a + b) + c == a + (b + c)
  {}

  datatype Move = Next | Forward(n: nat)

  function Restored(stack: seq<Frame>, guard: Guard): seq<Frame> {
    if guard.saved.Some? && stack != [] then stack[|stack| - 1 := stack[|stack| - 1].(bound := guard.saved.value)] else stack
  }

  lemma CoresJoin(a: seq<Line>, b: seq<Line>)
    ensures Cores(a + b) == Cores(a) + Cores(b)
  {}

  lemma AllRewoundThen(lines: seq<Line>, rest: seq<Line>)
    ensures Cores(AllRewound(lines) + rest) == Cores(lines) + Cores(rest)
  {
    CoresJoin(AllRewound(lines), rest);
  }

  lemma InOrderTail(head: seq<Core>, lines: seq<Core>)
    requires InOrder(head + lines)
    ensures InOrder(lines) && (lines != [] ==> InOrder(lines[1..]))
  {
    var all := head + lines;
    assert forall i :: 0 <= i < |lines| ==> lines[i] == all[|head| + i];
    assert lines != [] ==> forall i :: 0 <= i < |lines| - 1 ==> lines[1..][i] == lines[i + 1];
  }
}
