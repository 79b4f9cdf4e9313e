/**
  * Physical lines of Perl source: splitting on newlines with CRLF normalization, and the end-of-file bound that narrows
  * the view of a line.
  */
module SourceLines {
  import opened Wrappers

  const Newline: byte := 0x0A

  const Return: byte := 0x0D

  /** A physical line: where it starts, its content without the ending, whether it has one, and its required indent. */
  datatype Core = Core(offset: nat, full: seq<byte>, newline: bool, indent: nat)

  // ── Narrowing to a bound ────────────────────────────────────────

  /** What is delivered of a line. */
  datatype View = View(line: seq<byte>, terminated: bool)

  /** The offset one past the line, its newline included. */
  function Extent(core: Core): nat {
    core.offset + |core.full| + if core.newline then 1 else 0
  }

  function SetEof(core: Core, bound: Option<nat>): View {
    match bound
    case None => View(core.full, core.newline)
    case Some(g) =>
      if g < core.offset then View([], false)
      else if g < Extent(core) then View(core.full[..g - core.offset], false)
      else View(core.full, core.newline)
  }

  /** Every position the view delivers, its newline included, lies before the bound, and none before it is withheld. */
  lemma SetEofDelivers(core: Core, bound: nat, at: nat)
    requires core.offset <= at < Extent(core)
    ensures var v := SetEof(core, Some(bound));
            at < core.offset + |v.line| + (if v.terminated then 1 else 0) <==> at < bound
    ensures SetEof(core, Some(bound)).line <= core.full
  {}

  // ── Reading raw lines ───────────────────────────────────────────

  /** The first newline at or after `from`, or the end. */
  function NewlineAt(src: seq<byte>, from: nat): (r: nat)
    requires from <= |src|
    ensures from <= r <= |src| && (r < |src| ==> src[r] == Newline)
    ensures forall i :: from <= i < r ==> src[i] != Newline
    decreases |src| - from
  {
    if from == |src| || src[from] == Newline then from else NewlineAt(src, from + 1)
  }

  function ContentEnd(src: seq<byte>, start: nat): (r: nat)
    requires start <= |src|
    ensures start <= r <= NewlineAt(src, start)
  {
    var end := NewlineAt(src, start);
    if end < |src| && end > start && src[end - 1] == Return then end - 1 else end
  }

  function RawLine(src: seq<byte>, start: nat): Core
    requires start < |src|
  {
    Core(start, src[start..ContentEnd(src, start)], NewlineAt(src, start) < |src|, 0)
  }

  function NextStart(src: seq<byte>, start: nat): (r: nat)
    requires start < |src|
    ensures start < r <= |src|
  {
    var end := NewlineAt(src, start);
    if end < |src| then end + 1 else end
  }

  function RawLines(src: seq<byte>, cursor: nat): seq<Core>
    decreases if cursor < |src| then |src| - cursor else 0
  {
    if cursor >= |src| then [] else [RawLine(src, cursor)] + RawLines(src, NextStart(src, cursor))
  }

  /** A line as it stood in the source, ending included. */
  function Spelling(src: seq<byte>, core: Core): seq<byte> {
    var crlf := core.newline && core.offset + |core.full| < |src| && src[core.offset + |core.full|] == Return;
    core.full + (if crlf then [Return] else []) + if core.newline then [Newline] else []
  }

  /** Only the ending is lost: a line and its ending are the bytes it was read from, and the ending is one of three. */
  lemma RawLineSpells(src: seq<byte>, start: nat)
    requires start < |src|
    ensures src[start..NextStart(src, start)] == Spelling(src, RawLine(src, start))
    ensures forall i :: 0 <= i < |RawLine(src, start).full| ==> RawLine(src, start).full[i] != Newline
    ensures !RawLine(src, start).newline ==> NextStart(src, start) == |src|
    ensures var core, next := RawLine(src, start), NextStart(src, start);
            core.full == src[start..if !core.newline then next
                                    else if next >= start + 2 && src[next - 2] == Return then next - 2 else next - 1]
  {
    var core, end := RawLine(src, start), NewlineAt(src, start);
    forall i | 0 <= i < |core.full|
      ensures core.full[i] != Newline
    {
      assert core.full[i] == src[start + i];
    }
    if end < |src| {
      assert src[start..end + 1] == src[start..end] + [Newline];
      if ContentEnd(src, start) < end {
        assert src[start..end] == src[start..end - 1] + [Return];
      }
    }
  }

  function Spellings(src: seq<byte>, lines: seq<Core>): seq<byte> {
    if lines == [] then [] else Spelling(src, lines[0]) + Spellings(src, lines[1..])
  }

  /** The lines and their endings tile the source from the cursor on. */
  lemma {:induction false} RawLinesTile(src: seq<byte>, cursor: nat)
    requires cursor <= |src|
    ensures Spellings(src, RawLines(src, cursor)) == src[cursor..]
    decreases |src| - cursor
  {
    hide Spelling, RawLine, NextStart;
    if cursor < |src| {
      var next := NextStart(src, cursor);
      RawLineSpells(src, cursor);
      RawLinesTile(src, next);
      assert RawLines(src, cursor)[1..] == RawLines(src, next);
      assert src[cursor..] == src[cursor..next] + src[next..];
    }
  }

  // ── Order ───────────────────────────────────────────────────────

  /** One line wholly before another, a newline between them. */
  predicate Before(a: Core, b: Core) {
    a.newline && a.offset < b.offset && Extent(a) <= b.offset
  }

  /** Lines in source order. */
  ghost predicate InOrder(lines: seq<Core>) {
    forall i, j :: 0 <= i < j < |lines| ==> Before(lines[i], lines[j])
  }

  lemma {:induction false} RawLinesInOrder(src: seq<byte>, cursor: nat)
    ensures InOrder(RawLines(src, cursor))
    ensures forall i :: 0 <= i < |RawLines(src, cursor)| ==> cursor <= RawLines(src, cursor)[i].offset
    decreases if cursor < |src| then |src| - cursor else 0
  {
    if cursor < |src| {
      var next := NextStart(src, cursor);
      RawLinesInOrder(src, next);
      assert next < |src| ==> RawLine(src, cursor).newline && Extent(RawLine(src, cursor)) <= next;
    }
  }

  /** Read a raw line from the buffer, watching for the newline byte by byte. */
  method ReadRawLine(src: seq<byte>, cursor: nat) returns (line: Option<Core>, next: nat)
    ensures line.None? <==> cursor >= |src|
    ensures line.None? ==> next == cursor
    ensures line.Some? ==> line.value == RawLine(src, cursor) && next == NextStart(src, cursor)
  {
    if cursor >= |src| {
      return None, cursor;
    }
    var end := cursor;
    while end < |src| && src[end] != Newline
      invariant cursor <= end <= |src| && NewlineAt(src, cursor) == NewlineAt(src, end)
    {
      end := end + 1;
    }
    var terminated := end < |src|;
    var contentEnd := if terminated && end > cursor && src[end - 1] == Return then end - 1 else end;
    line := Some(Core(cursor, src[cursor..contentEnd], terminated, 0));
    next := if terminated then end + 1 else end;
  }
}
