/**
  * Heredoc delivery.  The body is found by a lookahead under the host's bound, its terminator is dropped, and a frame is
  * pushed that ends where the terminator stood: body first, then the rest of the host, and nothing else is lost.
  */
module Heredoc {
  import opened Lookahead
  import opened SourceLines
  import opened Wrappers

  // ── What a terminator is ────────────────────────────────────────

  predicate IsBlank(b: byte) {
    b == 0x20 || b == 0x09
  }

  function Blanks(s: seq<byte>): (n: nat)
    ensures n <= |s| && (n < |s| ==> !IsBlank(s[n])) && forall i :: 0 <= i < n ==> IsBlank(s[i])
  {
    if s == [] || !IsBlank(s[0]) then 0 else 1 + Blanks(s[1..])
  }

  /** A line's bytes from its cursor on. */
  function Rest(view: View, pos: nat): seq<byte> {
    if pos <= |view.line| then view.line[pos..] else []
  }

  /** The width of a terminator's own indent, on a line that is one. */
  function TerminatorIndent(rest: seq<byte>, tag: seq<byte>, indented: bool): Option<nat> {
    if indented then (if rest[Blanks(rest)..] == tag then Some(Blanks(rest)) else None)
    else if rest == tag then Some(0) else None
  }

  /** As a scan under `bound` sees a line: fresh at its required indent. */
  function Shown(core: Core, bound: Option<nat>): seq<byte> {
    Rest(SetEof(core, bound), core.indent)
  }

  predicate Terminates(core: Core, bound: Option<nat>, tag: seq<byte>, indented: bool) {
    TerminatorIndent(Shown(core, bound), tag, indented).Some?
  }

  /** What a scan sees of a line: its bytes from the required indent on, up to the bound or its end. */
  lemma ShownIs(core: Core, bound: Option<nat>, at: nat)
    requires core.offset + core.indent <= at
    ensures var shown, i := Shown(core, bound), at - core.offset - core.indent;
            && (i < |shown| <==> at < core.offset + |core.full| && (bound.Some? ==> at < bound.value))
            && (i < |shown| ==> shown[i] == core.full[at - core.offset])
  {}

  /** The text is the tag alone, or under `<<~` the tag after blanks, the blanks all before it. */
  ghost predicate SpellsTerminator(text: seq<byte>, tag: seq<byte>, indented: bool, width: nat) {
    && width <= |text| && text[width..] == tag
    && (forall i :: 0 <= i < width ==> IsBlank(text[i]))
    && (if indented then tag != [] ==> !IsBlank(tag[0]) else width == 0)
  }

  /** A line terminates the body exactly when what is shown of it spells the terminator, at one width only. */
  lemma TerminatesIff(core: Core, bound: Option<nat>, tag: seq<byte>, indented: bool)
    ensures var shown := Shown(core, bound);
            && (Terminates(core, bound, tag, indented) <==> exists w: nat :: SpellsTerminator(shown, tag, indented, w))
            && (forall w: nat :: SpellsTerminator(shown, tag, indented, w) ==> TerminatorIndent(shown, tag, indented) == Some(w))
  {
    hide Shown;
    var shown := Shown(core, bound);
    if Terminates(core, bound, tag, indented) {
      assert SpellsTerminator(shown, tag, indented, TerminatorIndent(shown, tag, indented).value);
    }
    forall w: nat | SpellsTerminator(shown, tag, indented, w)
      ensures TerminatorIndent(shown, tag, indented) == Some(w)
    {
      if indented {
        BlanksAre(shown, w);
      }
    }
  }

  lemma BlanksAre(s: seq<byte>, w: nat)
    requires w <= |s| && (forall i :: 0 <= i < w ==> IsBlank(s[i])) && (w < |s| ==> !IsBlank(s[w]))
    ensures Blanks(s) == w
  {
    var n := Blanks(s);
  }

  /** The first terminator within the bound. */
  function FindTerminator(lines: seq<Core>, bound: Option<nat>, tag: seq<byte>, indented: bool): (r: Option<nat>)
    ensures r.Some? ==> r.value < |lines|
  {
    if lines == [] || Beyond(lines[0], bound) then None
    else if Terminates(lines[0], bound, tag, indented) then Some(0)
    else
      match FindTerminator(lines[1..], bound, tag, indented)
      case None => None
      case Some(k) => Some(k + 1)
  }

  lemma {:induction false} FoundIsFirst(lines: seq<Core>, bound: Option<nat>, tag: seq<byte>, indented: bool)
    requires FindTerminator(lines, bound, tag, indented).Some?
    ensures var k := FindTerminator(lines, bound, tag, indented).value;
            && Terminates(lines[k], bound, tag, indented) && !Beyond(lines[k], bound)
            && forall i :: 0 <= i < k ==> !Beyond(lines[i], bound) && !Terminates(lines[i], bound, tag, indented)
  {
    hide Terminates;
    if !Terminates(lines[0], bound, tag, indented) {
      FoundIsFirst(lines[1..], bound, tag, indented);
      assert forall i :: 1 <= i < |lines| ==> lines[i] == lines[1..][i - 1];
    }
  }

  /** The nearest frame whose current line ends in a newline hosts the body; its bound is the ceiling. */
  function HostCeiling(line: Option<Line>, stack: seq<Frame>): Option<nat>
    decreases |stack|
  {
    if line.Some? && line.value.view.terminated then TopBound(stack)
    else if stack == [] then None
    else HostCeiling(stack[|stack| - 1].line, stack[..|stack| - 1])
  }

  /** A level of the stack of frames: the current line above them all, then each frame's suspended line. */
  function LineAt(line: Option<Line>, stack: seq<Frame>, level: nat): Option<Line>
    requires level <= |stack|
  {
    if level == |stack| then line else stack[level].line
  }

  ghost predicate Hosts(line: Option<Line>, stack: seq<Frame>, level: nat) {
    level <= |stack| && LineAt(line, stack, level).Some? && LineAt(line, stack, level).value.view.terminated
  }

  /** The host is the innermost level whose line ends in a newline, and what bounds that level bounds the search. */
  lemma {:induction false} CeilingIsHosts(line: Option<Line>, stack: seq<Frame>, level: nat)
    ensures Hosts(line, stack, level) && (forall l: nat :: level < l ==> !Hosts(line, stack, l)) ==>
              HostCeiling(line, stack) == if level == 0 then None else stack[level - 1].bound
    ensures (forall l: nat :: !Hosts(line, stack, l)) ==> HostCeiling(line, stack) == None
    decreases |stack|
  {
    if stack != [] {
      var under, below := stack[|stack| - 1].line, stack[..|stack| - 1];
      forall l: nat | l < |stack|
        ensures Hosts(under, below, l) <==> Hosts(line, stack, l)
      {
        assert LineAt(under, below, l) == LineAt(line, stack, l);
      }
      assert forall l: nat :: Hosts(under, below, l) ==> l < |stack|;
      CeilingIsHosts(under, below, level);
    }
    assert Hosts(line, stack, |stack|) <==> line.Some? && line.value.view.terminated;
  }

  method FindHost(line: Option<Line>, stack: seq<Frame>) returns (ceiling: Option<nat>)
    ensures ceiling == HostCeiling(line, stack)
  {
    var idx, cur := |stack|, line;
    assert stack[..idx] == stack;
    while true
      invariant 0 <= idx <= |stack| && HostCeiling(cur, stack[..idx]) == HostCeiling(line, stack)
      decreases idx
    {
      var bound := if idx > 0 then stack[idx - 1].bound else None;
      if cur.Some? && cur.value.view.terminated {
        return bound;
      }
      if idx == 0 {
        return None;
      }
      assert stack[..idx][..idx - 1] == stack[..idx - 1];
      cur := stack[idx - 1].line;
      idx := idx - 1;
    }
  }

  // ── Indentation ─────────────────────────────────────────────────

  /** A body line under a new required indent: blank from its cursor, or past the indent it must carry. */
  function Indented(core: Core, bound: Option<nat>, indent: seq<byte>): Option<Core> {
    var rest := Shown(core, bound);
    if rest == [] then Some(core)
    else if indent <= rest then Some(core.(indent := core.indent + |indent|))
    else None
  }

  function IndentedAll(body: seq<Core>, bound: Option<nat>, indent: seq<byte>): (r: Option<seq<Core>>)
    ensures r.Some? ==> |r.value| == |body|
  {
    if body == [] then Some([])
    else
      match (IndentedAll(body[..|body| - 1], bound, indent), Indented(body[|body| - 1], bound, indent))
      case (Some(front), Some(last)) => Some(front + [last])
      case _ => None
  }

  /** The same physical line, whatever indent is required of it. */
  predicate SamePlace(a: Core, b: Core) {
    a.offset == b.offset && a.full == b.full && a.newline == b.newline
  }

  ghost predicate SamePlaces(a: seq<Core>, b: seq<Core>) {
    |a| == |b| && forall i :: 0 <= i < |a| ==> SamePlace(a[i], b[i])
  }

  // ── The body and the host ───────────────────────────────────────

  /** Bounded at the terminator, the frame delivers every body line whole and no line after the terminator. */
  lemma BoundSeparatesBodyFromHost(lines: seq<Core>, k: nat)
    requires InOrder(lines) && k < |lines|
    ensures forall i :: 0 <= i < k ==>
              !Beyond(lines[i], Some(lines[k].offset)) && SetEof(lines[i], Some(lines[k].offset)) == SetEof(lines[i], None)
    ensures forall i :: k < i < |lines| ==> Beyond(lines[i], Some(lines[k].offset))
  {
    assert forall i :: 0 <= i < k ==> Before(lines[i], lines[k]);
    assert forall i :: k < i < |lines| ==> Before(lines[k], lines[i]);
  }

  lemma InOrderWithout(head: Core, lines: seq<Core>, body: seq<Core>, k: nat)
    requires InOrder([head] + lines) && k < |lines| && SamePlaces(body, lines[..k])
    ensures InOrder([head] + (body + lines[k + 1..]))
  {
    var all, r := [head] + lines, [head] + (body + lines[k + 1..]);
    forall i | 0 <= i < |r|
      ensures SamePlace(r[i], all[if i <= k then i else i + 1])
    {
      if 0 < i <= k {
        assert SamePlace(body[i - 1], lines[..k][i - 1]);
      }
    }
    forall i, j | 0 <= i < j < |r|
      ensures Before(r[i], r[j])
    {
      var a, b := if i <= k then i else i + 1, if j <= k then j else j + 1;
      assert SamePlace(r[i], all[a]) && SamePlace(r[j], all[b]);
    }
  }

  // ── The scan for the terminator ─────────────────────────────────

  /** Delivered and not yet touched. */
  predicate IsFresh(l: Line, bound: Option<nat>) {
    l.pos == l.core.indent && l.view == SetEof(l.core, bound)
  }

  /** A fresh line's cursor is within what its bound lets through exactly when the bound does not cut its indent. */
  lemma CursorWithinIff(l: Line, bound: Option<nat>)
    requires IsFresh(l, bound)
    ensures l.pos <= |l.view.line| <==>
            && l.core.indent <= |l.core.full|
            && (bound.Some? && l.core.indent > 0 ==> l.core.offset + l.core.indent <= bound.value)
  {}

  ghost predicate AllFresh(lines: seq<Line>, bound: Option<nat>) {
    forall i :: 0 <= i < |lines| ==> IsFresh(lines[i], bound)
  }

  lemma {:induction false} FindTerminatorIs(lines: seq<Core>, bound: Option<nat>, tag: seq<byte>, indented: bool, k: nat)
    requires k <= |lines| && forall i :: 0 <= i < k ==> !Beyond(lines[i], bound) && !Terminates(lines[i], bound, tag, indented)
    ensures k < |lines| && !Beyond(lines[k], bound) && Terminates(lines[k], bound, tag, indented) ==>
              FindTerminator(lines, bound, tag, indented) == Some(k)
    ensures k == |lines| || Beyond(lines[k], bound) ==> FindTerminator(lines, bound, tag, indented).None?
  {
    if k > 0 {
      assert forall i :: 0 <= i < k - 1 ==> lines[1..][i] == lines[i + 1];
      FindTerminatorIs(lines[1..], bound, tag, indented, k - 1);
    }
  }

  /** Deliver lines until one terminates the body. */
  method FindBody(lx: Lexer, tag: seq<byte>, indented: bool, ghost entry: Line, ghost ahead: seq<Core>) returns (found: bool)
    requires lx.Scanning(entry, ahead) && lx.captured == [] && lx.line == Some(entry) && lx.Future() == ahead
    modifies lx`cursor, lx`lineNumber, lx`line, lx`queued, lx`captured, lx`endOffset, lx`endPos
    ensures lx.Scanning(entry, ahead)
    ensures var r := FindTerminator(ahead, TopBound(lx.stack), tag, indented);
            && found == r.Some?
            && (found ==>
                  && lx.line.Some? && lx.line.value.core == ahead[r.value] && IsFresh(lx.line.value, TopBound(lx.stack))
                  && |lx.captured| == r.value + 1 && Cores(lx.captured[1..]) == ahead[..r.value]
                  && AllFresh(lx.captured[1..], TopBound(lx.stack)) && lx.Future() == ahead[r.value + 1..])
  {
    hide InOrder, RawLines, Partway, SetEof, Terminates, FindTerminator;
    ghost var bound := TopBound(lx.stack);
    ghost var j := 0;
    assert lx.Seen()[1..] == [];
    while true
      invariant lx.Scanning(entry, ahead) && lx.line.Some? && lx.stack == old(lx.stack)
      invariant j <= |ahead| && |lx.captured| == j && lx.Future() == ahead[j..]
      invariant Cores(lx.Seen()[1..]) == ahead[..j] && AllFresh(lx.Seen()[1..], bound)
      invariant forall i :: 0 <= i < j ==> !Beyond(ahead[i], bound) && !Terminates(ahead[i], bound, tag, indented)
      decreases |ahead| - j
    {
      ghost var seen := lx.Seen();
      FindTerminatorIs(ahead, bound, tag, indented, j);
      PartwayInOrder(lx.captured, lx.line, lx.Future(), bound, entry, ahead);
      var delivered := lx.NextLine();
      if !delivered {
        return false;
      }
      PartwayNext(seen, ahead[j..], bound, entry, ahead, lx.line.value);
      OneMoreSeen(seen, lx.line.value, ahead, j, bound);
      TerminatesShown(lx.line.value, bound, tag, indented);
      if TerminatorIndent(Rest(lx.line.value.view, lx.line.value.pos), tag, indented).Some? {
        assert lx.captured == seen;
        return true;
      }
      j := j + 1;
    }
  }

  lemma TerminatesShown(l: Line, bound: Option<nat>, tag: seq<byte>, indented: bool)
    requires IsFresh(l, bound)
    ensures TerminatorIndent(Rest(l.view, l.pos), tag, indented).Some? <==> Terminates(l.core, bound, tag, indented)
  {}

  lemma OneMoreSeen(seen: seq<Line>, l: Line, ahead: seq<Core>, j: nat, bound: Option<nat>)
    requires seen != [] && j < |ahead| && Cores(seen[1..]) == ahead[..j] && l.core == ahead[j]
    requires AllFresh(seen[1..], bound) && IsFresh(l, bound)
    ensures Cores((seen + [l])[1..]) == ahead[..j + 1] && AllFresh((seen + [l])[1..], bound)
    ensures ahead[j..][0] == ahead[j] && ahead[j..][1..] == ahead[j + 1..]
  {
    assert (seen + [l])[1..] == seen[1..] + [l];
    CoresJoin(seen[1..], [l]);
    assert ahead[..j + 1] == ahead[..j] + [ahead[j]];
  }

  // ── Stamping the required indent ────────────────────────────────

  lemma {:induction false} IndentedPrefix(body: seq<Core>, bound: Option<nat>, indent: seq<byte>, i: nat)
    requires i <= |body| && IndentedAll(body, bound, indent).Some?
    ensures IndentedAll(body[..i], bound, indent).Some?
  {
    if i < |body| {
      IndentedPrefix(body[..|body| - 1], bound, indent, i);
      assert body[..|body| - 1][..i] == body[..i];
    } else {
      assert body[..i] == body;
    }
  }

  ghost predicate CanIndent(core: Core, bound: Option<nat>, indent: seq<byte>) {
    Shown(core, bound) == [] || indent <= Shown(core, bound)
  }

  /** What an indented line shows: the text its line showed, less the indent, and nothing of a blank one. */
  ghost predicate ShowsPast(core: Core, was: Core, bound: Option<nat>, indent: seq<byte>) {
    Shown(was, bound) == if Shown(was, bound) == [] then Shown(core, bound) else indent + Shown(core, bound)
  }

  /** The body can be indented exactly when each line is blank or carries the indent, and each then shows the rest. */
  lemma {:induction false} IndentedIff(body: seq<Core>, bound: Option<nat>, indent: seq<byte>)
    ensures IndentedAll(body, bound, indent).Some? <==> forall i :: 0 <= i < |body| ==> CanIndent(body[i], bound, indent)
    ensures IndentedAll(body, bound, indent).Some? ==>
              forall i :: 0 <= i < |body| ==> ShowsPast(IndentedAll(body, bound, indent).value[i], body[i], bound, indent)
  {
    hide CanIndent, ShowsPast, Indented;
    if body != [] {
      IndentedIff(body[..|body| - 1], bound, indent);
      IndentedShows(body[|body| - 1], bound, indent);
    }
  }

  lemma IndentedShows(core: Core, bound: Option<nat>, indent: seq<byte>)
    ensures Indented(core, bound, indent).Some? <==> CanIndent(core, bound, indent)
    ensures Indented(core, bound, indent).Some? ==> ShowsPast(Indented(core, bound, indent).value, core, bound, indent)
  {
    hide SetEof;
    var rest := Shown(core, bound);
    if rest != [] && indent <= rest {
      IndentKeepsView(core, bound, core.indent + |indent|);
      assert rest == indent + rest[|indent|..];
    }
  }

  lemma IndentKeepsView(core: Core, bound: Option<nat>, width: nat)
    ensures SetEof(core.(indent := width), bound) == SetEof(core, bound)
  {}

  function StampedLine(l: Line, indent: seq<byte>): Line {
    var pos := l.pos + |indent|;
    l.(pos := pos, core := l.core.(indent := pos))
  }

  /** Validate and stamp the captured body lines, the introducer at the front left alone. */
  method StampIndent(captured: seq<Line>, indent: seq<byte>, ghost bound: Option<nat>) returns (ok: bool, stamped: seq<Line>)
    requires captured != [] && AllFresh(captured[1..], bound)
    ensures |stamped| == |captured| && stamped[0] == captured[0]
    ensures SamePlaces(Cores(stamped), Cores(captured))
    ensures forall i :: 1 <= i < |stamped| ==> stamped[i].pos == stamped[i].core.indent
    ensures ok == IndentedAll(Cores(captured[1..]), bound, indent).Some?
    ensures ok ==> Cores(stamped[1..]) == IndentedAll(Cores(captured[1..]), bound, indent).value
  {
    hide IndentedAll, SetEof, Rest, Shown;
    stamped := captured;
    ghost var body := Cores(captured[1..]);
    NoneIndented(bound, indent);
    assert forall i :: 1 <= i < |captured| ==> captured[i] == captured[1..][i - 1];
    var i := 1;
    while i < |captured|
      invariant 1 <= i <= |captured| == |stamped| && stamped[0] == captured[0]
      invariant forall k :: i <= k < |captured| ==> stamped[k] == captured[k]
      invariant forall k :: 0 <= k < |captured| ==> SamePlace(stamped[k].core, captured[k].core)
      invariant forall k :: 1 <= k < |captured| ==> stamped[k].pos == stamped[k].core.indent
      invariant IndentedAll(body[..i - 1], bound, indent) == Some(Cores(stamped[1..i]))
    {
      var line := stamped[i];
      var rest := Rest(line.view, line.pos);
      OneIndented(body, i - 1, bound, indent, line);
      if rest != [] {
        if !(indent <= rest) {
          return false, stamped;
        }
        line := StampedLine(line, indent);
      }
      assert stamped[i := line][1..i + 1] == stamped[1..i] + [line];
      CoresJoin(stamped[1..i], [line]);
      assert Cores([line]) == [line.core];
      stamped := stamped[i := line];
      i := i + 1;
    }
    assert body[..i - 1] == body && stamped[1..i] == stamped[1..];
    ok := true;
  }

  lemma NoneIndented(bound: Option<nat>, indent: seq<byte>)
    ensures IndentedAll([], bound, indent) == Some([])
  {}

  lemma OneIndented(body: seq<Core>, i: nat, bound: Option<nat>, indent: seq<byte>, l: Line)
    requires i < |body| && IsFresh(l, bound) && l.core == body[i]
    requires IndentedAll(body[..i], bound, indent).Some?
    ensures var front, rest := IndentedAll(body[..i], bound, indent).value, Rest(l.view, l.pos);
            && (rest == [] ==> IndentedAll(body[..i + 1], bound, indent) == Some(front + [l.core]))
            && (rest != [] && indent <= rest ==>
                  IndentedAll(body[..i + 1], bound, indent) == Some(front + [StampedLine(l, indent).core]))
            && (rest != [] && !(indent <= rest) ==> IndentedAll(body, bound, indent).None?)
  {
    hide SetEof, Rest, IndentedAll;
    IndentedSnoc(body, i, bound, indent);
    assert Shown(l.core, bound) == Rest(l.view, l.pos);
    if IndentedAll(body, bound, indent).Some? {
      IndentedPrefix(body, bound, indent, i + 1);
    }
  }

  lemma IndentedSnoc(body: seq<Core>, i: nat, bound: Option<nat>, indent: seq<byte>)
    requires i < |body|
    ensures IndentedAll(body[..i + 1], bound, indent) ==
            match (IndentedAll(body[..i], bound, indent), Indented(body[i], bound, indent))
            case (Some(front), Some(last)) => Some(front + [last])
            case _ => None
  {
    hide Indented;
    assert body[..i + 1][..i] == body[..i];
  }

  // ── Starting a heredoc ──────────────────────────────────────────

  datatype Started = Ok | Unterminated | BadIndent

  /** The body as it will be delivered, where `<<~` can indent it. */
  function BodyToDeliver(ahead: seq<Core>, k: nat, bound: Option<nat>, indented: bool): Option<seq<Core>>
    requires k < |ahead|
  {
    if !indented then Some(ahead[..k]) else IndentedAll(ahead[..k], bound, TerminatorBlanks(ahead[k], bound))
  }

  function TerminatorBlanks(core: Core, bound: Option<nat>): seq<byte> {
    Shown(core, bound)[..Blanks(Shown(core, bound))]
  }

  lemma {:induction false} IndentedStayPut(body: seq<Core>, bound: Option<nat>, indent: seq<byte>)
    requires IndentedAll(body, bound, indent).Some?
    ensures SamePlaces(IndentedAll(body, bound, indent).value, body)
  {
    if body != [] {
      IndentedStayPut(body[..|body| - 1], bound, indent);
    }
  }

  /** Stamping moves no line. */
  lemma StampedAhead(captured: seq<Line>, stamped: seq<Line>, rest: seq<Line>, future: seq<Core>, bound: Option<nat>,
                     entry: Line, ahead: seq<Core>)
    requires Partway(captured + rest, future, bound, entry, ahead) && captured != []
    requires |stamped| == |captured| && SamePlaces(Cores(stamped), Cores(captured))
    ensures SamePlaces(Cores((stamped + rest)[1..]) + future, ahead)
  {
    hide Cores, InOrder;
    var was, now := captured + rest, stamped + rest;
    PartwayEnds(was, future, bound, entry, ahead);
    var before, after := Cores(was[1..]), Cores(now[1..]);
    forall i | 0 <= i < |after|
      ensures SamePlace(after[i], before[i])
    {
      assert now[1..][i] == now[i + 1] && was[1..][i] == was[i + 1];
      if i + 1 < |captured| {
        assert SamePlace(Cores(stamped)[i + 1], Cores(captured)[i + 1]);
      }
    }
    SamePlacesThen(after, before, future);
  }

  lemma SamePlacesThen(a: seq<Core>, b: seq<Core>, rest: seq<Core>)
    requires SamePlaces(a, b)
    ensures SamePlaces(a + rest, b + rest)
  {}

  /** A stamped line lies beyond a bound exactly when it did before. */
  lemma PartwayStamped(captured: seq<Line>, stamped: seq<Line>, rest: seq<Line>, future: seq<Core>, bound: Option<nat>,
                       entry: Line, ahead: seq<Core>)
    requires Partway(captured + rest, future, bound, entry, ahead) && captured != []
    requires |stamped| == |captured| && stamped[0] == captured[0] && SamePlaces(Cores(stamped), Cores(captured))
    requires forall i :: 1 <= i < |stamped| ==> stamped[i].pos == stamped[i].core.indent
    ensures Partway(stamped + rest, future, bound, entry, Cores((stamped + rest)[1..]) + future)
  {
    hide InOrder;
    var was, now := captured + rest, stamped + rest;
    var after := Cores(now[1..]) + future;
    StampedAhead(captured, stamped, rest, future, bound, entry, ahead);
    SamePlacesInOrder([entry.core] + ahead, [entry.core] + after);
    assert Cores(now) == [entry.core] + Cores(now[1..]);
    JoinCores([entry.core], Cores(now[1..]), future);
    forall i | 1 <= i < |now|
      ensures !Beyond(now[i].core, bound) && now[i].pos >= now[i].core.indent
    {
      if i < |captured| {
        assert now[i] == stamped[i] && was[i] == captured[i];
        assert SamePlace(Cores(stamped)[i], Cores(captured)[i]);
      } else {
        assert now[i] == was[i];
      }
    }
  }

  lemma SamePlacesInOrder(a: seq<Core>, b: seq<Core>)
    requires InOrder(a) && SamePlaces(b, a)
    ensures InOrder(b)
  {
    forall i, j | 0 <= i < j < |b|
      ensures Before(b[i], b[j])
    {
      assert SamePlace(b[i], a[i]) && SamePlace(b[j], a[j]);
    }
  }

  /** With its current line dropped, a scan is a stage of one over the lines without it. */
  lemma PartwayDropped(captured: seq<Line>, l: Line, future: seq<Core>, bound: Option<nat>, entry: Line, ahead: seq<Core>)
    requires Partway(captured + [l], future, bound, entry, ahead) && captured != []
    ensures Partway(captured, future, bound, entry, Cores(captured[1..]) + future)
  {
    hide InOrder;
    var seen, body := captured + [l], Cores(captured[1..]);
    PartwayEnds(seen, future, bound, entry, ahead);
    assert seen[1..] == captured[1..] + [l];
    CoresJoin(captured[1..], [l]);
    assert Cores([l]) == [l.core];
    JoinCores(body, [l.core], future);
    assert ahead[..|body|] == body && ahead[|body| + 1..] == future by {
      Concatenated(body, [l.core] + future, ahead);
    }
    SamePlacesReflexive(body);
    InOrderWithout(entry.core, ahead, body, |body|);
    assert Cores(captured) == [entry.core] + body;
    JoinCores([entry.core], body, future);
    assert forall i :: 0 <= i < |captured| ==> seen[i] == captured[i];
  }

  lemma SamePlacesReflexive(a: seq<Core>)
    ensures SamePlaces(a, a)
  {}

  /** Suspend the introducer and push the body's frame, bounded at the terminator. */
  method PushFrame(lx: Lexer, bound: nat)
    requires lx.Settled() && lx.line.Some?
    modifies lx`line, lx`stack
    ensures lx.Settled() && lx.line.None? && lx.stack == old(lx.stack) + [Frame(Some(bound), old(lx.line))]
    ensures lx.Future() == old(lx.Future())
  {
    hide InOrder, RawLines;
    InOrderTail(PresentCore(lx.line), lx.Future());
    lx.stack := lx.stack + [Frame(Some(bound), lx.line)];
    lx.line := None;
    assert PresentCore(None) + lx.Future() == lx.Future();
  }

  /** Begin a heredoc body: find the terminator under the host's bound, drop it, and put the body first. */
  method StartHeredoc(lx: Lexer, tag: seq<byte>, indented: bool) returns (r: Started)
    requires lx.Settled() && lx.line.Some?
    modifies lx
    ensures lx.Settled()
    ensures var bound := HostCeiling(old(lx.line), old(lx.stack));
            var found := FindTerminator(old(lx.Future()), bound, tag, indented);
            && (r == Unterminated <==> found.None?)
            && (r == BadIndent <==> found.Some? && BodyToDeliver(old(lx.Future()), found.value, bound, indented).None?)
            && (r == Ok ==>
                  && lx.Future() == BodyToDeliver(old(lx.Future()), found.value, bound, indented).value
                                    + old(lx.Future())[found.value + 1..]
                  && lx.stack == old(lx.stack) + [Frame(Some(old(lx.Future())[found.value].offset), old(lx.line))]
                  && lx.line.None?)
    ensures r != Ok ==> lx.line == old(lx.line) && lx.stack == old(lx.stack) && SamePlaces(lx.Future(), old(lx.Future()))
    ensures r == Unterminated ==> lx.Future() == old(lx.Future())
    ensures lx.lineNumber == old(lx.line).value.number + 1
  {
    hide InOrder, RawLines, Partway, SetEof, FindTerminator, IndentedAll, HostCeiling, Shown, Rest, Cores, SamePlaces, IsFresh, Beyond;
    ghost var entry, ahead := lx.line.value, lx.Future();
    SamePlacesReflexive(ahead);
    var ceiling := FindHost(lx.line, lx.stack);
    var guard := lx.BeginLookaheadTo(ceiling);
    NoCeilingAtBase(lx.line, old(lx.stack));
    var found := FindBody(lx, tag, indented, entry, ahead);
    if !found {
      lx.EndLookahead(guard, entry, ahead);
      return Unterminated;
    }
    ghost var bound, future := TopBound(lx.stack), lx.Future();
    var terminator := lx.line.value;
    ghost var whole := ahead;
    if indented {
      var rest := Rest(terminator.view, terminator.pos);
      assert rest == Shown(terminator.core, bound) by { FreshShows(terminator, bound); }
      var ok, stamped := StampIndent(lx.captured, rest[..Blanks(rest)], bound);
      StampedAhead(lx.captured, stamped, [terminator], future, bound, entry, ahead);
      PartwayStamped(lx.captured, stamped, [terminator], future, bound, entry, ahead);
      whole := Cores((stamped + [terminator])[1..]) + future;
      lx.captured := stamped;
      if !ok {
        lx.EndLookahead(guard, entry, whole);
        return BadIndent;
      }
    }
    PartwayDropped(lx.captured, terminator, future, bound, entry, whole);
    lx.line := None;
    assert lx.Seen() == lx.captured;
    lx.EndLookahead(guard, entry, Cores(lx.captured[1..]) + future);
    PushFrame(lx, terminator.core.offset);
    r := Ok;
  }

  lemma NoCeilingAtBase(line: Option<Line>, stack: seq<Frame>)
    ensures stack == [] ==> HostCeiling(line, stack) == None
  {}

  lemma FreshShows(l: Line, bound: Option<nat>)
    requires IsFresh(l, bound)
    ensures Rest(l.view, l.pos) == Shown(l.core, bound)
  {}

  // ── A heredoc from its tag to its pop ───────────────────────────

  /** Pop the top frame: its suspended line is current again, narrowed to the bound now in force. */
  method PopContext(lx: Lexer)
    requires lx.Valid() && !lx.mode && lx.stack != []
    requires InOrder(PresentCore(lx.stack[|lx.stack| - 1].line) + lx.Future())
    modifies lx`line, lx`stack
    ensures lx.Settled() && lx.Future() == old(lx.Future()) && lx.stack == old(lx.stack)[..|old(lx.stack)| - 1]
    ensures var parent := old(lx.stack)[|old(lx.stack)| - 1].line;
            lx.line == if parent.Some? then Some(parent.value.(view := SetEof(parent.value.core, TopBound(lx.stack)))) else None
  {
    hide InOrder, RawLines, SetEof;
    var parent := lx.stack[|lx.stack| - 1].line;
    lx.stack := lx.stack[..|lx.stack| - 1];
    lx.line := if parent.Some? then Some(parent.value.(view := SetEof(parent.value.core, TopBound(lx.stack)))) else None;
    assert PresentCore(lx.line) == PresentCore(parent);
  }

  lemma BodyIsWithin(ahead: seq<Core>, k: nat, body: seq<Core>)
    requires InOrder(ahead) && k < |ahead| && SamePlaces(body, ahead[..k])
    ensures var bound, host := Some(ahead[k].offset), ahead[k + 1..];
            && (forall i :: 0 <= i < |body| ==> !Beyond(body[i], bound) && SetEof(body[i], bound) == SetEof(body[i], None))
            && (host != [] ==> Beyond(host[0], bound))
  {
    BoundSeparatesBodyFromHost(ahead, k);
    assert forall i :: 0 <= i < |body| ==> SamePlace(body[i], ahead[..k][i]) && ahead[..k][i] == ahead[i];
  }

  /** Everything the body's frame delivers, up to its virtual end of file. */
  method DeliverBody(lx: Lexer, ghost body: seq<Core>, ghost host: seq<Core>) returns (lines: seq<Line>)
    requires lx.Settled() && lx.stack != [] && lx.Future() == body + host
    requires forall i :: 0 <= i < |body| ==>
               !Beyond(body[i], TopBound(lx.stack)) && SetEof(body[i], TopBound(lx.stack)) == SetEof(body[i], None)
    requires host != [] ==> Beyond(host[0], TopBound(lx.stack))
    modifies lx`cursor, lx`lineNumber, lx`line, lx`queued, lx`captured, lx`endOffset, lx`endPos
    ensures lx.Settled() && lx.Future() == host
    ensures Cores(lines) == body && AllFresh(lines, None)
  {
    hide InOrder, RawLines, SetEof;
    lines := [];
    assert body[0..] + host == body + host;
    while true
      invariant lx.Settled() && lx.stack == old(lx.stack) && |lines| <= |body|
      invariant lx.Future() == body[|lines|..] + host
      invariant Cores(lines) == body[..|lines|] && AllFresh(lines, None)
      decreases |body| - |lines|
    {
      ghost var j := |lines|;
      TailThen(body, j, host);
      var delivered := lx.NextLine();
      if !delivered {
        return;
      }
      CoresJoin(lines, [lx.line.value]);
      assert Cores([lx.line.value]) == [lx.line.value.core];
      lines := lines + [lx.line.value];
    }
  }

  lemma TailThen(body: seq<Core>, j: nat, host: seq<Core>)
    requires j <= |body|
    ensures j < |body| ==> (body[j..] + host) != [] && (body[j..] + host)[0] == body[j]
    ensures j < |body| ==> (body[j..] + host)[1..] == body[j + 1..] + host && body[..j + 1] == body[..j] + [body[j]]
    ensures j == |body| ==> body[j..] + host == host && body[..j] == body
  {}

  /**
    * The whole of a heredoc: the body's lines are delivered whole and first, and then the introducer's line is current
    * again, where it was, with the host's later lines to come.  Of the original lines only the terminator is missing.
    */
  method DeliverHeredoc(lx: Lexer, tag: seq<byte>, indented: bool) returns (r: Started, lines: seq<Line>)
    requires lx.Settled() && lx.line.Some?
    modifies lx
    ensures lx.Settled() && lx.line == old(lx.line) && lx.stack == old(lx.stack)
    ensures var bound := HostCeiling(old(lx.line), old(lx.stack));
            var found := FindTerminator(old(lx.Future()), bound, tag, indented);
            && (r == Unterminated <==> found.None?)
            && (r == BadIndent <==> found.Some? && BodyToDeliver(old(lx.Future()), found.value, bound, indented).None?)
    ensures r != Ok ==> lines == [] && SamePlaces(lx.Future(), old(lx.Future()))
    ensures r == Unterminated ==> lx.Future() == old(lx.Future())
    ensures r == Ok ==>
              var bound := HostCeiling(old(lx.line), old(lx.stack));
              var k := FindTerminator(old(lx.Future()), bound, tag, indented);
              && k.Some? && BodyToDeliver(old(lx.Future()), k.value, bound, indented) == Some(Cores(lines))
              && SamePlaces(Cores(lines), old(lx.Future())[..k.value]) && AllFresh(lines, None)
              && lx.Future() == old(lx.Future())[k.value + 1..]
  {
    hide InOrder, RawLines, SetEof, FindTerminator, IndentedAll, HostCeiling, IsFresh, Shown, Blanks, Partway, Cores;
    ghost var intro, ahead, bound := lx.line, lx.Future(), HostCeiling(lx.line, lx.stack);
    lines := [];
    r := StartHeredoc(lx, tag, indented);
    if r != Ok {
      return;
    }
    ghost var k := FindTerminator(ahead, bound, tag, indented).value;
    ghost var body := BodyToDeliver(ahead, k, bound, indented).value;
    if indented {
      IndentedStayPut(ahead[..k], bound, TerminatorBlanks(ahead[k], bound));
    } else {
      SamePlacesReflexive(body);
    }
    InOrderTail(PresentCore(intro), ahead);
    BodyIsWithin(ahead, k, body);
    lines := DeliverBody(lx, body, ahead[k + 1..]);
    IntroducerBefore(intro.value.core, ahead, k);
    PopContext(lx);
  }

  lemma IntroducerBefore(intro: Core, ahead: seq<Core>, k: nat)
    requires InOrder([intro] + ahead) && k < |ahead|
    ensures InOrder([intro] + ahead[k + 1..])
  {
    var all, r := [intro] + ahead, [intro] + ahead[k + 1..];
    assert forall i :: 0 <= i < |r| ==> r[i] == all[if i == 0 then 0 else i + k + 1];
    forall i, j | 0 <= i < j < |r|
      ensures Before(r[i], r[j])
    {
      var a, b := if i == 0 then 0 else i + k + 1, j + k + 1;
      assert all[a] == r[i] && all[b] == r[j];
    }
  }
}
