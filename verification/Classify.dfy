/**
  * The blocked classifiers against one plain decode.  The block size is a parameter: nothing here depends on its value,
  * only on its being positive.
  */
module Classify {
  import opened Wrappers
  import opened PerlUtf8
  import opened PerlText
  import opened Scan
  import opened Transitions

  // ── Accumulated facts ───────────────────────────────────────────

  datatype ScanFacts = ScanFacts(sawMultibyte: bool, sawBeyondLatin1: bool, sawRustRejected: bool, chars: nat) {
    function State(): Terminal {
      if sawRustRejected then ExtendedClass
      else if sawBeyondLatin1 then NonLatin1Class
      else if sawMultibyte then Latin1Class
      else AsciiClass
    }

    /** One decoded character: a single byte moves nothing but the count. */
    function Note(len: nat, value: nat): ScanFacts {
      if len > 1 then
        ScanFacts(true, sawBeyondLatin1 || value > 0xFF,
                  sawRustRejected || len > 4 || value > 0x10_FFFF || 0xD800 <= value <= 0xDFFF, chars + 1)
      else this.(chars := chars + 1)
    }
  }

  const NO_FACTS := ScanFacts(false, false, false, 0)

  /** The facts of a character sequence, independent of how it was walked. */
  ghost function FactsOf(cs: seq<CodePoint>): ScanFacts {
    ScanFacts(exists i :: 0 <= i < |cs| && cs[i] >= 0x80,
              exists i :: 0 <= i < |cs| && cs[i] > 0xFF,
              exists i :: 0 <= i < |cs| && !RustScalar(cs[i]),
              |cs|)
  }

  lemma NoteFacts(cs: seq<CodePoint>, c: CodePoint)
    ensures FactsOf(cs).Note(SeqLen(c), c) == FactsOf(cs + [c])
  {
    var all := cs + [c];
    assert forall i :: 0 <= i < |cs| ==> all[i] == cs[i];
    assert all[|cs|] == c;
  }

  lemma AsciiFacts(cs: seq<CodePoint>, block: seq<byte>)
    requires AllAscii(block)
    ensures FactsOf(cs + block) == FactsOf(cs).(chars := |cs| + |block|)
  {
    var all := cs + block;
    assert forall i :: 0 <= i < |cs| ==> all[i] == cs[i];
    assert forall i :: |cs| <= i < |all| ==> all[i] == block[i - |cs|];
  }

  /** The facts after noting a run of characters one by one. */
  function NoteAll(facts: ScanFacts, cs: seq<CodePoint>): ScanFacts {
    if cs == [] then facts
    else
      var last := cs[|cs| - 1];
      NoteAll(facts, cs[..|cs| - 1]).Note(SeqLen(last), last)
  }

  lemma {:induction false} NoteAllFacts(before: seq<CodePoint>, cs: seq<CodePoint>)
    ensures NoteAll(FactsOf(before), cs) == FactsOf(before + cs)
  {
    if cs == [] {
      assert before + cs == before;
    } else {
      var init, last := cs[..|cs| - 1], cs[|cs| - 1];
      NoteAllFacts(before, init);
      NoteFacts(before + init, last);
      assert before + init + [last] == before + cs;
    }
  }

  lemma NoteOne(facts: ScanFacts, cs: seq<CodePoint>, c: CodePoint)
    ensures NoteAll(facts, cs + [c]) == NoteAll(facts, cs).Note(SeqLen(c), c)
  {
    assert (cs + [c])[..|cs|] == cs;
  }

  lemma StateOfFacts(cs: seq<CodePoint>)
    ensures FactsOf(cs).State() == ClassOfChars(cs)
  {}

  // ── The reporting span decoder ──────────────────────────────────

  /** A decode step as a caller that walks on sees it: a character, or one rejected span. */
  datatype Token = Glyph(c: CodePoint) | Reject(span: seq<byte>) {
    function Spelling(): seq<byte> {
      match this
      case Glyph(c) => Encode(c)
      case Reject(span) => span
    }

    function Shown(): seq<CodePoint> {
      match this
      case Glyph(c) => [c]
      case Reject(_) => []
    }
  }

  /** One past the rejected byte at `at` and the continuation bytes after it. */
  function RunEnd(bytes: seq<byte>, at: nat): (end: nat)
    requires at < |bytes|
    ensures at < end <= |bytes|
    decreases |bytes| - at
  {
    if at + 1 < |bytes| && IsContinuation(bytes[at + 1]) then RunEnd(bytes, at + 1) else at + 1
  }

  method MalformedRun(bytes: seq<byte>, at: nat) returns (run: nat)
    requires at < |bytes|
    ensures run >= 1 && at + run == RunEnd(bytes, at)
    ensures forall i :: at < i < at + run ==> IsContinuation(bytes[i])
    ensures at + run < |bytes| ==> !IsContinuation(bytes[at + run])
  {
    var end := at + 1;
    while end < |bytes| && IsContinuation(bytes[end])
      invariant at < end <= |bytes|
      invariant RunEnd(bytes, at) == RunEnd(bytes, end - 1)
      invariant forall i :: at < i < end ==> IsContinuation(bytes[i])
    {
      end := end + 1;
    }
    run := end - at;
  }

  /** Where the step at `i` ends. */
  function StepEnd(bytes: seq<byte>, i: nat): (end: nat)
    requires i < |bytes|
    ensures i < end <= |bytes|
  {
    match DecodeAt(bytes, i)
    case Char(len, _) => i + len
    case Rejected => RunEnd(bytes, i)
  }

  function StepToken(bytes: seq<byte>, i: nat): Token
    requires i < |bytes|
  {
    match DecodeAt(bytes, i)
    case Char(_, c) => Glyph(c)
    case Rejected => Reject(bytes[i..RunEnd(bytes, i)])
  }

  /** The tokens of the steps that begin before `softEnd`; the last may end past it. */
  function Tokens(bytes: seq<byte>, i: nat, softEnd: nat): seq<Token>
    requires i <= |bytes| && softEnd <= |bytes|
    decreases |bytes| - i
  {
    if i >= softEnd then [] else [StepToken(bytes, i)] + Tokens(bytes, StepEnd(bytes, i), softEnd)
  }

  function TokensEnd(bytes: seq<byte>, i: nat, softEnd: nat): (end: nat)
    requires i <= |bytes| && softEnd <= |bytes|
    ensures i <= end <= |bytes| && softEnd <= end
    ensures i < softEnd ==> i < end
    decreases |bytes| - i
  {
    if i >= softEnd then i else TokensEnd(bytes, StepEnd(bytes, i), softEnd)
  }

  predicate NoReject(ts: seq<Token>) {
    forall k :: 0 <= k < |ts| ==> ts[k].Glyph?
  }

  function Glyphs(ts: seq<Token>): seq<CodePoint> {
    if ts == [] then []
    else ts[0].Shown() + Glyphs(ts[1..])
  }

  function Spell(ts: seq<Token>): seq<byte> {
    if ts == [] then [] else ts[0].Spelling() + Spell(ts[1..])
  }

  lemma {:induction false} GlyphsAppend(ts: seq<Token>, t: Token)
    ensures Glyphs(ts + [t]) == Glyphs(ts) + t.Shown()
  {
    var all := ts + [t];
    if ts == [] {
      assert all[1..] == [];
    } else {
      assert all[0] == ts[0] && all[1..] == ts[1..] + [t];
      GlyphsAppend(ts[1..], t);
    }
  }

  /** The walk loses nothing: the tokens spell exactly the bytes walked, malformed regions included. */
  lemma {:induction false} TokensSpellSource(bytes: seq<byte>, i: nat, softEnd: nat)
    requires i <= |bytes| && softEnd <= |bytes|
    ensures Spell(Tokens(bytes, i, softEnd)) == bytes[i..TokensEnd(bytes, i, softEnd)]
    decreases |bytes| - i
  {
    hide DecodeAt, Encode;
    if i < softEnd {
      var next := StepEnd(bytes, i);
      TokensSpellSource(bytes, next, softEnd);
      var step := DecodeAt(bytes, i);
      if step.Char? {
        DecodeAtIff(bytes, i, step.len, step.value);
      }
      assert bytes[i..TokensEnd(bytes, i, softEnd)] == bytes[i..next] + bytes[next..TokensEnd(bytes, i, softEnd)];
    }
  }

  /** A character at `i` is the first of the plain decode from there, wherever that ends. */
  lemma DecodePast(bytes: seq<byte>, i: nat, len: nat, c: CodePoint, end: nat)
    requires i < |bytes| && DecodeAt(bytes, i) == Char(len, c) && i + len <= end <= |bytes|
    ensures Decodable(bytes[i..]) <==> Decodable(bytes[i + len..])
    ensures Decode(bytes[i + len..end]).Some? ==>
              Decode(bytes[i..end]) == Some([c] + Decode(bytes[i + len..end]).value)
  {
    hide DecodeAt, Encode;
    var piece := bytes[i..end];
    DecodeShift(bytes, i);
    DecodeAtIff(bytes, i, len, c);
    DecodeAtIff(piece, 0, len, c);
    assert piece[0..len] == bytes[i..i + len];
    assert piece[len..] == bytes[i + len..end];
    assert bytes[i..][len..] == bytes[i + len..];
  }

  lemma NothingPast(bytes: seq<byte>, i: nat)
    requires i < |bytes| && DecodeAt(bytes, i).Rejected?
    ensures !Decodable(bytes[i..])
  {
    DecodeShift(bytes, i);
  }

  lemma DecodeNothing(bytes: seq<byte>, i: nat)
    requires i <= |bytes|
    ensures Decode(bytes[i..i]) == Some([])
  {}

  lemma TokenFirst(t: Token, ts: seq<Token>)
    ensures NoReject([t] + ts) <==> t.Glyph? && NoReject(ts)
    ensures Glyphs([t] + ts) == t.Shown() + Glyphs(ts)
  {
    var all := [t] + ts;
    assert all[1..] == ts;
    assert all[0] == t && forall k :: 0 <= k < |ts| ==> all[k + 1] == ts[k];
    if t.Glyph? && NoReject(ts) {
      assert forall k :: 0 <= k < |all| ==> all[k] == if k == 0 then t else ts[k - 1];
    }
  }

  /** Without a rejection the tokens are the plain decode of the bytes walked; with one, no plain decode exists. */
  lemma {:induction false} TokensAreDecode(bytes: seq<byte>, i: nat, softEnd: nat)
    requires i <= |bytes| && softEnd <= |bytes|
    ensures NoReject(Tokens(bytes, i, softEnd)) ==>
              Decode(bytes[i..TokensEnd(bytes, i, softEnd)]) == Some(Glyphs(Tokens(bytes, i, softEnd)))
    ensures !NoReject(Tokens(bytes, i, softEnd)) ==> !Decodable(bytes[i..])
    decreases |bytes| - i
  {
    hide DecodeAt, Encode, Decode, NoReject, StepToken, StepEnd, RunEnd;
    if i >= softEnd {
      DecodeNothing(bytes, i);
      NoTokens();
    } else {
      var step, next, ts := DecodeAt(bytes, i), StepEnd(bytes, i), Tokens(bytes, StepEnd(bytes, i), softEnd);
      TokensAreDecode(bytes, next, softEnd);
      TokenFirst(StepToken(bytes, i), ts);
      if step.Char? {
        CharacterStep(bytes, i, step.len, step.value);
        DecodePast(bytes, i, step.len, step.value, TokensEnd(bytes, i, softEnd));
      } else {
        RejectedStep(bytes, i);
        NothingPast(bytes, i);
      }
    }
  }

  lemma NoTokens()
    ensures NoReject([]) && Glyphs([]) == []
  {}

  lemma TokensUnfold(bytes: seq<byte>, i: nat, softEnd: nat, done: seq<Token>)
    requires i < softEnd <= |bytes|
    ensures done + Tokens(bytes, i, softEnd) == (done + [StepToken(bytes, i)]) + Tokens(bytes, StepEnd(bytes, i), softEnd)
    ensures TokensEnd(bytes, i, softEnd) == TokensEnd(bytes, StepEnd(bytes, i), softEnd)
  {}

  lemma TokensDone(bytes: seq<byte>, i: nat, softEnd: nat)
    requires softEnd <= i <= |bytes|
    ensures Tokens(bytes, i, softEnd) == [] && TokensEnd(bytes, i, softEnd) == i
  {}

  lemma RejectedStep(bytes: seq<byte>, i: nat)
    requires i < |bytes| && DecodeAt(bytes, i).Rejected?
    ensures StepToken(bytes, i) == Reject(bytes[i..RunEnd(bytes, i)]) && StepEnd(bytes, i) == RunEnd(bytes, i)
  {}

  lemma CharacterStep(bytes: seq<byte>, i: nat, len: nat, c: CodePoint)
    requires i < |bytes| && DecodeAt(bytes, i) == Char(len, c)
    ensures StepToken(bytes, i) == Glyph(c) && StepEnd(bytes, i) == i + len && len == SeqLen(c)
  {
    DecodeAtIff(bytes, i, len, c);
  }

  lemma RejectionAt(all: seq<Token>, k: nat)
    requires k < |all| && all[k].Reject?
    ensures !NoReject(all)
  {}

  lemma NothingNoted(facts: ScanFacts)
    ensures NoteAll(facts, Glyphs([])) == facts
  {}

  /** One more token moves the facts by its own character, and a rejected span does not move them. */
  lemma FactsUnfold(facts: ScanFacts, done: seq<Token>, t: Token)
    ensures NoteAll(facts, Glyphs(done + [t]))
         == if t.Glyph? then NoteAll(facts, Glyphs(done)).Note(SeqLen(t.c), t.c) else NoteAll(facts, Glyphs(done))
  {
    GlyphsAppend(done, t);
    if t.Glyph? {
      NoteOne(facts, Glyphs(done), t.c);
    } else {
      assert Glyphs(done) + [] == Glyphs(done);
    }
  }

  /**
    * The scalar decoder over one span.  `breaking` is the caller's answer to a malformed span: stop there and report
    * nothing, or step over it and go on.
    */
  method DecodeSpanReporting(bytes: seq<byte>, start: nat, softEnd: nat, facts: ScanFacts, breaking: bool)
    returns (next: Option<nat>, facts': ScanFacts, tokens: seq<Token>)
    requires start <= softEnd <= |bytes|
    ensures next.None? <==> breaking && !NoReject(Tokens(bytes, start, softEnd))
    ensures next.Some? ==> next.value == TokensEnd(bytes, start, softEnd) && tokens == Tokens(bytes, start, softEnd)
    ensures next.None? ==> NoReject(tokens) && tokens < Tokens(bytes, start, softEnd)
    ensures facts' == NoteAll(facts, Glyphs(tokens))
  {
    hide DecodeAt, Encode, NoteAll, Glyphs, Tokens, TokensEnd, StepToken, StepEnd, RunEnd;
    assert NoteAll(facts, Glyphs([])) == facts by {
      NothingNoted(facts);
    }
    var i := start;
    facts' := facts;
    tokens := [];
    while i < softEnd
      invariant start <= i <= |bytes|
      invariant TokensEnd(bytes, start, softEnd) == TokensEnd(bytes, i, softEnd)
      invariant Tokens(bytes, start, softEnd) == tokens + Tokens(bytes, i, softEnd)
      invariant facts' == NoteAll(facts, Glyphs(tokens))
      invariant breaking ==> NoReject(tokens)
      decreases |bytes| - i
    {
      TokensUnfold(bytes, i, softEnd, tokens);
      FactsUnfold(facts, tokens, StepToken(bytes, i));
      var step := DecodeOne(bytes, i);
      if step.Rejected? {
        RejectedStep(bytes, i);
        var run := MalformedRun(bytes, i);
        if breaking {
          RejectionAt(Tokens(bytes, start, softEnd), |tokens|);
          return None, facts', tokens;
        }
        tokens := tokens + [Reject(bytes[i..i + run])];
        i := i + run;
      } else {
        CharacterStep(bytes, i, step.len, step.value);
        facts' := facts'.Note(step.len, step.value);
        tokens := tokens + [Glyph(step.value)];
        i := i + step.len;
      }
    }
    TokensDone(bytes, i, softEnd);
    next := Some(i);
  }
}
