/**
  * The blocked walkers.  Blocks end at fixed multiples of the block size; a character that straddles a boundary is
  * completed past it, and the next block runs to the next multiple.
  */
module BlockedClassify {
  import opened Wrappers
  import opened PerlUtf8
  import opened PerlText
  import opened Scan
  import opened Transitions
  import opened Classify

  /** The next multiple of `block` strictly after `pos`, or the end of the slice. */
  function BlockEnd(pos: nat, len: nat, block: nat): (end: nat)
    requires block > 0 && pos < len
    ensures pos < end <= len && end - pos <= block
  {
    var next := (pos / block + 1) * block;
    assert pos / block * block <= pos < next by {
      assert pos == pos / block * block + pos % block;
    }
    if next < len then next else len
  }

  lemma AsciiAppend(s: seq<byte>, b: byte)
    ensures AllAscii(s + [b]) <==> AllAscii(s) && IsAscii(b)
  {
    assert (s + [b])[|s|] == b;
    assert forall i :: 0 <= i < |s| ==> (s + [b])[i] == s[i];
  }

  /** The exitless gate: a fold over the whole block, not a search. */
  method HighBitGate(bytes: seq<byte>, from: nat, to: nat) returns (hi: bool)
    requires from <= to <= |bytes|
    ensures !hi <==> AllAscii(bytes[from..to])
  {
    hi := false;
    for i := from to to
      invariant !hi <==> AllAscii(bytes[from..i])
    {
      assert bytes[from..i + 1] == bytes[from..i] + [bytes[i]];
      AsciiAppend(bytes[from..i], bytes[i]);
      hi := hi || bytes[i] >= 0x80;
    }
  }

  /** Ranges handed to the sink, in order, with no gap and no overlap. */
  ghost predicate Tiles(ranges: seq<(nat, nat)>, end: nat) {
    if ranges == [] then end == 0
    else
      var last := ranges[|ranges| - 1];
      last.0 <= last.1 == end && Tiles(ranges[..|ranges| - 1], last.0)
  }

  lemma TilesAppend(ranges: seq<(nat, nat)>, mid: nat, end: nat)
    requires Tiles(ranges, mid) && mid <= end
    ensures Tiles(ranges + [(mid, end)], end)
  {
    assert (ranges + [(mid, end)])[..|ranges|] == ranges;
  }

  /** What the classifier answers, stated by the plain decode alone. */
  ghost predicate Classified(bytes: seq<byte>, t: Terminal, chars: nat) {
    && t == ClassOf(bytes)
    && chars == if Decodable(bytes) then |Chars(bytes)| else 0
  }

  /**
    * Full classification.  `ranges` is the sequence of emit calls the sink receives: they tile the source even when
    * the content is malformed.
    */
  method ClassifyWalk(bytes: seq<byte>, block: nat) returns (t: Terminal, chars: nat, ranges: seq<(nat, nat)>)
    requires block > 0
    ensures Classified(bytes, t, chars)
    ensures Tiles(ranges, |bytes|)
  {
    hide DecodeAt, Encode, Decode, FactsOf, ClassOfChars, Tiles, Tokens, TokensEnd;
    var facts := NO_FACTS;
    var pos := 0;
    ranges := [];
    NothingWalked(bytes);
    while pos < |bytes|
      invariant pos <= |bytes|
      invariant Decodable(bytes[..pos]) && facts == FactsOf(Chars(bytes[..pos]))
      invariant Tiles(ranges, pos)
    {
      var softEnd := BlockEnd(pos, |bytes|, block);
      var hi := HighBitGate(bytes, pos, softEnd);
      if !hi {
        AsciiBlock(bytes, pos, softEnd);
        facts := facts.(chars := facts.chars + (softEnd - pos));
        TilesAppend(ranges, pos, softEnd);
        ranges := ranges + [(pos, softEnd)];
        pos := softEnd;
        continue;
      }
      var next, facts', tokens := DecodeSpanReporting(bytes, pos, softEnd, facts, true);
      SpanDecoded(bytes, pos, softEnd, facts);
      if next.None? {
        TilesAppend(ranges, pos, |bytes|);
        return MalformedClass, 0, ranges + [(pos, |bytes|)];
      }
      TilesAppend(ranges, pos, next.value);
      ranges := ranges + [(pos, next.value)];
      facts := facts';
      pos := next.value;
    }
    assert bytes[..pos] == bytes;
    StateOfFacts(Chars(bytes));
    CountOfFacts(Chars(bytes));
    return facts.State(), facts.chars, ranges;
  }

  lemma NothingWalked(bytes: seq<byte>)
    ensures Decodable(bytes[..0]) && FactsOf(Chars(bytes[..0])) == NO_FACTS
    ensures Tiles([], 0)
  {}

  lemma CountOfFacts(cs: seq<CodePoint>)
    ensures FactsOf(cs).chars == |cs|
  {}

  lemma AsciiBlock(bytes: seq<byte>, pos: nat, end: nat)
    requires pos <= end <= |bytes| && Decodable(bytes[..pos]) && AllAscii(bytes[pos..end])
    ensures Decodable(bytes[..end])
    ensures var f := FactsOf(Chars(bytes[..pos]));
            FactsOf(Chars(bytes[..end])) == f.(chars := f.chars + (end - pos))
  {
    hide Decode, FactsOf;
    DecodeAscii(bytes[pos..end]);
    DecodeConcat(bytes[..pos], bytes[pos..end]);
    assert bytes[..end] == bytes[..pos] + bytes[pos..end];
    AsciiFacts(Chars(bytes[..pos]), bytes[pos..end]);
    CountOfFacts(Chars(bytes[..pos]));
  }

  /** A span without a rejection extends the decoded prefix; one with a rejection condemns the whole. */
  lemma SpanDecoded(bytes: seq<byte>, pos: nat, softEnd: nat, facts: ScanFacts)
    requires pos <= softEnd <= |bytes| && Decodable(bytes[..pos]) && facts == FactsOf(Chars(bytes[..pos]))
    ensures var end, ts := TokensEnd(bytes, pos, softEnd), Tokens(bytes, pos, softEnd);
            && (NoReject(ts) ==> Decodable(bytes[..end]) && NoteAll(facts, Glyphs(ts)) == FactsOf(Chars(bytes[..end])))
            && (!NoReject(ts) ==> !Decodable(bytes))
  {
    hide DecodeAt, Encode;
    var end, ts := TokensEnd(bytes, pos, softEnd), Tokens(bytes, pos, softEnd);
    TokensAreDecode(bytes, pos, softEnd);
    if NoReject(ts) {
      DecodeConcat(bytes[..pos], bytes[pos..end]);
      assert bytes[..end] == bytes[..pos] + bytes[pos..end];
      NoteAllFacts(Chars(bytes[..pos]), Glyphs(ts));
    } else {
      DecodeConcat(bytes[..pos], bytes[pos..]);
      assert bytes == bytes[..pos] + bytes[pos..];
    }
  }

  // ── The copying sink ────────────────────────────────────────────

  /** Replaying the emit calls into a destination copies the source exactly and touches nothing past it. */
  method CopyRanges(dst: array<byte>, src: seq<byte>, ranges: seq<(nat, nat)>)
    requires |src| <= dst.Length && Tiles(ranges, |src|)
    modifies dst
    ensures dst[..|src|] == src
    ensures dst[|src|..] == old(dst[|src|..])
  {
    RangesChain(ranges, |src|);
    var done := 0;
    for r := 0 to |ranges|
      invariant done <= |src|
      invariant done == if r == 0 then 0 else ranges[r - 1].1
      invariant forall i :: 0 <= i < done ==> dst[i] == src[i]
      invariant forall i :: |src| <= i < dst.Length ==> dst[i] == old(dst[i])
    {
      var (start, end) := ranges[r];
      for i := start to end
        invariant forall k :: 0 <= k < i ==> dst[k] == src[k]
        invariant forall k :: |src| <= k < dst.Length ==> dst[k] == old(dst[k])
      {
        dst[i] := src[i];
      }
      done := end;
    }
  }

  /** Tiling, range by range: each begins where the one before it ended. */
  lemma {:induction false} RangesChain(ranges: seq<(nat, nat)>, end: nat)
    requires Tiles(ranges, end)
    ensures forall r :: 0 <= r < |ranges| ==> ranges[r].0 <= ranges[r].1 <= end
    ensures |ranges| > 0 ==> ranges[0].0 == 0
    ensures forall r :: 0 < r < |ranges| ==> ranges[r].0 == ranges[r - 1].1
    ensures end == if |ranges| == 0 then 0 else ranges[|ranges| - 1].1
  {
    if ranges != [] {
      var init := ranges[..|ranges| - 1];
      RangesChain(init, ranges[|ranges| - 1].0);
      forall r | 0 <= r < |ranges|
        ensures ranges[r].0 <= ranges[r].1 <= end
        ensures r == 0 ==> ranges[r].0 == 0
        ensures r > 0 ==> ranges[r].0 == ranges[r - 1].1
      {
        assert r < |init| ==> init[r] == ranges[r];
        assert r > 0 ==> init[r - 1] == ranges[r - 1];
      }
    }
  }

  /** Classify while copying: the answer of the pure walk, and every byte in place. */
  method ClassifyInto(dst: array<byte>, src: seq<byte>, block: nat) returns (t: Terminal, chars: nat)
    requires block > 0 && |src| <= dst.Length
    modifies dst
    ensures Classified(src, t, chars)
    ensures dst[..|src|] == src && dst[|src|..] == old(dst[|src|..])
  {
    var ranges;
    t, chars, ranges := ClassifyWalk(src, block);
    CopyRanges(dst, src, ranges);
  }

  // ── Already Rust-valid content ──────────────────────────────────

  function LeadCount(bytes: seq<byte>): nat {
    if bytes == [] then 0
    else LeadCount(bytes[..|bytes| - 1]) + (if IsContinuation(bytes[|bytes| - 1]) then 0 else 1)
  }

  lemma {:induction false} LeadCountConcat(a: seq<byte>, b: seq<byte>)
    ensures LeadCount(a + b) == LeadCount(a) + LeadCount(b)
  {
    if b == [] {
      assert a + b == a;
    } else {
      assert (a + b)[..|a + b| - 1] == a + b[..|b| - 1];
      LeadCountConcat(a, b[..|b| - 1]);
    }
  }

  lemma {:induction false} LeadCountOfTail(t: seq<byte>)
    requires AllContinuation(t)
    ensures LeadCount(t) == 0
  {
    if t != [] {
      LeadCountOfTail(t[..|t| - 1]);
    }
  }

  /** Counting bytes that are not continuation bytes counts characters. */
  lemma {:induction false} LeadCountIsCharCount(bytes: seq<byte>)
    requires Decodable(bytes)
    ensures LeadCount(bytes) == |Chars(bytes)|
    decreases |bytes|
  {
    hide DecodeAt, Encode, SeqLen;
    if bytes != [] {
      var len, c := DecodeAt(bytes, 0).len, DecodeAt(bytes, 0).value;
      DecodeAtIff(bytes, 0, len, c);
      var lead, tail := [bytes[0]], bytes[1..len];
      assert bytes[0..len] == Encode(c);
      assert bytes[0] == bytes[0..len][0];
      assert forall i :: 1 <= i < len ==> bytes[i] == bytes[0..len][i];
      LeadCountOfTail(tail);
      LeadCountConcat(lead, tail);
      assert LeadCount(lead) == LeadCount(lead[..0]) + 1;
      assert lead + tail == bytes[..len];
      LeadCountConcat(bytes[..len], bytes[len..]);
      assert bytes == bytes[..len] + bytes[len..];
      LeadCountIsCharCount(bytes[len..]);
    }
  }

  predicate HasWideLead(bytes: seq<byte>) {
    exists i :: 0 <= i < |bytes| && bytes[i] >= 0xC4
  }

  /** U+0100 begins at C4 80: a byte from C4 up occurs exactly when some character is past Latin-1. */
  lemma {:induction false} WideLeadIff(bytes: seq<byte>)
    requires Decodable(bytes)
    ensures HasWideLead(bytes) <==> exists i :: 0 <= i < |Chars(bytes)| && Chars(bytes)[i] > 0xFF
    decreases |bytes|
  {
    hide HasWideLead, DecodeAt, Encode;
    if bytes == [] {
      NoWideLead();
    } else {
      var len, c := DecodeAt(bytes, 0).len, DecodeAt(bytes, 0).value;
      var rest, cs := bytes[len..], Chars(bytes);
      FirstIsWide(bytes, len, c);
      WideLeadIff(rest);
      assert cs == [c] + Chars(rest) && cs[1..] == Chars(rest);
      WideFirst(bytes, len);
      WideCharFirst(cs);
    }
  }

  lemma NoWideLead()
    ensures !HasWideLead([])
  {}

  lemma FirstIsWide(bytes: seq<byte>, len: nat, c: CodePoint)
    requires bytes != [] && DecodeAt(bytes, 0) == Char(len, c)
    ensures 1 <= len <= |bytes| && (bytes[0] >= 0xC4 <==> c > 0xFF)
    ensures forall i :: 1 <= i < len ==> IsContinuation(bytes[i])
  {
    hide DecodeAt;
    DecodeAtIff(bytes, 0, len, c);
    assert bytes[0] == bytes[0..len][0];
    assert forall i :: 1 <= i < len ==> bytes[i] == bytes[0..len][i];
    WideEncode(c);
  }

  lemma WideEncode(c: CodePoint)
    ensures Encode(c)[0] >= 0xC4 <==> c > 0xFF
  {
    LeadOfEncode(c);
    TopSteps(c, SeqLen(c) - 1);
  }

  lemma WideFirst(bytes: seq<byte>, len: nat)
    requires 1 <= len <= |bytes| && forall i :: 1 <= i < len ==> IsContinuation(bytes[i])
    ensures HasWideLead(bytes) <==> bytes[0] >= 0xC4 || HasWideLead(bytes[len..])
  {
    var rest := bytes[len..];
    if i :| len <= i < |bytes| && bytes[i] >= 0xC4 {
      assert rest[i - len] >= 0xC4;
    }
    if i :| 0 <= i < |rest| && rest[i] >= 0xC4 {
      assert bytes[len + i] >= 0xC4;
    }
  }

  ghost predicate AnyWide(cs: seq<CodePoint>) {
    exists i :: 0 <= i < |cs| && cs[i] > 0xFF
  }

  lemma WideCharFirst(cs: seq<CodePoint>)
    requires cs != []
    ensures AnyWide(cs) <==> cs[0] > 0xFF || AnyWide(cs[1..])
  {
    if i :| 0 < i < |cs| && cs[i] > 0xFF {
      assert cs[1..][i - 1] > 0xFF;
    }
    if i :| 0 <= i < |cs| - 1 && cs[1..][i] > 0xFF {
      assert cs[i + 1] > 0xFF;
    }
  }

  /** The second exitless fold: whether a block holds a byte from C4 up. */
  method WideLeadGate(bytes: seq<byte>, from: nat, to: nat) returns (wide: bool)
    requires from <= to <= |bytes|
    ensures wide <==> HasWideLead(bytes[from..to])
  {
    wide := false;
    for i := from to to
      invariant wide <==> HasWideLead(bytes[from..i])
    {
      WideAppend(bytes[from..i], bytes[i]);
      assert bytes[from..i + 1] == bytes[from..i] + [bytes[i]];
      wide := wide || bytes[i] >= 0xC4;
    }
  }

  lemma WideAppend(s: seq<byte>, b: byte)
    ensures HasWideLead(s + [b]) <==> HasWideLead(s) || b >= 0xC4
  {
    assert (s + [b])[|s|] == b;
    assert forall i :: 0 <= i < |s| ==> (s + [b])[i] == s[i];
  }

  lemma WideConcat(a: seq<byte>, b: seq<byte>)
    ensures HasWideLead(a + b) <==> HasWideLead(a) || HasWideLead(b)
  {
    assert forall i :: 0 <= i < |a| ==> (a + b)[i] == a[i];
    assert forall i :: 0 <= i < |b| ==> (a + b)[|a| + i] == b[i];
  }

  method CountLeads(bytes: seq<byte>, from: nat, to: nat) returns (n: nat)
    requires from <= to <= |bytes|
    ensures n == LeadCount(bytes[from..to])
  {
    n := 0;
    for i := from to to
      invariant n == LeadCount(bytes[from..i])
    {
      assert bytes[from..i + 1][..i - from] == bytes[from..i];
      n := n + if IsContinuation(bytes[i]) then 0 else 1;
    }
  }

  ghost function RangeOf(bytes: seq<byte>): ValidRange {
    if AllAscii(bytes) then AsciiRange else if HasWideLead(bytes) then NonLatin1Range else Latin1Range
  }

  /** On Rust-valid bytes the byte-level range is the class. */
  lemma RangeIsClass(bytes: seq<byte>)
    requires Holds(ValidUtf8, bytes)
    ensures Decodable(bytes) && RangeOf(bytes).Widen() == ClassOf(bytes).Widen()
  {
    HoldsByClass(ValidUtf8, bytes);
    FactByClass(AllAsciiBytes, bytes);
    WideLeadIff(bytes);
    if AllAscii(bytes) {
      assert !HasWideLead(bytes);
    }
  }

  lemma AsciiCounts(block: seq<byte>)
    requires AllAscii(block)
    ensures LeadCount(block) == |block| && !HasWideLead(block)
  {
    DecodeAscii(block);
    LeadCountIsCharCount(block);
  }

  lemma PrefixBlock(bytes: seq<byte>, pos: nat, end: nat)
    requires pos <= end <= |bytes|
    ensures LeadCount(bytes[..end]) == LeadCount(bytes[..pos]) + LeadCount(bytes[pos..end])
    ensures HasWideLead(bytes[..end]) <==> HasWideLead(bytes[..pos]) || HasWideLead(bytes[pos..end])
    ensures AllAscii(bytes[..end]) <==> AllAscii(bytes[..pos]) && AllAscii(bytes[pos..end])
  {
    hide LeadCount, HasWideLead, AllAscii;
    var a, b := bytes[..pos], bytes[pos..end];
    assert bytes[..end] == a + b;
    LeadCountConcat(a, b);
    WideConcat(a, b);
    AsciiConcat(a, b);
  }

  lemma AsciiConcat(a: seq<byte>, b: seq<byte>)
    ensures AllAscii(a + b) <==> AllAscii(a) && AllAscii(b)
  {
    assert forall i :: 0 <= i < |b| ==> (a + b)[|a| + i] == b[i];
    assert forall i :: 0 <= i < |a| ==> (a + b)[i] == a[i];
  }

  /** The walker for bytes already known Rust-valid: it agrees with full classification but for a forfeited count. */
  method ClassifyKnownValid(bytes: seq<byte>, block: nat) returns (range: ValidRange, chars: nat)
    requires block > 0 && Holds(ValidUtf8, bytes)
    ensures range.Widen() == ClassOf(bytes).Widen()
    ensures chars == if range == NonLatin1Range then 0 else |Chars(bytes)|
  {
    hide DecodeAt, Decode, ClassOf, LeadCount;
    RangeIsClass(bytes);
    LeadCountIsCharCount(bytes);
    var sawHigh := false;
    chars := 0;
    var pos := 0;
    AsciiCounts(bytes[..0]);
    while pos < |bytes|
      invariant pos <= |bytes|
      invariant chars == LeadCount(bytes[..pos])
      invariant !HasWideLead(bytes[..pos])
      invariant !sawHigh <==> AllAscii(bytes[..pos])
    {
      var end := BlockEnd(pos, |bytes|, block);
      PrefixBlock(bytes, pos, end);
      PrefixBlock(bytes, end, |bytes|);
      assert bytes[..|bytes|] == bytes;
      var hi := HighBitGate(bytes, pos, end);
      if !hi {
        AsciiCounts(bytes[pos..end]);
        chars := chars + (end - pos);
        pos := end;
        continue;
      }
      var wide := WideLeadGate(bytes, pos, end);
      if wide {
        assert !AllAscii(bytes);
        return NonLatin1Range, 0;
      }
      sawHigh := true;
      var n := CountLeads(bytes, pos, end);
      chars := chars + n;
      pos := end;
    }
    assert bytes[..pos] == bytes;
    return if sawHigh then Latin1Range else AsciiRange, chars;
  }

  /** The copying twin cannot stop early, so its count is real in every class. */
  method ClassifyKnownValidInto(dst: array<byte>, src: seq<byte>, block: nat) returns (range: ValidRange, chars: nat)
    requires block > 0 && Holds(ValidUtf8, src) && |src| <= dst.Length
    modifies dst
    ensures range.Widen() == ClassOf(src).Widen() && chars == |Chars(src)|
    ensures dst[..|src|] == src && dst[|src|..] == old(dst[|src|..])
  {
    hide DecodeAt, Decode, ClassOf, LeadCount;
    RangeIsClass(src);
    LeadCountIsCharCount(src);
    range := AsciiRange;
    chars := 0;
    var pos := 0;
    AsciiCounts(src[..0]);
    while pos < |src|
      invariant pos <= |src|
      invariant chars == LeadCount(src[..pos])
      invariant range == NonLatin1Range <==> HasWideLead(src[..pos])
      invariant range == AsciiRange <==> AllAscii(src[..pos])
      invariant dst[..pos] == src[..pos]
      invariant dst[|src|..] == old(dst[|src|..])
    {
      var end := BlockEnd(pos, |src|, block);
      PrefixBlock(src, pos, end);
      for i := pos to end
        invariant dst[..i] == src[..i]
        invariant dst[|src|..] == old(dst[|src|..])
      {
        dst[i] := src[i];
      }
      var hi := HighBitGate(src, pos, end);
      if !hi {
        AsciiCounts(src[pos..end]);
        chars := chars + (end - pos);
        pos := end;
        continue;
      }
      if range != NonLatin1Range {
        var wide := WideLeadGate(src, pos, end);
        if wide {
          range := NonLatin1Range;
        }
      }
      if range != NonLatin1Range {
        range := Latin1Range;
      }
      var n := CountLeads(src, pos, end);
      chars := chars + n;
      pos := end;
    }
    assert src[..pos] == src;
  }

  // ── Births of views ─────────────────────────────────────────────

  const SLICE_EAGER_FLOOR := 4096
  const CLASSIFY_BLOCK := 16384

  /** The state a view is born with: the table's answer, or a full classification below the eager floor. */
  method ViewBirthState(parent: ScanState, bytes: seq<byte>, offset: nat, len: nat) returns (state: ScanState)
    requires offset + len <= |bytes| && Holds(parent, bytes)
    ensures Holds(state, Cut(bytes, offset, len))
       <==> len > 0 || CutIsClean(bytes, offset, len) || !CertifiesBeyondAscii(parent)
    ensures 0 < len < SLICE_EAGER_FLOOR ==> state == ClassOf(Cut(bytes, offset, len)).Widen()
  {
    hide Holds, ClassOf, Decode, SliceBirth, CutIsClean, CertifiesBeyondAscii, Cut;
    var cut := Cut(bytes, offset, len);
    state := SliceBirth(parent, CutIsClean(bytes, offset, len));
    SliceBirthSoundIff(parent, bytes, offset, len);
    DirtyBirth(parent);
    HoldsTerminal(AsciiClass, cut);
    HoldsTerminal(MalformedClass, cut);
    if len < SLICE_EAGER_FLOOR && state != Ascii && state != MalformedUtf8 {
      var t, _, _ := ClassifyWalk(cut, CLASSIFY_BLOCK);
      state := t.Widen();
      HoldsTerminal(t, cut);
    }
  }

  /** A terminal state is true of exactly the strings of its class. */
  lemma HoldsTerminal(t: Terminal, x: seq<byte>)
    ensures Holds(t.Widen(), x) <==> ClassOf(x) == t
  {
    HoldsByClass(t.Widen(), x);
  }

  lemma DirtyBirth(parent: ScanState)
    ensures CertifiesBeyondAscii(parent) ==> SliceBirth(parent, false) == MalformedUtf8
  {}
}
