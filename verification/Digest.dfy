/**
  * The content digest's byte stream.  A hasher is what it is told: the sequence of `write` calls it receives.  Equal
  * strings issue the same calls, however their bytes arrive and whichever branch the scan state selects.
  */
module Digest {
  import opened Wrappers
  import opened PerlUtf8
  import opened PerlText
  import opened UpgradeText
  import opened Scan
  import opened Transitions
  import opened Classify
  import opened BlockedClassify
  import opened PackedCodec
  import opened Compare
  import opened Equality

  const FEED := 64

  /** A stream cut into sixty-four-byte writes, and one for what is left. */
  function Writes(stream: seq<byte>): seq<seq<byte>> {
    if stream == [] then []
    else if |stream| <= FEED then [stream]
    else [stream[..FEED]] + Writes(stream[FEED..])
  }

  ghost predicate AllFull(calls: seq<seq<byte>>) {
    forall i :: 0 <= i < |calls| ==> |calls[i]| == FEED
  }

  lemma WriteFirst(c: seq<byte>, s: seq<byte>)
    requires |c| == FEED
    ensures Writes(c + s) == [c] + Writes(s)
  {
    if s == [] {
      assert c + s == c;
    } else {
      assert (c + s)[..FEED] == c && (c + s)[FEED..] == s;
    }
  }

  /** Calls of sixty-four bytes each, but for the last, which may be shorter; none is empty. */
  ghost predicate Chunked(calls: seq<seq<byte>>) {
    forall i :: 0 <= i < |calls| ==> 0 < |calls[i]| <= 64 && (i < |calls| - 1 ==> |calls[i]| == 64)
  }

  /** The writes are the stream and nothing else, in chunks. */
  lemma {:induction false} WritesSpell(stream: seq<byte>)
    ensures Flatten(Writes(stream)) == stream && Chunked(Writes(stream))
    decreases |stream|
  {
    if |stream| > FEED {
      var first, rest := stream[..FEED], Writes(stream[FEED..]);
      WritesSpell(stream[FEED..]);
      assert Writes(stream) == [first] + rest && ([first] + rest)[1..] == rest;
      assert rest != [] by {
        assert stream[FEED..] != [];
      }
      assert forall i :: 0 <= i < |rest| ==> Writes(stream)[i + 1] == rest[i];
    } else if stream != [] {
      assert [stream][1..] == [];
      assert Flatten([stream]) == stream + [];
    }
  }

  /** A hasher is told the same exactly when the streams are the same. */
  lemma WritesTellApart(a: seq<byte>, b: seq<byte>)
    ensures Writes(a) == Writes(b) <==> a == b
  {
    hide Writes;
    WritesSpell(a);
    WritesSpell(b);
  }

  /** Full calls already issued and a short remainder are exactly the writes of the whole stream. */
  lemma {:induction false} WritesOf(calls: seq<seq<byte>>, rest: seq<byte>)
    requires AllFull(calls) && |rest| < FEED
    ensures Writes(Flatten(calls) + rest) == calls + Writes(rest)
    decreases |calls|
  {
    hide Writes;
    if calls == [] {
      assert Flatten(calls) + rest == rest && calls + Writes(rest) == Writes(rest);
    } else {
      WritesOf(calls[1..], rest);
      WriteFirst(calls[0], Flatten(calls[1..]) + rest);
      assert Flatten(calls) + rest == calls[0] + (Flatten(calls[1..]) + rest);
      assert calls == [calls[0]] + calls[1..];
      assert [calls[0]] + (calls[1..] + Writes(rest)) == calls + Writes(rest);
    }
  }

  /** Feeds one stream to a hasher in chunks that do not depend on how the bytes arrive. */
  class ChunkFeed {
    var calls: seq<seq<byte>>
    const buf: array<byte>
    var n: nat

    ghost predicate Valid()
      reads this, buf
    {
      buf.Length == FEED && n < FEED && AllFull(calls)
    }

    /** Everything fed so far. */
    ghost function Fed(): seq<byte>
      reads this, buf
      requires Valid()
    {
      Flatten(calls) + buf[..n]
    }

    constructor ()
      ensures Valid() && fresh(buf) && Fed() == []
    {
      calls, n := [], 0;
      buf := new byte[FEED](_ => 0);
    }

    method Push(b: byte)
      requires Valid()
      modifies this, buf
      ensures Valid() && Fed() == old(Fed()) + [b]
    {
      buf[n] := b;
      n := n + 1;
      assert buf[..n] == old(buf[..n]) + [b];
      if n == FEED {
        Flush();
      }
    }

    /** Hand the full buffer to the hasher. */
    method Flush()
      requires buf.Length == FEED && n == FEED && AllFull(calls)
      modifies this
      ensures Valid() && Fed() == old(Flatten(calls) + buf[..n])
    {
      var whole := buf[..];
      FlattenAppend(calls, whole);
      assert whole == buf[..n];
      calls, n := calls + [whole], 0;
      assert Fed() == Flatten(calls) + [];
    }

    method Extend(bytes: seq<byte>)
      requires Valid()
      modifies this, buf
      ensures Valid() && Fed() == old(Fed()) + bytes
    {
      hide Flatten;
      var rest := bytes;
      ghost var done: seq<byte> := [];
      assert Fed() == old(Fed()) + done;
      while rest != []
        invariant Valid()
        invariant bytes == done + rest
        invariant Fed() == old(Fed()) + done
        decreases |rest|
      {
        var take := if FEED - n <= |rest| then FEED - n else |rest|;
        ghost var held := buf[..n];
        forall k | 0 <= k < take {
          buf[n + k] := rest[k];
        }
        assert buf[..n + take] == held + rest[..take];
        assert Flatten(calls) + (held + rest[..take]) == Flatten(calls) + held + rest[..take];
        n := n + take;
        done, rest := done + rest[..take], rest[take..];
        if n == FEED {
          Flush();
        }
      }
    }

    /** The last partial write; what the hasher has now been told. */
    method Finish() returns (told: seq<seq<byte>>)
      requires Valid()
      ensures told == Writes(Fed())
      ensures Flatten(told) == Fed() && Chunked(told)
    {
      WritesOf(calls, buf[..n]);
      WritesSpell(Fed());
      return if n > 0 then calls + [buf[..n]] else calls;
    }
  }

  // ── The canonical stream ────────────────────────────────────────

  /** The downgraded form where there is one, otherwise the raw bytes. */
  ghost function Stream(utf8: bool, bytes: seq<byte>): seq<byte> {
    if utf8 && Decodable(bytes) && Downgradable(Chars(bytes)) then Chars(bytes) else bytes
  }

  /** Equal strings have one stream, across flags and storage. */
  lemma EqualStringsShareAStream(a: PString, b: PString)
    requires a.Valid() && b.Valid() && a.Key() == b.Key()
    ensures Stream(a.utf8, a.Bytes()) == Stream(b.utf8, b.Bytes())
  {
    hide Encode, EncodeAll, Decode;
    UpgradeDecodes(a.Bytes());
    UpgradeDecodes(b.Bytes());
  }

  /** What the unresolved branch records about the bytes it walked. */
  datatype Found = NoScan | Settled(state: ScanState, chars: nat)

  /** The class of the bytes and, where they decode, how many characters they are. */
  ghost predicate Settles(found: Found, bytes: seq<byte>) {
    found == Settled(ClassOf(bytes).Widen(), if Decodable(bytes) then |Chars(bytes)| else 0)
  }

  /** The digest's writes: one canonical stream, whichever branch the scan state takes. */
  method ContentDigest(utf8: bool, bytes: seq<byte>, state: ScanState, block: nat)
    returns (told: seq<seq<byte>>, found: Found)
    requires block > 0 && Holds(state, bytes)
    ensures told == Writes(Stream(utf8, bytes))
    ensures Flatten(told) == Stream(utf8, bytes) && Chunked(told)
    ensures found.NoScan? <==> !utf8 || IsTerminal(state)
    ensures found.Settled? ==> Settles(found, bytes)
  {
    hide Holds, Decode, Writes, Stream, Chunked, ClassOf;
    found := NoScan;
    WritesSpell(Stream(utf8, bytes));
    StreamByState(utf8, bytes, state);
    if !utf8 || state == Ascii || IsKnownBeyondLatin1(state) || state == MalformedUtf8 {
      var feed := new ChunkFeed();
      feed.Extend(bytes);
      assert [] + bytes == bytes;
      told := feed.Finish();
      return;
    }
    if state == Utf8Latin1 {
      told := DowngradedDigest(bytes);
      return;
    }
    told, found := DualDigest(bytes, block);
  }

  /** Which stream a state already settles. */
  lemma StreamByState(utf8: bool, bytes: seq<byte>, state: ScanState)
    requires Holds(state, bytes)
    ensures !utf8 || state == Ascii || IsKnownBeyondLatin1(state) || state == MalformedUtf8 ==> Stream(utf8, bytes) == bytes
    ensures utf8 && state == Utf8Latin1 ==>
              Decodable(bytes) && Downgradable(Chars(bytes)) && Stream(utf8, bytes) == Chars(bytes)
  {
    hide Decode;
    HoldsByClass(state, bytes);
    if state == Ascii {
      FactByClass(AllAsciiBytes, bytes);
      DecodeAscii(bytes);
    }
  }

  /** Known Latin-1: one pass over the characters, each downgraded. */
  method DowngradedDigest(bytes: seq<byte>) returns (told: seq<seq<byte>>)
    requires Decodable(bytes) && Downgradable(Chars(bytes))
    ensures told == Writes(Chars(bytes))
  {
    hide Decode, Writes, Tokens, TokensEnd, Glyphs, NoteAll;
    var feed := new ChunkFeed();
    var next, facts, tokens := DecodeSpanReporting(bytes, 0, |bytes|, NO_FACTS, true);
    assert bytes[0..] == bytes && bytes[0..|bytes|] == bytes;
    TokensAreDecode(bytes, 0, |bytes|);
    var down := PushAll(feed, tokens, true);
    assert [] + Glyphs(tokens) == Glyphs(tokens);
    told := feed.Finish();
  }

  /** Push each character that fits a byte, until one does not. */
  method PushAll(feed: ChunkFeed, tokens: seq<Token>, downgradable: bool) returns (still: bool)
    requires feed.Valid() && NoReject(tokens)
    modifies feed, feed.buf
    ensures feed.Valid()
    ensures still <==> downgradable && Downgradable(Glyphs(tokens))
    ensures still ==> feed.Fed() == old(feed.Fed()) + Glyphs(tokens)
  {
    hide ChunkFeed.Fed;
    still := downgradable;
    assert Glyphs(tokens[..0]) == [];
    for k := 0 to |tokens|
      invariant feed.Valid()
      invariant still <==> downgradable && Downgradable(Glyphs(tokens[..k]))
      invariant still ==> feed.Fed() == old(feed.Fed()) + Glyphs(tokens[..k])
    {
      var c := tokens[k].c;
      GlyphsAppend(tokens[..k], tokens[k]);
      assert tokens[..k + 1] == tokens[..k] + [tokens[k]];
      assert Glyphs(tokens[..k + 1]) == Glyphs(tokens[..k]) + [c];
      DowngradableAppend(Glyphs(tokens[..k]), c);
      if c > 0xFF {
        still := false;
      } else if still {
        feed.Push(c);
      }
    }
    assert tokens[..|tokens|] == tokens;
  }

  lemma DowngradableAppend(cs: seq<CodePoint>, c: CodePoint)
    ensures Downgradable(cs + [c]) <==> Downgradable(cs) && c <= 0xFF
  {
    assert (cs + [c])[|cs|] == c;
    assert forall i :: 0 <= i < |cs| ==> (cs + [c])[i] == cs[i];
  }

  lemma DowngradableConcat(a: seq<CodePoint>, b: seq<CodePoint>)
    ensures Downgradable(a + b) <==> Downgradable(a) && Downgradable(b)
  {
    assert forall i :: 0 <= i < |a| ==> (a + b)[i] == a[i];
    assert forall i :: 0 <= i < |b| ==> (a + b)[|a| + i] == b[i];
  }

  /** Both candidates stand at `pos`: the raw one always, the downgraded one while every character has fitted. */
  ghost predicate Abreast(raw: ChunkFeed, down: ChunkFeed, bytes: seq<byte>, pos: nat, downgradable: bool)
    requires pos <= |bytes|
    reads raw, raw.buf, down, down.buf
  {
    && raw != down && raw.buf != down.buf && raw.Valid() && down.Valid()
    && Decodable(bytes[..pos]) && raw.Fed() == bytes[..pos]
    && (downgradable <==> Downgradable(Chars(bytes[..pos])))
    && (downgradable ==> down.Fed() == Chars(bytes[..pos]))
  }

  /** A pure-ASCII block advances both candidates with the same bytes. */
  method FeedAscii(raw: ChunkFeed, down: ChunkFeed, bytes: seq<byte>, pos: nat, end: nat, downgradable: bool)
    requires pos <= end <= |bytes| && Abreast(raw, down, bytes, pos, downgradable) && AllAscii(bytes[pos..end])
    modifies raw, raw.buf, down, down.buf
    ensures Abreast(raw, down, bytes, end, downgradable)
  {
    hide Decode, ChunkFeed.Fed, Downgradable, AllAscii;
    AsciiBlock(bytes, pos, end);
    AsciiChars(bytes, pos, end);
    raw.Extend(bytes[pos..end]);
    if downgradable {
      down.Extend(bytes[pos..end]);
    }
  }

  /** A decoded span advances the raw candidate by its bytes and the downgraded one by its characters. */
  method FeedSpan(raw: ChunkFeed, down: ChunkFeed, bytes: seq<byte>, pos: nat, ghost softEnd: nat, next: nat,
                  tokens: seq<Token>, downgradable: bool)
    returns (still: bool)
    requires pos <= softEnd <= |bytes| && Abreast(raw, down, bytes, pos, downgradable)
    requires tokens == Tokens(bytes, pos, softEnd) && next == TokensEnd(bytes, pos, softEnd)
    requires NoReject(tokens) && Decodable(bytes[..next])
    modifies raw, raw.buf, down, down.buf
    ensures Abreast(raw, down, bytes, next, still)
  {
    hide Decode, Tokens, TokensEnd, Glyphs, ChunkFeed.Fed, NoReject, Downgradable;
    SpanChars(bytes, pos, softEnd);
    DowngradableConcat(Chars(bytes[..pos]), Glyphs(tokens));
    still := PushAll(down, tokens, downgradable);
    raw.Extend(bytes[pos..next]);
    assert bytes[..pos] + bytes[pos..next] == bytes[..next];
  }

  /** Decode a span with high bytes and feed both candidates, or find the text malformed and feed neither. */
  method FeedDecoded(raw: ChunkFeed, down: ChunkFeed, bytes: seq<byte>, pos: nat, softEnd: nat, facts: ScanFacts, downgradable: bool)
    returns (next: Option<nat>, facts': ScanFacts, still: bool)
    requires pos < softEnd <= |bytes| && Abreast(raw, down, bytes, pos, downgradable)
    requires facts == FactsOf(Chars(bytes[..pos]))
    requires raw != down && raw.buf != down.buf
    modifies raw, down, raw.buf, down.buf
    ensures next.None? ==> !Decodable(bytes) && Abreast(raw, down, bytes, pos, downgradable)
    ensures next.Some? ==> pos < next.value <= |bytes| && Abreast(raw, down, bytes, next.value, still)
    ensures next.Some? ==> facts' == FactsOf(Chars(bytes[..next.value]))
  {
    hide Decode, Tokens, TokensEnd, FactsOf, Glyphs, NoReject, ChunkFeed.Fed, Downgradable;
    var tokens;
    next, facts', tokens := DecodeSpanReporting(bytes, pos, softEnd, facts, true);
    SpanDecoded(bytes, pos, softEnd, facts);
    still := downgradable;
    if next.Some? {
      still := FeedSpan(raw, down, bytes, pos, softEnd, next.value, tokens, downgradable);
    }
  }

  /**
    * Unresolved content: both candidate streams advance together, the downgraded one until a character past U+00FF
    * ends it, and the end of the data picks the winner.
    */
  method DualDigest(bytes: seq<byte>, block: nat) returns (told: seq<seq<byte>>, found: Found)
    requires block > 0
    ensures told == Writes(Stream(true, bytes)) && Flatten(told) == Stream(true, bytes)
    ensures Settles(found, bytes)
  {
    hide Decode, Writes, Tokens, TokensEnd, FactsOf, ClassOfChars, Holds, Glyphs, ChunkFeed.Fed, NoReject, Downgradable, AllAscii, Stream, Chunked, Flatten;
    var raw := new ChunkFeed();
    var down := new ChunkFeed();
    var downgradable := true;
    var facts := NO_FACTS;
    var pos := 0;
    NothingWalked(bytes);
    NothingDecoded(bytes);
    while pos < |bytes|
      invariant pos <= |bytes| && Abreast(raw, down, bytes, pos, downgradable)
      invariant facts == FactsOf(Chars(bytes[..pos]))
      invariant fresh(raw) && fresh(down) && fresh(raw.buf) && fresh(down.buf)
    {
      var softEnd := BlockEnd(pos, |bytes|, block);
      var hi := HighBitGate(bytes, pos, softEnd);
      if !hi {
        AsciiBlock(bytes, pos, softEnd);
        FeedAscii(raw, down, bytes, pos, softEnd, downgradable);
        facts := facts.(chars := facts.chars + (softEnd - pos));
        pos := softEnd;
        continue;
      }
      var next;
      next, facts, downgradable := FeedDecoded(raw, down, bytes, pos, softEnd, facts, downgradable);
      if next.None? {
        raw.Extend(bytes[pos..]);
        assert bytes[..pos] + bytes[pos..] == bytes;
        MalformedStream(bytes);
        told := raw.Finish();
        WritesSpell(Stream(true, bytes));
        return told, Settled(MalformedUtf8, 0);
      }
      pos := next.value;
    }
    assert bytes[..pos] == bytes;
    StateOfFacts(Chars(bytes));
    CountOfFacts(Chars(bytes));
    SettledStream(bytes);
    if downgradable {
      told := down.Finish();
    } else {
      told := raw.Finish();
    }
    WritesSpell(Stream(true, bytes));
    found := Settled(facts.State().Widen(), facts.chars);
  }

  lemma NothingDecoded(bytes: seq<byte>)
    ensures bytes[..0] == [] && Decodable([]) && Chars([]) == [] && Downgradable([])
  {}

  /** An ASCII block's characters are its bytes, and all of them fit. */
  lemma AsciiChars(bytes: seq<byte>, pos: nat, end: nat)
    requires pos <= end <= |bytes| && Decodable(bytes[..pos]) && Decodable(bytes[..end]) && AllAscii(bytes[pos..end])
    ensures bytes[..end] == bytes[..pos] + bytes[pos..end]
    ensures Chars(bytes[..end]) == Chars(bytes[..pos]) + bytes[pos..end]
    ensures Downgradable(Chars(bytes[..end])) <==> Downgradable(Chars(bytes[..pos]))
  {
    hide Decode;
    assert bytes[..end] == bytes[..pos] + bytes[pos..end];
    DecodeAscii(bytes[pos..end]);
    DecodeConcat(bytes[..pos], bytes[pos..end]);
    DowngradableConcat(Chars(bytes[..pos]), bytes[pos..end]);
  }

  lemma SpanChars(bytes: seq<byte>, pos: nat, softEnd: nat)
    requires pos <= softEnd <= |bytes| && Decodable(bytes[..pos])
    requires NoReject(Tokens(bytes, pos, softEnd)) && Decodable(bytes[..TokensEnd(bytes, pos, softEnd)])
    ensures Chars(bytes[..TokensEnd(bytes, pos, softEnd)]) == Chars(bytes[..pos]) + Glyphs(Tokens(bytes, pos, softEnd))
  {
    hide Decode, Tokens, TokensEnd, Glyphs;
    var end := TokensEnd(bytes, pos, softEnd);
    TokensAreDecode(bytes, pos, softEnd);
    assert bytes[..end] == bytes[..pos] + bytes[pos..end];
    DecodeConcat(bytes[..pos], bytes[pos..end]);
  }

  lemma MalformedStream(bytes: seq<byte>)
    requires !Decodable(bytes)
    ensures Stream(true, bytes) == bytes && Holds(MalformedUtf8, bytes)
  {}

  lemma SettledStream(bytes: seq<byte>)
    requires Decodable(bytes)
    ensures Stream(true, bytes) == if Downgradable(Chars(bytes)) then Chars(bytes) else bytes
    ensures Holds(ClassOfChars(Chars(bytes)).Widen(), bytes)
  {
    hide Decode;
    HoldsByClass(ClassOf(bytes).Widen(), bytes);
  }

  /** Equal strings tell a hasher the same thing, whatever true states they carry and however either is flagged. */
  method EqualStringsDigestAlike(a: PString, sa: ScanState, b: PString, sb: ScanState, block: nat)
    returns (x: seq<seq<byte>>, y: seq<seq<byte>>)
    requires block > 0 && a.Valid() && b.Valid() && Holds(sa, a.Bytes()) && Holds(sb, b.Bytes())
    ensures a.Key() == b.Key() ==> x == y
    ensures x == y <==> Stream(a.utf8, a.Bytes()) == Stream(b.utf8, b.Bytes())
    ensures Flatten(x) == Stream(a.utf8, a.Bytes()) && Flatten(y) == Stream(b.utf8, b.Bytes())
  {
    hide Holds, Writes, Stream, PString.Key, Chunked;
    WritesTellApart(Stream(a.utf8, a.Bytes()), Stream(b.utf8, b.Bytes()));
    var found;
    x, found := ContentDigest(a.utf8, AsBytes(a), sa, block);
    y, found := ContentDigest(b.utf8, AsBytes(b), sb, block);
    if a.Key() == b.Key() {
      EqualStringsShareAStream(a, b);
    }
  }
}
