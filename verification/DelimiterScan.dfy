/**
  * Finding the close of a quote-like body.  The scan walks bytes with a partial-match index for each delimiter, reset to
  * zero on a mismatch; over whole characters that is exactly the search for the first unescaped, unnested close.
  */
module DelimiterScan {
  import opened PerlUtf8
  import opened Wrappers

  const Backslash: byte := 0x5C

  /** A byte of the text and the offset in the source it stands at. */
  datatype Tok = Tok(b: byte, at: nat)

  /** The close, and for paired delimiters the open that nests. */
  datatype Delims = Delims(open: Option<seq<byte>>, close: seq<byte>)

  predicate AreDelims(d: Delims) {
    d.close != [] && (d.open.Some? ==> d.open.value != [] && d.open.value != d.close)
  }

  predicate Escapes(d: Delims) {
    d.close != [Backslash]
  }

  function Matched(needle: seq<byte>, i: nat, b: byte): (r: nat)
    ensures r <= |needle|
  {
    if i < |needle| && b == needle[i] then i + 1 else 0
  }

  function MatchedOpen(d: Delims, j: nat, b: byte): nat {
    if d.open.Some? then Matched(d.open.value, j, b) else 0
  }

  // ── The byte walk ───────────────────────────────────────────────

  /** From partial matches `i` and `j` at a depth: the offset of the last byte of the close that ends the body. */
  function Walk(s: seq<Tok>, d: Delims, i: nat, j: nat, depth: nat): Option<nat>
    decreases |s|
  {
    if s == [] then None
    else if s[0].b == Backslash && Escapes(d) then Walk(if |s| >= 2 then s[2..] else [], d, 0, 0, depth)
    else
      var i', j' := Matched(d.close, i, s[0].b), MatchedOpen(d, j, s[0].b);
      if i' == |d.close| then (if depth == 0 then Some(s[0].at) else Walk(s[1..], d, 0, 0, depth - 1))
      else if d.open.Some? && j' == |d.open.value| then Walk(s[1..], d, 0, 0, depth + 1)
      else Walk(s[1..], d, i', j', depth)
  }

  // ── The search over characters ──────────────────────────────────

  type Unit = u: seq<Tok> | u != [] witness [Tok(0, 0)]

  function Bytes(u: seq<Tok>): (r: seq<byte>)
    ensures |r| == |u| && forall k :: 0 <= k < |u| ==> r[k] == u[k].b
  {
    seq(|u|, k requires 0 <= k < |u| => u[k].b)
  }

  /** A character's bytes stand together in the source. */
  predicate IsContiguous(u: Unit) {
    forall k :: 0 <= k < |u| ==> u[k].at == u[0].at + k
  }

  /** The offset where the body's close begins: the first that is neither escaped nor the close of a nested open. */
  function FindClose(units: seq<Unit>, d: Delims, depth: nat): Option<nat>
    decreases |units|
  {
    if units == [] then None
    else if Bytes(units[0]) == [Backslash] && Escapes(d) then
      FindClose(if |units| >= 2 then units[2..] else [], d, depth)
    else if Bytes(units[0]) == d.close then
      if depth == 0 then Some(units[0][0].at) else FindClose(units[1..], d, depth - 1)
    else if d.open.Some? && Bytes(units[0]) == d.open.value then FindClose(units[1..], d, depth + 1)
    else FindClose(units[1..], d, depth)
  }

  // ── What the close is ───────────────────────────────────────────

  predicate IsBackslash(units: seq<Unit>, k: nat)
    requires k < |units|
  {
    Bytes(units[k]) == [Backslash]
  }

  /** How many backslashes stand together just before `k`. */
  function BackslashesBefore(units: seq<Unit>, k: nat): nat
    requires k <= |units|
  {
    if k > 0 && IsBackslash(units, k - 1) then 1 + BackslashesBefore(units, k - 1) else 0
  }

  /** An odd run of backslashes protects the character after it, unless the delimiter is the backslash itself. */
  predicate IsEscaped(units: seq<Unit>, d: Delims, k: nat)
    requires k <= |units|
  {
    Escapes(d) && BackslashesBefore(units, k) % 2 == 1
  }

  predicate IsClose(units: seq<Unit>, d: Delims, k: nat)
    requires k < |units|
  {
    Bytes(units[k]) == d.close && !IsEscaped(units, d, k)
  }

  /** A backslash opens nothing where it escapes. */
  predicate IsOpen(units: seq<Unit>, d: Delims, k: nat)
    requires k < |units|
  {
    d.open == Some(Bytes(units[k])) && !IsEscaped(units, d, k) && !(Escapes(d) && IsBackslash(units, k))
  }

  function OpensBefore(units: seq<Unit>, d: Delims, k: nat): nat
    requires k <= |units|
  {
    if k == 0 then 0 else OpensBefore(units, d, k - 1) + if IsOpen(units, d, k - 1) then 1 else 0
  }

  function ClosesBefore(units: seq<Unit>, d: Delims, k: nat): nat
    requires k <= |units|
  {
    if k == 0 then 0 else ClosesBefore(units, d, k - 1) + if IsClose(units, d, k - 1) then 1 else 0
  }

  /** An unescaped close before which the unescaped opens and closes are as many. */
  predicate EndsBody(units: seq<Unit>, d: Delims, k: nat)
    requires k < |units|
  {
    IsClose(units, d, k) && OpensBefore(units, d, k) == ClosesBefore(units, d, k)
  }

  ghost predicate IsFirstEnd(units: seq<Unit>, d: Delims, k: nat) {
    k < |units| && EndsBody(units, d, k) && forall m :: 0 <= m < k ==> !EndsBody(units, d, m)
  }

  lemma EscapedNext(units: seq<Unit>, d: Delims, i: nat)
    requires i < |units| && !IsEscaped(units, d, i) && IsBackslash(units, i) && Escapes(d)
    ensures IsEscaped(units, d, i + 1) && !IsClose(units, d, i) && !IsOpen(units, d, i)
    ensures i + 1 < |units| ==> !IsEscaped(units, d, i + 2) && !IsClose(units, d, i + 1) && !IsOpen(units, d, i + 1)
  {}

  lemma PlainNext(units: seq<Unit>, d: Delims, i: nat)
    requires i < |units| && !IsEscaped(units, d, i) && !(IsBackslash(units, i) && Escapes(d))
    ensures !IsEscaped(units, d, i + 1)
    ensures IsClose(units, d, i) <==> Bytes(units[i]) == d.close
    ensures IsOpen(units, d, i) <==> d.open == Some(Bytes(units[i]))
  {}

  /** From an unescaped place at the depth the opens and closes before it leave, the search finds the first end. */
  lemma {:induction false} FindCloseFrom(units: seq<Unit>, d: Delims, i: nat, depth: nat)
    requires AreDelims(d) && i <= |units| && !IsEscaped(units, d, i)
    requires OpensBefore(units, d, i) == ClosesBefore(units, d, i) + depth
    requires forall m :: 0 <= m < i ==> !EndsBody(units, d, m)
    ensures match FindClose(units[i..], d, depth)
            case None => forall m :: 0 <= m < |units| ==> !EndsBody(units, d, m)
            case Some(at) => exists k: nat :: IsFirstEnd(units, d, k) && units[k][0].at == at
    decreases |units| - i
  {
    hide IsEscaped, IsClose, IsOpen, BackslashesBefore;
    var rest := units[i..];
    if i < |units| {
      assert rest[0] == units[i] && rest[1..] == units[i + 1..];
      if IsBackslash(units, i) && Escapes(d) {
        EscapedNext(units, d, i);
        if i + 1 < |units| {
          assert rest[2..] == units[i + 2..];
          assert OpensBefore(units, d, i + 2) == OpensBefore(units, d, i + 1) == OpensBefore(units, d, i);
          assert ClosesBefore(units, d, i + 2) == ClosesBefore(units, d, i + 1) == ClosesBefore(units, d, i);
          FindCloseFrom(units, d, i + 2, depth);
          assert FindClose(rest, d, depth) == FindClose(rest[2..], d, depth);
        } else {
          assert FindClose(rest, d, depth) == FindClose([], d, depth) == None;
        }
      } else {
        PlainNext(units, d, i);
        if IsClose(units, d, i) && depth == 0 {
          assert IsFirstEnd(units, d, i);
        } else {
          FindCloseFrom(units, d, i + 1, if IsClose(units, d, i) then depth - 1
                                         else if IsOpen(units, d, i) then depth + 1 else depth);
        }
      }
    }
  }

  /** The search finds the first unescaped close at which everything opened is closed, and nothing when there is none. */
  lemma FindCloseIff(units: seq<Unit>, d: Delims, at: nat)
    requires AreDelims(d)
    ensures FindClose(units, d, 0) == Some(at) <==> exists k: nat :: IsFirstEnd(units, d, k) && units[k][0].at == at
    ensures FindClose(units, d, 0).None? <==> forall k :: 0 <= k < |units| ==> !EndsBody(units, d, k)
  {
    hide EndsBody, FindClose;
    NothingBefore(units, d);
    assert units[0..] == units;
    FindCloseFrom(units, d, 0, 0);
  }

  lemma NothingBefore(units: seq<Unit>, d: Delims)
    ensures !IsEscaped(units, d, 0) && OpensBefore(units, d, 0) == ClosesBefore(units, d, 0) == 0
  {}

  /** A unit a needle cannot begin inside of, nor share all of its bytes with unless they are the same. */
  predicate Distinguishes(u: seq<byte>, needle: seq<byte>) {
    && u != [] && needle != []
    && (forall k :: 1 <= k < |u| ==> u[k] != needle[0])
    && (u != needle ==> !(u <= needle) && !(needle <= u))
  }

  predicate Distinct(u: seq<byte>, d: Delims) {
    && Distinguishes(u, d.close) && (d.open.Some? ==> Distinguishes(u, d.open.value))
    && Distinguishes(u, [Backslash])
  }

  ghost predicate AllDistinct(units: seq<Unit>, d: Delims) {
    forall k :: 0 <= k < |units| ==> IsContiguous(units[k]) && Distinct(Bytes(units[k]), d)
  }

  // ── A walk through one character ────────────────────────────────

  /** The partial match after `k` bytes of a character begun at zero. */
  function Partial(u: seq<byte>, needle: seq<byte>, k: nat): nat
    requires k <= |u|
  {
    if k <= |needle| && u[..k] == needle[..k] then k else 0
  }

  lemma PartialStep(u: seq<byte>, needle: seq<byte>, k: nat)
    requires k < |u| && Distinguishes(u, needle)
    ensures Matched(needle, Partial(u, needle, k), u[k]) == Partial(u, needle, k + 1)
    ensures Partial(u, needle, k + 1) == |needle| <==> k + 1 == |u| && u == needle
  {
    assert u[..k + 1] == u[..k] + [u[k]];
    if k < |needle| {
      assert needle[..k + 1] == needle[..k] + [needle[k]];
    }
    assert needle[..|needle|] == needle && u[..|u|] == u;
  }

  lemma PartialEnds(u: seq<byte>, needle: seq<byte>)
    requires Distinguishes(u, needle)
    ensures Partial(u, needle, |u|) == if u == needle then |u| else 0
  {
    assert u[..|u|] == u;
  }

  function PartialOpen(u: seq<byte>, d: Delims, k: nat): nat
    requires k <= |u|
  {
    if d.open.Some? then Partial(u, d.open.value, k) else 0
  }

  /** What the walk does once a whole character is behind it. */
  function AfterUnit(u: Unit, rest: seq<Tok>, d: Delims, depth: nat): Option<nat> {
    if Bytes(u) == d.close then (if depth == 0 then Some(u[|u| - 1].at) else Walk(rest, d, 0, 0, depth - 1))
    else if d.open.Some? && Bytes(u) == d.open.value then Walk(rest, d, 0, 0, depth + 1)
    else Walk(rest, d, 0, 0, depth)
  }

  lemma NoBackslashInside(u: seq<byte>, k: nat)
    requires Distinguishes(u, [Backslash]) && u != [Backslash] && k < |u|
    ensures u[k] != Backslash
  {
    assert u[0] == Backslash ==> [Backslash] <= u;
  }

  lemma {:induction false} WalkThrough(u: Unit, rest: seq<Tok>, d: Delims, depth: nat, k: nat)
    requires AreDelims(d) && Distinct(Bytes(u), d) && k < |u| && (Bytes(u) == [Backslash] ==> !Escapes(d))
    ensures Walk(u[k..] + rest, d, Partial(Bytes(u), d.close, k), PartialOpen(Bytes(u), d, k), depth) ==
            AfterUnit(u, rest, d, depth)
    decreases |u| - k
  {
    hide Partial, Distinguishes, Matched;
    var bytes, s := Bytes(u), u[k..] + rest;
    assert s[0] == u[k] && s[1..] == u[k + 1..] + rest;
    if bytes != [Backslash] {
      NoBackslashInside(bytes, k);
    }
    PartialStep(bytes, d.close, k);
    PartialEnds(bytes, d.close);
    if d.open.Some? {
      PartialStep(bytes, d.open.value, k);
      PartialEnds(bytes, d.open.value);
    }
    if k + 1 < |u| {
      WalkThrough(u, rest, d, depth, k + 1);
    } else {
      assert s[1..] == rest;
    }
  }

  /** The rest of an escaped character matches no delimiter. */
  lemma {:induction false} WalkPastTail(u: Unit, rest: seq<Tok>, d: Delims, depth: nat, k: nat)
    requires AreDelims(d) && Distinct(Bytes(u), d) && 1 <= k <= |u|
    ensures Walk(u[k..] + rest, d, 0, 0, depth) == Walk(rest, d, 0, 0, depth)
    decreases |u| - k
  {
    var s := u[k..] + rest;
    if k == |u| {
      assert s == rest;
    } else {
      assert s[0] == u[k] && s[1..] == u[k + 1..] + rest;
      assert Bytes(u)[k] == u[k].b;
      WalkPastTail(u, rest, d, depth, k + 1);
    }
  }

  /** Where the close ends, given where it begins. */
  function EndOf(d: Delims, begin: Option<nat>): Option<int> {
    if begin.Some? then Some(begin.value + |d.close| - 1) else None
  }

  /**
    * The byte walk finds the close the search over characters finds, and finds none when that finds none: resetting a
    * partial match to zero loses nothing.
    */
  lemma {:induction false} WalkFindsClose(units: seq<Unit>, d: Delims, depth: nat)
    requires AreDelims(d) && AllDistinct(units, d)
    ensures Walk(Flatten(units), d, 0, 0, depth) == EndOf(d, FindClose(units, d, depth))
    decreases |units|
  {
    hide Distinct, Distinguishes;
    if units != [] {
      var u, rest := units[0], Flatten(units[1..]);
      assert IsContiguous(u) && Distinct(Bytes(u), d);
      assert AllDistinct(units[1..], d);
      assert u[0..] + rest == Flatten(units);
      if Bytes(u) == [Backslash] && Escapes(d) {
        assert Flatten(units)[0] == u[0] && Flatten(units)[1..] == rest && Bytes(u)[0] == u[0].b;
        if |units| >= 2 {
          var v := units[1];
          assert units[1..][1..] == units[2..] && units[1..][0] == v;
          assert Flatten(units)[2..] == v[1..] + Flatten(units[2..]);
          WalkPastTail(v, Flatten(units[2..]), d, depth, 1);
          WalkFindsClose(units[2..], d, depth);
        }
      } else {
        WalkThrough(u, rest, d, depth, 0);
        WalkFindsClose(units[1..], d, if Bytes(u) == d.close && depth > 0 then depth - 1
                                      else if Bytes(u) != d.close && d.open == Some(Bytes(u)) then depth + 1 else depth);
      }
    }
  }

  // ── Characters and delimiters as the source encodes them ────────

  /** Under UTF-8 every character tells every delimiter apart: the lead byte settles the length. */
  lemma EncodedDistinguishes(c: CodePoint, delim: CodePoint)
    ensures Distinguishes(Encode(c), Encode(delim))
  {
    hide Encode, Lead, Top;
    LeadOfEncode(c);
    LeadOfEncode(delim);
    var u, needle := Encode(c), Encode(delim);
    if u <= needle || needle <= u {
      assert u[0] == needle[0];
      assert |u| == |needle|;
    }
  }

  lemma AsciiEncodesItself()
    ensures Encode(Backslash) == [Backslash]
  {
    assert Tail(Backslash, 0) == [];
  }

  /** A body of characters in UTF-8, scanned for encoded delimiters. */
  lemma EncodedTextIsDistinct(units: seq<Unit>, cs: seq<CodePoint>, d: Delims, close: CodePoint, open: Option<CodePoint>)
    requires |units| == |cs| && forall k :: 0 <= k < |cs| ==> IsContiguous(units[k]) && Bytes(units[k]) == Encode(cs[k])
    requires d == Delims(if open.Some? then Some(Encode(open.value)) else None, Encode(close))
    ensures AllDistinct(units, d)
  {
    hide Encode;
    AsciiEncodesItself();
    forall k | 0 <= k < |units|
      ensures Distinct(Bytes(units[k]), d)
    {
      EncodedDistinguishes(cs[k], close);
      EncodedDistinguishes(cs[k], Backslash);
      if open.Some? {
        EncodedDistinguishes(cs[k], open.value);
      }
    }
  }

  /** A body of bytes, scanned for one-byte delimiters. */
  lemma ByteTextIsDistinct(units: seq<Unit>, d: Delims, close: byte, open: Option<byte>)
    requires forall k :: 0 <= k < |units| ==> |units[k]| == 1
    requires d == Delims(if open.Some? then Some([open.value]) else None, [close])
    ensures AllDistinct(units, d)
  {
    forall k | 0 <= k < |units|
      ensures Distinct(Bytes(units[k]), d)
    {
      assert Bytes(units[k]) == [units[k][0].b];
    }
  }

  /** Without the reset losing nothing there would be one to find: a doubled lead byte hides the close behind it. */
  lemma ResetNeedsWholeCharacters()
    ensures var d := Delims(None, [0xC2, 0xAB]);
            Walk([Tok(0xC2, 0), Tok(0xC2, 1), Tok(0xAB, 2)], d, 0, 0, 0) == None
  {
    var d, c := Delims(None, [0xC2, 0xAB]), Tok(0xAB, 2);
    assert [Tok(0xC2, 0), Tok(0xC2, 1), c][1..] == [Tok(0xC2, 1), c] && [Tok(0xC2, 1), c][1..] == [c] && [c][1..] == [];
  }
}
