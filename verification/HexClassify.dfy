/** Recognizing a hex spelling, and what survives the trip through its payload. */
module HexClassifier {
  import opened Wrappers
  import opened Nibbles
  import opened HexCodec

  predicate IsLower(b: byte) {
    0x61 <= b <= 0x66
  }

  predicate IsUpper(b: byte) {
    0x41 <= b <= 0x46
  }

  function HexValue(b: byte): (v: Option<nibble>)
    ensures v.Some? ==> b == DigitChar(IsUpper(b), v.value)
    ensures v.None? ==> forall upper, n: nibble :: DigitChar(upper, n) != b
  {
    if 0x30 <= b <= 0x39 then Some(b - 0x30)
    else if IsLower(b) then Some(b - 0x61 + 10)
    else if IsUpper(b) then Some(b - 0x41 + 10)
    else None
  }

  predicate AllHex(ls: seq<byte>) {
    forall d :: 0 <= d < |ls| ==> HexValue(ls[d]).Some?
  }

  ghost predicate AnyLower(ls: seq<byte>) {
    exists d :: 0 <= d < |ls| && IsLower(ls[d])
  }

  ghost predicate AnyUpper(ls: seq<byte>) {
    exists d :: 0 <= d < |ls| && IsUpper(ls[d])
  }

  /** The digits a payload holds are these characters. */
  predicate Carries(payload: Payload, ls: seq<byte>) {
    && |ls| <= HEX_MAX_DIGITS && AllHex(ls)
    && (forall d :: 0 <= d < |ls| ==> NibbleAt(payload, d) == HexValue(ls[d]).value)
    && (forall d :: |ls| <= d < NIBBLES ==> NibbleAt(payload, d) == 0)
  }

  /** One lookahead decides the format. */
  function FormatOf(bytes: seq<byte>): HexFormat
    requires |bytes| >= 3
  {
    if bytes[0] == 0x30 && bytes[1] == 0x78 then PrefixOnce
    else
      match bytes[2]
      case 0x3A => Colon
      case 0x2D => Hyphen
      case 0x20 => Space
      case _ => Plain
  }

  /** The text is a layout of digits, or a layout of whole pairs with one separator more. */
  ghost predicate ReadsAs(bytes: seq<byte>, format: HexFormat, ls: seq<byte>, trailing: bool) {
    if trailing then
      && format.Separator().Some? && |ls| > 0 && |ls| % 2 == 0 && bytes != []
      && bytes[|bytes| - 1] == format.Separator().value && Lays(bytes[..|bytes| - 1], format, ls)
    else Lays(bytes, format, ls)
  }

  /** The lookahead cannot mistake one format's rendering for another's. */
  lemma LookaheadIsRight(bytes: seq<byte>, format: HexFormat, ls: seq<byte>, trailing: bool)
    requires ReadsAs(bytes, format, ls, trailing) && AllHex(ls) && |ls| >= 3
    ensures |bytes| >= 3 && FormatOf(bytes) == format
  {
    var laid := if trailing then bytes[..|bytes| - 1] else bytes;
    LaysAt(laid, format, ls);
    assert CharAt(laid, Offset(format, 0), ls[0]) && CharAt(laid, Offset(format, 1), ls[1]);
    assert CharAt(laid, Offset(format, 2), ls[2]);
    assert HexValue(ls[0]).Some? && HexValue(ls[1]).Some? && HexValue(ls[2]).Some?;
  }

  // ── Why a rejected character rules out every reading ────────────

  /** No reading in this format matches the text. */
  ghost predicate NoReading(bytes: seq<byte>, format: HexFormat) {
    forall ls: seq<byte>, trailing :: AllHex(ls) && |ls| <= HEX_MAX_DIGITS ==> !ReadsAs(bytes, format, ls, trailing)
  }

  /** A text reaching to where a separator would stand before digit `d` has it there, as its last character if need be. */
  lemma SeparatorThere(bytes: seq<byte>, format: HexFormat, ls: seq<byte>, trailing: bool, d: nat)
    requires ReadsAs(bytes, format, ls, trailing) && format.Separator().Some? && d > 0 && d % 2 == 0
    requires Offset(format, d) - 1 < |bytes|
    ensures CharAt(bytes, Offset(format, d) - 1, format.Separator().value)
  {
    hide Lays, AllHex, Offset, Owed, LaidLen;
    OneMoreDigit(format, d);
    LongEnough(bytes, format, ls, trailing, d);
    ReadsAsAt(bytes, format, ls, trailing);
  }

  lemma NotASeparator(bytes: seq<byte>, format: HexFormat, d: nat)
    requires format.Separator().Some? && d > 0 && d % 2 == 0
    requires Offset(format, d) - 1 < |bytes| && bytes[Offset(format, d) - 1] != format.Separator().value
    ensures NoReading(bytes, format)
  {
    hide ReadsAs, AllHex, Offset;
    forall ls: seq<byte>, trailing | AllHex(ls) && ReadsAs(bytes, format, ls, trailing)
      ensures CharAt(bytes, Offset(format, d) - 1, format.Separator().value)
    {
      SeparatorThere(bytes, format, ls, trailing, d);
    }
  }

  /** A text reaching to where digit `d` or its separator would stand has that digit, unless it ends right there. */
  lemma LongEnough(bytes: seq<byte>, format: HexFormat, ls: seq<byte>, trailing: bool, d: nat)
    requires Offset(format, d) - |Owed(format, d)| < |bytes|
    ensures ReadsAs(bytes, format, ls, trailing) ==>
              d < |ls| || (trailing && d == |ls| && Offset(format, d) == |bytes|)
  {
    ReadsAsAt(bytes, format, ls, trailing);
  }

  /** What a reading puts where. */
  lemma ReadsAsAt(bytes: seq<byte>, format: HexFormat, ls: seq<byte>, trailing: bool)
    ensures ReadsAs(bytes, format, ls, trailing) ==>
              && |bytes| == LaidLen(format, |ls|) + (if trailing then 1 else 0)
              && (forall d :: 0 <= d < |ls| ==> CharAt(bytes, Offset(format, d), ls[d]))
              && (format.Separator().Some? ==> forall d :: 0 < d < |ls| && d % 2 == 0 ==>
                    CharAt(bytes, Offset(format, d) - 1, format.Separator().value))
  {
    if ReadsAs(bytes, format, ls, trailing) {
      var laid := if trailing then bytes[..|bytes| - 1] else bytes;
      LaysAt(laid, format, ls);
      assert forall i, b :: CharAt(laid, i, b) ==> CharAt(bytes, i, b);
    }
  }

  lemma NotADigit(bytes: seq<byte>, format: HexFormat, d: nat)
    requires Offset(format, d) < |bytes|
    requires d >= HEX_MAX_DIGITS || HexValue(bytes[Offset(format, d)]).None?
    ensures NoReading(bytes, format)
  {
    forall ls: seq<byte>, trailing | AllHex(ls) && |ls| <= HEX_MAX_DIGITS
      ensures !ReadsAs(bytes, format, ls, trailing)
    {
      LongEnough(bytes, format, ls, trailing, d);
      ReadsAsAt(bytes, format, ls, trailing);
    }
  }

  /** A text has one reading. */
  lemma OneReading(bytes: seq<byte>, format: HexFormat, ls: seq<byte>, t: bool, ms: seq<byte>, u: bool)
    requires ReadsAs(bytes, format, ls, t) && ReadsAs(bytes, format, ms, u)
    ensures ls == ms && t == u
  {
    hide Lays, LaidLen, Offset, CharAt;
    ReadsAsAt(bytes, format, ls, t);
    ReadsAsAt(bytes, format, ms, u);
    if t == u {
      var laid := if t then bytes[..|bytes| - 1] else bytes;
      LayoutDecides(laid, laid, format, ls, ms);
    } else if t {
      NoLoneSeparator(format, |ls|, |ms|);
    } else {
      NoLoneSeparator(format, |ms|, |ls|);
    }
  }

  /** A separator is never the last character of a layout. */
  lemma NoLoneSeparator(format: HexFormat, n: nat, m: nat)
    requires format.Separator().Some? && n > 0 && n % 2 == 0
    ensures LaidLen(format, m) != LaidLen(format, n) + 1
  {
    hide HexFormat.Separator;
    HalfOf(n - 1, n / 2 - 1);
    if m > n {
      HalfAtLeast(m - 1, n / 2);
    } else if m > 0 {
      HalfAtMost(m - 1, n / 2 - 1);
    }
  }

  lemma HalfOf(a: nat, k: nat)
    requires a == 2 * k + 1
    ensures a / 2 == k
  {}

  lemma HalfAtLeast(a: nat, k: nat)
    requires a >= 2 * k
    ensures a / 2 >= k
  {}

  lemma HalfAtMost(a: nat, k: nat)
    requires a <= 2 * k + 1
    ensures a / 2 <= k
  {}

  // ── The digit walk ──────────────────────────────────────────────

  datatype Reading = Reading(payload: Payload, digits: nat, sawLower: bool, sawUpper: bool)

  /** The reading so far is of exactly these characters. */
  ghost predicate Tracks(r: Reading, ls: seq<byte>) {
    && r.digits == |ls| && Carries(r.payload, ls)
    && (r.sawLower <==> AnyLower(ls)) && (r.sawUpper <==> AnyUpper(ls))
  }

  function Note(r: Reading, b: byte): Reading
    requires HexValue(b).Some? && r.digits < HEX_MAX_DIGITS
  {
    Reading(SetNibble(r.payload, r.digits, HexValue(b).value), r.digits + 1, r.sawLower || IsLower(b), r.sawUpper || IsUpper(b))
  }

  lemma NoteTracks(r: Reading, ls: seq<byte>, b: byte)
    requires Tracks(r, ls) && HexValue(b).Some? && r.digits < HEX_MAX_DIGITS
    ensures Tracks(Note(r, b), ls + [b])
  {
    hide NibbleAt, SetNibble, HexValue;
    var more := ls + [b];
    assert more[|ls|] == b;
    assert forall d :: 0 <= d < |ls| ==> more[d] == ls[d];
    assert forall d :: 0 <= d < |more| ==> more[d] == if d < |ls| then ls[d] else b;
  }

  /** A group is two digits, or one where an odd count ends the string. */
  method ReadPair(bytes: seq<byte>, format: HexFormat, ghost start: nat, at: nat, read: Reading, ghost before: seq<byte>)
    returns (ok: bool, i: nat, r: Reading, ghost ls: seq<byte>)
    requires start <= at <= |bytes| && Lays(bytes[..start], format, before) && Tracks(read, before)
    requires bytes[..at] == bytes[..start] + Owed(format, |before|) && read.digits % 2 == 0
    ensures !ok ==> NoReading(bytes, format)
    ensures ok ==> at <= i <= |bytes| && Tracks(r, ls)
    ensures ok && at == |bytes| ==> i == at && ls == before
    ensures ok && at < |bytes| ==> at < i && Lays(bytes[..i], format, ls) && (i < |bytes| ==> |ls| % 2 == 0)
  {
    hide NibbleAt, Lays, NoReading, HexValue, Tracks, Note;
    i, r, ls := at, read, before;
    var inPair := 0;
    assert at == Offset(format, |before|) && r.digits == |ls| by {
      LaidAt(bytes, format, start, at, read, before);
    }
    while inPair < 2 && i < |bytes|
      invariant 0 <= inPair <= 2 && i == at + inPair <= |bytes|
      invariant Tracks(r, ls) && r.digits == |ls| == |before| + inPair
      invariant inPair == 0 ==> i == at && ls == before
      invariant inPair > 0 ==> Lays(bytes[..i], format, ls)
      invariant inPair < 2 ==> i == Offset(format, |ls|)
    {
      if HexValue(bytes[i]).None? || r.digits >= HEX_MAX_DIGITS {
        NotADigit(bytes, format, r.digits);
        return false, i, r, ls;
      }
      ghost var laid := if inPair == 0 then bytes[..start] else bytes[..i];
      LayOneMore(laid, format, ls, bytes[i]);
      assert bytes[..i + 1] == laid + Owed(format, |ls|) + [bytes[i]];
      NoteTracks(r, ls, bytes[i]);
      assert Note(r, bytes[i]).digits == r.digits + 1 by {
        NoteCounts(r, bytes[i]);
      }
      r, ls := Note(r, bytes[i]), ls + [bytes[i]];
      i, inPair := i + 1, inPair + 1;
    }
    ok := true;
  }

  lemma NoteCounts(r: Reading, b: byte)
    requires HexValue(b).Some? && r.digits < HEX_MAX_DIGITS
    ensures Note(r, b).digits == r.digits + 1
  {}

  lemma LaidAt(bytes: seq<byte>, format: HexFormat, start: nat, at: nat, read: Reading, before: seq<byte>)
    requires start <= at <= |bytes| && Lays(bytes[..start], format, before) && Tracks(read, before)
    requires bytes[..at] == bytes[..start] + Owed(format, |before|) && read.digits % 2 == 0
    ensures read.digits == |before| && at == Offset(format, |before|)
  {
    assert |bytes[..at]| == |bytes[..start]| + |Owed(format, |before|)|;
  }

  /**
    * Read the digits of `bytes` in a known format.  Between pairs stands exactly one separator; a separator after the
    * last pair is consumed without a digit to follow it.
    */
  method ReadDigits(bytes: seq<byte>, format: HexFormat)
    returns (ok: bool, r: Reading, ghost ls: seq<byte>, ghost trailing: bool)
    requires |bytes| >= PrefixLen(format)
    requires format == PrefixOnce ==> bytes[0] == 0x30 && bytes[1] == 0x78
    ensures !ok ==> NoReading(bytes, format)
    ensures ok ==> ReadsAs(bytes, format, ls, trailing) && Tracks(r, ls)
  {
    hide NibbleAt, Lays, NoReading, HexValue, Tracks;
    var separator := format.Separator();
    var i := PrefixLen(format);
    r, ls, trailing := Reading(ZERO, 0, false, false), [], false;
    LaysNothing(bytes[..i], format);
    TracksNothing();
    while i < |bytes|
      invariant PrefixLen(format) <= i <= |bytes|
      invariant trailing ==> i == |bytes|
      invariant ReadsAs(bytes[..i], format, ls, trailing) && Tracks(r, ls)
      invariant i < |bytes| ==> |ls| % 2 == 0
      decreases |bytes| - i
    {
      ghost var start := i;
      var digits := r.digits;
      assert digits == |ls| && start == LaidLen(format, digits) by {
        LaidStart(bytes, format, start, r, ls);
      }
      if digits > 0 && separator.Some? {
        if bytes[i] != separator.value {
          NotASeparator(bytes, format, digits);
          return false, r, ls, trailing;
        }
        i := i + 1;
      }
      assert bytes[..i] == bytes[..start] + Owed(format, digits);
      var ok', i', r';
      ghost var ls';
      ok', i', r', ls' := ReadPair(bytes, format, start, i, r, ls);
      if !ok' {
        return false, r, ls, trailing;
      }
      if i == |bytes| {
        trailing := true;
        assert bytes[..i][..|bytes[..i]| - 1] == bytes[..start];
      }
      i, r, ls := i', r', ls';
    }
    assert bytes[..i] == bytes;
    ok := true;
  }

  lemma TracksNothing()
    ensures Tracks(Reading(ZERO, 0, false, false), [])
  {}

  lemma LaidStart(bytes: seq<byte>, format: HexFormat, start: nat, r: Reading, ls: seq<byte>)
    requires start <= |bytes| && Lays(bytes[..start], format, ls) && Tracks(r, ls)
    ensures r.digits == |ls| && start == LaidLen(format, |ls|)
  {}

  // ── Classification ──────────────────────────────────────────────

  /** The text is what the payload renders, or that and one separator more. */
  ghost predicate Denotes(bytes: seq<byte>, p: Payload, trailing: bool) {
    ReadsAs(bytes, Variation(p).0, Letters(p), trailing)
  }

  /** The length band the ladder hands to the family. */
  predicate InBand(bytes: seq<byte>) {
    MIN_LEN <= |bytes| <= HEX_MAX_LEN
  }

  /** Classification finds the canonical payload of every spelling in the band, and nothing else. */
  method ClassifyHex(bytes: seq<byte>) returns (r: Option<Payload>)
    ensures r.Some? ==> InBand(bytes) && Canonical(r.value) && exists trailing :: Denotes(bytes, r.value, trailing)
    ensures forall p, trailing :: InBand(bytes) && Canonical(p) && Denotes(bytes, p, trailing) ==> r == Some(p)
  {
    hide NibbleAt, Lays, HexValue, Canonical, Carries, Variation, Letters, ReadsAs, Tracks;
    if |bytes| < MIN_LEN || |bytes| > HEX_MAX_LEN {
      return None;
    }
    var format := FormatOf(bytes);
    ghost var ls, trailing;
    var ok, read;
    ok, read, ls, trailing := ReadDigits(bytes, format);
    if !ok {
      NoPayload(bytes, format);
      return None;
    }
    ReadingBounds(read, ls);
    OnlyPayload(bytes, format, ls, trailing);
    if read.sawLower && read.sawUpper {
      return None;
    }
    var code := LengthCode(read.digits);
    if code.None? {
      return None;
    }
    var payload := SetNibble(read.payload, HEX_LENGTH_NIBBLE, code.value);
    payload := SetNibble(payload, HEX_VARIATION_NIBBLE, format.Code() + if read.sawUpper then 8 else 0);
    r := Some(payload);
    PayloadOf(payload, format, read, ls, code.value);
    assert Denotes(bytes, payload, trailing);
    forall p, t | Canonical(p) && Denotes(bytes, p, t)
      ensures p == payload
    {
      SameLetters(p, payload);
    }
  }

  lemma ReadingBounds(read: Reading, ls: seq<byte>)
    requires Tracks(read, ls)
    ensures read.digits == |ls| <= HEX_MAX_DIGITS
    ensures (read.sawLower <==> AnyLower(ls)) && (read.sawUpper <==> AnyUpper(ls))
  {}

  lemma LettersAreHex(p: Payload)
    ensures AllHex(Letters(p)) && 12 <= |Letters(p)| <= HEX_MAX_DIGITS
    ensures AnyUpper(Letters(p)) ==> Variation(p).1
    ensures AnyLower(Letters(p)) ==> !Variation(p).1
    ensures Canonical(p) ==> (Variation(p).1 <==> AnyUpper(Letters(p)))
  {
    hide NibbleAt, Variation;
    forall d | 0 <= d < |Letters(p)|
      ensures HexValue(Letters(p)[d]) == Some(NibbleAt(p, d))
    {
      var n := NibbleAt(p, d);
    }
    if Canonical(p) && Variation(p).1 {
      var d :| 0 <= d < Digits(p) && d < HEX_MAX_DIGITS && NibbleAt(p, d) >= 10;
      assert IsUpper(Letters(p)[d]);
    }
  }

  lemma NoPayload(bytes: seq<byte>, format: HexFormat)
    requires |bytes| >= MIN_LEN && format == FormatOf(bytes) && NoReading(bytes, format)
    ensures forall p, trailing :: !Denotes(bytes, p, trailing)
  {
    hide Lays, HexValue, Variation, FormatOf, ReadsAs;
    forall p, trailing
      ensures !Denotes(bytes, p, trailing)
    {
      LettersAreHex(p);
      if Denotes(bytes, p, trailing) {
        LookaheadIsRight(bytes, Variation(p).0, Letters(p), trailing);
      }
    }
  }

  /** Whatever payload denotes the text holds the digits just read. */
  lemma OnlyPayload(bytes: seq<byte>, format: HexFormat, ls: seq<byte>, trailing: bool)
    requires |bytes| >= MIN_LEN && format == FormatOf(bytes) && ReadsAs(bytes, format, ls, trailing)
    ensures forall p, t :: Denotes(bytes, p, t) ==> t == trailing && Variation(p).0 == format && Letters(p) == ls
    ensures forall p, t :: Denotes(bytes, p, t) ==> LengthCode(|ls|).Some? && !(AnyLower(ls) && AnyUpper(ls))
  {
    hide Lays, HexValue, Variation, FormatOf, Letters, ReadsAs;
    forall p, t | Denotes(bytes, p, t)
      ensures t == trailing && Variation(p).0 == format && Letters(p) == ls
      ensures LengthCode(|ls|).Some? && !(AnyLower(ls) && AnyUpper(ls))
    {
      LettersAreHex(p);
      LookaheadIsRight(bytes, Variation(p).0, Letters(p), t);
      OneReading(bytes, format, Letters(p), t, ls, trailing);
      DigitCountIsCoded(p);
    }
  }

  lemma DigitCountIsCoded(p: Payload)
    ensures LengthCode(|Letters(p)|).Some?
  {}

  /** The payload assembled from a reading renders its digits, and is canonical. */
  lemma PayloadOf(payload: Payload, format: HexFormat, read: Reading, ls: seq<byte>, code: nibble)
    requires Tracks(read, ls) && LengthCode(|ls|) == Some(code) && !(read.sawLower && read.sawUpper)
    requires forall d :: 0 <= d < HEX_MAX_DIGITS ==> NibbleAt(payload, d) == NibbleAt(read.payload, d)
    requires NibbleAt(payload, HEX_LENGTH_NIBBLE) == code
    requires NibbleAt(payload, HEX_VARIATION_NIBBLE) == format.Code() + (if read.sawUpper then 8 else 0)
    ensures Variation(payload) == (format, read.sawUpper) && Letters(payload) == ls && Canonical(payload)
  {
    hide NibbleAt;
    var upper := read.sawUpper;
    assert Digits(payload) == |ls|;
    forall d | 0 <= d < |ls|
      ensures Letters(payload)[d] == ls[d]
    {
      assert HexValue(ls[d]).Some? && (IsUpper(ls[d]) ==> upper) && (IsLower(ls[d]) ==> !upper);
    }
    if upper {
      var d :| 0 <= d < |ls| && IsUpper(ls[d]);
      assert NibbleAt(payload, d) >= 10;
    }
  }

  /** A canonical payload is settled by its format and its digit characters. */
  lemma SameLetters(p: Payload, q: Payload)
    requires Canonical(p) && Canonical(q) && Variation(p).0 == Variation(q).0 && Letters(p) == Letters(q)
    ensures p == q
  {
    LettersAreHex(p);
    LettersAreHex(q);
    assert Variation(p).1 == Variation(q).1;
    assert |Letters(p)| == Digits(p) && |Letters(q)| == Digits(q);
    SameVariation(NibbleAt(p, HEX_VARIATION_NIBBLE), NibbleAt(q, HEX_VARIATION_NIBBLE));
    forall d | 0 <= d < NIBBLES
      ensures NibbleAt(p, d) == NibbleAt(q, d)
    {
      if d < Digits(p) {
        assert Letters(p)[d] == Letters(q)[d];
      }
    }
    SameNibbles(p, q);
  }

  lemma SameVariation(v: nibble, w: nibble)
    requires v % 8 <= 4 && w % 8 <= 4 && v % 8 == w % 8 && v / 8 == w / 8
    ensures v == w
  {}

  // ── Round trips ─────────────────────────────────────────────────

  predicate EndsInSeparator(bytes: seq<byte>) {
    |bytes| >= 3 && Some(bytes[|bytes| - 1]) == FormatOf(bytes).Separator()
  }

  lemma TrailingIff(bytes: seq<byte>, p: Payload, trailing: bool)
    requires Denotes(bytes, p, trailing)
    ensures trailing <==> EndsInSeparator(bytes)
  {
    hide Variation, Letters, NibbleAt;
    var format, ls := Variation(p).0, Letters(p);
    LettersAreHex(p);
    LookaheadIsRight(bytes, format, ls, trailing);
    if !trailing {
      LaysAt(bytes, format, ls);
      assert CharAt(bytes, Offset(format, |ls| - 1), ls[|ls| - 1]);
      assert HexValue(ls[|ls| - 1]).Some?;
    }
  }

  /**
    * Classify, then decode.  An accepted text comes back exactly when it does not end in a separator; otherwise what
    * comes back is the text without it.
    */
  method ClassifyThenDecode(bytes: seq<byte>) returns (r: Option<seq<byte>>)
    ensures r.None? && InBand(bytes) ==> forall p, trailing :: Canonical(p) ==> !Denotes(bytes, p, trailing)
    ensures r.Some? ==> (r.value == bytes <==> !EndsInSeparator(bytes))
    ensures r.Some? && EndsInSeparator(bytes) ==> r.value == bytes[..|bytes| - 1]
  {
    hide Variation, Letters, NibbleAt, Lays, Canonical;
    var c := ClassifyHex(bytes);
    if c.None? {
      return None;
    }
    var p := c.value;
    ghost var trailing :| Denotes(bytes, p, trailing);
    TrailingIff(bytes, p, trailing);
    var out := new byte[HEX_MAX_LEN];
    var n := DecodeHex(p, out);
    r := Some(out[..n]);
    LayoutDecides(if trailing then bytes[..|bytes| - 1] else bytes, r.value, Variation(p).0, Letters(p), Letters(p));
  }

  /** Decode, then classify: the identity on canonical payloads whose rendering is in the band. */
  method DecodeThenClassify(p: Payload) returns (r: Option<Payload>)
    requires Canonical(p)
    ensures RenderedLen(p) >= MIN_LEN ==> r == Some(p)
    ensures RenderedLen(p) < MIN_LEN ==> r == None
  {
    hide Variation, Letters, NibbleAt, Lays, Canonical;
    var out := new byte[HEX_MAX_LEN];
    var n := DecodeHex(p, out);
    assert Denotes(out[..n], p, false);
    r := ClassifyHex(out[..n]);
  }

  /** A text that is accepted and does not come back: six pairs, each followed by a colon. */
  method TrailingColonIsLost() returns (bytes: seq<byte>, r: Option<seq<byte>>)
    ensures |bytes| == 18 && r == Some(bytes[..17])
  {
    var p := SetNibble(ZERO, HEX_VARIATION_NIBBLE, 1);
    var out := new byte[HEX_MAX_LEN];
    var n := DecodeHex(p, out);
    bytes := out[..n] + [0x3A];
    r := ClassifyThenDecode(bytes);
    TwelveZeros(p);
    assert bytes[..|bytes| - 1] == out[..n];
    assert Denotes(bytes, p, true);
    TrailingIff(bytes, p, true);
  }

  lemma TwelveZeros(p: Payload)
    requires forall d :: 0 <= d < NIBBLES ==> NibbleAt(p, d) == if d == HEX_VARIATION_NIBBLE then 1 else 0
    ensures Variation(p) == (Colon, false) && |Letters(p)| == 12 && RenderedLen(p) == 17 && Canonical(p)
  {}
}
