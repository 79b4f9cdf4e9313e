/**
  * The twelve-state scan lattice.  A state is a set of certified facts about a string's bytes; `Holds` says when all of
  * them are true.  Full classification distinguishes five terminal classes, and every fact is decided by the class,
  * so a state means the set of classes it still allows.
  */
module Scan {
  import opened Wrappers
  import opened PerlUtf8
  import opened PerlText

  datatype ScanState =
    | Unknown
    | PerlValidNonAscii
    | Ascii
    | Utf8Latin1
    | MaybeUtf8Latin1
    | Utf8NonLatin1
    | ValidUtf8
    | Utf8NonAscii
    | ExtendedUtf8
    | MaybeExtendedUtf8
    | MalformedUtf8
    | NonAscii

  datatype Fact =
    | RustValid
    | PerlValid
    | AllLe00FF
    | ContainsGe0080
    | ContainsGe0100
    | RustInvalid
    | Malformed
    | HighBit
    | AllAsciiBytes

  /** A code point Rust's `char` can hold. */
  predicate RustScalar(c: nat) {
    c <= 0x10_FFFF && !(0xD800 <= c <= 0xDFFF)
  }

  // ── What a fact says of the bytes ───────────────────────────────

  ghost predicate FactHolds(f: Fact, bytes: seq<byte>) {
    match f
    case RustValid => Decodable(bytes) && forall i :: 0 <= i < |Chars(bytes)| ==> RustScalar(Chars(bytes)[i])
    case PerlValid => Decodable(bytes)
    case AllLe00FF => Decodable(bytes) && forall i :: 0 <= i < |Chars(bytes)| ==> Chars(bytes)[i] <= 0xFF
    case ContainsGe0080 => Decodable(bytes) && exists i :: 0 <= i < |Chars(bytes)| && Chars(bytes)[i] >= 0x80
    case ContainsGe0100 => Decodable(bytes) && exists i :: 0 <= i < |Chars(bytes)| && Chars(bytes)[i] >= 0x100
    case RustInvalid => Decodable(bytes) && exists i :: 0 <= i < |Chars(bytes)| && !RustScalar(Chars(bytes)[i])
    case Malformed => !Decodable(bytes)
    case HighBit => exists i :: 0 <= i < |bytes| && bytes[i] >= 0x80
    case AllAsciiBytes => AllAscii(bytes)
  }

  /** The assertion set of a state. */
  function Facts(state: ScanState): set<Fact> {
    match state
    case Unknown => {}
    case PerlValidNonAscii => {PerlValid, HighBit}
    case Ascii => {RustValid, PerlValid, AllLe00FF, AllAsciiBytes}
    case Utf8Latin1 => {RustValid, PerlValid, AllLe00FF, ContainsGe0080}
    case MaybeUtf8Latin1 => {RustValid, PerlValid, AllLe00FF}
    case Utf8NonLatin1 => {RustValid, PerlValid, ContainsGe0100}
    case ValidUtf8 => {RustValid, PerlValid}
    case Utf8NonAscii => {RustValid, PerlValid, ContainsGe0080}
    case ExtendedUtf8 => {PerlValid, RustInvalid}
    case MaybeExtendedUtf8 => {PerlValid}
    case MalformedUtf8 => {Malformed}
    case NonAscii => {HighBit}
  }

  ghost predicate Holds(state: ScanState, bytes: seq<byte>) {
    forall f :: f in Facts(state) ==> FactHolds(f, bytes)
  }

  // ── The terminal classes ────────────────────────────────────────

  datatype Terminal = AsciiClass | Latin1Class | NonLatin1Class | ExtendedClass | MalformedClass {
    function Widen(): ScanState {
      match this
      case AsciiClass => Ascii
      case Latin1Class => Utf8Latin1
      case NonLatin1Class => Utf8NonLatin1
      case ExtendedClass => ExtendedUtf8
      case MalformedClass => MalformedUtf8
    }
  }

  predicate IsTerminal(state: ScanState) {
    state in {Ascii, Utf8Latin1, Utf8NonLatin1, ExtendedUtf8, MalformedUtf8}
  }

  predicate IsRustValid(state: ScanState) {
    state in {Ascii, Utf8Latin1, MaybeUtf8Latin1, Utf8NonLatin1, ValidUtf8, Utf8NonAscii}
  }

  predicate IsPerlDecodable(state: ScanState) {
    IsRustValid(state) || state in {ExtendedUtf8, MaybeExtendedUtf8, PerlValidNonAscii}
  }

  predicate IsKnownNonAscii(state: ScanState) {
    state !in {Unknown, Ascii, ValidUtf8, MaybeUtf8Latin1, MaybeExtendedUtf8}
  }

  predicate IsKnownBeyondLatin1(state: ScanState) {
    state in {Utf8NonLatin1, ExtendedUtf8}
  }

  /** The one class a string falls in, read off the plain decode. */
  ghost function ClassOf(bytes: seq<byte>): Terminal {
    if !Decodable(bytes) then MalformedClass
    else ClassOfChars(Chars(bytes))
  }

  ghost function ClassOfChars(cs: seq<CodePoint>): Terminal {
    if exists i :: 0 <= i < |cs| && !RustScalar(cs[i]) then ExtendedClass
    else if exists i :: 0 <= i < |cs| && cs[i] > 0xFF then NonLatin1Class
    else if exists i :: 0 <= i < |cs| && cs[i] >= 0x80 then Latin1Class
    else AsciiClass
  }

  /** Which classes a fact is true of. */
  function TrueOf(f: Fact): set<Terminal> {
    match f
    case RustValid => {AsciiClass, Latin1Class, NonLatin1Class}
    case PerlValid => {AsciiClass, Latin1Class, NonLatin1Class, ExtendedClass}
    case AllLe00FF => {AsciiClass, Latin1Class}
    case ContainsGe0080 => {Latin1Class, NonLatin1Class, ExtendedClass}
    case ContainsGe0100 => {NonLatin1Class, ExtendedClass}
    case RustInvalid => {ExtendedClass}
    case Malformed => {MalformedClass}
    case HighBit => {Latin1Class, NonLatin1Class, ExtendedClass, MalformedClass}
    case AllAsciiBytes => {AsciiClass}
  }

  /** The classes a state allows. */
  function Allows(state: ScanState): set<Terminal> {
    match state
    case Unknown => {AsciiClass, Latin1Class, NonLatin1Class, ExtendedClass, MalformedClass}
    case PerlValidNonAscii => {Latin1Class, NonLatin1Class, ExtendedClass}
    case Ascii => {AsciiClass}
    case Utf8Latin1 => {Latin1Class}
    case MaybeUtf8Latin1 => {AsciiClass, Latin1Class}
    case Utf8NonLatin1 => {NonLatin1Class}
    case ValidUtf8 => {AsciiClass, Latin1Class, NonLatin1Class}
    case Utf8NonAscii => {Latin1Class, NonLatin1Class}
    case ExtendedUtf8 => {ExtendedClass}
    case MaybeExtendedUtf8 => {AsciiClass, Latin1Class, NonLatin1Class, ExtendedClass}
    case MalformedUtf8 => {MalformedClass}
    case NonAscii => {Latin1Class, NonLatin1Class, ExtendedClass, MalformedClass}
  }

  ghost predicate AnyHigh(s: seq<int>) {
    exists i :: 0 <= i < |s| && s[i] >= 0x80
  }

  lemma AnyHighFirst(s: seq<int>)
    requires s != []
    ensures AnyHigh(s) <==> s[0] >= 0x80 || AnyHigh(s[1..])
  {
    if i :| 0 < i < |s| && s[i] >= 0x80 {
      assert s[1..][i - 1] >= 0x80;
    }
    if i :| 0 <= i < |s| - 1 && s[1..][i] >= 0x80 {
      assert s[i + 1] >= 0x80;
    }
  }

  /** Decodable text has a high byte exactly when it has a character past ASCII. */
  lemma {:induction false} HighByteIff(bytes: seq<byte>)
    requires Decodable(bytes)
    ensures AnyHigh(bytes) <==> AnyHigh(Chars(bytes))
    decreases |bytes|
  {
    if bytes != [] {
      var len, c := DecodeAt(bytes, 0).len, DecodeAt(bytes, 0).value;
      HighByteIff(bytes[len..]);
      assert Chars(bytes)[1..] == Chars(bytes[len..]);
      AnyHighFirst(bytes);
      AnyHighFirst(Chars(bytes));
      DecodeAtIff(bytes, 0, len, c);
      LeadOfEncode(c);
      assert bytes[0] == bytes[0..len][0];
    }
  }

  /** A fact is true of a string exactly when it is true of the string's class. */
  lemma FactByClass(f: Fact, bytes: seq<byte>)
    ensures FactHolds(f, bytes) <==> ClassOf(bytes) in TrueOf(f)
  {
    if Decodable(bytes) {
      HighByteIff(bytes);
      assert AnyHigh(bytes) <==> FactHolds(HighBit, bytes);
    } else if AllAscii(bytes) {
      DecodeAscii(bytes);
    }
  }

  lemma HoldsByClass(state: ScanState, bytes: seq<byte>)
    ensures Holds(state, bytes) <==> ClassOf(bytes) in Allows(state)
  {
    forall f {
      FactByClass(f, bytes);
    }
    AllowsIsConjunction(state, ClassOf(bytes));
  }

  lemma AllowsIsConjunction(state: ScanState, t: Terminal)
    ensures t in Allows(state) <==> forall f :: f in Facts(state) ==> t in TrueOf(f)
  {
    var fs := Facts(state);
    assert fs == {} || AllAsciiBytes in fs || RustInvalid in fs || Malformed in fs || ContainsGe0100 in fs
        || (AllLe00FF in fs && ContainsGe0080 in fs) || fs == {HighBit} || fs == {PerlValid}
        || fs == {PerlValid, HighBit} || fs == {RustValid, PerlValid} || fs == {RustValid, PerlValid, AllLe00FF}
        || fs == {RustValid, PerlValid, ContainsGe0080};
  }
}
