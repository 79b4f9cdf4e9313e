/** What the scan state of a string becomes when valid text is appended to it, or when a range is cut out of it. */
module Transitions {
  import opened Wrappers
  import opened PerlUtf8
  import opened PerlText
  import opened Scan

  // ── Append ──────────────────────────────────────────────────────

  /** The range chain of Rust-valid content, in order. */
  datatype ValidRange = AsciiRange | Latin1Range | NonLatin1Range {
    function Widen(): ScanState {
      match this
      case AsciiRange => Ascii
      case Latin1Range => Utf8Latin1
      case NonLatin1Range => Utf8NonLatin1
    }

    function Rank(): nat {
      match this
      case AsciiRange => 0
      case Latin1Range => 1
      case NonLatin1Range => 2
    }

    function Join(other: ValidRange): ValidRange {
      if Rank() >= other.Rank() then this else other
    }
  }

  /** What is known of appended bytes: a range class with a character count, zero when none was kept, or nothing. */
  datatype AppendKind = Valid(range: ValidRange, chars: nat) | Nothing

  ghost predicate KindHolds(kind: AppendKind, bytes: seq<byte>) {
    match kind
    case Valid(range, chars) => Holds(range.Widen(), bytes) && (chars > 0 ==> Decodable(bytes) && chars == |Chars(bytes)|)
    case Nothing => true
  }

  function AppendTransition(prior: ScanState, kind: AppendKind): ScanState {
    match kind
    case Nothing => Unknown
    case Valid(range, _) =>
      if range == AsciiRange then prior
      else
        match prior
        case Ascii => AsciiRange.Join(range).Widen()
        case Utf8Latin1 => Latin1Range.Join(range).Widen()
        case Utf8NonLatin1 => NonLatin1Range.Join(range).Widen()
        case ValidUtf8 => if range == NonLatin1Range then Utf8NonLatin1 else Utf8NonAscii
        case Utf8NonAscii => if range == NonLatin1Range then Utf8NonLatin1 else Utf8NonAscii
        case ExtendedUtf8 => ExtendedUtf8
        case MaybeUtf8Latin1 => if range == NonLatin1Range then Utf8NonLatin1 else Utf8Latin1
        case MaybeExtendedUtf8 => MaybeExtendedUtf8
        case PerlValidNonAscii => PerlValidNonAscii
        case Unknown | MalformedUtf8 | NonAscii => Unknown
  }

  /** The count kept for the joined text, as the in-place append computes it. */
  function AppendChars(prior: ScanState, priorChars: nat, kind: AppendKind): nat {
    match kind
    case Valid(_, added) =>
      if priorChars > 0 && added > 0 && IsPerlDecodable(AppendTransition(prior, kind)) then priorChars + added else 0
    case Nothing => 0
  }

  /** The class of a concatenation of decodable texts is the higher of the two classes. */
  function ClassRank(t: Terminal): nat {
    match t
    case AsciiClass => 0
    case Latin1Class => 1
    case NonLatin1Class => 2
    case ExtendedClass => 3
    case MalformedClass => 4
  }

  lemma ClassOfConcat(x: seq<byte>, y: seq<byte>)
    requires Decodable(x) && Decodable(y)
    ensures Decodable(x + y)
    ensures ClassOf(x + y) == if ClassRank(ClassOf(x)) >= ClassRank(ClassOf(y)) then ClassOf(x) else ClassOf(y)
  {
    hide Decode, ClassOfChars;
    DecodeConcat(x, y);
    ClassOfCharsConcat(Chars(x), Chars(y));
  }

  lemma ClassOfCharsConcat(cs: seq<CodePoint>, ds: seq<CodePoint>)
    ensures var a, b := ClassOfChars(cs), ClassOfChars(ds);
            ClassOfChars(cs + ds) == if ClassRank(a) >= ClassRank(b) then a else b
  {
    var all := cs + ds;
    assert forall i :: 0 <= i < |cs| ==> all[i] == cs[i];
    assert forall i :: 0 <= i < |ds| ==> all[|cs| + i] == ds[i];
    assert forall i :: 0 <= i < |all| ==> all[i] == if i < |cs| then cs[i] else ds[i - |cs|];
  }

  /** No well-formed continuation makes malformed text well formed. */
  lemma MalformedStays(x: seq<byte>, y: seq<byte>)
    requires !Decodable(x) && Decodable(y)
    ensures !Decodable(x + y)
  {
    if Decodable(x + y) {
      if y != [] {
        var len, c := DecodeAt(y, 0).len, DecodeAt(y, 0).value;
        DecodeAtIff(y, 0, len, c);
        assert y[0] == y[0..len][0];
        assert (x + y)[|x|] == y[0];
      }
      assert (x + y)[..|x|] == x;
      CleanCut(x + y, |x|);
    }
  }

  /** The append table on classes: `joined` is the higher class, or malformed where the front is. */
  lemma AppendByClass(prior: ScanState, range: ValidRange, chars: nat, front: Terminal, added: Terminal, joined: Terminal)
    requires front in Allows(prior) && added in Allows(range.Widen())
    requires joined == if ClassRank(front) >= ClassRank(added) then front else added
    ensures joined in Allows(AppendTransition(prior, Valid(range, chars)))
  {}

  lemma RangeIsDecodable(range: ValidRange, y: seq<byte>)
    requires Holds(range.Widen(), y)
    ensures Decodable(y) && ClassOf(y) != MalformedClass
  {
    HoldsByClass(range.Widen(), y);
  }

  /** Appending keeps the state true of the joined text. */
  lemma AppendKeepsTruth(prior: ScanState, kind: AppendKind, x: seq<byte>, y: seq<byte>)
    requires Holds(prior, x) && KindHolds(kind, y)
    ensures Holds(AppendTransition(prior, kind), x + y)
  {
    hide Holds, Allows, AppendTransition, Decode;
    HoldsByClass(prior, x);
    HoldsByClass(AppendTransition(prior, kind), x + y);
    match kind
    case Nothing => UnknownAllows(prior, ClassOf(x + y));
    case Valid(range, chars) =>
      HoldsByClass(range.Widen(), y);
      RangeIsDecodable(range, y);
      if Decodable(x) {
        ClassOfConcat(x, y);
      } else {
        MalformedStays(x, y);
      }
      AppendByClass(prior, range, chars, ClassOf(x), ClassOf(y), ClassOf(x + y));
  }

  lemma UnknownAllows(prior: ScanState, t: Terminal)
    ensures t in Allows(AppendTransition(prior, Nothing))
  {}

  /** A count kept across an append is the count of the joined text. */
  lemma AppendKeepsCount(prior: ScanState, priorChars: nat, kind: AppendKind, x: seq<byte>, y: seq<byte>)
    requires Holds(prior, x) && KindHolds(kind, y)
    requires priorChars > 0 && Decodable(x) ==> priorChars == |Chars(x)|
    ensures var n := AppendChars(prior, priorChars, kind);
            n > 0 ==> Decodable(x + y) && n == |Chars(x + y)|
  {
    AppendKeepsTruth(prior, kind, x, y);
    if AppendChars(prior, priorChars, kind) > 0 {
      HoldsByClass(AppendTransition(prior, kind), x + y);
      HoldsByClass(kind.range.Widen(), y);
      if !Decodable(x) {
        MalformedStays(x, y);
      }
      DecodeConcat(x, y);
    }
  }

  // ── Slices ──────────────────────────────────────────────────────

  function Cut(parent: seq<byte>, offset: nat, len: nat): seq<byte>
    requires offset + len <= |parent|
  {
    parent[offset..offset + len]
  }

  /** Two continuation-byte tests, one at each end of the cut. */
  predicate CutIsClean(parent: seq<byte>, offset: nat, len: nat)
    requires offset + len <= |parent|
  {
    var startClean := offset == 0 || offset >= |parent| || !IsContinuation(parent[offset]);
    var end := offset + len;
    var endClean := end >= |parent| || !IsContinuation(parent[end]);
    startClean && endClean
  }

  function SliceBirth(parent: ScanState, clean: bool): ScanState {
    if !clean then
      match parent
      case Ascii => Ascii
      case Unknown | NonAscii | MalformedUtf8 => Unknown
      case _ => MalformedUtf8
    else
      match parent
      case Unknown => Unknown
      case Ascii => Ascii
      case Utf8Latin1 | MaybeUtf8Latin1 => MaybeUtf8Latin1
      case Utf8NonLatin1 | Utf8NonAscii | ValidUtf8 => ValidUtf8
      case ExtendedUtf8 | MaybeExtendedUtf8 | PerlValidNonAscii => MaybeExtendedUtf8
      case MalformedUtf8 | NonAscii => Unknown
  }

  /** For decodable text the two byte tests decide exactly whether a nonempty cut is decodable by itself. */
  lemma CleanIffDecodable(parent: seq<byte>, offset: nat, len: nat)
    requires Decodable(parent) && offset + len <= |parent| && len > 0
    ensures CutIsClean(parent, offset, len) <==> Decodable(Cut(parent, offset, len))
  {
    var end := offset + len;
    if CutIsClean(parent, offset, len) {
      if offset == 0 {
        assert parent[..] == parent[0..];
        DecodableStart(parent);
      }
      CleanCut(parent, offset);
      if end < |parent| {
        assert parent[offset..][len] == parent[end];
      }
      CleanCut(parent[offset..], len);
      assert parent[offset..][..len] == Cut(parent, offset, len);
    } else if IsContinuation(parent[offset]) {
      DirtyCut(parent, offset, offset, end);
    } else {
      DirtyCut(parent, offset, end, |parent|);
    }
  }

  lemma DecodableStart(bytes: seq<byte>)
    requires Decodable(bytes) && bytes != []
    ensures !IsContinuation(bytes[0])
  {}

  /** A clean piece of decodable text has no higher class than the whole. */
  lemma ClassOfPiece(parent: seq<byte>, offset: nat, len: nat)
    requires Decodable(parent) && offset + len <= |parent|
    requires CutIsClean(parent, offset, len) && len > 0
    ensures Decodable(Cut(parent, offset, len))
    ensures ClassRank(ClassOf(Cut(parent, offset, len))) <= ClassRank(ClassOf(parent))
  {
    var end := offset + len;
    var head, cut, tail := parent[..offset], Cut(parent, offset, len), parent[end..];
    DecodableStart(parent);
    CleanCut(parent, offset);
    CleanCut(parent, end);
    CleanIffDecodable(parent, offset, len);
    assert parent[..end] == head + cut;
    assert parent == parent[..end] + tail;
    ClassOfConcat(head, cut);
    ClassOfConcat(parent[..end], tail);
  }

  lemma PieceOfAscii(parent: seq<byte>, offset: nat, len: nat)
    requires offset + len <= |parent| && ClassOf(parent) == AsciiClass
    ensures ClassOf(Cut(parent, offset, len)) == AsciiClass
  {
    FactByClass(AllAsciiBytes, parent);
    FactByClass(AllAsciiBytes, Cut(parent, offset, len));
  }

  /** The states whose certificate a dirty cut disproves. */
  predicate CertifiesBeyondAscii(state: ScanState) {
    IsPerlDecodable(state) && state != Ascii
  }

  /**
    * The slice-birth table is sound: exactly when the cut is nonempty, or clean, or the parent's state certifies nothing
    * a dirty cut disproves.  The one unsound case is an empty cut inside a character, which the byte tests call dirty
    * and the table then calls malformed.
    */
  lemma SliceBirthSoundIff(state: ScanState, parent: seq<byte>, offset: nat, len: nat)
    requires offset + len <= |parent| && Holds(state, parent)
    ensures Holds(SliceBirth(state, CutIsClean(parent, offset, len)), Cut(parent, offset, len))
       <==> len > 0 || CutIsClean(parent, offset, len) || !CertifiesBeyondAscii(state)
  {
    var cut := Cut(parent, offset, len);
    var clean := CutIsClean(parent, offset, len);
    var birth := SliceBirth(state, clean);
    HoldsByClass(state, parent);
    HoldsByClass(birth, cut);
    if len == 0 {
      assert cut == [] && ClassOf([]) == AsciiClass;
    } else if ClassOf(parent) == AsciiClass {
      PieceOfAscii(parent, offset, len);
      CleanIffDecodable(parent, offset, len);
    } else if Decodable(parent) {
      CleanIffDecodable(parent, offset, len);
      if clean {
        ClassOfPiece(parent, offset, len);
      }
    }
  }

  /** An empty cut inside a two-byte character, where the birth state is false. */
  lemma EmptyDirtyCut()
    ensures var parent: seq<byte> := [0xC3, 0xA9];
            Holds(Utf8Latin1, parent) && SliceBirth(Utf8Latin1, CutIsClean(parent, 1, 0)) == MalformedUtf8
            && Decodable(Cut(parent, 1, 0))
  {
    var c: CodePoint := 0xE9;
    assert Top(c, 1) == 3;
    assert Tail(c, 1) == Tail(3, 0) + [0xA9];
    assert Encode(c) == [0xC3, 0xA9];
    DecodeSingle(c);
    assert [c][0] == 0xE9;
    HoldsByClass(Utf8Latin1, [0xC3, 0xA9]);
  }
}
