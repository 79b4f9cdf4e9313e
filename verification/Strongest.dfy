/** How much the transition tables keep: when a new state is the strongest of the lattice that is sure to be true. */
module StrongestTransitions {
  import opened Wrappers
  import opened PerlUtf8
  import opened PerlText
  import opened Scan
  import opened ScanMeet
  import opened Transitions

  ghost predicate Entails(a: ScanState, b: ScanState) {
    forall z :: Holds(a, z) ==> Holds(b, z)
  }

  lemma EntailsByClass(a: ScanState, b: ScanState)
    ensures Entails(a, b) <==> Allows(a) <= Allows(b)
  {
    hide Allows, Holds;
    forall t
      ensures Entails(a, b) && t in Allows(a) ==> t in Allows(b)
    {
      WitnessClass(t);
      HoldsByClass(a, Witness(t));
      HoldsByClass(b, Witness(t));
    }
    forall z
      ensures Allows(a) <= Allows(b) && Holds(a, z) ==> Holds(b, z)
    {
      HoldsByClass(a, z);
      HoldsByClass(b, z);
    }
  }

  // ── Append ──────────────────────────────────────────────────────

  /** Sure to be true once text of a range has been appended to text of the prior state. */
  ghost predicate TrueAfterAppend(prior: ScanState, range: ValidRange, s: ScanState) {
    forall x, y :: Holds(prior, x) && Holds(range.Widen(), y) ==> Holds(s, x + y)
  }

  function RangeClass(range: ValidRange): Terminal {
    match range
    case AsciiRange => AsciiClass
    case Latin1Range => Latin1Class
    case NonLatin1Range => NonLatin1Class
  }

  function Higher(a: Terminal, b: Terminal): Terminal {
    if ClassRank(a) >= ClassRank(b) then a else b
  }

  lemma ClassOfAppend(x: seq<byte>, range: ValidRange, y: seq<byte>)
    requires ClassOf(y) == RangeClass(range)
    ensures ClassOf(x + y) == Higher(ClassOf(x), RangeClass(range))
  {
    hide Decode, ClassOfChars;
    if Decodable(x) {
      ClassOfConcat(x, y);
    } else {
      MalformedStays(x, y);
    }
  }

  /** Appending raises each class a prior allows, and any of them may be the one that occurs. */
  lemma JoinsOccur(prior: ScanState, range: ValidRange, s: ScanState)
    ensures TrueAfterAppend(prior, range, s) <==>
            forall t :: t in Allows(prior) ==> Higher(t, RangeClass(range)) in Allows(s)
  {
    hide ClassOf, Holds, Witness, Higher, Allows;
    WidenAllows(range);
    forall t
      ensures TrueAfterAppend(prior, range, s) && t in Allows(prior) ==> Higher(t, RangeClass(range)) in Allows(s)
    {
      var x, y := Witness(t), Witness(RangeClass(range));
      WitnessClass(t);
      WitnessClass(RangeClass(range));
      HoldsByClass(prior, x);
      HoldsByClass(range.Widen(), y);
      HoldsByClass(s, x + y);
      ClassOfAppend(x, range, y);
    }
    forall x, y | Holds(prior, x) && Holds(range.Widen(), y)
      ensures (forall t :: t in Allows(prior) ==> Higher(t, RangeClass(range)) in Allows(s)) ==> Holds(s, x + y)
    {
      HoldsByClass(prior, x);
      HoldsByClass(range.Widen(), y);
      HoldsByClass(s, x + y);
      ClassOfAppend(x, range, y);
    }
  }

  lemma WidenAllows(range: ValidRange)
    ensures Allows(range.Widen()) == {RangeClass(range)}
  {}

  /** What the table keeps is all there is to keep, of ASCII appended and of priors that settle decoding and Rust validity. */
  predicate KeepsAll(prior: ScanState, range: ValidRange) {
    range == AsciiRange || (IsPerlDecodable(prior) && prior != MaybeExtendedUtf8)
  }

  /** The append table answers the strongest true state exactly where it keeps all there is to keep. */
  lemma AppendStrongestIff(prior: ScanState, range: ValidRange, chars: nat)
    ensures TrueAfterAppend(prior, range, AppendTransition(prior, Valid(range, chars)))
    ensures KeepsAll(prior, range) <==>
            forall s :: TrueAfterAppend(prior, range, s) ==> Entails(AppendTransition(prior, Valid(range, chars)), s)
  {
    hide TrueAfterAppend, Entails, Allows, AppendTransition, KeepsAll, Higher;
    var r := AppendTransition(prior, Valid(range, chars));
    JoinsOccur(prior, range, r);
    forall t | t in Allows(prior)
      ensures Higher(t, RangeClass(range)) in Allows(r)
    {
      RaisedIsAllowed(prior, range, chars, t);
    }
    if KeepsAll(prior, range) {
      forall s | TrueAfterAppend(prior, range, s)
        ensures Entails(r, s)
      {
        JoinsOccur(prior, range, s);
        NoneStronger(prior, range, chars, s);
        EntailsByClass(r, s);
      }
    } else {
      var s := Stronger(prior, range, chars);
      JoinsOccur(prior, range, s);
      EntailsByClass(r, s);
    }
  }

  lemma RaisedIsAllowed(prior: ScanState, range: ValidRange, chars: nat, t: Terminal)
    requires t in Allows(prior)
    ensures Higher(t, RangeClass(range)) in Allows(AppendTransition(prior, Valid(range, chars)))
  {}

  /** The lattice has no state between what may occur and what the table answers. */
  lemma NoneStronger(prior: ScanState, range: ValidRange, chars: nat, s: ScanState)
    requires KeepsAll(prior, range) && forall t :: t in Allows(prior) ==> Higher(t, RangeClass(range)) in Allows(s)
    ensures Allows(AppendTransition(prior, Valid(range, chars))) <= Allows(s)
  {
    hide Higher;
    assert AsciiClass in Allows(prior) ==> Higher(AsciiClass, RangeClass(range)) in Allows(s);
    assert Latin1Class in Allows(prior) ==> Higher(Latin1Class, RangeClass(range)) in Allows(s);
    assert NonLatin1Class in Allows(prior) ==> Higher(NonLatin1Class, RangeClass(range)) in Allows(s);
    assert ExtendedClass in Allows(prior) ==> Higher(ExtendedClass, RangeClass(range)) in Allows(s);
    assert MalformedClass in Allows(prior) ==> Higher(MalformedClass, RangeClass(range)) in Allows(s);
    HigherIs(range);
  }

  lemma HigherIs(range: ValidRange)
    ensures Higher(AsciiClass, RangeClass(range)) == RangeClass(range)
    ensures Higher(Latin1Class, RangeClass(range)) == if range == NonLatin1Range then NonLatin1Class else Latin1Class
    ensures Higher(NonLatin1Class, RangeClass(range)) == NonLatin1Class
    ensures Higher(ExtendedClass, RangeClass(range)) == ExtendedClass
    ensures Higher(MalformedClass, RangeClass(range)) == MalformedClass
  {}

  /** Where the table gives something up, a state it could have answered. */
  lemma Stronger(prior: ScanState, range: ValidRange, chars: nat) returns (s: ScanState)
    requires !KeepsAll(prior, range)
    ensures forall t :: t in Allows(prior) ==> Higher(t, RangeClass(range)) in Allows(s)
    ensures !(Allows(AppendTransition(prior, Valid(range, chars))) <= Allows(s))
  {
    s := if prior == MaybeExtendedUtf8 then PerlValidNonAscii else NonAscii;
    assert AsciiClass in Allows(AppendTransition(prior, Valid(range, chars)));
  }

  /** Decodability survives an append whenever it was certified, and with it the count, where both sides kept one. */
  lemma AppendKeepsDecoding(prior: ScanState, priorChars: nat, range: ValidRange, chars: nat)
    ensures IsPerlDecodable(AppendTransition(prior, Valid(range, chars))) <==> IsPerlDecodable(prior)
    ensures AppendChars(prior, priorChars, Valid(range, chars)) > 0 <==> priorChars > 0 && chars > 0 && IsPerlDecodable(prior)
    ensures AppendTransition(prior, Nothing) == Unknown && AppendChars(prior, priorChars, Nothing) == 0
  {}

  // ── Slices ──────────────────────────────────────────────────────

  /** Sure to be true of a nonempty cut, clean or dirty, of text of the parent's state. */
  ghost predicate TrueOfCuts(state: ScanState, clean: bool, s: ScanState) {
    forall parent, offset: nat, len: nat ::
      IsCut(parent, offset, len, clean) && Holds(state, parent) ==> Holds(s, Cut(parent, offset, len))
  }

  predicate IsCut(parent: seq<byte>, offset: nat, len: nat, clean: bool) {
    0 < len && offset + len <= |parent| && CutIsClean(parent, offset, len) == clean
  }

  /** A nonempty text of a class. */
  function Piece(t: Terminal): seq<byte> {
    if t == AsciiClass then [0x41] else Witness(t)
  }

  lemma PieceClass(t: Terminal)
    ensures Piece(t) != [] && ClassOf(Piece(t)) == t
    ensures t == MalformedClass <==> IsContinuation(Piece(t)[0])
    ensures t != MalformedClass && t != AsciiClass ==> |Piece(t)| > 1 && IsContinuation(Piece(t)[1])
  {
    WitnessClass(t);
    if t == AsciiClass {
      DecodeAscii([0x41]);
      FactByClass(AllAsciiBytes, [0x41]);
    }
  }

  /** The highest class a decoding state allows. */
  function Top(state: ScanState): Terminal
    requires IsPerlDecodable(state)
  {
    if ExtendedClass in Allows(state) then ExtendedClass
    else if NonLatin1Class in Allows(state) then NonLatin1Class
    else if Latin1Class in Allows(state) then Latin1Class else AsciiClass
  }

  lemma NotDecodable(b: byte)
    ensures b == 0x80 || b == 0xFF ==> !Decodable([b])
  {
    assert b == 0x80 || b == 0xFF ==> DecodeAt([b], 0) == Rejected;
  }

  /** A text that the state is true of, with a cut of that cleanness and class. */
  lemma CutOccurs(state: ScanState, clean: bool, t: Terminal) returns (parent: seq<byte>, len: nat)
    requires t in Allows(SliceBirth(state, clean)) && (clean || state != Ascii)
    ensures IsCut(parent, 0, len, clean) && Holds(state, parent) && ClassOf(Cut(parent, 0, len)) == t
  {
    hide Decode, ClassOfChars, Holds, Piece;
    PieceClass(t);
    var end := if !IsPerlDecodable(state) then [if clean then 0xFF else 0x80] else Piece(Top(state));
    parent, len := Piece(t) + end, |Piece(t)|;
    assert Cut(parent, 0, len) == Piece(t);
    if !IsPerlDecodable(state) {
      NotDecodable(end[0]);
      MalformedParent(Piece(t), end[0]);
    } else if clean {
      PieceClass(Top(state));
      ClassOfConcat(Piece(t), end);
    } else {
      PieceClass(Top(state));
      parent, len := end, 1;
      CleanIffDecodable(parent, 0, len);
    }
    HoldsByClass(state, parent);
  }

  lemma MalformedParent(piece: seq<byte>, b: byte)
    requires piece != [] && (b == 0xFF || (b == 0x80 && (Decodable(piece) || IsContinuation(piece[0]))))
    ensures ClassOf(piece + [b]) == MalformedClass
  {
    hide Decode, ClassOfChars;
    var parent := piece + [b];
    assert Cut(parent, 0, |piece|) == piece && Cut(parent, |piece|, 1) == [b];
    NotDecodable(b);
    if Decodable(parent) {
      DecodableStart(parent);
      var at := if b == 0xFF then |piece| else 0;
      CleanIffDecodable(parent, at, if b == 0xFF then 1 else |piece|);
    }
  }

  /** The birth table answers the strongest state true of every nonempty cut; ASCII text, which has no dirty cut, apart. */
  lemma SliceBirthStrongestIff(state: ScanState, clean: bool)
    ensures TrueOfCuts(state, clean, SliceBirth(state, clean))
    ensures clean || state != Ascii <==> forall s :: TrueOfCuts(state, clean, s) ==> Entails(SliceBirth(state, clean), s)
  {
    hide Holds, Allows, ClassOf, CutIsClean, Entails;
    forall parent, offset: nat, len: nat | IsCut(parent, offset, len, clean) && Holds(state, parent)
      ensures Holds(SliceBirth(state, clean), Cut(parent, offset, len))
    {
      SliceBirthSoundIff(state, parent, offset, len);
    }
    if clean || state != Ascii {
      forall s | TrueOfCuts(state, clean, s)
        ensures Entails(SliceBirth(state, clean), s)
      {
        forall t | t in Allows(SliceBirth(state, clean))
          ensures t in Allows(s)
        {
          var parent, len := CutOccurs(state, clean, t);
          HoldsByClass(s, Cut(parent, 0, len));
        }
        EntailsByClass(SliceBirth(state, clean), s);
      }
    } else {
      AsciiCutsClean();
      EntailsByClass(Ascii, MalformedUtf8);
      AsciiIsNotMalformed();
    }
  }

  lemma AsciiIsNotMalformed()
    ensures !(Allows(Ascii) <= Allows(MalformedUtf8))
  {
    assert AsciiClass in Allows(Ascii);
  }

  lemma AsciiCutsClean()
    ensures TrueOfCuts(Ascii, false, MalformedUtf8)
  {
    hide Decode, ClassOfChars;
    forall parent, offset: nat, len: nat | IsCut(parent, offset, len, false)
      ensures !Holds(Ascii, parent)
    {
      assert AllAsciiBytes in Facts(Ascii);
    }
  }
}
