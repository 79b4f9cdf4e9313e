/** The narrowing meet: the union of two certifications, closed under derivation and canonicalized. */
module ScanMeet {
  import opened Wrappers
  import opened PerlUtf8
  import opened PerlText
  import opened Scan

  /** The facts both certifications assert together, with the two derivation rules applied. */
  function Union(a: ScanState, b: ScanState): set<Fact> {
    var f := Facts(a) + Facts(b);
    var f1 := if RustValid in f && HighBit in f then f + {ContainsGe0080} else f;
    if ContainsGe0100 in f1 || RustInvalid in f1 then f1 + {ContainsGe0080} else f1
  }

  /** The impossible pairings the debug assertion lists. */
  predicate Contradiction(f: set<Fact>) {
    || (Malformed in f && PerlValid in f)
    || (RustValid in f && RustInvalid in f)
    || (AllAsciiBytes in f && (HighBit in f || ContainsGe0080 in f))
    || (AllLe00FF in f && ContainsGe0100 in f)
  }

  function Canonical(f: set<Fact>): ScanState {
    if Malformed in f then MalformedUtf8
    else if RustInvalid in f then ExtendedUtf8
    else if RustValid in f then
      if AllAsciiBytes in f then Ascii
      else if ContainsGe0100 in f then Utf8NonLatin1
      else if AllLe00FF in f then (if ContainsGe0080 in f then Utf8Latin1 else MaybeUtf8Latin1)
      else if ContainsGe0080 in f then Utf8NonAscii
      else ValidUtf8
    else if PerlValid in f then (if HighBit in f then PerlValidNonAscii else MaybeExtendedUtf8)
    else if HighBit in f then NonAscii
    else Unknown
  }

  function Meet(a: ScanState, b: ScanState): ScanState {
    Canonical(Union(a, b))
  }

  lemma ClashAt(a: ScanState, b: ScanState, t: Terminal)
    requires Contradiction(Union(a, b))
    ensures !(t in Allows(a) && t in Allows(b))
  {
    hide Allows, Facts;
    AllowsIsConjunction(a, t);
    AllowsIsConjunction(b, t);
    if t in Allows(a) && t in Allows(b) {
      assert forall f :: f in Union(a, b) ==> t in TrueOf(f);
    }
  }

  lemma NarrowedValid(a: ScanState, b: ScanState, t: Terminal)
    requires !Contradiction(Union(a, b)) && t in Allows(Meet(a, b)) && IsRustValid(a)
    ensures t in Allows(a) && t in Allows(b)
  {}

  lemma NarrowedOther(a: ScanState, b: ScanState, t: Terminal)
    requires !Contradiction(Union(a, b)) && t in Allows(Meet(a, b)) && !IsRustValid(a)
    ensures t in Allows(a) && t in Allows(b)
  {}

  lemma NarrowedAt(a: ScanState, b: ScanState, t: Terminal)
    requires !Contradiction(Union(a, b)) && t in Allows(Meet(a, b))
    ensures t in Allows(a) && t in Allows(b)
  {
    hide Allows, Meet, Contradiction, Union, IsRustValid;
    if IsRustValid(a) {
      NarrowedValid(a, b, t);
    } else {
      NarrowedOther(a, b, t);
    }
  }

  lemma JoinedValid(a: ScanState, b: ScanState, t: Terminal)
    requires t in Allows(a) && t in Allows(b) && IsRustValid(a)
    ensures t in Allows(Meet(a, b))
  {}

  lemma JoinedOther(a: ScanState, b: ScanState, t: Terminal)
    requires t in Allows(a) && t in Allows(b) && !IsRustValid(a)
    ensures t in Allows(Meet(a, b))
  {}

  lemma JoinedAt(a: ScanState, b: ScanState, t: Terminal)
    requires t in Allows(a) && t in Allows(b)
    ensures t in Allows(Meet(a, b))
  {
    hide Allows, Meet, IsRustValid;
    if IsRustValid(a) {
      JoinedValid(a, b, t);
    } else {
      JoinedOther(a, b, t);
    }
  }

  /** On classes the meet is intersection; a contradiction is an empty intersection. */
  lemma MeetAt(a: ScanState, b: ScanState, t: Terminal)
    ensures Contradiction(Union(a, b)) ==> !(t in Allows(a) && t in Allows(b))
    ensures !Contradiction(Union(a, b)) ==> (t in Allows(Meet(a, b)) <==> t in Allows(a) && t in Allows(b))
  {
    hide Allows, Meet, Contradiction, Union;
    if Contradiction(Union(a, b)) {
      ClashAt(a, b, t);
    } else {
      if t in Allows(Meet(a, b)) {
        NarrowedAt(a, b, t);
      }
      if t in Allows(a) && t in Allows(b) {
        JoinedAt(a, b, t);
      }
    }
  }

  lemma MeetAllows(a: ScanState, b: ScanState)
    requires !Contradiction(Union(a, b))
    ensures Allows(Meet(a, b)) == Allows(a) * Allows(b) != {}
  {
    forall t {
      MeetAt(a, b, t);
    }
  }

  /** Of two states true of the same bytes, the meet asserts exactly what the two assert together, on every string. */
  lemma MeetIsConjunction(a: ScanState, b: ScanState, x: seq<byte>)
    requires Holds(a, x) && Holds(b, x)
    ensures !Contradiction(Union(a, b))
    ensures forall y :: Holds(Meet(a, b), y) <==> Holds(a, y) && Holds(b, y)
  {
    HoldsByClass(a, x);
    HoldsByClass(b, x);
    MeetAt(a, b, ClassOf(x));
    forall y
      ensures Holds(Meet(a, b), y) <==> Holds(a, y) && Holds(b, y)
    {
      HoldsByClass(a, y);
      HoldsByClass(b, y);
      HoldsByClass(Meet(a, b), y);
      MeetAt(a, b, ClassOf(y));
    }
  }

  /** A string of each class, so that no class is empty. */
  function Witness(t: Terminal): seq<byte> {
    match t
    case AsciiClass => []
    case Latin1Class => Encode(0x80)
    case NonLatin1Class => Encode(0x100)
    case ExtendedClass => Encode(0x11_0000)
    case MalformedClass => [0x80]
  }

  lemma WitnessClass(t: Terminal)
    ensures ClassOf(Witness(t)) == t
  {
    var c: CodePoint := match t case Latin1Class => 0x80 case NonLatin1Class => 0x100 case _ => 0x11_0000;
    DecodeSingle(c);
    assert [c][0] == c;
    if t == MalformedClass {
      assert DecodeAt([0x80], 0) == Rejected;
    }
  }

  /** The debug assertion in the meet can only fire on certifications no string satisfies together. */
  lemma ContradictionIff(a: ScanState, b: ScanState)
    ensures Contradiction(Union(a, b)) <==> !exists x :: Holds(a, x) && Holds(b, x)
  {
    if x :| Holds(a, x) && Holds(b, x) {
      MeetIsConjunction(a, b, x);
    }
    if !Contradiction(Union(a, b)) {
      MeetAllows(a, b);
      var t :| t in Allows(a) && t in Allows(b);
      WitnessClass(t);
      HoldsByClass(a, Witness(t));
      HoldsByClass(b, Witness(t));
    }
  }

  /** Two states that mean the same are the same: the lattice has one state per meaning. */
  lemma StatesAreDistinct(a: ScanState, b: ScanState)
    requires forall y :: Holds(a, y) <==> Holds(b, y)
    ensures a == b
  {
    forall t
      ensures t in Allows(a) <==> t in Allows(b)
    {
      WitnessClass(t);
      HoldsByClass(a, Witness(t));
      HoldsByClass(b, Witness(t));
    }
    assert Allows(a) == Allows(b);
    AllowsInjective(a, b);
  }

  lemma AllowsInjective(a: ScanState, b: ScanState)
    requires Allows(a) == Allows(b)
    ensures a == b
  {
    assert forall t :: t in Allows(a) <==> t in Allows(b);
    assert AsciiClass in Allows(a) <==> AsciiClass in Allows(b);
    assert Latin1Class in Allows(a) <==> Latin1Class in Allows(b);
    assert NonLatin1Class in Allows(a) <==> NonLatin1Class in Allows(b);
    assert ExtendedClass in Allows(a) <==> ExtendedClass in Allows(b);
    assert MalformedClass in Allows(a) <==> MalformedClass in Allows(b);
  }

  /** Among jointly true states the order and grouping of meets is irrelevant. */
  lemma MeetLaws(a: ScanState, b: ScanState, c: ScanState, x: seq<byte>)
    requires Holds(a, x) && Holds(b, x) && Holds(c, x)
    ensures Meet(a, b) == Meet(b, a) && Meet(a, a) == a && Meet(a, Unknown) == a
    ensures Meet(Meet(a, b), c) == Meet(a, Meet(b, c))
  {
    MeetIsConjunction(a, b, x);
    MeetIsConjunction(b, c, x);
    MeetIsConjunction(b, a, x);
    MeetIsConjunction(a, a, x);
    MeetIsConjunction(a, Unknown, x);
    MeetIsConjunction(Meet(a, b), c, x);
    MeetIsConjunction(a, Meet(b, c), x);
    StatesAreDistinct(Meet(Meet(a, b), c), Meet(a, Meet(b, c)));
    StatesAreDistinct(Meet(a, b), Meet(b, a));
    StatesAreDistinct(Meet(a, a), a);
    StatesAreDistinct(Meet(a, Unknown), a);
  }
}
