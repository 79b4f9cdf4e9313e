/**
  * Ordering and equality of strings whose utf8 flags may differ.  One key settles both: a flagged string's bytes as they
  * are, an unflagged string's bytes upgraded from Latin-1.
  */
module Compare {
  import opened Wrappers
  import opened LexOrder
  import opened PerlUtf8
  import opened PerlText
  import opened UpgradeText
  import opened PackedCodec
  import opened PackedOrder
  import opened InlineCodec

  /** The ways a string's bytes are held that comparison or equality tells apart. */
  datatype Storage = Plain(bytes: seq<byte>) | InNibbles(p: Packed) | InEnvelope(v: Inline)

  datatype PString = PString(utf8: bool, storage: Storage) {
    ghost predicate Valid() {
      match storage
      case Plain(_) => true
      case InNibbles(p) => Canonical(p)
      case InEnvelope(v) => v.Canonical()
    }

    ghost function Bytes(): seq<byte>
      requires Valid()
    {
      match storage
      case Plain(bytes) => bytes
      case InNibbles(p) => p.Bytes()
      case InEnvelope(v) => v.Bytes()
    }

    /** The comparison key. */
    ghost function Key(): seq<byte>
      requires Valid()
    {
      if utf8 then Bytes() else EncodeAll(Bytes())
    }
  }

  /** The bytes themselves, materialized. */
  function AsBytes(s: PString): (b: seq<byte>)
    requires s.Valid()
    ensures b == s.Bytes()
  {
    match s.storage
    case Plain(bytes) => bytes
    case InNibbles(p) => p.Bytes()
    case InEnvelope(v) => v.Bytes()
  }

  lemma ProperPrefixIsLess(a: seq<int>, b: seq<int>)
    requires |a| < |b| && a == b[..|a|]
    ensures CmpSeq(a, b) == Less
  {
    assert b == a + b[|a|..] && a == a + [];
    CmpSharedPrefix(a, [], b[|a|..]);
  }

  // ── Ordering ────────────────────────────────────────────────────

  /** A flagged string's bytes against an unflagged one's virtual upgrade. */
  method CmpCrossFlag(fb: seq<byte>, pb: seq<byte>) returns (o: Ordering)
    ensures o == CmpSeq(fb, EncodeAll(pb))
  {
    hide Encode, EncodeAll, CmpSeq;
    ghost var up := EncodeAll(pb);
    EncodeNone(pb);
    var i := 0;
    for k := 0 to |pb|
      invariant i == |EncodeAll(pb[..k])| <= |fb|
      invariant i <= |up| && fb[..i] == up[..i]
    {
      UpgradeByte(pb[k]);
      EncodeAllAt(pb, k);
      EncodeAllUpTo(pb, k);
      var pair := Virtual(pb[k]);
      ghost var base := i;
      for e := 0 to |pair|
        invariant i == base + e <= |fb|
        invariant fb[..i] == up[..i]
      {
        assert up[i] == pair[e];
        if i >= |fb| {
          ProperPrefixIsLess(fb, up);
          return Less;
        }
        if fb[i] != pair[e] {
          CmpAtDifference(fb, up, i);
          return CmpInt(fb[i], pair[e]);
        }
        assert fb[..i + 1] == up[..i + 1];
        i := i + 1;
      }
    }
    assert pb[..|pb|] == pb;
    if i < |fb| {
      ProperPrefixIsLess(up, fb);
      CmpReverse(up, fb);
      return Greater;
    }
    CmpEqualIff(fb, up);
    return Equal;
  }

  /** Same-flag comparison on whatever storage the two sides have. */
  method CmpRawBytes(a: PString, b: PString) returns (o: Ordering)
    requires a.Valid() && b.Valid()
    ensures o == CmpSeq(a.Bytes(), b.Bytes())
  {
    hide CmpSeq, CmpSameAlphabet, Packed.Bytes, Choose, Inline.Bytes, Inline.Canonical;
    match (a.storage, b.storage) {
      case (InNibbles(p), InNibbles(q)) =>
        if p.alphabet == q.alphabet {
          CmpSameAlphabetIsTextOrder(p, q);
          return CmpSameAlphabet(p, q);
        }
        o := CmpBytes(p, AsBytes(b));
      case (InNibbles(p), _) =>
        o := CmpBytes(p, AsBytes(b));
      case (_, InNibbles(q)) =>
        o := CmpBytes(q, AsBytes(a));
        CmpReverse(q.Bytes(), a.Bytes());
        o := o.Reverse();
      case _ =>
        return CmpSeq(AsBytes(a), AsBytes(b));
    }
  }

  /** Perl's `cmp` is the lexicographic order of the keys. */
  method CmpPerl(a: PString, b: PString) returns (o: Ordering)
    requires a.Valid() && b.Valid()
    ensures o == CmpSeq(a.Key(), b.Key())
  {
    hide CmpSeq, Encode, EncodeAll;
    if a.utf8 == b.utf8 {
      o := CmpRawBytes(a, b);
      EncodeAllOrder(a.Bytes(), b.Bytes());
      return;
    }
    var flagged, plain := if a.utf8 then a else b, if a.utf8 then b else a;
    o := CmpCrossFlag(AsBytes(flagged), AsBytes(plain));
    CmpReverse(flagged.Key(), plain.Key());
    o := if a.utf8 then o else o.Reverse();
  }

  /** The order is total, antisymmetric up to equal keys, and transitive, whatever the mix of flags. */
  lemma KeyOrderIsTotal(a: PString, b: PString, c: PString)
    requires a.Valid() && b.Valid() && c.Valid()
    ensures CmpSeq(a.Key(), b.Key()) == CmpSeq(b.Key(), a.Key()).Reverse()
    ensures CmpSeq(a.Key(), b.Key()) == Equal <==> a.Key() == b.Key()
    ensures CmpSeq(a.Key(), b.Key()) != Greater && CmpSeq(b.Key(), c.Key()) != Greater ==> CmpSeq(a.Key(), c.Key()) != Greater
  {
    hide PString.Key, CmpSeq;
    CmpReverse(b.Key(), a.Key());
    CmpEqualIff(a.Key(), b.Key());
    if CmpSeq(a.Key(), b.Key()) != Greater && CmpSeq(b.Key(), c.Key()) != Greater {
      CmpTransitive(a.Key(), b.Key(), c.Key());
    }
  }

  /** The characters a string stands for, where it stands for some. */
  ghost function CodePoints(s: PString): seq<CodePoint>
    requires s.Valid() && (s.utf8 ==> Decodable(s.Bytes()))
  {
    if s.utf8 then Chars(s.Bytes()) else s.Bytes()
  }

  /** On decodable strings the order is code-point order, and equal keys are equal characters. */
  lemma KeyOrderIsCodePointOrder(a: PString, b: PString)
    requires a.Valid() && (a.utf8 ==> Decodable(a.Bytes()))
    requires b.Valid() && (b.utf8 ==> Decodable(b.Bytes()))
    ensures CmpSeq(a.Key(), b.Key()) == CmpSeq(CodePoints(a), CodePoints(b))
    ensures a.Key() == b.Key() <==> CodePoints(a) == CodePoints(b)
  {
    hide CmpSeq, Encode, EncodeAll, Decode;
    KeyIsEncoding(a);
    KeyIsEncoding(b);
    EncodeAllOrder(CodePoints(a), CodePoints(b));
    CmpEqualIff(a.Key(), b.Key());
    CmpEqualIff(CodePoints(a), CodePoints(b));
  }

  lemma KeyIsEncoding(s: PString)
    requires s.Valid() && (s.utf8 ==> Decodable(s.Bytes()))
    ensures s.Key() == EncodeAll(CodePoints(s))
  {
    hide Encode, EncodeAll, Decode;
    if s.utf8 {
      DecodeIff(s.Bytes(), Chars(s.Bytes()));
    }
  }
}
