/**
  * Strings short enough to live in the fifteen bytes of an envelope: verbatim up to fifteen bytes, and past that as the
  * octets that text within Latin-1 upgrades from.  Short of full, the last byte holds two nibbles, a count over a length.
  */
module InlineCodec {
  import opened Wrappers
  import opened PerlUtf8
  import opened PerlText
  import opened UpgradeText
  import opened Scan
  import opened BlockedClassify
  import opened Nibbles

  const INLINE_MAX := 15

  const LENGTH_BYTE := 14

  const DECODE_MAX := 30

  datatype Inline = Verbatim(terminal: Terminal, full: bool, buf: Payload) | Compressed(full: bool, buf: Payload) {
    function Stored(): nat {
      if full then INLINE_MAX else buf[LENGTH_BYTE] % 16
    }

    /** A length below the capacity, and zeros between the content and the last byte. */
    predicate Valid() {
      full || (Stored() < INLINE_MAX && forall k :: Stored() <= k < LENGTH_BYTE ==> buf[k] == 0)
    }

    function Text(): seq<byte>
      requires Valid()
    {
      buf[..Stored()]
    }

    /** The string's bytes: the payload, or what it upgrades to. */
    function Bytes(): seq<byte>
      requires Valid()
    {
      if Verbatim? then Text() else Upgrade(Text())
    }

    /** As construction leaves it: the class and the count are the content's, and nothing short enough is compressed. */
    ghost predicate Canonical() {
      && Valid()
      && (Verbatim? ==> terminal == ClassOf(Text()) && (!full ==> buf[LENGTH_BYTE] / 16 == Aux(Text())))
      && (Compressed? ==> |Bytes()| > INLINE_MAX && (!full ==> buf[LENGTH_BYTE] / 16 == VariantCount(Text())))
    }

    /** The length, read off the nibbles where they are kept. */
    function Len(): nat {
      if Verbatim? then Stored()
      else Stored() + if full then VariantCount(buf) else buf[LENGTH_BYTE] / 16
    }
  }

  /** The count kept beside a length: characters, where they can differ from bytes. */
  ghost function Aux(text: seq<byte>): nat {
    match ClassOf(text)
    case AsciiClass => 0
    case MalformedClass => 0
    case _ => |Chars(text)|
  }

  lemma LenIsLength(v: Inline)
    requires v.Canonical()
    ensures v.Len() == |v.Bytes()|
  {
    hide Upgrade, VariantCount;
    if v.Compressed? {
      UpgradeLen(v.Text());
      if v.full {
        assert v.buf[..INLINE_MAX] == v.buf;
      }
    }
  }

  /** The fifteen bytes are settled by the text and the count. */
  lemma SameEnvelope(v: Inline, w: Inline)
    requires v.Valid() && w.Valid() && v.Text() == w.Text()
    requires !v.full && !w.full ==> v.buf[LENGTH_BYTE] / 16 == w.buf[LENGTH_BYTE] / 16
    ensures v.full == w.full && v.buf == w.buf
  {
    assert v.Stored() == |v.Text()| == |w.Text()| == w.Stored();
    forall k | 0 <= k < PACKED_BYTES
      ensures v.buf[k] == w.buf[k]
    {
      if k < v.Stored() {
        assert v.buf[k] == v.Text()[k] == w.Text()[k];
      } else if k == LENGTH_BYTE {
        assert v.buf[k] == v.buf[k] / 16 * 16 + v.buf[k] % 16;
      }
    }
  }

  /** Canonical representations of one form are equal exactly when the strings are. */
  lemma EqualEnvelopeIff(v: Inline, w: Inline)
    requires v.Canonical() && w.Canonical() && v.Verbatim? == w.Verbatim?
    ensures v == w <==> v.Bytes() == w.Bytes()
  {
    hide Upgrade, ClassOf, VariantCount;
    if v.Bytes() == w.Bytes() {
      if v.Compressed? {
        UpgradeInjective(v.Text(), w.Text());
      }
      SameEnvelope(v, w);
    }
  }

  lemma UpgradeInjective(a: seq<byte>, b: seq<byte>)
    requires Upgrade(a) == Upgrade(b)
    ensures a == b
  {
    UpgradeDecodes(a);
    UpgradeDecodes(b);
  }

  /** Lay text and its count out in an envelope. */
  function Lay(text: seq<byte>, count: nat): (r: (bool, Payload))
    requires |text| <= INLINE_MAX && (|text| < INLINE_MAX ==> count < 16)
    ensures r.0 <==> |text| == INLINE_MAX
    ensures r.1[..|text|] == text
    ensures |text| < INLINE_MAX ==> r.1[LENGTH_BYTE] / 16 == count && r.1[LENGTH_BYTE] % 16 == |text|
    ensures forall k :: |text| <= k < LENGTH_BYTE ==> r.1[k] == 0
  {
    if |text| == INLINE_MAX then (true, text)
    else (false, text + seq(LENGTH_BYTE - |text|, i => 0) + [count * 16 + |text|])
  }

  /** The verbatim form: any content that fits, whatever it holds. */
  method ClassifyInline(bytes: seq<byte>, block: nat) returns (r: Option<Inline>)
    requires block > 0
    ensures r.Some? <==> |bytes| <= INLINE_MAX
    ensures r.Some? ==> r.value.Verbatim? && r.value.Canonical() && r.value.Bytes() == bytes
  {
    hide Decode;
    if |bytes| > INLINE_MAX {
      return None;
    }
    var terminal, chars, ranges := ClassifyWalk(bytes, block);
    FewChars(bytes);
    var aux := if terminal == AsciiClass || terminal == MalformedClass then 0 else chars;
    var (full, buf) := Lay(bytes, aux);
    var v := Verbatim(terminal, full, buf);
    assert v.Text() == bytes;
    r := Some(v);
  }

  lemma FewChars(bytes: seq<byte>)
    ensures Decodable(bytes) ==> |Chars(bytes)| <= |bytes|
  {
    hide Decode;
    if Decodable(bytes) {
      LeadCountIsCharCount(bytes);
      LeadsAtMost(bytes);
    }
  }

  lemma {:induction false} LeadsAtMost(bytes: seq<byte>)
    ensures LeadCount(bytes) <= |bytes|
  {
    if bytes != [] {
      LeadsAtMost(bytes[..|bytes| - 1]);
    }
  }

  /** Strict decoding of text within Latin-1 to at most fifteen octets. */
  method DecodeLatin1Range(bytes: seq<byte>) returns (r: Option<(seq<byte>, nat)>)
    ensures r.Some? <==> Contractible(bytes) && |Chars(bytes)| <= INLINE_MAX
    ensures r.Some? ==> Upgrade(r.value.0) == bytes && |r.value.0| <= INLINE_MAX && r.value.1 == VariantCount(r.value.0)
  {
    hide Upgrade, Contractible, VariantCount;
    if |bytes| > DECODE_MAX {
      TooLong(bytes);
      return None;
    }
    var text, high, i := [], 0, 0;
    UpgradeEmpty();
    UpgradeLen([]);
    assert bytes[..0] == [];
    while i < |bytes|
      invariant i <= |bytes| && bytes[..i] == Upgrade(text) && |text| <= INLINE_MAX && high == VariantCount(text)
    {
      ContractStep(bytes, i, text);
      var b, len := bytes[i], 1;
      if b >= 0x80 {
        if i + 1 == |bytes| || !IsPair(b, bytes[i + 1]) {
          return None;
        }
        PairOf(b, bytes[i + 1]);
        b, len, high := FromPair(b, bytes[i + 1]), 2, high + 1;
      }
      if |text| == INLINE_MAX {
        AtLeast(bytes, i + len, text + [b]);
        return None;
      }
      OneMoreVariant(text, b);
      text, i := text + [b], i + len;
    }
    assert bytes[..i] == bytes;
    ContractibleIff(bytes, text);
    return Some((text, high));
  }

  lemma OneMoreVariant(text: seq<byte>, b: byte)
    ensures VariantCount(text + [b]) == VariantCount(text) + if b >= 0x80 then 1 else 0
  {
    assert (text + [b])[..|text|] == text;
  }

  lemma TooLong(bytes: seq<byte>)
    requires |bytes| > DECODE_MAX
    ensures !(Contractible(bytes) && |Chars(bytes)| <= INLINE_MAX)
  {
    hide Decode, EncodeAll;
    if Contractible(bytes) {
      var text: seq<byte> := Chars(bytes);
      ContractibleIff(bytes, text);
      UpgradeLen(text);
      VariantsAtMost(text);
    }
  }

  lemma {:induction false} VariantsAtMost(text: seq<byte>)
    ensures VariantCount(text) <= |text|
  {
    if text != [] {
      VariantsAtMost(text[..|text| - 1]);
    }
  }

  lemma AtLeast(bytes: seq<byte>, i: nat, text: seq<byte>)
    requires i <= |bytes| && bytes[..i] == Upgrade(text)
    ensures Contractible(bytes) ==> |text| <= |Chars(bytes)|
  {
    hide Decode, EncodeAll;
    ContractibleIff(bytes[..i], text);
    assert bytes == bytes[..i] + bytes[i..];
    DecodeConcat(bytes[..i], bytes[i..]);
  }

  /** The compressed form: text past fifteen bytes whose characters are at most fifteen, and none past U+00FF. */
  method ClassifyPackedLatin1(bytes: seq<byte>) returns (r: Option<Inline>)
    ensures r.Some? <==> |bytes| > INLINE_MAX && Contractible(bytes) && |Chars(bytes)| <= INLINE_MAX
    ensures r.Some? ==> r.value.Compressed? && r.value.Canonical() && r.value.Bytes() == bytes
  {
    hide Upgrade, Contractible, VariantCount;
    if |bytes| <= INLINE_MAX {
      return None;
    }
    var decoded := DecodeLatin1Range(bytes);
    if decoded.None? {
      return None;
    }
    var (text, high) := decoded.value;
    VariantsAtMost(text);
    var (full, buf) := Lay(text, high);
    r := Some(Compressed(full, buf));
  }
}
