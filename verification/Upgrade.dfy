/** The Latin-1 upgrade of octets to UTF-8, octet by octet, and the text it produces. */
module UpgradeText {
  import opened Wrappers
  import opened PerlUtf8
  import opened PerlText

  /** The upgrade's bytes for one octet, with no buffer: one, or two in turn. */
  function Virtual(b: byte): seq<byte> {
    if b < 0x80 then [b] else [0xC0 + b / 64, 0x80 + b % 64]
  }

  /** An octet upgraded: itself below 0x80, otherwise a lead and a continuation. */
  lemma UpgradeByte(b: byte)
    ensures b < 0x80 ==> Encode(b) == [b]
    ensures b >= 0x80 ==> Encode(b) == [0xC0 + b / 64, 0x80 + b % 64]
  {
    if b >= 0x80 {
      assert Top(b, 1) == Top(b / 64, 0) == b / 64;
      assert Tail(b, 1) == Tail(b / 64, 0) + [0x80 + b % 64];
    }
  }

  lemma EncodeAllAt(cs: seq<CodePoint>, k: nat)
    requires k < |cs|
    ensures EncodeAll(cs) == EncodeAll(cs[..k]) + Encode(cs[k]) + EncodeAll(cs[k + 1..])
  {
    hide Encode;
    assert cs == cs[..k] + cs[k..] && cs[k..][1..] == cs[k + 1..];
    EncodeAllConcat(cs[..k], cs[k..]);
  }

  lemma EncodeAllUpTo(cs: seq<CodePoint>, k: nat)
    requires k < |cs|
    ensures EncodeAll(cs[..k + 1]) == EncodeAll(cs[..k]) + Encode(cs[k])
  {
    hide Encode;
    EncodeAllAt(cs[..k + 1], k);
    assert cs[..k + 1][..k] == cs[..k] && cs[..k + 1][k + 1..] == [];
    assert EncodeAll([]) == [];
  }

  lemma EncodeNone(cs: seq<CodePoint>)
    ensures EncodeAll(cs[..0]) == []
  {}

  /** The upgrade: each octet as the character it is. */
  function Upgrade(s: seq<byte>): seq<byte> {
    EncodeAll(s)
  }

  /** Every code point of an upgrade fits a byte, and every byte is a code point of it. */
  lemma UpgradeDecodes(pb: seq<byte>)
    ensures Decode(EncodeAll(pb)) == Some(pb)
  {
    DecodeIff(EncodeAll(pb), pb);
  }

  lemma UpgradeMore(s: seq<byte>, k: nat)
    requires k < |s|
    ensures Upgrade(s[..k + 1]) == Upgrade(s[..k]) + Virtual(s[k])
    ensures Upgrade(s[k..]) == Virtual(s[k]) + Upgrade(s[k + 1..])
  {
    hide Encode;
    EncodeAllUpTo(s, k);
    UpgradeByte(s[k]);
    assert s[k..][1..] == s[k + 1..];
  }

  lemma UpgradeConcat(a: seq<byte>, b: seq<byte>)
    ensures Upgrade(a + b) == Upgrade(a) + Upgrade(b)
  {
    EncodeAllConcat(a, b);
  }

  lemma UpgradeEmpty()
    ensures Upgrade([]) == []
  {}

  lemma UpgradeSingle(c: byte)
    ensures Upgrade([c]) == Virtual(c)
  {
    hide Encode;
    UpgradeByte(c);
    assert [c][1..] == [];
    assert EncodeAll([c]) == Encode(c) + [];
  }

  /** The bytes that take two under UTF-8. */
  function VariantCount(s: seq<byte>): nat {
    if s == [] then 0 else VariantCount(s[..|s| - 1]) + (if s[|s| - 1] >= 0x80 then 1 else 0)
  }

  lemma {:induction false} UpgradeLen(s: seq<byte>)
    ensures |Upgrade(s)| == |s| + VariantCount(s)
  {
    hide EncodeAll;
    if s == [] {
      EncodeNone(s);
      assert s[..0] == s;
    } else {
      var n := |s| - 1;
      UpgradeLen(s[..n]);
      UpgradeMore(s, n);
      assert s[..n + 1] == s;
    }
  }

  // ── What contracts ──────────────────────────────────────────────

  ghost predicate Downgradable(cs: seq<CodePoint>) {
    forall i :: 0 <= i < |cs| ==> cs[i] <= 0xFF
  }

  /** Text perl's downgrade accepts: decodable, every character at most U+00FF. */
  ghost predicate Contractible(bytes: seq<byte>) {
    Decodable(bytes) && Downgradable(Chars(bytes))
  }

  /** Contractible text is exactly the upgrade of its own characters, and of nothing else. */
  lemma ContractibleIff(bytes: seq<byte>, text: seq<byte>)
    ensures bytes == Upgrade(text) <==> Contractible(bytes) && Chars(bytes) == text
  {
    hide Decode, EncodeAll;
    DecodeIff(bytes, text);
  }

  lemma FirstChar(rest: seq<byte>)
    requires rest != [] && Decodable(rest)
    ensures Chars(rest) != [] && SeqLen(Chars(rest)[0]) <= |rest| && rest[0..SeqLen(Chars(rest)[0])] == Encode(Chars(rest)[0])
  {
    hide DecodeAt, Encode;
    var step := DecodeAt(rest, 0);
    DecodeAtIff(rest, 0, step.len, step.value);
  }

  /** A lead and a continuation that some octet upgrades to. */
  predicate IsPair(b: byte, next: byte) {
    (b == 0xC2 || b == 0xC3) && IsContinuation(next)
  }

  function FromPair(b: byte, next: byte): byte
    requires IsPair(b, next)
  {
    b % 4 * 64 + next % 64
  }

  lemma PairOf(b: byte, next: byte)
    requires IsPair(b, next)
    ensures FromPair(b, next) >= 0x80 && Virtual(FromPair(b, next)) == [b, next]
  {
    var c := FromPair(b, next);
    assert b % 4 == b - 0xC0 && next % 64 == next - 0x80;
    assert c == (b - 0xC0) * 64 + (next - 0x80);
    assert c / 64 == b - 0xC0 && c % 64 == next - 0x80;
  }

  lemma HighIsPair(c: byte)
    requires c >= 0x80
    ensures |Virtual(c)| == 2 && IsPair(Virtual(c)[0], Virtual(c)[1])
  {
    assert 2 <= c / 64 <= 3;
  }

  lemma PrefixThen(bytes: seq<byte>, i: nat, text: seq<byte>, c: byte)
    requires i <= |bytes| && bytes[..i] == Upgrade(text)
    requires i + |Virtual(c)| <= |bytes| && bytes[i..i + |Virtual(c)|] == Virtual(c)
    ensures bytes[..i + |Virtual(c)|] == Upgrade(text + [c])
  {
    hide EncodeAll, Upgrade, Virtual;
    UpgradeConcat(text, [c]);
    UpgradeSingle(c);
    assert bytes[..i + |Virtual(c)|] == bytes[..i] + bytes[i..i + |Virtual(c)|];
  }

  /** In contractible text an octet's upgrade stands where the text so far ends. */
  lemma NextOctet(bytes: seq<byte>, i: nat, text: seq<byte>) returns (c: byte)
    requires i < |bytes| && bytes[..i] == Upgrade(text) && Contractible(bytes)
    ensures i + |Virtual(c)| <= |bytes| && bytes[i..i + |Virtual(c)|] == Virtual(c)
  {
    hide Decode, EncodeAll, DecodeAt, Encode, Virtual;
    ContractibleIff(bytes[..i], text);
    assert bytes == bytes[..i] + bytes[i..];
    DecodeConcat(bytes[..i], bytes[i..]);
    FirstChar(bytes[i..]);
    assert Chars(bytes[i..])[0] == Chars(bytes)[|text|];
    c := Chars(bytes[i..])[0];
    VirtualIsEncode(c);
    assert bytes[i..][0..|Virtual(c)|] == bytes[i..i + |Virtual(c)|];
  }

  lemma VirtualIsEncode(c: byte)
    ensures Virtual(c) == Encode(c) && |Virtual(c)| == SeqLen(c)
  {
    UpgradeByte(c);
  }

  lemma LowIsItself(b: byte)
    requires b < 0x80
    ensures Virtual(b) == [b]
  {}

  lemma NextIsAccepted(bytes: seq<byte>, i: nat, text: seq<byte>)
    requires i < |bytes| && bytes[..i] == Upgrade(text) && Contractible(bytes)
    ensures bytes[i] < 0x80 || (i + 1 < |bytes| && IsPair(bytes[i], bytes[i + 1]))
  {
    hide EncodeAll, Upgrade, Contractible, Virtual;
    var c := NextOctet(bytes, i, text);
    assert bytes[i] == bytes[i..i + |Virtual(c)|][0] by {
      VirtualIsEncode(c);
    }
    if c < 0x80 {
      LowIsItself(c);
    } else {
      HighIsPair(c);
      assert bytes[i + 1] == bytes[i..i + 2][1];
    }
  }

  /** One accepted character extends the accepted prefix; anything else at this place condemns the whole. */
  lemma ContractStep(bytes: seq<byte>, i: nat, text: seq<byte>)
    requires i < |bytes| && bytes[..i] == Upgrade(text)
    ensures bytes[i] < 0x80 ==> bytes[..i + 1] == Upgrade(text + [bytes[i]])
    ensures i + 1 < |bytes| && IsPair(bytes[i], bytes[i + 1]) ==>
              bytes[..i + 2] == Upgrade(text + [FromPair(bytes[i], bytes[i + 1])])
    ensures bytes[i] >= 0x80 && !(i + 1 < |bytes| && IsPair(bytes[i], bytes[i + 1])) ==> !Contractible(bytes)
  {
    hide EncodeAll, Upgrade, Contractible, Virtual, FromPair;
    if bytes[i] < 0x80 {
      LowIsItself(bytes[i]);
      PrefixThen(bytes, i, text, bytes[i]);
    } else if i + 1 < |bytes| && IsPair(bytes[i], bytes[i + 1]) {
      PairOf(bytes[i], bytes[i + 1]);
      PrefixThen(bytes, i, text, FromPair(bytes[i], bytes[i + 1]));
    } else if Contractible(bytes) {
      NextIsAccepted(bytes, i, text);
    }
  }
}
