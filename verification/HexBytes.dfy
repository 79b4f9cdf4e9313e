/**
  * The packed hex strings: up to twenty-eight digits, plain, `0x`-prefixed, or separated in pairs.  Nibble 28 of the
  * payload is the length code and nibble 29 the variation: a format code and a case bit.
  */
module HexCodec {
  import opened Wrappers
  import opened Nibbles

  const MIN_LEN := 16
  const HEX_MAX_LEN := 41
  const HEX_MAX_DIGITS := 28
  const HEX_LENGTH_NIBBLE := 28
  const HEX_VARIATION_NIBBLE := 29

  datatype HexFormat = Plain | Colon | Hyphen | Space | PrefixOnce {
    function Separator(): Option<byte> {
      match this
      case Colon => Some(0x3A)
      case Hyphen => Some(0x2D)
      case Space => Some(0x20)
      case Plain | PrefixOnce => None
    }

    function Code(): nibble {
      match this
      case Plain => 0
      case Colon => 1
      case Hyphen => 2
      case Space => 3
      case PrefixOnce => 4
    }
  }

  /** Zero means twelve digits, and every other code thirteen plus itself. */
  function DigitsOf(code: nibble): nat {
    if code == 0 then 12 else 13 + code
  }

  function LengthCode(digits: nat): (c: Option<nibble>)
    ensures c.Some? ==> DigitsOf(c.value) == digits
    ensures c.None? <==> digits < 12 || digits == 13 || digits > 28
  {
    if digits == 12 then Some(0) else if 14 <= digits <= 28 then Some(digits - 13) else None
  }

  /** The format and case of a variation nibble; unassigned codes read as plain. */
  function Variation(payload: Payload): (HexFormat, bool) {
    var v := NibbleAt(payload, HEX_VARIATION_NIBBLE);
    var format := match v % 8
      case 1 => Colon
      case 2 => Hyphen
      case 3 => Space
      case 4 => PrefixOnce
      case _ => Plain;
    (format, v / 8 == 1)
  }

  function Digits(payload: Payload): nat {
    DigitsOf(NibbleAt(payload, HEX_LENGTH_NIBBLE))
  }

  // ── Layout ──────────────────────────────────────────────────────

  function PrefixLen(format: HexFormat): nat {
    if format == PrefixOnce then 2 else 0
  }

  /** Where digit `d` stands: after the prefix, the digits before it, and one separator per earlier pair. */
  function Offset(format: HexFormat, d: nat): nat {
    PrefixLen(format) + d + (if format.Separator().Some? then d / 2 else 0)
  }

  /** The length of `n` digits laid out. */
  function LaidLen(format: HexFormat, n: nat): nat {
    if n == 0 then PrefixLen(format) else Offset(format, n - 1) + 1
  }

  predicate CharAt(bytes: seq<byte>, i: int, b: byte) {
    0 <= i < |bytes| && bytes[i] == b
  }

  function Prefix(format: HexFormat): seq<byte> {
    if format == PrefixOnce then [0x30, 0x78] else []
  }

  /** The separator owed before digit `d`, if any. */
  function Owed(format: HexFormat, d: nat): seq<byte> {
    if d > 0 && d % 2 == 0 && format.Separator().Some? then [format.Separator().value] else []
  }

  /** The digit characters `letters` laid out in a format, digit by digit. */
  function Render(format: HexFormat, letters: seq<byte>): (r: seq<byte>)
    ensures |r| == LaidLen(format, |letters|)
  {
    if letters == [] then Prefix(format)
    else
      var n := |letters| - 1;
      Render(format, letters[..n]) + Owed(format, n) + [letters[n]]
  }

  ghost predicate Lays(bytes: seq<byte>, format: HexFormat, letters: seq<byte>) {
    bytes == Render(format, letters)
  }

  lemma LayOneMore(bytes: seq<byte>, format: HexFormat, letters: seq<byte>, c: byte)
    requires Lays(bytes, format, letters)
    ensures Lays(bytes + Owed(format, |letters|) + [c], format, letters + [c])
  {
    assert (letters + [c])[..|letters|] == letters;
  }

  lemma OneMoreDigit(format: HexFormat, n: nat)
    ensures LaidLen(format, n + 1) == LaidLen(format, n) + |Owed(format, n)| + 1
    ensures Offset(format, n) == LaidLen(format, n) + |Owed(format, n)|
    ensures format.Separator().Some? && n > 0 && n % 2 == 0 ==> Owed(format, n) == [format.Separator().value]
  {}

  lemma CharKept(bytes: seq<byte>, more: seq<byte>, i: int, b: byte)
    requires CharAt(bytes, i, b)
    ensures CharAt(bytes + more, i, b)
  {}

  /** What stands where: every position of a layout is settled by the format and the digits. */
  lemma {:induction false} LaysAt(bytes: seq<byte>, format: HexFormat, letters: seq<byte>)
    requires Lays(bytes, format, letters)
    ensures |bytes| == LaidLen(format, |letters|)
    ensures format == PrefixOnce ==> CharAt(bytes, 0, 0x30) && CharAt(bytes, 1, 0x78)
    ensures forall d :: 0 <= d < |letters| ==> CharAt(bytes, Offset(format, d), letters[d])
    ensures format.Separator().Some? ==> forall d :: 0 < d < |letters| && d % 2 == 0 ==>
              CharAt(bytes, Offset(format, d) - 1, format.Separator().value)
    decreases |letters|
  {
    hide HexFormat.Separator, Offset, LaidLen, Owed, CharAt;
    if letters == [] {
      assert CharAt([0x30, 0x78], 0, 0x30) && CharAt([0x30, 0x78], 1, 0x78) by {
        PrefixAt();
      }
    } else {
      var n := |letters| - 1;
      var init := Render(format, letters[..n]);
      var more := Owed(format, n) + [letters[n]];
      LaysAt(init, format, letters[..n]);
      OneMoreDigit(format, n);
      assert bytes == init + more;
      if format == PrefixOnce {
        CharKept(init, more, 0, 0x30);
        CharKept(init, more, 1, 0x78);
      }
      forall d | 0 <= d < |letters|
        ensures CharAt(bytes, Offset(format, d), letters[d])
      {
        if d < n {
          assert letters[..n][d] == letters[d];
          CharKept(init, more, Offset(format, d), letters[d]);
        } else {
          LastChar(init, Owed(format, n), letters[n]);
        }
      }
      if format.Separator().Some? {
        forall d | 0 < d < |letters| && d % 2 == 0
          ensures CharAt(bytes, Offset(format, d) - 1, format.Separator().value)
        {
          if d < n {
            CharKept(init, more, Offset(format, d) - 1, format.Separator().value);
          } else {
            LastChar(init, [], format.Separator().value);
            CharKept(init + [format.Separator().value], [letters[n]], |init|, format.Separator().value);
            assert bytes == init + [format.Separator().value] + [letters[n]];
          }
        }
      }
    }
  }

  lemma PrefixAt()
    ensures CharAt([0x30, 0x78], 0, 0x30) && CharAt([0x30, 0x78], 1, 0x78)
  {}

  lemma LastChar(init: seq<byte>, owed: seq<byte>, b: byte)
    ensures CharAt(init + owed + [b], |init| + |owed|, b) && init + (owed + [b]) == init + owed + [b]
    ensures init + [] + [b] == init + [b]
  {}

  /** Digits and text settle one another. */
  lemma LayoutDecides(a: seq<byte>, b: seq<byte>, format: HexFormat, ls: seq<byte>, ms: seq<byte>)
    requires Lays(a, format, ls) && Lays(b, format, ms)
    ensures a == b <==> ls == ms
  {
    if a == b {
      LaysAt(a, format, ls);
      LaysAt(b, format, ms);
      assert |ls| == |ms|;
      forall d | 0 <= d < |ls|
        ensures ls[d] == ms[d]
      {
        assert CharAt(a, Offset(format, d), ls[d]) && CharAt(b, Offset(format, d), ms[d]);
      }
    }
  }

  // ── The spelling a payload stands for ───────────────────────────

  function Letters(payload: Payload): (ls: seq<byte>)
    ensures |ls| == Digits(payload) <= HEX_MAX_DIGITS
  {
    seq(Digits(payload), d requires 0 <= d < Digits(payload) => DigitChar(Variation(payload).1, NibbleAt(payload, d)))
  }

  ghost predicate Spells(bytes: seq<byte>, payload: Payload) {
    Lays(bytes, Variation(payload).0, Letters(payload))
  }

  /** The rendered length as the consumers ask for it, without decoding. */
  function RenderedLen(payload: Payload): nat {
    var digits := Digits(payload);
    match Variation(payload).0
    case Plain => digits
    case PrefixOnce => 2 + digits
    case _ => digits + (digits + 1) / 2 - 1
  }

  lemma RenderedLenIsLength(bytes: seq<byte>, payload: Payload)
    requires Spells(bytes, payload)
    ensures |bytes| == RenderedLen(payload) <= HEX_MAX_LEN
  {
    hide NibbleAt, DigitChar;
    LaysAt(bytes, Variation(payload).0, Letters(payload));
  }

  predicate HasLetter(payload: Payload) {
    exists d :: 0 <= d < Digits(payload) && d < HEX_MAX_DIGITS && NibbleAt(payload, d) >= 10
  }

  /** What classification emits: an assigned format, unused digits zero, and the case bit only where it shows. */
  predicate Canonical(payload: Payload) {
    && NibbleAt(payload, HEX_VARIATION_NIBBLE) % 8 <= 4
    && (forall d :: Digits(payload) <= d < HEX_MAX_DIGITS ==> NibbleAt(payload, d) == 0)
    && (Variation(payload).1 ==> HasLetter(payload))
  }

  // ── Decode ──────────────────────────────────────────────────────

  /** One digit, and the separator owed before it. */
  method PutDigit(out: array<byte>, n: nat, owed: Option<byte>, c: byte) returns (end: nat)
    requires n + (if owed.Some? then 1 else 0) < out.Length
    modifies out
    ensures end == n + (if owed.Some? then 1 else 0) + 1
    ensures out[..end] == old(out[..n]) + (if owed.Some? then [owed.value] else []) + [c]
    ensures forall k :: end <= k < out.Length ==> out[k] == old(out[k])
  {
    end := n;
    if owed.Some? {
      out[end] := owed.value;
      end := end + 1;
    }
    out[end] := c;
    end := end + 1;
  }

  method DecodeHex(payload: Payload, out: array<byte>) returns (n: nat)
    requires out.Length >= HEX_MAX_LEN
    modifies out
    ensures n == RenderedLen(payload) <= HEX_MAX_LEN && Spells(out[..n], payload)
    ensures out[n..] == old(out[n..])
  {
    hide NibbleAt, DigitChar, Variation, RenderedLen, Lays, Letters, Digits, LaidLen, Owed;
    var digits := Digits(payload);
    var (format, upper) := Variation(payload);
    var separator := format.Separator();
    ghost var letters := Letters(payload);
    LaidFits(format);
    n := 0;
    if format == PrefixOnce {
      out[0], out[1] := 0x30, 0x78;
      n := 2;
    }
    LaysNothing(out[..n], format);
    assert letters[..0] == [];
    for d := 0 to digits
      invariant n == LaidLen(format, d)
      invariant Lays(out[..n], format, letters[..d])
      invariant forall k :: n <= k < out.Length ==> out[k] == old(out[k])
    {
      LayOneMore(out[..n], format, letters[..d], letters[d]);
      LetterAt(payload, d);
      OneMoreDigit(format, d);
      OwedIs(format, d);
      n := PutDigit(out, n, if d > 0 && d % 2 == 0 then separator else None, DigitChar(upper, NibbleAt(payload, d)));
      assert letters[..d + 1] == letters[..d] + [letters[d]];
    }
    assert letters[..digits] == letters;
    RenderedLenIsLength(out[..n], payload);
  }

  lemma OwedIs(format: HexFormat, d: nat)
    ensures Owed(format, d) == if d > 0 && d % 2 == 0 && format.Separator().Some? then [format.Separator().value] else []
  {}

  /** No layout is longer than the scratch it is written to. */
  lemma LaidFits(format: HexFormat)
    ensures forall n :: 0 <= n <= HEX_MAX_DIGITS ==> LaidLen(format, n) <= HEX_MAX_LEN
  {}

  lemma LetterAt(payload: Payload, d: nat)
    requires d < Digits(payload) <= HEX_MAX_DIGITS
    ensures Letters(payload)[d] == DigitChar(Variation(payload).1, NibbleAt(payload, d))
  {}

  lemma LaysNothing(bytes: seq<byte>, format: HexFormat)
    requires |bytes| == PrefixLen(format) && (format == PrefixOnce ==> bytes[0] == 0x30 && bytes[1] == 0x78)
    ensures Lays(bytes, format, []) && |bytes| == LaidLen(format, 0)
  {}
}
