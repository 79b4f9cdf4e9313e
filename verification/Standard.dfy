/**
  * Standard UTF-8, by its byte ranges alone (section 4 of RFC 3629), and the bytes each character is spelled with
  * (section 3): what Rust accepts is exactly this, and it is the part of Perl's extension below U+110000 that is no
  * surrogate.
  */
module StandardUtf8 {
  import opened Wrappers
  import opened PerlUtf8
  import opened PerlText
  import opened Scan

  // ── The syntax ──────────────────────────────────────────────────

  predicate In(b: byte, lo: byte, hi: byte) {
    lo <= b <= hi
  }

  predicate IsTail(b: byte) {
    In(b, 0x80, 0xBF)
  }

  predicate Utf8Two(s: seq<byte>) {
    |s| == 2 && In(s[0], 0xC2, 0xDF) && IsTail(s[1])
  }

  predicate Utf8Three(s: seq<byte>) {
    |s| == 3 && IsTail(s[2]) &&
    (|| (s[0] == 0xE0 && In(s[1], 0xA0, 0xBF))
     || (In(s[0], 0xE1, 0xEC) && IsTail(s[1]))
     || (s[0] == 0xED && In(s[1], 0x80, 0x9F))
     || (In(s[0], 0xEE, 0xEF) && IsTail(s[1])))
  }

  predicate Utf8Four(s: seq<byte>) {
    |s| == 4 && IsTail(s[2]) && IsTail(s[3]) &&
    (|| (s[0] == 0xF0 && In(s[1], 0x90, 0xBF))
     || (In(s[0], 0xF1, 0xF3) && IsTail(s[1]))
     || (s[0] == 0xF4 && In(s[1], 0x80, 0x8F)))
  }

  predicate Utf8Char(s: seq<byte>) {
    (|s| == 1 && In(s[0], 0x00, 0x7F)) || Utf8Two(s) || Utf8Three(s) || Utf8Four(s)
  }

  /** `UTF8-octets = *( UTF8-char )`. */
  ghost predicate Utf8Octets(bytes: seq<byte>)
    decreases |bytes|
  {
    bytes == [] || exists n :: 1 <= n <= |bytes| && Utf8Char(bytes[..n]) && Utf8Octets(bytes[n..])
  }

  // ── The bytes of one character ──────────────────────────────────

  /** The bits of a character number laid out over one to four octets. */
  lemma StandardBytes(c: CodePoint)
    requires c <= 0x10_FFFF
    ensures Encode(c) ==
            if c <= 0x7F then [c]
            else if c <= 0x7FF then [0xC0 + c / 0x40, 0x80 + c % 0x40]
            else if c <= 0xFFFF then [0xE0 + c / 0x1000, 0x80 + c / 0x40 % 0x40, 0x80 + c % 0x40]
            else [0xF0 + c / 0x4_0000, 0x80 + c / 0x1000 % 0x40, 0x80 + c / 0x40 % 0x40, 0x80 + c % 0x40]
  {
    TopSteps(c, SeqLen(c) - 1);
    if c > 0x7F {
      TailSteps(c, SeqLen(c) - 1);
    }
  }

  lemma TailSteps(c: nat, n: nat)
    requires 1 <= n <= 3
    ensures n == 1 ==> Tail(c, n) == [0x80 + c % 0x40]
    ensures n == 2 ==> Tail(c, n) == [0x80 + c / 0x40 % 0x40, 0x80 + c % 0x40]
    ensures n == 3 ==> Tail(c, n) == [0x80 + c / 0x1000 % 0x40, 0x80 + c / 0x40 % 0x40, 0x80 + c % 0x40]
  {
    assert Tail(c, 1) == Tail(c / 64, 0) + [0x80 + c % 64] == [0x80 + c % 64];
    if n >= 2 {
      assert Tail(c / 64, 1) == Tail(c / 64 / 64, 0) + [0x80 + c / 64 % 64] == [0x80 + c / 64 % 64];
      assert Tail(c, 2) == Tail(c / 64, 1) + [0x80 + c % 64];
    }
    if n == 3 {
      assert Tail(c / 64 / 64, 1) == Tail(c / 64 / 64 / 64, 0) + [0x80 + c / 64 / 64 % 64] == [0x80 + c / 64 / 64 % 64];
      assert Tail(c / 64, 2) == Tail(c / 64 / 64, 1) + [0x80 + c / 64 % 64];
      assert Tail(c, 3) == Tail(c / 64, 2) + [0x80 + c % 64];
    }
  }

  /** Every character Rust can hold is spelled in one of the forms. */
  lemma ScalarIsUtf8Char(c: CodePoint)
    requires RustScalar(c)
    ensures Utf8Char(Encode(c))
  {
    hide Encode;
    StandardBytes(c);
  }

  /** The character number a form stands for. */
  function Number(s: seq<byte>): (c: CodePoint)
    requires Utf8Char(s)
  {
    var lead: int := s[0];
    if |s| == 1 then lead
    else if |s| == 2 then Shifted(lead - 0xC0, s[1])
    else if |s| == 3 then Shifted(Shifted(lead - 0xE0, s[1]), s[2])
    else Shifted(Shifted(Shifted(lead - 0xF0, s[1]), s[2]), s[3])
  }

  /** Six more bits. */
  function Shifted(v: nat, tail: byte): nat
    requires IsTail(tail)
  {
    v * 0x40 + (tail as int - 0x80)
  }

  lemma ShiftedBack(v: nat, tail: byte)
    requires IsTail(tail)
    ensures Shifted(v, tail) / 0x40 == v && 0x80 + Shifted(v, tail) % 0x40 == tail
  {}

  lemma QuarterSteps(c: nat)
    ensures c / 0x1000 == c / 0x40 / 0x40 && c / 0x4_0000 == c / 0x40 / 0x40 / 0x40
  {}

  lemma TwoIsScalar(s: seq<byte>)
    requires Utf8Two(s)
    ensures 0x80 <= Number(s) <= 0x7FF && s == Encode(Number(s))
  {
    hide Encode;
    StandardBytes(Number(s));
    ShiftedBack(s[0] as int - 0xC0, s[1]);
    assert s == [s[0], s[1]];
  }

  lemma ThreeIsScalar(s: seq<byte>)
    requires Utf8Three(s)
    ensures 0x800 <= Number(s) <= 0xFFFF && RustScalar(Number(s)) && s == Encode(Number(s))
  {
    hide Encode;
    var high := Shifted(s[0] as int - 0xE0, s[1]);
    StandardBytes(Number(s));
    QuarterSteps(Number(s));
    ShiftedBack(s[0] as int - 0xE0, s[1]);
    ShiftedBack(high, s[2]);
    assert s == [s[0], s[1], s[2]];
  }

  lemma FourIsScalar(s: seq<byte>)
    requires Utf8Four(s)
    ensures 0x1_0000 <= Number(s) <= 0x10_FFFF && s == Encode(Number(s))
  {
    hide Encode;
    var top := Shifted(s[0] as int - 0xF0, s[1]);
    var high := Shifted(top, s[2]);
    StandardBytes(Number(s));
    QuarterSteps(Number(s));
    ShiftedBack(s[0] as int - 0xF0, s[1]);
    ShiftedBack(top, s[2]);
    ShiftedBack(high, s[3]);
    assert s == [s[0], s[1], s[2], s[3]];
  }

  /** Every form spells a character Rust can hold. */
  lemma Utf8CharIsScalar(s: seq<byte>)
    requires Utf8Char(s)
    ensures RustScalar(Number(s)) && s == Encode(Number(s))
  {
    hide Encode, Number, Utf8Two, Utf8Three, Utf8Four;
    if |s| == 1 {
      OneIsScalar(s);
    } else if Utf8Two(s) {
      TwoIsScalar(s);
    } else if Utf8Three(s) {
      ThreeIsScalar(s);
    } else {
      FourIsScalar(s);
    }
  }

  lemma OneIsScalar(s: seq<byte>)
    requires Utf8Char(s) && |s| == 1
    ensures Number(s) <= 0x7F && s == Encode(Number(s))
  {
    hide Encode;
    StandardBytes(Number(s));
    assert s == [s[0]];
  }

  // ── Whole strings ───────────────────────────────────────────────

  /** The fact certified as Rust-valid is true of exactly the standard's octet sequences. */
  lemma {:induction false} RustValidIffStandard(bytes: seq<byte>)
    ensures FactHolds(RustValid, bytes) <==> Utf8Octets(bytes)
    decreases |bytes|
  {
    hide Encode, DecodeAt, Utf8Char;
    if bytes != [] {
      if FactHolds(RustValid, bytes) {
        var len, c := DecodeAt(bytes, 0).len, DecodeAt(bytes, 0).value;
        DecodeAtIff(bytes, 0, len, c);
        assert bytes[..len] == bytes[0..len] && Chars(bytes)[0] == c && Chars(bytes)[1..] == Chars(bytes[len..]);
        ScalarIsUtf8Char(c);
        RustValidIffStandard(bytes[len..]);
      }
      if Utf8Octets(bytes) {
        var n :| 1 <= n <= |bytes| && Utf8Char(bytes[..n]) && Utf8Octets(bytes[n..]);
        var c := Number(bytes[..n]);
        Utf8CharIsScalar(bytes[..n]);
        assert bytes[0..n] == bytes[..n];
        DecodeAtIff(bytes, 0, n, c);
        RustValidIffStandard(bytes[n..]);
        assert Chars(bytes) == [c] + Chars(bytes[n..]);
      }
    }
  }

  /** The classes full classification tells apart, of standard text: by its widest character. */
  lemma ClassIsStandardIff(bytes: seq<byte>)
    ensures ClassOf(bytes) in {AsciiClass, Latin1Class, NonLatin1Class} <==> Utf8Octets(bytes)
  {
    hide Decode, Utf8Octets;
    RustValidIffStandard(bytes);
    FactByClass(RustValid, bytes);
  }

  /** U+1F600 is four octets of standard text past Latin-1; a surrogate's three octets and U+110000 are not standard. */
  lemma AtTheEdges()
    ensures Encode(0x1F600) == [0xF0, 0x9F, 0x98, 0x80] && Utf8Char(Encode(0x1F600))
    ensures Encode(0xD800) == [0xED, 0xA0, 0x80] && !Utf8Char(Encode(0xD800))
    ensures !RustScalar(0x11_0000) && RustScalar(0x10_FFFF) && Encode(0x10_FFFF) == [0xF4, 0x8F, 0xBF, 0xBF]
  {
    StandardBytes(0x1F600);
    StandardBytes(0xD800);
    StandardBytes(0x10_FFFF);
  }
}
