/**
  * Numbers as text: the presentation step of `%.15g`, and the digit caches that let a rendered number skip everything
  * but that step.  A cached rendering is the uncached one, and a presented float reads back as the number it presents.
  */
module Render {
  import opened DecimalText
  import opened NumericGrammar
  import opened Numify
  import opened Wrappers

  // ── Presenting digits and an exponent ───────────────────────────

  function Zeros(n: nat): (r: seq<byte>)
    ensures |r| == n && AllDigits(r)
  {
    seq(n, _ => 0x30)
  }

  /** An exponent's magnitude, padded to two digits. */
  function PadTwo(n: nat): (r: seq<byte>)
    ensures |r| >= 2 && AllDigits(r) && (|r| > 2 ==> r[0] != 0x30)
    ensures DecimalValue(r) == n
  {
    PaddedValue(n);
    if n < 10 then [0x30, (0x30 + n) as byte] else PrintNat(n)
  }

  lemma PaddedValue(n: nat)
    ensures n < 10 ==> AllDigits([0x30, (0x30 + n) as byte]) && DecimalValue([0x30, (0x30 + n) as byte]) == n
    ensures n >= 10 ==> |PrintNat(n)| >= 2 && PrintNat(n)[0] != 0x30 && DecimalValue(PrintNat(n)) == n
  {
    if n < 10 {
      var r: seq<byte> := [0x30, (0x30 + n) as byte];
      assert r[..1] == [0x30] && r[..1][..0] == [];
      assert DecimalValue([0x30]) == 0;
    } else {
      AsciiValue(DigitsOf(n));
    }
  }

  function Magnitude(n: int): nat {
    if n < 0 then -n else n
  }

  /** Fixed notation from exponent -4 up to the precision, exponent notation outside. */
  function PresentedBody(digits: seq<nat>, exp: int): seq<byte>
    requires digits != [] && AreDigits(digits)
  {
    var a := Ascii(digits);
    if exp < -4 || exp >= 15 then
      Compose(a[..1], if |a| > 1 then Some(a[1..]) else None, Some(Power(exp < 0, PadTwo(Magnitude(exp)))))
    else if exp < 0 then Compose([0x30], Some(Zeros(-exp - 1) + a), None)
    else if |a| <= exp + 1 then Compose(a + Zeros(exp + 1 - |a|), None, None)
    else Compose(a[..exp + 1], Some(a[exp + 1..]), None)
  }

  function Presented(digits: seq<nat>, exp: int, negative: bool): seq<byte>
    requires digits != [] && AreDigits(digits)
  {
    (if negative then [0x2D] else []) + PresentedBody(digits, exp)
  }

  lemma MoreZeros(out: seq<byte>, a: nat, b: nat)
    ensures out + Zeros(a) + Zeros(b) == out + Zeros(a + b)
  {
    assert Zeros(a) + Zeros(b) == Zeros(a + b);
  }

  /** Zeros arrive from a constant run of twenty-four. */
  method PushZeros(out: seq<byte>, count: nat) returns (r: seq<byte>)
    ensures r == out + Zeros(count)
  {
    hide Zeros;
    r := out;
    var left := count;
    assert out + Zeros(0) == out;
    while left > 0
      invariant 0 <= left <= count && r == out + Zeros(count - left)
      decreases left
    {
      var take := if left < 24 then left else 24;
      MoreZeros(out, count - left, take);
      r := r + Zeros(take);
      left := left - take;
    }
  }

  lemma ComposedInOrder(out: seq<byte>, whole: seq<byte>, f: Option<seq<byte>>, p: Option<Power>)
    ensures var pointed := out + whole + (if f.Some? then [Dot] + f.value else []);
            out + Compose(whole, f, p) == pointed + PowerText(p)
  {}

  method PushScientific(out: seq<byte>, ascii: seq<byte>, exp: int) returns (r: seq<byte>)
    requires ascii != []
    ensures r == out + Compose(ascii[..1], if |ascii| > 1 then Some(ascii[1..]) else None,
                               Some(Power(exp < 0, PadTwo(Magnitude(exp)))))
  {
    hide Compose, PadTwo;
    ComposedInOrder(out, ascii[..1], if |ascii| > 1 then Some(ascii[1..]) else None,
                    Some(Power(exp < 0, PadTwo(Magnitude(exp)))));
    r := out + ascii[..1];
    if |ascii| > 1 {
      r := r + ([Dot] + ascii[1..]);
    }
    r := r + ([0x65, if exp < 0 then 0x2D else 0x2B] + PadTwo(Magnitude(exp)));
  }

  method PushFixed(out: seq<byte>, ascii: seq<byte>, exp: nat) returns (r: seq<byte>)
    ensures r == out + if |ascii| <= exp + 1 then Compose(ascii + Zeros(exp + 1 - |ascii|), None, None)
                       else Compose(ascii[..exp + 1], Some(ascii[exp + 1..]), None)
  {
    hide Compose, Zeros;
    var intLen := exp + 1;
    if |ascii| <= intLen {
      ComposedInOrder(out, ascii + Zeros(intLen - |ascii|), None, None);
      r := PushZeros(out + ascii, intLen - |ascii|);
      assert r == out + (ascii + Zeros(intLen - |ascii|));
    } else {
      ComposedInOrder(out, ascii[..intLen], Some(ascii[intLen..]), None);
      r := out + ascii[..intLen];
      r := r + ([Dot] + ascii[intLen..]);
    }
  }

  method PushSmall(out: seq<byte>, ascii: seq<byte>, zeros: nat) returns (r: seq<byte>)
    ensures r == out + Compose([0x30], Some(Zeros(zeros) + ascii), None)
  {
    hide Compose, Zeros;
    ComposedInOrder(out, [0x30], Some(Zeros(zeros) + ascii), None);
    r := PushZeros(out + [0x30, Dot], zeros);
    r := r + ascii;
    assert r == out + [0x30] + ([Dot] + (Zeros(zeros) + ascii));
  }

  method PresentFloat(digits: seq<nat>, exp: int, negative: bool) returns (out: seq<byte>)
    requires digits != [] && AreDigits(digits)
    ensures out == Presented(digits, exp, negative)
  {
    hide Compose, Zeros;
    var sign: seq<byte> := if negative then [0x2D] else [];
    var ascii := Ascii(digits);
    if !(-4 <= exp < 15) {
      out := PushScientific(sign, ascii, exp);
    } else if exp >= 0 {
      out := PushFixed(sign, ascii, exp);
    } else {
      out := PushSmall(sign, ascii, -exp - 1);
    }
  }

  // ── Reading a presented float back ──────────────────────────────

  lemma {:induction false} JoinedValue(a: seq<byte>, b: seq<byte>)
    requires AllDigits(a) && AllDigits(b)
    ensures AllDigits(a + b) && DecimalValue(a + b) == DecimalValue(a) * Pow10(|b|) + DecimalValue(b)
  {
    DigitsJoin(a, b);
    if b == [] {
      assert a + b == a;
    } else {
      var front := b[..|b| - 1];
      JoinedValue(a, front);
      JoinedLast(a, b);
      Distribute(DecimalValue(a), Pow10(|front|));
    }
  }

  lemma JoinedLast(a: seq<byte>, b: seq<byte>)
    requires AllDigits(a) && AllDigits(b) && b != []
    ensures AllDigits(a + b) && AllDigits(a + b[..|b| - 1])
    ensures DecimalValue(a + b) == 10 * DecimalValue(a + b[..|b| - 1]) + (b[|b| - 1] as int - 0x30)
  {
    DigitsJoin(a, b);
    DigitsJoin(a, b[..|b| - 1]);
    assert (a + b)[..|a + b| - 1] == a + b[..|b| - 1];
  }

  lemma Distribute(x: nat, y: nat)
    ensures 10 * (x * y) == x * (10 * y)
  {}

  lemma {:induction false} ZerosValue(n: nat)
    ensures DecimalValue(Zeros(n)) == 0
  {
    if n > 0 {
      ZerosValue(n - 1);
      assert Zeros(n)[..n - 1] == Zeros(n - 1);
    }
  }

  lemma PadTwoValue(n: nat)
    ensures DecimalValue(PadTwo(n)) == n
  {
    if n < 10 {
      var r := PadTwo(n);
      assert r[..1] == [0x30] && [0x30][..0] == [];
      assert DecimalValue(r[..1]) == 0;
    } else {
      AsciiValue(DigitsOf(n));
    }
  }

  /** The number the digits and exponent stand for: `digits * 10^(exp - count + 1)`. */
  function Number(digits: seq<nat>, exp: int, negative: bool): Decimal {
    Decimal(negative, ValueOf(digits), exp - |digits| + 1)
  }

  ghost predicate ReadsBack(body: seq<byte>, digits: seq<nat>, exp: int, negative: bool) {
    AcceptedDecimal(body) && SameNumber(Denoted(body, negative), Number(digits, exp, negative))
  }

  lemma ScientificReadsBack(digits: seq<nat>, exp: int, negative: bool)
    requires digits != [] && AreDigits(digits) && (exp < -4 || exp >= 15)
    ensures ReadsBack(PresentedBody(digits, exp), digits, exp, negative)
  {
    hide DecimalValue, AcceptedDecimal, Denoted, Compose;
    var a := Ascii(digits);
    var f := if |a| > 1 then Some(a[1..]) else None;
    var p := Some(Power(exp < 0, PadTwo(Magnitude(exp))));
    ComposedDenotes(a[..1], f, p, negative);
    PadTwoValue(Magnitude(exp));
    assert a[..1] + Digits(f) == a;
    AsciiValue(digits);
  }

  lemma SmallReadsBack(digits: seq<nat>, exp: int, negative: bool)
    requires digits != [] && AreDigits(digits) && -4 <= exp < 0
    ensures ReadsBack(PresentedBody(digits, exp), digits, exp, negative)
  {
    hide DecimalValue, AcceptedDecimal, Denoted, Compose;
    var a, zeros := Ascii(digits), Zeros(-exp - 1);
    DigitsJoin(zeros, a);
    ComposedDenotes([0x30], Some(zeros + a), None, negative);
    assert Zeros(1) == [0x30] && Zeros(1) + zeros == Zeros(-exp);
    assert [0x30] + (zeros + a) == Zeros(-exp) + a;
    JoinedValue(Zeros(-exp), a);
    ZerosValue(-exp);
    AsciiValue(digits);
  }

  lemma FixedReadsBack(digits: seq<nat>, exp: int, negative: bool)
    requires digits != [] && AreDigits(digits) && 0 <= exp < 15
    ensures ReadsBack(PresentedBody(digits, exp), digits, exp, negative)
  {
    hide DecimalValue, AcceptedDecimal, Denoted, Compose;
    var a := Ascii(digits);
    AsciiValue(digits);
    if |a| <= exp + 1 {
      var zeros := Zeros(exp + 1 - |a|);
      DigitsJoin(a, zeros);
      ComposedDenotes(a + zeros, None, None, negative);
      assert a + zeros + [] == a + zeros;
      JoinedValue(a, zeros);
      ZerosValue(|zeros|);
    } else {
      ComposedDenotes(a[..exp + 1], Some(a[exp + 1..]), None, negative);
      assert a[..exp + 1] + a[exp + 1..] == a;
    }
  }

  /** Whatever is presented is a silent, complete token that denotes the digits at their exponent. */
  lemma PresentedReadsBack(digits: seq<nat>, exp: int, negative: bool)
    requires digits != [] && AreDigits(digits)
    ensures var text := Presented(digits, exp, negative);
            && !WouldWarn(text)
            && SignOf(text) == Signed(negative, PresentedBody(digits, exp))
            && ReadsBack(PresentedBody(digits, exp), digits, exp, negative)
  {
    hide WouldWarn, Compose, ReadsBack, AllDigits;
    var body := PresentedBody(digits, exp);
    PresentedComposes(digits, exp, negative);
    if exp < -4 || exp >= 15 {
      ScientificReadsBack(digits, exp, negative);
    } else if exp < 0 {
      SmallReadsBack(digits, exp, negative);
    } else {
      FixedReadsBack(digits, exp, negative);
    }
  }

  /**
    * What a presentation looks like, byte by byte: exponent notation outside -4 to 14 and fixed notation inside, the
    * digits as given, no digit more than the number needs, and an exponent of at least two digits with its sign.
    */
  lemma PresentedLooks(digits: seq<nat>, exp: int)
    requires digits != [] && AreDigits(digits)
    ensures var a, b, n := Ascii(digits), PresentedBody(digits, exp), |digits|;
            if exp < -4 || exp >= 15 then LooksScientific(b, a, exp)
            else if exp < 0 then b == [0x30, Dot] + Zeros(-exp - 1) + a
            else if n <= exp + 1 then b == a + Zeros(exp + 1 - n)
            else b == a[..exp + 1] + [Dot] + a[exp + 1..]
  {
    hide AllDigits, DecimalValue, PadTwo, Zeros, Compose, LooksScientific;
    var a := Ascii(digits);
    if exp < -4 || exp >= 15 {
      ScientificLooks(a, exp);
    } else if exp < 0 {
      FractionLooks([0x30], Zeros(-exp - 1) + a);
      assert [0x30] + [Dot] + (Zeros(-exp - 1) + a) == [0x30, Dot] + Zeros(-exp - 1) + a;
    } else if |digits| <= exp + 1 {
      WholeLooks(a + Zeros(exp + 1 - |digits|));
    } else {
      FractionLooks(a[..exp + 1], a[exp + 1..]);
    }
  }

  /** One digit, the rest after a point, an `e`, the sign and at least two digits of exponent. */
  ghost predicate LooksScientific(b: seq<byte>, a: seq<byte>, exp: int) {
    a != [] && exists e: seq<byte> :: IsExponent(e, Magnitude(exp)) && b == Significand(a) + Marked(exp) + e
  }

  function Significand(a: seq<byte>): seq<byte>
    requires a != []
  {
    if |a| == 1 then a else [a[0], Dot] + a[1..]
  }

  function Marked(exp: int): seq<byte> {
    [0x65, if exp < 0 then 0x2D else 0x2B]
  }

  /** Two digits, or more with no leading zero, that spell `n`. */
  ghost predicate IsExponent(e: seq<byte>, n: nat) {
    |e| >= 2 && AllDigits(e) && (|e| > 2 ==> e[0] != 0x30) && DecimalValue(e) == n
  }

  lemma PadTwoIsExponent(n: nat)
    ensures IsExponent(PadTwo(n), n)
  {}

  lemma ScientificLooks(a: seq<byte>, exp: int)
    requires a != []
    ensures LooksScientific(Compose(a[..1], if |a| > 1 then Some(a[1..]) else None,
                                    Some(Power(exp < 0, PadTwo(Magnitude(exp))))), a, exp)
  {
    hide IsExponent, AllDigits, DecimalValue, PadTwo, Compose;
    PadTwoIsExponent(Magnitude(exp));
    ScientificSpells(a, exp, PadTwo(Magnitude(exp)));
  }

  lemma ScientificSpells(a: seq<byte>, exp: int, e: seq<byte>)
    requires a != []
    ensures Compose(a[..1], if |a| > 1 then Some(a[1..]) else None, Some(Power(exp < 0, e)))
         == Significand(a) + Marked(exp) + e
  {
    hide Significand, Marked;
    var tail := Marked(exp) + e;
    PowerIsMarked(exp, e);
    Regrouped(Significand(a), Marked(exp), e);
    if |a| == 1 {
      WholeIsSignificand(a);
    } else {
      Regrouped([Dot], a[1..], tail);
      Regrouped(a[..1], [Dot] + a[1..], tail);
      PointIsSignificand(a);
    }
  }

  lemma PowerIsMarked(exp: int, e: seq<byte>)
    ensures PowerText(Some(Power(exp < 0, e))) == Marked(exp) + e
  {}

  lemma WholeIsSignificand(a: seq<byte>)
    requires |a| == 1
    ensures a[..1] == Significand(a)
  {}

  lemma PointIsSignificand(a: seq<byte>)
    requires |a| > 1
    ensures a[..1] + ([Dot] + a[1..]) == Significand(a)
  {}

  lemma Regrouped(a: seq<byte>, b: seq<byte>, c: seq<byte>)
    ensures a + b + c == a + (b + c)
  {}

  lemma FractionLooks(whole: seq<byte>, f: seq<byte>)
    ensures Compose(whole, Some(f), None) == whole + [Dot] + f
  {}

  lemma WholeLooks(whole: seq<byte>)
    ensures Compose(whole, None, None) == whole
  {}

  lemma PresentedComposes(digits: seq<nat>, exp: int, negative: bool)
    requires digits != [] && AreDigits(digits)
    ensures var text := Presented(digits, exp, negative);
            !WouldWarn(text) && SignOf(text) == Signed(negative, PresentedBody(digits, exp))
  {
    hide WouldWarn, Compose;
    var a := Ascii(digits);
    var whole, f, p :=
      if exp < -4 || exp >= 15 then a[..1]
      else if exp < 0 then [0x30]
      else if |a| <= exp + 1 then a + Zeros(exp + 1 - |a|) else a[..exp + 1],
      if exp < -4 || exp >= 15 then (if |a| > 1 then Some(a[1..]) else None)
      else if exp < 0 then Some(Zeros(-exp - 1) + a)
      else if |a| <= exp + 1 then None else Some(a[exp + 1..]),
      if exp < -4 || exp >= 15 then Some(Power(exp < 0, PadTwo(Magnitude(exp)))) else None;
    ComposedIsSilent(whole, f, p, negative);
    ComposedStarts(whole, f, p);
    assert Presented(digits, exp, negative)[0] == if negative then 0x2D else Compose(whole, f, p)[0];
  }

  // ── The digit cache ─────────────────────────────────────────────

  const CACHE_BYTES := 7

  /** Seven bytes: a count, for floats an exponent, then two digits a byte, high nibble first. */
  type Cache = c: seq<byte> | |c| == CACHE_BYTES witness [0, 0, 0, 0, 0, 0, 0]

  const EmptyCache: Cache := [0, 0, 0, 0, 0, 0, 0]

  function Capacity(digitsAt: nat): int {
    (CACHE_BYTES - digitsAt) * 2
  }

  function Exponent8(cache: Cache): int {
    if cache[1] < 128 then cache[1] as int else cache[1] as int - 256
  }

  function CachedDigit(cache: seq<byte>, digitsAt: nat, i: nat): nat
    requires digitsAt + i / 2 < |cache|
  {
    var slot := cache[digitsAt + i / 2] as int;
    if i % 2 == 0 then slot / 16 else slot % 16
  }

  predicate Fits(digitsAt: nat, digits: seq<nat>, exponent: int) {
    digits != [] && |digits| <= Capacity(digitsAt) && -128 <= exponent <= 127
  }

  predicate HoldsDigits(cache: Cache, digitsAt: nat, digits: seq<nat>)
    requires digitsAt in {1, 2} && |digits| <= Capacity(digitsAt)
  {
    cache[0] as int == |digits| && forall i :: 0 <= i < |digits| ==> CachedDigit(cache, digitsAt, i) == digits[i]
  }

  /** All or nothing: a rendering that does not fit leaves the cache empty. */
  predicate IsBuilt(cache: Cache, digitsAt: nat, digits: seq<nat>, exponent: int)
    requires digitsAt in {1, 2}
  {
    if Fits(digitsAt, digits, exponent)
    then HoldsDigits(cache, digitsAt, digits) && (digitsAt == 2 ==> Exponent8(cache) == exponent)
    else cache == EmptyCache
  }

  method Build(digitsAt: nat, digits: seq<nat>, exponent: int) returns (cache: Cache)
    requires digitsAt in {1, 2} && AreDigits(digits)
    ensures IsBuilt(cache, digitsAt, digits, exponent)
  {
    if digits == [] || |digits| > Capacity(digitsAt) || !(-128 <= exponent <= 127) {
      return EmptyCache;
    }
    var out := EmptyCache;
    out := out[0 := |digits| as byte];
    out := out[1 := (if exponent < 0 then exponent + 256 else exponent) as byte];
    for i := 0 to |digits|
      invariant |out| == CACHE_BYTES && out[0] as int == |digits|
      invariant digitsAt == 2 ==> Exponent8(out) == exponent
      invariant forall k :: 0 <= k < i ==> CachedDigit(out, digitsAt, k) == digits[k]
    {
      WithDigitReads(out, digitsAt, i, digits[i]);
      out := WithDigit(out, digitsAt, i, digits[i]);
    }
    cache := out;
  }

  /** One nibble of the digit bytes rewritten. */
  function WithDigit(cache: Cache, digitsAt: nat, i: nat, d: nat): Cache
    requires digitsAt + i / 2 < CACHE_BYTES && d < 10
  {
    var slot := cache[digitsAt + i / 2] as int;
    cache[digitsAt + i / 2 := (if i % 2 == 0 then d * 16 + slot % 16 else slot / 16 * 16 + d) as byte]
  }

  lemma WithDigitReads(cache: Cache, digitsAt: nat, i: nat, d: nat)
    requires digitsAt > 0 && digitsAt + i / 2 < CACHE_BYTES && d < 10
    ensures var r := WithDigit(cache, digitsAt, i, d);
            && CachedDigit(r, digitsAt, i) == d
            && (forall k :: 0 <= k < i ==> CachedDigit(r, digitsAt, k) == CachedDigit(cache, digitsAt, k))
            && forall k :: 0 <= k < digitsAt ==> r[k] == cache[k]
  {
    var slot, r := cache[digitsAt + i / 2] as int, WithDigit(cache, digitsAt, i, d);
    NibbleArithmetic(slot, d);
    forall k | 0 <= k < i
      ensures CachedDigit(r, digitsAt, k) == CachedDigit(cache, digitsAt, k)
    {
      if k / 2 == i / 2 {
        assert k % 2 == 0 && i % 2 == 1;
      }
    }
  }

  lemma NibbleArithmetic(slot: nat, d: nat)
    requires slot < 256 && d < 16
    ensures (d * 16 + slot % 16) / 16 == d && (slot / 16 * 16 + d) % 16 == d && (slot / 16 * 16 + d) / 16 == slot / 16
  {}

  /** The cached digits, copied out. */
  method CopyDigits(cache: Cache, digitsAt: nat, ghost digits: seq<nat>) returns (r: seq<nat>)
    requires digitsAt in {1, 2} && |digits| <= Capacity(digitsAt) && HoldsDigits(cache, digitsAt, digits)
    ensures r == digits
  {
    r := [];
    for i := 0 to cache[0] as int
      invariant r == digits[..i]
    {
      r := r + [CachedDigit(cache, digitsAt, i)];
    }
  }

  /** The digits of a magnitude, taken least first and then reversed. */
  method MagnitudeDigits(magnitude: nat) returns (digits: seq<nat>)
    ensures digits == DigitsOf(magnitude)
  {
    hide DigitsOf, Leading, Reversed;
    var rest: nat := magnitude / 10;
    digits := [magnitude % 10];
    LastDigit(magnitude);
    ReversedOne(magnitude % 10);
    while rest > 0
      invariant DigitsOf(magnitude) == Leading(rest) + Reversed(digits)
      decreases rest
    {
      OneDigitOver(rest, digits);
      digits := digits + [rest % 10];
      rest := rest / 10;
    }
    NoneLeading(Reversed(digits));
    digits := Reversed(digits);
  }

  method DecimalCache(magnitude: nat) returns (cache: Cache)
    ensures IsBuilt(cache, 1, DigitsOf(magnitude), 0)
  {
    hide DigitsOf, IsBuilt;
    var digits := MagnitudeDigits(magnitude);
    cache := Build(1, digits, 0);
  }

  lemma ReversedOne(d: nat)
    ensures Reversed([d]) == [d]
  {}

  lemma NoneLeading(s: seq<nat>)
    ensures Leading(0) + s == s
  {}

  lemma OneDigitOver(rest: nat, digits: seq<nat>)
    requires rest > 0
    ensures Leading(rest) + Reversed(digits) == Leading(rest / 10) + Reversed(digits + [rest % 10])
  {
    hide DigitsOf, Reversed;
    LastDigit(rest);
    ReversedGrows(digits, rest % 10);
    assert Leading(rest / 10) + [rest % 10] + Reversed(digits) == Leading(rest / 10) + ([rest % 10] + Reversed(digits));
  }

  /** The digits still to come, of which there are none once the quotient is zero. */
  function Leading(rest: nat): seq<nat> {
    if rest == 0 then [] else DigitsOf(rest)
  }

  lemma LastDigit(n: nat)
    ensures DigitsOf(n) == Leading(n / 10) + [n % 10]
  {}

  lemma ReversedGrows(s: seq<nat>, d: nat)
    ensures Reversed(s + [d]) == [d] + Reversed(s)
  {}

  function Reversed(s: seq<nat>): (r: seq<nat>)
    ensures |r| == |s| && forall i :: 0 <= i < |s| ==> r[i] == s[|s| - 1 - i]
  {
    seq(|s|, i requires 0 <= i < |s| => s[|s| - 1 - i])
  }

  method EmitDigits(digits: seq<nat>, negative: bool) returns (out: seq<byte>)
    requires AreDigits(digits)
    ensures out == (if negative then [0x2D] else []) + Ascii(digits)
  {
    out := if negative then [0x2D] else [];
    ghost var sign := out;
    for i := 0 to |digits|
      invariant out == sign + Ascii(digits)[..i]
    {
      out := out + [(0x30 + digits[i]) as byte];
    }
    assert Ascii(digits)[..|digits|] == Ascii(digits);
  }

  // ── Payloads ────────────────────────────────────────────────────

  /** An integer and the digits of its rendering, or none. */
  ghost predicate IntegerCacheOk(cache: Cache, value: int) {
    cache == EmptyCache || IsBuilt(cache, 1, DigitsOf(Magnitude(value)), 0)
  }

  /** Cached or not, an integer renders as its decimal text. */
  method RenderInteger(cache: Cache, value: int) returns (out: seq<byte>)
    requires IntegerCacheOk(cache, value)
    ensures out == PrintInt(value)
  {
    if cache[0] == 0 {
      return PrintInt(value);
    }
    var digits := CopyDigits(cache, 1, DigitsOf(Magnitude(value)));
    out := EmitDigits(digits, value < 0);
  }

  method FilledInteger(value: int) returns (cache: Cache)
    ensures IntegerCacheOk(cache, value)
    ensures cache != EmptyCache <==> |DigitsOf(Magnitude(value))| <= 12
  {
    cache := DecimalCache(Magnitude(value));
  }

  /** A float as its rendering sees it: the specials, zero, or the digits and exponent of its `%.15g` form. */
  datatype FloatView = NotANumber | Infinite(negative: bool) | Zero | Finite(negative: bool, digits: seq<nat>, exp: int)

  predicate IsFloat(f: FloatView) {
    f.Finite? ==> f.digits != [] && AreDigits(f.digits)
  }

  function FloatText(f: FloatView): seq<byte>
    requires IsFloat(f)
  {
    match f
    case NotANumber => [0x4E, 0x61, 0x4E]
    case Infinite(negative) => (if negative then [0x2D] else []) + [0x49, 0x6E, 0x66]
    case Zero => [0x30]
    case Finite(negative, digits, exp) => Presented(digits, exp, negative)
  }

  ghost predicate FloatCacheOk(cache: Cache, f: FloatView)
    requires IsFloat(f)
  {
    cache == EmptyCache || (f.Finite? && IsBuilt(cache, 2, f.digits, f.exp))
  }

  method RenderFloat(cache: Cache, f: FloatView) returns (out: seq<byte>)
    requires IsFloat(f) && FloatCacheOk(cache, f)
    ensures out == FloatText(f)
  {
    if cache[0] == 0 {
      match f {
        case Finite(negative, digits, exp) => out := PresentFloat(digits, exp, negative);
        case _ => out := FloatText(f);
      }
      return;
    }
    var digits := CopyDigits(cache, 2, f.digits);
    out := PresentFloat(digits, Exponent8(cache), f.negative);
  }

  method FilledFloat(f: FloatView) returns (cache: Cache)
    requires IsFloat(f)
    ensures FloatCacheOk(cache, f)
    ensures cache != EmptyCache <==> f.Finite? && |f.digits| <= 10 && -128 <= f.exp <= 127
  {
    match f
    case Finite(_, digits, exp) => cache := Build(2, digits, exp);
    case _ => cache := EmptyCache;
  }

  /** The specials are spelled as what they are. */
  lemma SpecialsAreNamed(f: FloatView)
    requires IsFloat(f)
    ensures f.NotANumber? ==> SameIgnoringCase(FloatText(f), Nan)
    ensures f.Infinite? ==> SignOf(FloatText(f)).negative == f.negative && SameIgnoringCase(SignOf(FloatText(f)).rest, Inf)
    ensures f.Zero? ==> FloatText(f) == PrintInt(0)
  {
    assert PrintInt(0) == [0x30];
  }

  /** Every float's text, the specials' included, numifies without a warning. */
  lemma FloatTextIsSilent(f: FloatView)
    requires IsFloat(f)
    ensures !WouldWarn(FloatText(f))
  {
    match f
    case Finite(negative, digits, exp) => PresentedReadsBack(digits, exp, negative);
    case _ =>
      var text := FloatText(f);
      assert text == [0x30] ==> DigitRun(text) == 1 && AcceptedDecimal(text);
      AcceptedIff(Unsigned(text));
      TokenStandsAlone(text);
  }
}
