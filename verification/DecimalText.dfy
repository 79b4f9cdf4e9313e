/** Decimal digits as numbers and as text, and the decimal number a composed token denotes. */
module DecimalText {
  import opened NumericGrammar
  import opened Numify
  import opened Wrappers

  predicate AreDigits(ds: seq<nat>) {
    forall i :: 0 <= i < |ds| ==> ds[i] < 10
  }

  function Ascii(ds: seq<nat>): (r: seq<byte>)
    requires AreDigits(ds)
    ensures |r| == |ds| && AllDigits(r)
  {
    seq(|ds|, i requires 0 <= i < |ds| => (0x30 + ds[i]) as byte)
  }

  function ValueOf(ds: seq<nat>): nat {
    if ds == [] then 0 else 10 * ValueOf(ds[..|ds| - 1]) + ds[|ds| - 1]
  }

  lemma {:induction false} AsciiValue(ds: seq<nat>)
    requires AreDigits(ds)
    ensures DecimalValue(Ascii(ds)) == ValueOf(ds)
  {
    if ds != [] {
      AsciiValue(ds[..|ds| - 1]);
      assert Ascii(ds)[..|ds| - 1] == Ascii(ds[..|ds| - 1]);
    }
  }

  /** The digits of a number, the most significant first, with no leading zero unless it is zero. */
  function DigitsOf(n: nat): (ds: seq<nat>)
    ensures ds != [] && AreDigits(ds) && ValueOf(ds) == n && (ds[0] == 0 ==> n == 0)
  {
    if n < 10 then [n]
    else
      var front := DigitsOf(n / 10);
      assert (front + [n % 10])[..|front|] == front;
      front + [n % 10]
  }

  function PrintNat(n: nat): seq<byte> {
    Ascii(DigitsOf(n))
  }

  function PrintInt(n: int): seq<byte> {
    if n < 0 then [0x2D] + PrintNat(-n) else PrintNat(n)
  }

  /** Printed integers are plain: a minus sign exactly where it is due, no other, and no leading zero. */
  lemma PrintIsPlain(n: int)
    ensures PrintInt(n) != [] && (PrintInt(n)[0] == 0x2D <==> n < 0)
    ensures var digits := if n < 0 then PrintInt(n)[1..] else PrintInt(n);
            digits != [] && AllDigits(digits) && (digits[0] == 0x30 ==> digits == [0x30] && n == 0)
  {}

  // ── Printing then classifying ───────────────────────────────────

  /** A signed digit run trims to itself. */
  lemma DigitRunTrims(token: seq<byte>)
    requires Unsigned(token) != [] && AllDigits(Unsigned(token))
    ensures TrimEnd(token) == token && TrimStart(token) == token && token != ZeroButTrue
  {
    assert token[|token| - 1] == Unsigned(token)[|Unsigned(token)| - 1];
    assert !IsSign(token[0]) ==> token[0] == Unsigned(token)[0];
    TokenEndIs(token, |token|);
    assert SpaceRun(token) == 0;
    assert |token| > 1 ==> token[1] == Unsigned(token)[if IsSign(token[0]) then 0 else 1];
  }

  lemma DigitsAreIntegral(rest: seq<byte>)
    requires rest != [] && AllDigits(rest)
    ensures DigitRun(rest) == |rest| && IsIntegral(rest) && rest[..|rest|] == rest && FloatSpan(rest) == |rest|
  {
    assert rest[..|rest|] == rest;
    DigitRunIs(rest, |rest|);
    IntegralVerdict(rest);
  }

  /** Every `i64`, and every `u64` beyond it, prints to text that classifies back to itself without a warning. */
  lemma PrintThenClassify(n: int)
    requires -TWO_63 <= n < TWO_64
    ensures NumericOf(PrintInt(n)) == if n < TWO_63 then Integer(n) else Whole(n)
    ensures !WouldWarn(PrintInt(n))
  {
    hide WouldWarn, FloatSpan, TrimStart, TrimEnd, IsIntegral, DigitsOf;
    var text, magnitude := PrintInt(n), if n < 0 then -n else n;
    var rest := PrintNat(magnitude);
    AsciiValue(DigitsOf(magnitude));
    assert n >= 0 ==> !IsSign(text[0]);
    assert Unsigned(text) == rest && SignOf(text) == Signed(n < 0, rest);
    DigitRunTrims(text);
    DigitsAreIntegral(rest);
    VerdictByToken(text);
  }

  // ── What a token denotes ────────────────────────────────────────

  /** `mantissa * 10^scale`, under a sign. */
  datatype Decimal = Decimal(negative: bool, mantissa: nat, scale: int)

  function Pow10(n: nat): nat {
    if n == 0 then 1 else 10 * Pow10(n - 1)
  }

  /** Equality of the numbers, whatever power of ten each is written with. */
  predicate SameNumber(a: Decimal, b: Decimal) {
    && a.negative == b.negative
    && if a.scale >= b.scale then a.mantissa * Pow10(a.scale - b.scale) == b.mantissa
       else a.mantissa == b.mantissa * Pow10(b.scale - a.scale)
  }

  /** The decimal number a complete decimal token denotes. */
  function Denoted(body: seq<byte>, negative: bool): Decimal
    requires AcceptedDecimal(body)
  {
    var whole, i := DigitRun(body), MantissaEnd(body).value;
    var fraction := if i > whole then body[whole + 1..][..DigitRun(body[whole + 1..])] else [];
    DigitsJoin(body[..whole], fraction);
    var mantissa := DecimalValue(body[..whole] + fraction);
    var exponent :=
      if i < |body| then
        var j := ExponentDigits(body, i);
        var magnitude := DecimalValue(body[j..][..DigitRun(body[j..])]);
        if body[i + 1] == 0x2D then 0 - magnitude else magnitude
      else 0;
    Decimal(negative, mantissa, exponent - |fraction|)
  }

  lemma DigitsJoin(a: seq<byte>, b: seq<byte>)
    requires AllDigits(a) && AllDigits(b)
    ensures AllDigits(a + b)
  {}

  /** An exponent: its sign, and its digits. */
  datatype Power = Power(down: bool, digits: seq<byte>)

  function PowerText(p: Option<Power>): seq<byte> {
    match p
    case None => []
    case Some(power) => [0x65, if power.down then 0x2D else 0x2B] + power.digits
  }

  /** What follows the whole digits: a point and a fraction, where there is one, then the exponent. */
  function AfterWhole(f: Option<seq<byte>>, p: Option<Power>): seq<byte> {
    match f
    case None => PowerText(p)
    case Some(digits) => [Dot] + (digits + PowerText(p))
  }

  function Compose(whole: seq<byte>, f: Option<seq<byte>>, p: Option<Power>): seq<byte> {
    whole + AfterWhole(f, p)
  }

  function MantissaLength(whole: seq<byte>, f: Option<seq<byte>>): nat {
    |whole| + if f.Some? then 1 + |f.value| else 0
  }

  function Digits(f: Option<seq<byte>>): seq<byte> {
    if f.Some? then f.value else []
  }

  predicate Composable(whole: seq<byte>, f: Option<seq<byte>>, p: Option<Power>) {
    && whole != [] && AllDigits(whole) && AllDigits(Digits(f))
    && (p.Some? ==> p.value.digits != [] && AllDigits(p.value.digits))
  }

  lemma DropDigits(digits: seq<byte>, rest: seq<byte>, k: nat)
    requires k <= |rest|
    ensures (digits + rest)[|digits| + k..] == rest[k..]
  {}

  lemma MantissaOfComposed(whole: seq<byte>, f: Option<seq<byte>>, p: Option<Power>)
    requires Composable(whole, f, p)
    ensures var body := Compose(whole, f, p);
            && DigitRun(body) == |whole| && body[..|whole|] == whole
            && MantissaEnd(body) == Some(MantissaLength(whole, f))
            && (f.Some? ==>
                  && |whole| < |body| && DigitRun(body[|whole| + 1..]) == |f.value|
                  && body[|whole| + 1..][..|f.value|] == f.value)
  {
    hide DigitRun, AllDigits, MantissaEnd, PowerText;
    assert PowerText(p) != [] ==> PowerText(p)[0] == 0x65 by { PowerStarts(p); }
    match f
    case None => PlainMantissa(whole, PowerText(p));
    case Some(digits) => PointedMantissa(whole, digits, PowerText(p));
  }

  lemma PowerStarts(p: Option<Power>)
    ensures PowerText(p) != [] ==> PowerText(p)[0] == 0x65
  {}

  lemma PlainMantissa(whole: seq<byte>, rest: seq<byte>)
    requires whole != [] && AllDigits(whole) && (rest != [] ==> rest[0] == 0x65)
    ensures var body := whole + rest;
            DigitRun(body) == |whole| && body[..|whole|] == whole && MantissaEnd(body) == Some(|whole|)
  {
    hide DigitRun, AllDigits;
    DigitRunPrefix(whole, rest);
  }

  lemma PointedMantissa(whole: seq<byte>, digits: seq<byte>, rest: seq<byte>)
    requires whole != [] && AllDigits(whole) && AllDigits(digits) && (rest != [] ==> rest[0] == 0x65)
    ensures var body := whole + ([Dot] + (digits + rest));
            && DigitRun(body) == |whole| && body[..|whole|] == whole
            && MantissaEnd(body) == Some(|whole| + 1 + |digits|)
            && DigitRun(body[|whole| + 1..]) == |digits| && body[|whole| + 1..][..|digits|] == digits
  {
    hide DigitRun, AllDigits;
    DigitRunPrefix(whole, [Dot] + (digits + rest));
    DropDigits(whole, [Dot] + (digits + rest), 1);
    DropDigits([Dot], digits + rest, 0);
    DigitRunPrefix(digits, rest);
  }

  lemma PowerEnds(whole: seq<byte>, f: Option<seq<byte>>, p: Option<Power>)
    ensures var i := MantissaLength(whole, f); i <= |Compose(whole, f, p)| && Compose(whole, f, p)[i..] == PowerText(p)
  {
    match f
    case None => DropDigits(whole, PowerText(p), 0);
    case Some(digits) =>
      DropDigits(digits, PowerText(p), 0);
      DropDigits([Dot], digits + PowerText(p), |digits|);
      DropDigits(whole, AfterWhole(f, p), 1 + |digits|);
  }

  lemma PowerOfComposed(whole: seq<byte>, f: Option<seq<byte>>, p: Option<Power>)
    requires Composable(whole, f, p) && p.Some?
    ensures var body, i := Compose(whole, f, p), MantissaLength(whole, f);
            && i + 2 < |body| && IsMarker(body[i]) && ExponentDigits(body, i) == i + 2
            && (body[i + 1] == 0x2D <==> p.value.down)
            && body[i + 2..] == p.value.digits && DigitRun(body[i + 2..]) == |p.value.digits|
  {
    hide DigitRun, AllDigits;
    var body, i, text := Compose(whole, f, p), MantissaLength(whole, f), PowerText(p);
    PowerEnds(whole, f, p);
    assert body[i] == body[i..][0] && body[i + 1] == body[i..][1];
    assert body[i + 2..] == body[i..][2..] == p.value.digits;
    DigitRunPrefix(p.value.digits, []);
    assert p.value.digits + [] == p.value.digits;
  }

  function Exponent(p: Option<Power>): int
    requires p.Some? ==> AllDigits(p.value.digits)
  {
    match p
    case None => 0
    case Some(power) => if power.down then 0 - DecimalValue(power.digits) else DecimalValue(power.digits)
  }

  lemma NoPower()
    ensures PowerText(None) == []
  {}

  /** A composed token is complete, and denotes its digits at its exponent less its fraction. */
  lemma ComposedDenotes(whole: seq<byte>, f: Option<seq<byte>>, p: Option<Power>, negative: bool)
    requires Composable(whole, f, p)
    ensures AcceptedDecimal(Compose(whole, f, p)) && AllDigits(whole + Digits(f))
    ensures Denoted(Compose(whole, f, p), negative) ==
            Decimal(negative, DecimalValue(whole + Digits(f)), Exponent(p) - |Digits(f)|)
  {
    hide DigitRun, MantissaEnd, DecimalValue, ExponentDigits, Compose, AllDigits, PowerText;
    var body := Compose(whole, f, p);
    MantissaOfComposed(whole, f, p);
    PowerEnds(whole, f, p);
    assert p.None? ==> PowerText(p) == [] by { NoPower(); }
    DigitsJoin(whole, Digits(f));
    if p.Some? {
      PowerOfComposed(whole, f, p);
      assert p.value.digits[..|p.value.digits|] == p.value.digits;
    }
  }

  /** A token made of a sign and a composed body neither trims nor warns. */
  lemma ComposedIsSilent(whole: seq<byte>, f: Option<seq<byte>>, p: Option<Power>, negative: bool)
    requires Composable(whole, f, p)
    ensures var token := (if negative then [0x2D] else []) + Compose(whole, f, p);
            Unsigned(token) == Compose(whole, f, p) && !WouldWarn(token)
  {
    hide DigitRun, MantissaEnd, DecimalValue, ExponentDigits, WouldWarn, Compose, AcceptedDecimal, IsWord, IsDecimal;
    var body := Compose(whole, f, p);
    var token := (if negative then [0x2D] else []) + body;
    ComposedDenotes(whole, f, p, negative);
    ComposedStarts(whole, f, p);
    assert Unsigned(token) == body;
    AcceptedIff(body);
    TokenStandsAlone(token);
  }

  lemma ComposedStarts(whole: seq<byte>, f: Option<seq<byte>>, p: Option<Power>)
    requires Composable(whole, f, p)
    ensures var body := Compose(whole, f, p); body != [] && IsDigit(body[0])
  {
    assert Compose(whole, f, p)[0] == whole[0];
  }

  lemma TokenStandsAlone(token: seq<byte>)
    requires IsToken(Unsigned(token))
    ensures !WouldWarn(token)
  {
    hide IsToken, WouldWarn;
    assert token[0..|token|] == token;
    assert IsSpacedToken(token, 0, |token|);
    WouldWarnIff(token);
  }
}
