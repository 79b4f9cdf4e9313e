/**
  * String numification in one pass: the value, and whether producing it warns, read off the bytes the parse consumed.
  * The verdict is the independent grammar's on every string.
  */
module Numify {
  import opened NumericGrammar
  import W = Words
  import opened Wrappers

  const TWO_63 := 0x8000_0000_0000_0000

  const TWO_64 := 0x1_0000_0000_0000_0000

  /** A float is the text its magnitude is parsed from, and the sign: the parse of that text is not modelled. */
  datatype Numeric = Integer(value: int) | Whole(magnitude: nat) | Float(negative: bool, text: seq<byte>)

  function DecimalValue(digits: seq<byte>): nat
    requires AllDigits(digits)
  {
    if digits == [] then 0
    else 10 * DecimalValue(digits[..|digits| - 1]) + (digits[|digits| - 1] as int - 0x30)
  }

  lemma NoDigits()
    ensures DecimalValue([]) == 0
  {}

  lemma OneMoreDigit(digits: seq<byte>, k: nat)
    requires AllDigits(digits) && k < |digits|
    ensures DecimalValue(digits[..k + 1]) == 10 * DecimalValue(digits[..k]) + (digits[k] as int - 0x30)
  {
    assert digits[..k + 1][..k] == digits[..k];
  }

  lemma {:induction false} LongerIsLarger(digits: seq<byte>, k: nat)
    requires AllDigits(digits) && k <= |digits|
    ensures DecimalValue(digits[..k]) <= DecimalValue(digits)
  {
    if k < |digits| {
      LongerIsLarger(digits[..|digits| - 1], k);
      assert digits[..|digits| - 1][..k] == digits[..k];
    } else {
      assert digits[..k] == digits;
    }
  }

  // ── The sign ────────────────────────────────────────────────────

  datatype Signed = Signed(negative: bool, rest: seq<byte>)

  function SignOf(token: seq<byte>): Signed {
    if token != [] && IsSign(token[0]) then Signed(token[0] == 0x2D, token[1..]) else Signed(false, token)
  }

  /** Leading whitespace and an optional sign. */
  method SplitSign(bytes: seq<byte>) returns (negative: bool, rest: seq<byte>)
    ensures Signed(negative, rest) == SignOf(TrimStart(bytes))
  {
    var i := 0;
    while i < |bytes| && IsSpace(bytes[i])
      invariant 0 <= i <= |bytes| && forall k :: 0 <= k < i ==> IsSpace(bytes[k])
    {
      i := i + 1;
    }
    assert i == SpaceRun(bytes);
    assert bytes[i..] == TrimStart(bytes) && (i < |bytes| ==> bytes[i..][1..] == bytes[i + 1..]);
    if i < |bytes| && bytes[i] == 0x2D {
      return true, bytes[i + 1..];
    } else if i < |bytes| && bytes[i] == 0x2B {
      return false, bytes[i + 1..];
    }
    return false, bytes[i..];
  }

  // ── The integer a string shows as `i64` ─────────────────────────

  function Larger(a: int, b: int): int {
    if a < b then b else a
  }

  function Smaller(a: int, b: int): int {
    if a < b then a else b
  }

  /** What Perl's integer view of a digit run is: exact while it can be, wrapped through unsigned, clamped past that. */
  function Visible(negative: bool, magnitude: nat): (r: int)
    ensures -TWO_63 <= r < TWO_63
    ensures negative ==> r == Larger(0 - magnitude, -TWO_63)
    ensures !negative ==> (r - Smaller(magnitude, TWO_64 - 1)) % TWO_64 == 0
  {
    if negative then (if magnitude <= TWO_63 then 0 - magnitude else -TWO_63)
    else if magnitude < TWO_63 then magnitude
    else if magnitude < TWO_64 then magnitude - TWO_64
    else -1
  }

  method ParseIntVisible(bytes: seq<byte>) returns (r: int)
    ensures var signed := SignOf(TrimStart(bytes));
            r == Visible(signed.negative, DecimalValue(signed.rest[..DigitRun(signed.rest)]))
  {
    var negative, rest := SplitSign(bytes);
    hide DecimalValue;
    var value: nat, digits: nat := 0, 0;
    NoDigits();
    ghost var run := rest[..DigitRun(rest)];
    while digits < |rest| && IsDigit(rest[digits])
      invariant 0 <= digits <= |run|
      invariant if value < TWO_64 then value == DecimalValue(run[..digits]) else DecimalValue(run[..digits]) >= TWO_64
      invariant value < 10 * TWO_64 + 10
    {
      assert digits < |run|;
      OneMoreDigit(run, digits);
      if value < TWO_64 {
        value := value * 10 + (rest[digits] as int - 0x30);
      }
      digits := digits + 1;
    }
    assert run[..digits] == run;
    if digits == 0 {
      return 0;
    }
    if negative {
      r := if value < TWO_63 then 0 - value else -TWO_63;
    } else if value < TWO_64 {
      r := if value < TWO_63 then value else value - TWO_64;
    } else {
      r := -1;
    }
  }

  // ── The span a float parse consumes ─────────────────────────────

  function DecimalSpan(rest: seq<byte>): (end: nat)
    ensures end <= |rest|
  {
    var whole := DigitRun(rest);
    var mantissa :=
      if whole < |rest| && rest[whole] == Dot && (whole > 0 || DigitRun(rest[whole + 1..]) > 0)
      then whole + 1 + DigitRun(rest[whole + 1..])
      else whole;
    if mantissa > 0 && mantissa < |rest| && IsMarker(rest[mantissa]) then
      var j := ExponentDigits(rest, mantissa);
      if DigitRun(rest[j..]) > 0 then j + DigitRun(rest[j..]) else mantissa
    else mantissa
  }

  function FloatSpan(rest: seq<byte>): (end: nat)
    ensures end <= |rest|
  {
    if |rest| >= 3 && SameIgnoringCase(rest[..3], Inf) then
      if |rest| >= 8 && SameIgnoringCase(rest[..8], Infinity) then 8 else 3
    else if |rest| >= 3 && SameIgnoringCase(rest[..3], Nan) then 3
    else DecimalSpan(rest)
  }

  /** A span that reaches the end is a decimal token, and a decimal token's span reaches the end. */
  lemma DecimalSpanIsWholeIff(rest: seq<byte>)
    ensures (DecimalSpan(rest) == |rest| && rest != []) <==> AcceptedDecimal(rest)
  {}

  lemma WordsAreNotDecimal(rest: seq<byte>)
    requires |rest| >= 3 && (SameIgnoringCase(rest[..3], Inf) || SameIgnoringCase(rest[..3], Nan))
    ensures !AcceptedDecimal(rest)
  {
    assert Lower(rest[0]) == Lower(rest[..3][0]);
    assert DigitRun(rest) == 0;
  }

  lemma WordByItsPrefix(rest: seq<byte>)
    ensures IsWord(rest) <==>
            || (|rest| == 3 && (SameIgnoringCase(rest[..3], Inf) || SameIgnoringCase(rest[..3], Nan)))
            || (|rest| == 8 && SameIgnoringCase(rest[..8], Infinity))
    ensures |rest| >= 8 && SameIgnoringCase(rest[..8], Infinity) ==> SameIgnoringCase(rest[..3], Inf)
    ensures |rest| >= 3 ==> !(SameIgnoringCase(rest[..3], Inf) && SameIgnoringCase(rest[..3], Nan))
  {
    assert |rest| == 3 ==> rest[..3] == rest;
    assert |rest| == 8 ==> rest[..8] == rest;
    if |rest| >= 8 && SameIgnoringCase(rest[..8], Infinity) {
      assert forall i :: 0 <= i < 3 ==> rest[..3][i] == rest[..8][i] && Inf[i] == Infinity[i];
    }
    if |rest| >= 3 && SameIgnoringCase(rest[..3], Inf) {
      assert Lower(rest[..3][0]) == Lower(Inf[0]) != Lower(Nan[0]);
    }
  }

  /** What the parse consumed is the whole exactly when the whole is one token. */
  lemma FloatSpanIsWholeIff(rest: seq<byte>)
    ensures (FloatSpan(rest) == |rest| && rest != []) <==> IsWord(rest) || AcceptedDecimal(rest)
  {
    hide IsWord, SameIgnoringCase, AcceptedDecimal, DecimalSpan;
    WordByItsPrefix(rest);
    DecimalSpanIsWholeIff(rest);
    if |rest| >= 3 && (SameIgnoringCase(rest[..3], Inf) || SameIgnoringCase(rest[..3], Nan)) {
      WordsAreNotDecimal(rest);
    }
  }

  // ── The longest token a string begins with ──────────────────────

  /** Of the prefixes that are tokens the longest; empty when there is none. */
  ghost predicate IsLongestToken(rest: seq<byte>, n: nat) {
    && n <= |rest| && (n > 0 ==> IsToken(rest[..n]))
    && forall m :: n < m <= |rest| ==> !IsToken(rest[..m])
  }

  lemma DigitRunOfPrefix(s: seq<byte>, m: nat)
    requires m <= |s|
    ensures DigitRun(s[..m]) == if DigitRun(s) <= m then DigitRun(s) else m
  {
    var n := if DigitRun(s) <= m then DigitRun(s) else m;
    assert s[..m][..n] == s[..n];
    assert forall i :: 0 <= i < n ==> s[..n][i] == s[i];
    DigitRunIs(s[..m], n);
  }

  /** Digits after a place, in a prefix of the string. */
  lemma DigitRunWithin(s: seq<byte>, at: nat, m: nat)
    requires at <= m <= |s|
    ensures DigitRun(s[..m][at..]) == if at + DigitRun(s[at..]) <= m then DigitRun(s[at..]) else m - at
  {
    assert s[..m][at..] == s[at..][..m - at];
    DigitRunOfPrefix(s[at..], m - at);
  }

  /** Where the span's mantissa ends: all digits, and a point with a digit beside it. */
  function MantissaSpan(rest: seq<byte>): (n: nat)
    ensures n <= |rest|
  {
    var whole := DigitRun(rest);
    if whole < |rest| && rest[whole] == Dot && (whole > 0 || DigitRun(rest[whole + 1..]) > 0)
    then whole + 1 + DigitRun(rest[whole + 1..])
    else whole
  }

  lemma SpanByMantissa(rest: seq<byte>)
    ensures var mantissa := MantissaSpan(rest);
            DecimalSpan(rest) ==
            if mantissa > 0 && mantissa < |rest| && IsMarker(rest[mantissa]) && DigitRun(rest[ExponentDigits(rest, mantissa)..]) > 0
            then ExponentDigits(rest, mantissa) + DigitRun(rest[ExponentDigits(rest, mantissa)..])
            else mantissa
  {}

  /** A prefix's mantissa is the string's, cut short where the prefix ends, if it has one. */
  lemma MantissaOfPrefix(rest: seq<byte>, m: nat)
    requires m <= |rest|
    ensures var p := MantissaEnd(rest[..m]);
            && (p.Some? ==> p.value <= MantissaSpan(rest) && (p.value < m ==> p.value == MantissaSpan(rest)))
            && (0 < MantissaSpan(rest) <= m ==> p == Some(MantissaSpan(rest)))
  {
    hide DigitRun;
    var whole := DigitRun(rest);
    DigitRunOfPrefix(rest, m);
    if whole < m {
      assert rest[..m][whole] == rest[whole];
      DigitRunWithin(rest, whole + 1, m);
    }
  }

  /** A decimal token at the front is within the span. */
  lemma DecimalWithinSpan(rest: seq<byte>, m: nat)
    requires m <= |rest| && AcceptedDecimal(rest[..m])
    ensures m <= DecimalSpan(rest)
  {
    hide DigitRun, MantissaEnd, MantissaSpan, DecimalSpan;
    MantissaOfPrefix(rest, m);
    SpanByMantissa(rest);
    var i := MantissaEnd(rest[..m]).value;
    if i < m {
      var j := ExponentDigits(rest[..m], i);
      MantissaHasADigit(rest[..m]);
      assert rest[..m][i] == rest[i] && (i + 1 < m ==> rest[..m][i + 1] == rest[i + 1]);
      DigitRunWithin(rest, j, m);
    }
  }

  lemma MantissaHasADigit(body: seq<byte>)
    ensures MantissaEnd(body).Some? ==> MantissaEnd(body).value > 0
  {}

  /** And the span itself is one, unless it is empty. */
  lemma SpanIsDecimal(rest: seq<byte>)
    requires DecimalSpan(rest) > 0
    ensures AcceptedDecimal(rest[..DecimalSpan(rest)])
  {
    hide DigitRun, MantissaEnd, MantissaSpan, DecimalSpan;
    SpanByMantissa(rest);
    var n, i := DecimalSpan(rest), MantissaSpan(rest);
    MantissaOfPrefix(rest, n);
    if i < n {
      var j := ExponentDigits(rest, i);
      assert rest[..n][i] == rest[i] && (i + 1 < n ==> rest[..n][i + 1] == rest[i + 1]);
      DigitRunWithin(rest, j, n);
    }
  }

  lemma {:induction false} DecimalSpanIsLongest(rest: seq<byte>)
    ensures DecimalSpan(rest) > 0 ==> IsDecimal(rest[..DecimalSpan(rest)])
    ensures forall m :: DecimalSpan(rest) < m <= |rest| ==> !IsDecimal(rest[..m])
  {
    hide AcceptedDecimal, IsDecimal, DecimalSpan;
    if DecimalSpan(rest) > 0 {
      SpanIsDecimal(rest);
      AcceptedIff(rest[..DecimalSpan(rest)]);
    }
    forall m | DecimalSpan(rest) < m <= |rest|
      ensures !IsDecimal(rest[..m])
    {
      AcceptedIff(rest[..m]);
      if AcceptedDecimal(rest[..m]) {
        DecimalWithinSpan(rest, m);
      }
    }
  }

  lemma WordPrefix(rest: seq<byte>, m: nat)
    requires m <= |rest|
    ensures IsWord(rest[..m]) <==>
            || (m == 3 && (SameIgnoringCase(rest[..3], Inf) || SameIgnoringCase(rest[..3], Nan)))
            || (m == 8 && SameIgnoringCase(rest[..8], Infinity))
  {}

  lemma WordHasNoDecimal(rest: seq<byte>, m: nat)
    requires |rest| >= 3 && (SameIgnoringCase(rest[..3], Inf) || SameIgnoringCase(rest[..3], Nan)) && m <= |rest|
    ensures !IsDecimal(rest[..m])
  {
    hide IsDecimal, AcceptedDecimal;
    AcceptedIff(rest[..m]);
    assert Lower(rest[0]) == Lower(rest[..3][0]);
    NoDecimalAtLetter(rest[..m], rest[0]);
  }

  lemma NoDecimalAtLetter(body: seq<byte>, first: byte)
    requires body != [] ==> body[0] == first && !IsDigit(first) && first != Dot
    ensures !AcceptedDecimal(body)
  {}

  /** What the float parse consumes is the longest numeric token the text begins with. */
  lemma FloatSpanIsLongest(rest: seq<byte>)
    ensures IsLongestToken(rest, FloatSpan(rest))
  {
    hide IsDecimal, DecimalSpan, SameIgnoringCase, IsWord;
    WordByItsPrefix(rest);
    DecimalSpanIsLongest(rest);
    forall m | 0 <= m <= |rest|
      ensures IsWord(rest[..m]) <==>
              || (m == 3 && (SameIgnoringCase(rest[..3], Inf) || SameIgnoringCase(rest[..3], Nan)))
              || (m == 8 && SameIgnoringCase(rest[..8], Infinity))
    {
      WordPrefix(rest, m);
    }
    if |rest| >= 3 && (SameIgnoringCase(rest[..3], Inf) || SameIgnoringCase(rest[..3], Nan)) {
      forall m | 0 <= m <= |rest|
        ensures !IsDecimal(rest[..m])
      {
        WordHasNoDecimal(rest, m);
      }
    }
  }

  // ── The fused classification ────────────────────────────────────

  /** Digits that nothing numeric continues. */
  predicate IsIntegral(rest: seq<byte>) {
    var d := DigitRun(rest);
    d > 0 && (d < |rest| ==> rest[d] != Dot && !IsMarker(rest[d]))
  }

  /** The number a token denotes: exact in the first range that holds it. */
  function NumericOf(bytes: seq<byte>): Numeric {
    if bytes == ZeroButTrue then Integer(0) else NumericOfSigned(SignOf(TrimStart(TrimEnd(bytes))))
  }

  function NumericOfSigned(signed: Signed): Numeric {
    var rest := signed.rest;
    if IsIntegral(rest) then
      var magnitude := DecimalValue(rest[..DigitRun(rest)]);
      var value := if signed.negative then 0 - magnitude else magnitude;
      if -TWO_63 <= value < TWO_63 then Integer(value)
      else if 0 <= value < TWO_64 then Whole(value)
      else Float(signed.negative, rest[..FloatSpan(rest)])
    else Float(signed.negative, rest[..FloatSpan(rest)])
  }

  /**
    * What a signed text reads as, given its longest token: an integer where the token is digits that no exponent marker
    * follows, as far as the two integer ranges go, and otherwise the float of exactly that token.
    */
  ghost predicate ReadsAs(signed: Signed, n: nat, numeric: Numeric) {
    var rest := signed.rest;
    && IsLongestToken(rest, n)
    && if n > 0 && AllDigits(rest[..n]) && (n < |rest| ==> !IsMarker(rest[n])) then
         var value := if signed.negative then 0 - DecimalValue(rest[..n]) else DecimalValue(rest[..n]);
         if -TWO_63 <= value < TWO_63 then numeric == Integer(value)
         else if TWO_63 <= value < TWO_64 then numeric == Whole(value)
         else numeric == Float(signed.negative, rest[..n])
       else numeric == Float(signed.negative, rest[..n])
  }

  ghost predicate Numifies(signed: Signed, numeric: Numeric) {
    exists n: nat :: ReadsAs(signed, n, numeric)
  }

  /** Digits are a token, and a point after them makes a longer one. */
  lemma DigitsAreTokens(rest: seq<byte>, d: nat)
    requires 0 < d <= |rest| && AllDigits(rest[..d])
    ensures IsToken(rest[..d])
    ensures d < |rest| && rest[d] == Dot ==> IsToken(rest[..d + 1])
  {
    var m := rest[..d];
    assert m[..d] == m && m[d..] == [];
    assert IsMantissa(m[..d]) && IsExponent(m[d..]);
    if d < |rest| && rest[d] == Dot {
      var p := rest[..d + 1];
      assert p[..d + 1] == p && p[d + 1..] == [] && p[..d] == m && p[d] == Dot;
      assert IsMantissa(p[..d + 1]) && IsExponent(p[d + 1..]);
    }
  }

  /** A longest token that is digits is the whole digit run, and no point follows it. */
  lemma LongestDigits(rest: seq<byte>, n: nat)
    requires IsLongestToken(rest, n) && n > 0 && AllDigits(rest[..n])
    ensures n == DigitRun(rest) && (n < |rest| ==> rest[n] != Dot)
  {
    hide IsToken, DigitRun;
    RunCovers(rest, n);
    DigitsAreTokens(rest, DigitRun(rest));
    NoneLonger(rest, n, DigitRun(rest));
    NoPointAfter(rest, n);
  }

  lemma NoPointAfter(rest: seq<byte>, n: nat)
    requires IsLongestToken(rest, n) && n > 0 && AllDigits(rest[..n])
    ensures n < |rest| ==> rest[n] != Dot
  {
    hide IsToken, AllDigits;
    DigitsAreTokens(rest, n);
  }

  lemma NoneLonger(rest: seq<byte>, n: nat, m: nat)
    requires IsLongestToken(rest, n) && m <= |rest| && IsToken(rest[..m])
    ensures m <= n
  {}

  /** The integral case is the longest token being digits, with no marker after it. */
  lemma IntegralIff(rest: seq<byte>)
    ensures var n := FloatSpan(rest);
            IsIntegral(rest) <==> n > 0 && AllDigits(rest[..n]) && (n < |rest| ==> !IsMarker(rest[n]))
    ensures IsIntegral(rest) ==> FloatSpan(rest) == DigitRun(rest)
  {
    hide FloatSpan, DigitRun, IsLongestToken;
    var n := FloatSpan(rest);
    FloatSpanIsLongest(rest);
    if IsIntegral(rest) {
      IntegralVerdict(rest);
      RunIsDigits(rest);
    } else if n > 0 && AllDigits(rest[..n]) {
      LongestDigits(rest, n);
    }
  }

  lemma RunIsDigits(rest: seq<byte>)
    ensures AllDigits(rest[..DigitRun(rest)])
  {}

  lemma RunCovers(rest: seq<byte>, n: nat)
    requires n <= |rest| && AllDigits(rest[..n])
    ensures n <= DigitRun(rest) && AllDigits(rest[..DigitRun(rest)])
  {
    assert forall i :: 0 <= i < n ==> rest[i] == rest[..n][i];
  }

  /** Every signed text denotes what its longest token reads as. */
  lemma SignedReads(signed: Signed)
    ensures Numifies(signed, NumericOfSigned(signed))
  {
    hide IsIntegral, FloatSpan, IsLongestToken;
    FloatSpanIsLongest(signed.rest);
    IntegralIff(signed.rest);
    assert ReadsAs(signed, FloatSpan(signed.rest), NumericOfSigned(signed));
  }

  /** The value of a digit run, or anything past `u64` once it has passed `u64`. */
  method Accumulate(digits: seq<byte>) returns (value: nat)
    requires AllDigits(digits)
    ensures if DecimalValue(digits) < TWO_64 then value == DecimalValue(digits) else value >= TWO_64
  {
    value := 0;
    var i := 0;
    while i < |digits|
      invariant 0 <= i <= |digits| && value < TWO_64 && value == DecimalValue(digits[..i])
    {
      OneMoreDigit(digits, i);
      value := value * 10 + (digits[i] as int - 0x30);
      i := i + 1;
      if value >= TWO_64 {
        LongerIsLarger(digits, i);
        return;
      }
    }
    assert digits[..i] == digits;
  }

  /** The value of a signed text, and whether all of it is one token. */
  method ClassifySigned(negative: bool, rest: seq<byte>) returns (numeric: Numeric, complete: bool)
    ensures numeric == NumericOfSigned(Signed(negative, rest))
    ensures complete <==> FloatSpan(rest) == |rest| && rest != []
  {
    hide FloatSpan;
    var digitEnd := DigitRun(rest);
    if digitEnd > 0 && !(digitEnd < |rest| && (rest[digitEnd] == Dot || IsMarker(rest[digitEnd]))) {
      IntegralVerdict(rest);
      var value := Accumulate(rest[..digitEnd]);
      if if negative then value <= TWO_63 else value < TWO_63 {
        return Integer(if negative then 0 - value else value), digitEnd == |rest|;
      }
      if !negative && value < TWO_64 {
        return Whole(value), digitEnd == |rest|;
      }
    }
    var consumed := FloatSpan(rest);
    return Float(negative, rest[..consumed]), consumed == |rest| && rest != [];
  }

  /** How a string numifies and whether numifying it warns, from one walk. */
  method ClassifyNumericNotingWarning(bytes: seq<byte>) returns (numeric: Numeric, warns: bool)
    ensures numeric == NumericOf(bytes)
    ensures if bytes == ZeroButTrue then numeric == Integer(0)
            else Numifies(SignOf(TrimStart(TrimEnd(bytes))), numeric)
    ensures warns == WouldWarn(bytes)
    ensures warns <==> !IsSilent(bytes)
  {
    hide FloatSpan, WouldWarn, SameIgnoringCase, IsSilent, Numifies, NumericOfSigned, SignOf;
    WouldWarnIff(bytes);
    VerdictByToken(bytes);
    if bytes == ZeroButTrue {
      return Integer(0), false;
    }
    var end := |bytes|;
    while end > 0 && IsSpace(bytes[end - 1])
      invariant 0 <= end <= |bytes| && forall k :: end <= k < |bytes| ==> IsSpace(bytes[k])
    {
      end := end - 1;
    }
    assert end == TokenEnd(bytes);
    var negative, rest := SplitSign(bytes[..end]);
    SignedReads(Signed(negative, rest));
    var complete;
    numeric, complete := ClassifySigned(negative, rest);
    warns := !complete;
  }

  lemma TrimsCommute(bytes: seq<byte>)
    ensures TrimStart(TrimEnd(bytes)) == TrimEnd(TrimStart(bytes))
  {
    var a, b := SpaceRun(bytes), TokenEnd(bytes);
    if a < b {
      TrimEndAt(bytes, a, b);
      assert SpaceRun(bytes[..b]) == a;
      SliceBothWays(bytes, a, b);
    } else {
      AllSpaceTrims(bytes);
    }
  }

  lemma TokenEndIs(s: seq<byte>, n: nat)
    requires 0 < n <= |s| && !IsSpace(s[n - 1]) && forall i :: n <= i < |s| ==> IsSpace(s[i])
    ensures TokenEnd(s) == n
  {}

  lemma TrimEndAt(s: seq<byte>, a: nat, b: nat)
    requires a < b == TokenEnd(s) <= |s|
    ensures TokenEnd(s[a..]) == b - a
  {
    hide IsSpace;
    var r := s[a..];
    forall k | b - a - 1 <= k < |r|
      ensures r[k] == s[a + k]
    {}
    TokenEndIs(r, b - a);
  }

  lemma SliceBothWays(s: seq<byte>, a: nat, b: nat)
    requires a <= b <= |s|
    ensures s[..b][a..] == s[a..][..b - a]
  {}

  lemma AllSpaceTrims(s: seq<byte>)
    requires SpaceRun(s) >= TokenEnd(s)
    ensures TrimStart(TrimEnd(s)) == [] == TrimEnd(TrimStart(s))
  {
    if |s| > 0 {
      assert forall i :: 0 <= i < |s| ==> IsSpace(s[i]);
    }
  }

  /** The verdict is the span against the trimmed token, sign aside. */
  lemma VerdictByToken(bytes: seq<byte>)
    ensures bytes == ZeroButTrue ==> !WouldWarn(bytes)
    ensures bytes != ZeroButTrue ==>
              var rest := SignOf(TrimStart(TrimEnd(bytes))).rest;
              WouldWarn(bytes) <==> (FloatSpan(rest) != |rest| || rest == [])
  {
    hide FloatSpan, WouldWarn, IsWord, TrimStart, TrimEnd, AcceptedDecimal;
    WouldWarnUnfolds(bytes);
    TrimsCommute(bytes);
    var token := TrimStart(TrimEnd(bytes));
    FloatSpanIsWholeIff(SignOf(token).rest);
    assert SignOf(token).rest == Unsigned(token);
    assert token == [] ==> Unsigned(token) == [];
  }

  lemma IntegralVerdict(rest: seq<byte>)
    requires IsIntegral(rest)
    ensures FloatSpan(rest) == DigitRun(rest)
  {
    if |rest| >= 3 {
      assert rest[..3][0] == rest[0];
    }
  }

  // ── The word-at-a-time digit run ────────────────────────────────

  lemma SameDigit(o: bv8, b: byte)
    requires o as int == b as int
    ensures W.IsDigit(o) <==> IsDigit(b)
  {}

  /** The run the word scan measures on machine octets is the run the parse speaks of. */
  lemma {:induction false} WordRunIsDigitRun(octets: seq<bv8>, bytes: seq<byte>)
    requires |octets| == |bytes| && forall i :: 0 <= i < |bytes| ==> octets[i] as int == bytes[i] as int
    ensures W.DigitRun(octets) == DigitRun(bytes)
  {
    if bytes != [] {
      SameDigit(octets[0], bytes[0]);
      WordRunIsDigitRun(octets[1..], bytes[1..]);
    }
  }
}
