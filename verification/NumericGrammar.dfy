/**
  * Which strings numify without a warning: a declarative grammar of numeric tokens, and the repository's own predicate
  * over the bytes, proved to accept exactly the grammar's strings.
  */
module NumericGrammar {
  import opened Wrappers

  // ── Bytes ───────────────────────────────────────────────────────

  /** Rust's ASCII whitespace: space, tab, newline, form feed, carriage return; the vertical tab is not one. */
  predicate IsSpace(b: byte) {
    b in {0x20, 0x09, 0x0A, 0x0C, 0x0D}
  }

  predicate IsDigit(b: byte) {
    0x30 <= b <= 0x39
  }

  predicate IsSign(b: byte) {
    b == 0x2B || b == 0x2D
  }

  const Dot: byte := 0x2E

  predicate IsMarker(b: byte) {
    b == 0x65 || b == 0x45
  }

  function Lower(b: byte): byte {
    if 0x41 <= b <= 0x5A then b + 0x20 else b
  }

  predicate SameIgnoringCase(a: seq<byte>, b: seq<byte>) {
    |a| == |b| && forall i :: 0 <= i < |a| ==> Lower(a[i]) == Lower(b[i])
  }

  const Inf: seq<byte> := [0x69, 0x6E, 0x66]

  const Infinity: seq<byte> := [0x69, 0x6E, 0x66, 0x69, 0x6E, 0x69, 0x74, 0x79]

  const Nan: seq<byte> := [0x6E, 0x61, 0x6E]

  /** The one lexical exception, `0 but true`. */
  const ZeroButTrue: seq<byte> := [0x30, 0x20, 0x62, 0x75, 0x74, 0x20, 0x74, 0x72, 0x75, 0x65]

  predicate AllDigits(s: seq<byte>) {
    forall i :: 0 <= i < |s| ==> IsDigit(s[i])
  }

  predicate AllSpace(s: seq<byte>) {
    forall i :: 0 <= i < |s| ==> IsSpace(s[i])
  }

  /** The length of the longest prefix of digits. */
  function DigitRun(s: seq<byte>): (n: nat)
    ensures n <= |s| && (n < |s| ==> !IsDigit(s[n]))
    ensures forall i :: 0 <= i < n ==> IsDigit(s[i])
  {
    if s == [] || !IsDigit(s[0]) then 0
    else
      assert forall i :: 1 <= i < |s| ==> s[i] == s[1..][i - 1];
      1 + DigitRun(s[1..])
  }

  lemma DigitRunIs(s: seq<byte>, n: nat)
    requires n <= |s| && AllDigits(s[..n]) && (n < |s| ==> !IsDigit(s[n]))
    ensures DigitRun(s) == n
  {
    assert forall i :: 0 <= i < n ==> s[i] == s[..n][i];
  }

  /** A digit run followed by anything that does not continue it. */
  lemma DigitRunPrefix(digits: seq<byte>, rest: seq<byte>)
    requires AllDigits(digits) && (rest != [] ==> !IsDigit(rest[0]))
    ensures DigitRun(digits + rest) == |digits| && (digits + rest)[..|digits|] == digits
  {
    assert (digits + rest)[..|digits|] == digits;
    DigitRunIs(digits + rest, |digits|);
  }

  // ── The grammar ─────────────────────────────────────────────────

  /** Digits, with a point anywhere among them or at either end. */
  predicate IsMantissa(m: seq<byte>) {
    (m != [] && AllDigits(m)) ||
    (|m| > 1 && exists p :: 0 <= p < |m| && m[p] == Dot && AllDigits(m[..p]) && AllDigits(m[p + 1..]))
  }

  /** Nothing, or a marker, an optional sign and at least one digit. */
  predicate IsExponent(x: seq<byte>) {
    x == [] || (
      && IsMarker(x[0])
      && var digits := if |x| > 1 && IsSign(x[1]) then x[2..] else x[1..];
         digits != [] && AllDigits(digits))
  }

  predicate IsDecimal(body: seq<byte>) {
    exists k :: 0 <= k <= |body| && IsMantissa(body[..k]) && IsExponent(body[k..])
  }

  predicate IsWord(body: seq<byte>) {
    SameIgnoringCase(body, Inf) || SameIgnoringCase(body, Infinity) || SameIgnoringCase(body, Nan)
  }

  predicate IsToken(body: seq<byte>) {
    IsDecimal(body) || IsWord(body)
  }

  function Unsigned(token: seq<byte>): seq<byte> {
    if token != [] && IsSign(token[0]) then token[1..] else token
  }

  /** One complete token with an optional sign, whitespace around it. */
  ghost predicate IsSpacedToken(bytes: seq<byte>, a: nat, b: nat) {
    a <= b <= |bytes| && AllSpace(bytes[..a]) && AllSpace(bytes[b..]) && IsToken(Unsigned(bytes[a..b]))
  }

  ghost predicate IsSilent(bytes: seq<byte>) {
    bytes == ZeroButTrue || exists a: nat, b: nat :: IsSpacedToken(bytes, a, b)
  }

  // ── The repository's predicate ──────────────────────────────────

  /** The length of the longest prefix of whitespace. */
  function SpaceRun(s: seq<byte>): (n: nat)
    ensures n <= |s| && (n < |s| ==> !IsSpace(s[n]))
    ensures forall i :: 0 <= i < n ==> IsSpace(s[i])
  {
    if s == [] || !IsSpace(s[0]) then 0
    else
      assert forall i :: 1 <= i < |s| ==> s[i] == s[1..][i - 1];
      1 + SpaceRun(s[1..])
  }

  /** Where the trailing whitespace begins. */
  function TokenEnd(s: seq<byte>): (n: nat)
    ensures n <= |s| && (n > 0 ==> !IsSpace(s[n - 1]))
    ensures forall i :: n <= i < |s| ==> IsSpace(s[i])
  {
    if s == [] || !IsSpace(s[|s| - 1]) then |s| else TokenEnd(s[..|s| - 1])
  }

  function TrimStart(s: seq<byte>): seq<byte> {
    s[SpaceRun(s)..]
  }

  function TrimEnd(s: seq<byte>): seq<byte> {
    s[..TokenEnd(s)]
  }

  /** Past the mantissa, or nothing where it has no digit. */
  function MantissaEnd(body: seq<byte>): (r: Option<nat>)
    ensures r.Some? ==> r.value <= |body|
  {
    var whole := DigitRun(body);
    if whole < |body| && body[whole] == Dot then
      var fraction := DigitRun(body[whole + 1..]);
      if whole + fraction == 0 then None else Some(whole + 1 + fraction)
    else if whole == 0 then None else Some(whole)
  }

  /** Where an exponent's digits begin, after its marker at `at` and an optional sign. */
  function ExponentDigits(body: seq<byte>, at: nat): (r: nat)
    requires at < |body|
    ensures at < r <= |body|
  {
    if at + 1 < |body| && IsSign(body[at + 1]) then at + 2 else at + 1
  }

  /** The repository's own grammar predicate, in its order of questions. */
  predicate WouldWarn(bytes: seq<byte>) {
    if bytes == ZeroButTrue then false
    else
      var token := TrimEnd(TrimStart(bytes));
      if token == [] then true
      else
        var body := Unsigned(token);
        if IsWord(body) then false
        else
          match MantissaEnd(body)
          case None => true
          case Some(i) =>
            if i < |body| && IsMarker(body[i]) then
              var j := ExponentDigits(body, i);
              var n := DigitRun(body[j..]);
              n == 0 || j + n != |body|
            else i != |body|
  }

  // ── The predicate accepts exactly the grammar ───────────────────

  predicate AcceptedDecimal(body: seq<byte>) {
    match MantissaEnd(body)
    case None => false
    case Some(i) =>
      if i < |body| && IsMarker(body[i]) then
        var j := ExponentDigits(body, i);
        DigitRun(body[j..]) > 0 && j + DigitRun(body[j..]) == |body|
      else i == |body|
  }

  lemma WholeMantissa(body: seq<byte>, i: nat)
    requires MantissaEnd(body) == Some(i)
    ensures IsMantissa(body[..i])
  {
    var whole := DigitRun(body);
    var m := body[..i];
    if i > whole {
      assert m[whole] == Dot && m[..whole] == body[..whole];
      assert m[whole + 1..] == body[whole + 1..][..i - whole - 1];
    }
  }

  lemma AcceptedIsDecimal(body: seq<byte>)
    requires AcceptedDecimal(body)
    ensures IsDecimal(body)
  {
    var i := MantissaEnd(body).value;
    WholeMantissa(body, i);
    if i < |body| {
      var x, j := body[i..], ExponentDigits(body, i);
      assert x[0] == body[i] && (|x| > 1 ==> x[1] == body[i + 1]);
      var digits := body[j..];
      assert digits == x[j - i..];
      assert digits[..DigitRun(digits)] == digits;
    }
  }

  lemma DecimalIsAccepted(body: seq<byte>, k: nat)
    requires k <= |body| && IsMantissa(body[..k]) && IsExponent(body[k..])
    ensures AcceptedDecimal(body)
  {
    assert k < |body| ==> body[k..][0] == body[k];
    MantissaEndIs(body, k);
    if k < |body| {
      var x, j := body[k..], ExponentDigits(body, k);
      assert |x| > 1 ==> x[1] == body[k + 1];
      assert body[j..] == x[j - k..];
      assert body[j..][..|body| - j] == body[j..];
      DigitRunIs(body[j..], |body| - j);
    }
  }

  lemma MantissaEndIs(body: seq<byte>, k: nat)
    requires k <= |body| && IsMantissa(body[..k]) && (k < |body| ==> IsMarker(body[k]))
    ensures MantissaEnd(body) == Some(k)
  {
    var m := body[..k];
    if AllDigits(m) && m != [] {
      DigitRunIs(body, k);
    } else {
      var p :| 0 <= p < |m| && m[p] == Dot && AllDigits(m[..p]) && AllDigits(m[p + 1..]);
      PointedRuns(body, k, p);
    }
  }

  lemma PointedRuns(body: seq<byte>, k: nat, p: nat)
    requires p < k <= |body| && body[..k][p] == Dot && (k < |body| ==> IsMarker(body[k]))
    requires AllDigits(body[..k][..p]) && AllDigits(body[..k][p + 1..])
    ensures body[p] == Dot && DigitRun(body) == p && DigitRun(body[p + 1..]) == k - p - 1
  {
    hide DigitRun, AllDigits;
    assert body[p] == body[..k][p] && body[..p] == body[..k][..p];
    DigitRunIs(body, p);
    assert body[p + 1..][..k - p - 1] == body[..k][p + 1..];
    DigitRunIs(body[p + 1..], k - p - 1);
  }

  lemma AcceptedIff(body: seq<byte>)
    ensures AcceptedDecimal(body) <==> IsDecimal(body)
  {
    if AcceptedDecimal(body) {
      AcceptedIsDecimal(body);
    }
    if IsDecimal(body) {
      var k :| 0 <= k <= |body| && IsMantissa(body[..k]) && IsExponent(body[k..]);
      DecimalIsAccepted(body, k);
    }
  }

  /** A token begins and ends with something other than whitespace. */
  lemma TokenHasNoSpaceAtItsEnds(body: seq<byte>)
    requires IsToken(body)
    ensures body != [] && !IsSpace(body[0]) && !IsSpace(body[|body| - 1])
  {
    if IsDecimal(body) {
      var k :| 0 <= k <= |body| && IsMantissa(body[..k]) && IsExponent(body[k..]);
      MantissaEnds(body[..k]);
      assert body[0] == body[..k][0];
      if k < |body| {
        ExponentEnds(body[k..]);
        assert body[|body| - 1] == body[k..][|body| - k - 1];
      }
    } else {
      assert Lower(body[0]) in {0x69, 0x6E} && Lower(body[|body| - 1]) in {0x66, 0x79, 0x6E};
    }
  }

  lemma MantissaEnds(m: seq<byte>)
    requires IsMantissa(m)
    ensures m != [] && !IsSpace(m[0]) && !IsSpace(m[|m| - 1])
  {
    if !AllDigits(m) {
      var p :| 0 <= p < |m| && m[p] == Dot && AllDigits(m[..p]) && AllDigits(m[p + 1..]);
      assert p > 0 ==> m[0] == m[..p][0];
      assert p < |m| - 1 ==> m[|m| - 1] == m[p + 1..][|m| - p - 2];
    }
  }

  lemma ExponentEnds(x: seq<byte>)
    requires IsExponent(x) && x != []
    ensures !IsSpace(x[|x| - 1])
  {
    var digits := if |x| > 1 && IsSign(x[1]) then x[2..] else x[1..];
    assert x[|x| - 1] == digits[|digits| - 1];
  }

  lemma TrimStartIs(s: seq<byte>, a: nat)
    requires a < |s| && AllSpace(s[..a]) && !IsSpace(s[a])
    ensures TrimStart(s) == s[a..]
  {
    assert forall i :: 0 <= i < a ==> s[i] == s[..a][i];
    assert SpaceRun(s) == a;
  }

  lemma TrimEndIs(s: seq<byte>, b: nat)
    requires 0 < b <= |s| && AllSpace(s[b..]) && !IsSpace(s[b - 1])
    ensures TrimEnd(s) == s[..b]
  {
    assert forall i :: b <= i < |s| ==> s[i] == s[b..][i - b];
    assert TokenEnd(s) == b;
  }

  lemma SliceOfDrop(s: seq<byte>, a: nat, b: nat)
    requires a < b <= |s|
    ensures s[a..][b - a..] == s[b..] && s[a..][..b - a] == s[a..b] && s[a..][b - a - 1] == s[b - 1]
  {}

  lemma TrimBetween(bytes: seq<byte>, a: nat, b: nat)
    requires a < b <= |bytes| && AllSpace(bytes[..a]) && AllSpace(bytes[b..])
    requires !IsSpace(bytes[a]) && !IsSpace(bytes[b - 1])
    ensures TrimEnd(TrimStart(bytes)) == bytes[a..b]
  {
    hide TrimStart, TrimEnd, AllSpace, IsSpace;
    TrimStartIs(bytes, a);
    SliceOfDrop(bytes, a, b);
    TrimEndIs(bytes[a..], b - a);
  }

  /** Where a token stands among whitespace is settled by the trimming. */
  lemma TrimFinds(bytes: seq<byte>, a: nat, b: nat)
    requires IsSpacedToken(bytes, a, b)
    ensures TrimEnd(TrimStart(bytes)) == bytes[a..b] != []
  {
    hide IsToken, TrimStart, TrimEnd, AllSpace;
    var token := bytes[a..b];
    TokenHasNoSpaceAtItsEnds(Unsigned(token));
    assert !IsSpace(token[0]) && !IsSpace(token[|token| - 1]);
    TrimBetween(bytes, a, b);
  }

  predicate AcceptedToken(token: seq<byte>) {
    token != [] && (IsWord(Unsigned(token)) || AcceptedDecimal(Unsigned(token)))
  }

  lemma WouldWarnUnfolds(bytes: seq<byte>)
    ensures WouldWarn(bytes) <==> bytes != ZeroButTrue && !AcceptedToken(TrimEnd(TrimStart(bytes)))
  {
    hide IsWord, TrimStart, TrimEnd;
  }

  lemma AcceptedTokenIff(token: seq<byte>)
    ensures AcceptedToken(token) <==> IsToken(Unsigned(token))
  {
    hide IsDecimal, AcceptedDecimal;
    AcceptedIff(Unsigned(token));
    if IsToken(Unsigned(token)) {
      TokenHasNoSpaceAtItsEnds(Unsigned(token));
    }
  }

  lemma TrimmedStands(bytes: seq<byte>) returns (a: nat, b: nat)
    ensures a <= b <= |bytes| && AllSpace(bytes[..a]) && AllSpace(bytes[b..])
    ensures TrimEnd(TrimStart(bytes)) == bytes[a..b]
  {
    a := SpaceRun(bytes);
    var r := bytes[a..];
    b := a + TokenEnd(r);
    forall i | b <= i < |bytes|
      ensures IsSpace(bytes[i])
    {
      assert IsSpace(r[i - a]);
    }
    SliceOfTail(bytes, a, TokenEnd(r));
  }

  lemma SliceOfTail(s: seq<byte>, a: nat, n: nat)
    requires a + n <= |s|
    ensures s[a..][..n] == s[a..a + n]
  {}

  /** The repository's predicate and the grammar agree on every string. */
  lemma WouldWarnIff(bytes: seq<byte>)
    ensures WouldWarn(bytes) <==> !IsSilent(bytes)
  {
    hide WouldWarn, AcceptedToken, IsToken, TrimStart, TrimEnd, AllSpace, IsSpace;
    WouldWarnUnfolds(bytes);
    AcceptedTokenIff(TrimEnd(TrimStart(bytes)));
    var a, b := TrimmedStands(bytes);
    assert IsToken(Unsigned(bytes[a..b])) ==> IsSpacedToken(bytes, a, b);
    if exists c: nat, d: nat :: IsSpacedToken(bytes, c, d) {
      var c: nat, d: nat :| IsSpacedToken(bytes, c, d);
      TrimFinds(bytes, c, d);
    }
  }
}
