/**
  * Perl's extended UTF-8 in full: every code point up to 2^63 - 1 by the length it takes, the lead byte that announces
  * it, and the six bits in each byte after the lead.
  */
module ExtendedForm {
  import opened Wrappers
  import opened PerlUtf8

  function Pow64(n: nat): (p: nat)
    ensures p > 0
  {
    if n == 0 then 1 else 64 * Pow64(n - 1)
  }

  function Pow2(n: nat): (p: nat)
    ensures p > 0
  {
    if n == 0 then 1 else 2 * Pow2(n - 1)
  }

  /** How many code points `n` bytes have room for: `7 - n` bits in the lead byte and six in each byte after it. */
  function Room(n: nat): nat
    requires 1 <= n <= 7
  {
    if n == 1 then 0x80 else Pow2(7 - n) * Pow64(n - 1)
  }

  /** A lead byte announces the length by its leading ones, all eight of them for thirteen bytes. */
  function Ones(n: nat): int {
    if n < 8 then 0x100 - Pow2(8 - n) else 0xFF
  }

  lemma RoomIs()
    ensures Room(2) == 0x800 && Room(3) == 0x1_0000 && Room(4) == 0x20_0000
    ensures Room(5) == 0x400_0000 && Room(6) == 0x8000_0000 && Room(7) == 0x10_0000_0000
    ensures Ones(2) == 0xC0 && Ones(3) == 0xE0 && Ones(4) == 0xF0 && Ones(5) == 0xF8 && Ones(6) == 0xFC && Ones(7) == 0xFE
  {
    assert Pow64(2) == 0x1000 && Pow64(3) == 0x4_0000;
    assert Pow64(4) == 0x100_0000;
    assert Pow64(5) == 0x4000_0000;
    assert Pow64(6) == 0x10_0000_0000;
    assert Pow2(2) == 4 && Pow2(3) == 8;
    assert Pow2(4) == 16;
    assert Pow2(5) == 32;
    assert Pow2(6) == 64;
  }

  function Quotient(c: nat, m: nat): nat
    requires m > 0
  {
    c / m
  }

  lemma QuotientIs(c: nat, m: nat)
    requires m > 0
    ensures Quotient(c, m) * m <= c < (Quotient(c, m) + 1) * m
  {}

  lemma QuotientIsOnly(c: nat, m: nat, q: nat)
    requires q * m <= c < (q + 1) * m
    ensures m > 0 && Quotient(c, m) == q
  {
    hide Quotient;
    Positive(q, m);
    var o := Quotient(c, m);
    QuotientIs(c, m);
    if q < o {
      Steps(q + 1, o, m);
    } else if o < q {
      Steps(o + 1, q, m);
    }
  }

  lemma Positive(q: nat, m: nat)
    requires q * m < (q + 1) * m
    ensures m > 0
  {}

  lemma Steps(a: nat, b: nat, m: nat)
    requires a <= b
    ensures a * m <= b * m
  {}

  lemma Nested(c: nat, d: nat, q: nat, p: nat)
    requires 64 * d <= c < 64 * d + 64 && q * p <= d < (q + 1) * p
    ensures q * (64 * p) <= c < (q + 1) * (64 * p)
  {
    Spread(q, p);
    Spread(q + 1, p);
  }

  lemma Spread(q: nat, p: nat)
    ensures 64 * (q * p) == q * (64 * p)
  {}

  lemma DivideTwice(c: nat, p: nat)
    requires p > 0
    ensures Quotient(c / 64, p) == Quotient(c, 64 * p)
  {
    hide Quotient;
    QuotientIs(c / 64, p);
    Nested(c, c / 64, Quotient(c / 64, p), p);
    QuotientIsOnly(c, 64 * p, Quotient(c / 64, p));
  }

  lemma {:induction false} TopIsQuotient(c: nat, n: nat)
    ensures Top(c, n) == Quotient(c, Pow64(n))
  {
    if n == 0 {
      assert Pow64(0) == 1;
    } else {
      hide Quotient;
      TopIsQuotient(c / 64, n - 1);
      DivideTwice(c, Pow64(n - 1));
    }
  }

  lemma {:induction false} TailAt(c: nat, n: nat, i: nat)
    requires i < n
    ensures Tail(c, n)[i] == 0x80 + Quotient(c, Pow64(n - 1 - i)) % 64
  {
    if i == n - 1 {
      assert Pow64(0) == 1;
    } else {
      hide Quotient;
      TailAt(c / 64, n - 1, i);
      DivideTwice(c, Pow64(n - 2 - i));
    }
  }

  /**
    * The spelling in full: one to seven bytes or thirteen, the fewest with room; the lead byte's ones above the
    * highest bits; and six bits in each byte after it.
    */
  lemma EncodeSpells(c: CodePoint)
    ensures var e := Encode(c);
            && (1 <= |e| <= 7 || |e| == 13)
            && (forall n :: 1 <= n <= 7 ==> (|e| <= n <==> c < Room(n)))
            && e[0] == (if |e| == 1 then 0 else Ones(|e|)) + c / Pow64(|e| - 1)
            && forall i :: 1 <= i < |e| ==> e[i] == 0x80 + c / Pow64(|e| - 1 - i) % 64
  {
    hide Tail, Top, Pow64, Pow2;
    var e := Encode(c);
    RoomIs();
    TopIsQuotient(c, |e| - 1);
    forall i | 1 <= i < |e|
      ensures e[i] == 0x80 + c / Pow64(|e| - 1 - i) % 64
    {
      TailAt(c, |e| - 1, i - 1);
    }
  }
}
