/**
  * The word-at-a-time scans, on machine words.  Octets here are eight-bit vectors and a chunk of eight is a 64-bit one,
  * so that the masks, the carries and the bit count are the machine's own.
  */
module Words {
  import opened Wrappers

  type octet = bv8

  const HIGH: bv64 := 0x8080_8080_8080_8080

  /** `u64::from_le_bytes`. */
  function LittleEndian(c: seq<octet>): bv64
    requires |c| == 8
  {
    (c[0] as bv64) | (c[1] as bv64 << 8) | (c[2] as bv64 << 16) | (c[3] as bv64 << 24)
    | (c[4] as bv64 << 32) | (c[5] as bv64 << 40) | (c[6] as bv64 << 48) | (c[7] as bv64 << 56)
  }

  /** The one bits among the low `n` of a word. */
  function Ones(w: bv64, n: nat): nat {
    if n == 0 then 0 else (if w & 1 == 1 then 1 else 0) + Ones(w >> 1, n - 1)
  }

  function CountOnes(w: bv64): nat {
    Ones(w, 64)
  }

  /** The high bits of the low `k` bytes of a word. */
  function HighLanes(w: bv64, k: nat): nat {
    if k == 0 then 0 else (if w & 0x80 != 0 then 1 else 0) + HighLanes(w >> 8, k - 1)
  }

  lemma OnesOfLane(w: bv64, n: nat)
    requires w & !HIGH == 0
    ensures Ones(w, n + 8) == (if w & 0x80 != 0 then 1 else 0) + Ones(w >> 8, n)
  {
    assert w & 1 == 0 && (w >> 1) & 1 == 0 && (w >> 2) & 1 == 0 && (w >> 3) & 1 == 0;
    assert (w >> 4) & 1 == 0 && (w >> 5) & 1 == 0 && (w >> 6) & 1 == 0;
    assert (w >> 7) & 1 == 1 <==> w & 0x80 != 0;
    assert (w >> 1) >> 1 == w >> 2 && (w >> 2) >> 1 == w >> 3 && (w >> 3) >> 1 == w >> 4;
    assert (w >> 4) >> 1 == w >> 5 && (w >> 5) >> 1 == w >> 6 && (w >> 6) >> 1 == w >> 7 && (w >> 7) >> 1 == w >> 8;
    assert Ones(w, n + 8) == Ones(w >> 1, n + 7) == Ones(w >> 2, n + 6) == Ones(w >> 3, n + 5) == Ones(w >> 4, n + 4);
    assert Ones(w >> 4, n + 4) == Ones(w >> 5, n + 3) == Ones(w >> 6, n + 2) == Ones(w >> 7, n + 1);
  }

  lemma {:induction false} OnesOfMasked(w: bv64, k: nat)
    requires w & !HIGH == 0
    ensures Ones(w, 8 * k) == HighLanes(w, k)
  {
    if k > 0 {
      OnesOfLane(w, 8 * (k - 1));
      assert (w >> 8) & !HIGH == 0;
      OnesOfMasked(w >> 8, k - 1);
    }
  }

  /** The bytes at or above 0x80. */
  function Variants(s: seq<octet>): nat {
    if s == [] then 0 else (if s[0] >= 0x80 then 1 else 0) + Variants(s[1..])
  }

  lemma {:induction false} VariantsConcat(a: seq<octet>, b: seq<octet>)
    ensures Variants(a + b) == Variants(a) + Variants(b)
  {
    if a == [] {
      assert a + b == b;
    } else {
      assert (a + b)[1..] == a[1..] + b;
      VariantsConcat(a[1..], b);
    }
  }

  function Bit(set': bool): nat {
    if set' then 1 else 0
  }

  lemma LanesUnrolled(w: bv64)
    ensures HighLanes(w, 8)
         == Bit(w & 0x80 != 0) + Bit((w >> 8) & 0x80 != 0) + Bit((w >> 16) & 0x80 != 0) + Bit((w >> 24) & 0x80 != 0)
          + Bit((w >> 32) & 0x80 != 0) + Bit((w >> 40) & 0x80 != 0) + Bit((w >> 48) & 0x80 != 0) + Bit((w >> 56) & 0x80 != 0)
  {
    assert (w >> 8) >> 8 == w >> 16 && (w >> 16) >> 8 == w >> 24 && (w >> 24) >> 8 == w >> 32;
    assert (w >> 32) >> 8 == w >> 40 && (w >> 40) >> 8 == w >> 48 && (w >> 48) >> 8 == w >> 56;
    assert HighLanes(w >> 56, 1) == Bit((w >> 56) & 0x80 != 0);
    assert HighLanes(w >> 48, 2) == Bit((w >> 48) & 0x80 != 0) + HighLanes(w >> 56, 1);
    assert HighLanes(w >> 40, 3) == Bit((w >> 40) & 0x80 != 0) + HighLanes(w >> 48, 2);
    assert HighLanes(w >> 32, 4) == Bit((w >> 32) & 0x80 != 0) + HighLanes(w >> 40, 3);
    assert HighLanes(w >> 24, 5) == Bit((w >> 24) & 0x80 != 0) + HighLanes(w >> 32, 4);
    assert HighLanes(w >> 16, 6) == Bit((w >> 16) & 0x80 != 0) + HighLanes(w >> 24, 5);
    assert HighLanes(w >> 8, 7) == Bit((w >> 8) & 0x80 != 0) + HighLanes(w >> 16, 6);
  }

  lemma VariantsFirst(c: seq<octet>, k: nat)
    requires k < |c|
    ensures Variants(c[k..]) == Bit(c[k] >= 0x80) + Variants(c[k + 1..])
  {
    assert c[k..][1..] == c[k + 1..];
  }

  lemma LanesOfWord(c: seq<octet>)
    requires |c| == 8
    ensures HighLanes(LittleEndian(c) & HIGH, 8) == Variants(c)
  {
    var w := LittleEndian(c) & HIGH;
    LanesUnrolled(w);
    assert w & 0x80 != 0 <==> c[0] >= 0x80;
    assert (w >> 8) & 0x80 != 0 <==> c[1] >= 0x80;
    assert (w >> 16) & 0x80 != 0 <==> c[2] >= 0x80;
    assert (w >> 24) & 0x80 != 0 <==> c[3] >= 0x80;
    assert (w >> 32) & 0x80 != 0 <==> c[4] >= 0x80;
    assert (w >> 40) & 0x80 != 0 <==> c[5] >= 0x80;
    assert (w >> 48) & 0x80 != 0 <==> c[6] >= 0x80;
    assert (w >> 56) & 0x80 != 0 <==> c[7] >= 0x80;
    EightVariants(c);
  }

  lemma EightVariants(c: seq<octet>)
    requires |c| == 8
    ensures Variants(c)
         == Bit(c[0] >= 0x80) + Bit(c[1] >= 0x80) + Bit(c[2] >= 0x80) + Bit(c[3] >= 0x80)
          + Bit(c[4] >= 0x80) + Bit(c[5] >= 0x80) + Bit(c[6] >= 0x80) + Bit(c[7] >= 0x80)
  {
    hide Variants;
    assert c[0..] == c;
    VariantsFirst(c, 0);
    VariantsFirst(c, 1);
    VariantsFirst(c, 2);
    VariantsFirst(c, 3);
    VariantsFirst(c, 4);
    VariantsFirst(c, 5);
    VariantsFirst(c, 6);
    VariantsFirst(c, 7);
    NoVariants(c[8..]);
  }

  lemma NoVariants(s: seq<octet>)
    requires s == []
    ensures Variants(s) == 0
  {}

  const U32 := 0x1_0000_0000

  /**
    * Count eight bytes at a time, in an accumulator of thirty-two bits that wraps as release builds do.  `words` is the
    * part of the true count that goes through the accumulator.
    */
  method VariantCount(bytes: seq<octet>) returns (count: nat, ghost words: nat)
    ensures words == Variants(bytes[..|bytes| / 8 * 8])
    ensures count == Variants(bytes) - words + words % U32
  {
    hide Variants, HighLanes, Ones, LittleEndian;
    var acc := 0;
    words := 0;
    var i := 0;
    NoVariants(bytes[..0]);
    while i + 8 <= |bytes|
      invariant i % 8 == 0 && i <= |bytes|
      invariant words == Variants(bytes[..i]) && acc == words % U32
    {
      var chunk := bytes[i..i + 8];
      var ones := CountOnes(LittleEndian(chunk) & HIGH);
      OnesOfChunk(chunk);
      VariantsConcat(bytes[..i], chunk);
      assert bytes[..i + 8] == bytes[..i] + chunk;
      acc := (acc + ones) % U32;
      words := words + ones;
      i := i + 8;
    }
    VariantsConcat(bytes[..i], bytes[i..]);
    assert bytes[..i] + bytes[i..] == bytes;
    var rest := CountEach(bytes[i..]);
    count := acc + rest;
  }

  lemma OnesOfChunk(c: seq<octet>)
    requires |c| == 8
    ensures CountOnes(LittleEndian(c) & HIGH) == Variants(c)
  {
    hide Variants, HighLanes, Ones, LittleEndian;
    var w := LittleEndian(c) & HIGH;
    assert w & !HIGH == 0;
    LanesOfWord(c);
    OnesOfMasked(w, 8);
  }

  method CountEach(s: seq<octet>) returns (n: nat)
    ensures n == Variants(s)
  {
    n := 0;
    for i := 0 to |s|
      invariant n == Variants(s[..i])
    {
      VariantsConcat(s[..i], [s[i]]);
      assert s[..i + 1] == s[..i] + [s[i]];
      n := n + if s[i] >= 0x80 then 1 else 0;
    }
    assert s[..|s|] == s;
  }

  /** The word-wise count is the true count exactly while the part counted by words fits the accumulator. */
  method CountIsExactIff(bytes: seq<octet>) returns (count: nat)
    ensures count == Variants(bytes) <==> Variants(bytes[..|bytes| / 8 * 8]) < U32
  {
    ghost var words;
    count, words := VariantCount(bytes);
  }

  /** No byte of a word has its high bit set. */
  lemma WordIsAscii(c: seq<octet>)
    requires |c| == 8
    ensures LittleEndian(c) & HIGH != 0 <==> exists k :: 0 <= k < 8 && c[k] >= 0x80
  {
    var w := LittleEndian(c) & HIGH;
    var low := c[0] < 0x80 && c[1] < 0x80 && c[2] < 0x80 && c[3] < 0x80
            && c[4] < 0x80 && c[5] < 0x80 && c[6] < 0x80 && c[7] < 0x80;
    assert w == 0 <==> low;
  }

  /** The first byte at or above 0x80: whole words are skipped while they hold none. */
  method FirstVariant(bytes: seq<octet>) returns (r: Option<nat>)
    ensures r.None? <==> forall k :: 0 <= k < |bytes| ==> bytes[k] < 0x80
    ensures r.Some? ==> r.value < |bytes| && bytes[r.value] >= 0x80 && forall k :: 0 <= k < r.value ==> bytes[k] < 0x80
  {
    var offset := 0;
    while offset + 8 <= |bytes|
      invariant offset <= |bytes|
      invariant forall k :: 0 <= k < offset ==> bytes[k] < 0x80
    {
      var chunk := bytes[offset..offset + 8];
      WordIsAscii(chunk);
      if LittleEndian(chunk) & HIGH != 0 {
        break;
      }
      assert forall k :: offset <= k < offset + 8 ==> bytes[k] == chunk[k - offset];
      offset := offset + 8;
    }
    var k := offset;
    while k < |bytes|
      invariant offset <= k <= |bytes|
      invariant forall j :: 0 <= j < k ==> bytes[j] < 0x80
    {
      if bytes[k] >= 0x80 {
        return Some(k);
      }
      k := k + 1;
    }
    return None;
  }

  // ── Digit runs ──────────────────────────────────────────────────

  predicate IsDigit(b: octet) {
    0x30 <= b && b <= 0x39
  }

  /** All eight bytes are digits: the high nibbles are threes, and adding six to the low ones carries nowhere. */
  predicate WordAllDigits(word: bv64) {
    && word & 0xF0F0_F0F0_F0F0_F0F0 == 0x3030_3030_3030_3030
    && ((word & 0x0F0F_0F0F_0F0F_0F0F) + 0x0606_0606_0606_0606) & 0xF0F0_F0F0_F0F0_F0F0 == 0
  }

  lemma WordDigitsIff(c: seq<octet>)
    requires |c| == 8
    ensures WordAllDigits(LittleEndian(c)) <==> forall k :: 0 <= k < 8 ==> IsDigit(c[k])
  {
    WordDigits(c[0], c[1], c[2], c[3], c[4], c[5], c[6], c[7]);
    assert c == [c[0], c[1], c[2], c[3], c[4], c[5], c[6], c[7]];
  }

  lemma WordDigits(a: octet, b: octet, c: octet, d: octet, e: octet, f: octet, g: octet, h: octet)
    ensures WordAllDigits(LittleEndian([a, b, c, d, e, f, g, h]))
       <==> IsDigit(a) && IsDigit(b) && IsDigit(c) && IsDigit(d) && IsDigit(e) && IsDigit(f) && IsDigit(g) && IsDigit(h)
  {
    var w := LittleEndian([a, b, c, d, e, f, g, h]);
    assert w == (a as bv64) | (b as bv64 << 8) | (c as bv64 << 16) | (d as bv64 << 24)
             | (e as bv64 << 32) | (f as bv64 << 40) | (g as bv64 << 48) | (h as bv64 << 56);
  }

  /** The longest digit prefix. */
  function DigitRun(s: seq<octet>): (n: nat)
    ensures n <= |s| && (forall k :: 0 <= k < n ==> IsDigit(s[k])) && (n < |s| ==> !IsDigit(s[n]))
  {
    if s != [] && IsDigit(s[0]) then 1 + DigitRun(s[1..]) else 0
  }

  /** The word scan finds the longest digit prefix. */
  method DigitRunWords(bytes: seq<octet>) returns (n: nat)
    ensures n <= |bytes| && forall k :: 0 <= k < n ==> IsDigit(bytes[k])
    ensures n < |bytes| ==> !IsDigit(bytes[n])
  {
    var i := 0;
    while i + 8 <= |bytes|
      invariant i <= |bytes|
      invariant forall k :: 0 <= k < i ==> IsDigit(bytes[k])
    {
      var chunk := bytes[i..i + 8];
      WordDigitsIff(chunk);
      if !WordAllDigits(LittleEndian(chunk)) {
        break;
      }
      assert forall k :: i <= k < i + 8 ==> bytes[k] == chunk[k - i];
      i := i + 8;
    }
    n := i;
    while n < |bytes| && IsDigit(bytes[n])
      invariant i <= n <= |bytes|
      invariant forall k :: 0 <= k < n ==> IsDigit(bytes[k])
    {
      n := n + 1;
    }
  }
}
