/**
  * Perl's extended UTF-8.  `Encode` is the reference: the one shortest-form spelling of each code point up to
  * 2^63 - 1, in 1 to 7 or 13 bytes.  `DecodeAt` follows the decoder branch by branch, and everything else here
  * says that the two agree: exactly, uniquely, in order, and from any boundary.
  */
module PerlUtf8 {
  import opened Wrappers
  import opened LexOrder

  const IV_MAX: nat := 0x7FFF_FFFF_FFFF_FFFF

  type CodePoint = c: nat | c <= IV_MAX

  // ── The reference encoding ──────────────────────────────────────

  function SeqLen(c: nat): nat {
    if c < 0x80 then 1
    else if c < 0x800 then 2
    else if c < 0x1_0000 then 3
    else if c < 0x20_0000 then 4
    else if c < 0x400_0000 then 5
    else if c < 0x8000_0000 then 6
    else if c < 0x10_0000_0000 then 7
    else 13
  }

  function LeadBase(len: nat): byte {
    match len
    case 1 => 0
    case 2 => 0xC0
    case 3 => 0xE0
    case 4 => 0xF0
    case 5 => 0xF8
    case 6 => 0xFC
    case 7 => 0xFE
    case _ => 0xFF
  }

  /** What is left of `c` above its low `6 * n` bits. */
  function Top(c: nat, n: nat): nat {
    if n == 0 then c else Top(c / 64, n - 1)
  }

  /** The low `6 * n` bits of `c` as continuation bytes, most significant first. */
  function Tail(c: nat, n: nat): (t: seq<byte>)
    ensures |t| == n
    ensures forall i :: 0 <= i < n ==> IsContinuation(t[i])
  {
    if n == 0 then [] else Tail(c / 64, n - 1) + [0x80 + c % 64]
  }

  lemma TopBound(c: CodePoint)
    ensures var n := SeqLen(c) - 1;
            0 <= LeadBase(n + 1) + Top(c, n) < 256
  {
    var len := SeqLen(c);
    TopSteps(c, len - 1);
  }

  /** `Top` spelled as repeated division, for the widths that occur. */
  lemma TopSteps(c: nat, n: nat)
    requires n <= 6 || n == 12
    ensures n == 0 ==> Top(c, n) == c
    ensures n == 1 ==> Top(c, n) == c / 64
    ensures n == 2 ==> Top(c, n) == c / 0x1000
    ensures n == 3 ==> Top(c, n) == c / 0x4_0000
    ensures n == 4 ==> Top(c, n) == c / 0x100_0000
    ensures n == 5 ==> Top(c, n) == c / 0x4000_0000
    ensures n == 6 ==> Top(c, n) == c / 0x10_0000_0000
    ensures n == 12 ==> Top(c, n) == c / 0x100_0000_0000_0000_0000
  {
    if n == 12 {
      SixSteps(c);
      SixSteps(c / 0x10_0000_0000);
      TopSplit(c, 6, 6);
    } else if n == 6 {
      SixSteps(c);
    }
  }

  lemma SixSteps(c: nat)
    ensures Top(c, 6) == c / 0x10_0000_0000
  {
    TopSplit(c, 3, 3);
    ThreeSteps(c);
    ThreeSteps(c / 0x4_0000);
  }

  lemma ThreeSteps(c: nat)
    ensures Top(c, 3) == c / 0x4_0000
  {
    assert Top(c / 64, 2) == Top(c / 64 / 64, 1) == c / 64 / 64 / 64;
  }

  lemma {:induction false} TopSplit(c: nat, m: nat, n: nat)
    ensures Top(c, m + n) == Top(Top(c, m), n)
  {
    if m > 0 {
      TopSplit(c / 64, m - 1, n);
    }
  }

  function Encode(c: CodePoint): (e: seq<byte>)
    ensures |e| == SeqLen(c)
    ensures !IsContinuation(e[0])
    ensures forall i :: 1 <= i < |e| ==> IsContinuation(e[i])
  {
    TopBound(c);
    TopSteps(c, SeqLen(c) - 1);
    [LeadBase(SeqLen(c)) + Top(c, SeqLen(c) - 1)] + Tail(c, SeqLen(c) - 1)
  }

  function EncodeAll(cs: seq<CodePoint>): seq<byte> {
    if cs == [] then [] else Encode(cs[0]) + EncodeAll(cs[1..])
  }

  // ── The decoder ─────────────────────────────────────────────────

  datatype Step = Rejected | Char(len: nat, value: CodePoint)

  /** The length a lead byte announces and the value bits it carries; a continuation byte leads nothing. */
  function Lead(b: byte): Option<(nat, nat)> {
    if b <= 0x7F then Some((1, b))
    else if b <= 0xBF then None
    else if b <= 0xDF then Some((2, b % 0x20))
    else if b <= 0xEF then Some((3, b % 0x10))
    else if b <= 0xF7 then Some((4, b % 0x08))
    else if b <= 0xFB then Some((5, b % 0x04))
    else if b <= 0xFD then Some((6, b % 0x02))
    else if b == 0xFE then Some((7, 0))
    else Some((13, 0))
  }

  function MinForLen(len: nat): nat {
    match len
    case 1 => 0
    case 2 => 0x80
    case 3 => 0x800
    case 4 => 0x1_0000
    case 5 => 0x20_0000
    case 6 => 0x400_0000
    case 7 => 0x8000_0000
    case 13 => 0x10_0000_0000
    case _ => 0xFFFF_FFFF_FFFF_FFFF
  }

  /** The value after shifting six bits in for each continuation byte of `t`. */
  function Accumulate(v: nat, t: seq<byte>): nat {
    if t == [] then v else Accumulate(v, t[..|t| - 1]) * 64 + t[|t| - 1] % 64
  }

  predicate AllContinuation(t: seq<byte>) {
    forall i :: 0 <= i < |t| ==> IsContinuation(t[i])
  }

  /** What decoding one character at `at` answers: the value before any machine limit, then the two range checks. */
  function DecodeAt(bytes: seq<byte>, at: nat): (r: Step)
    requires at < |bytes|
    ensures r.Char? ==> 1 <= r.len && at + r.len <= |bytes|
  {
    match Lead(bytes[at])
    case None => Rejected
    case Some((len, bits)) =>
      if at + len > |bytes| || !AllContinuation(bytes[at + 1..at + len]) then Rejected
      else
        var value := Accumulate(bits, bytes[at + 1..at + len]);
        if value < MinForLen(len) || value > IV_MAX then Rejected else Char(len, value)
  }

  /** Shifting in a tail only grows the value, so a prefix past `bound` decides a range check early. */
  lemma {:induction false} AccumulateGrows(v: nat, t: seq<byte>, k: nat)
    requires k <= |t|
    ensures Accumulate(v, t[..k]) <= Accumulate(v, t)
  {
    if k < |t| {
      AccumulateGrows(v, t[..|t| - 1], k);
      assert t[..|t| - 1][..k] == t[..k];
    } else {
      assert t[..k] == t;
    }
  }

  lemma SeenSoFar(bytes: seq<byte>, from: nat, i: nat, to: nat)
    requires from <= i < to <= |bytes|
    ensures bytes[from..i + 1] == bytes[from..to][..i + 1 - from] == bytes[from..i] + [bytes[i]]
  {}

  /**
    * The decoder itself: one byte at a time, with the 64-bit accumulator's checked multiply.  Giving up on overflow
    * changes no answer, because a value that overflows is already past `IV_MAX`.
    */
  method DecodeOne(bytes: seq<byte>, at: nat) returns (r: Step)
    requires at < |bytes|
    ensures r == DecodeAt(bytes, at)
  {
    var lead := Lead(bytes[at]);
    if lead.None? {
      return Rejected;
    }
    var (len, value) := lead.value;
    if len == 1 {
      return Char(1, value);
    }
    if at + len > |bytes| {
      return Rejected;
    }
    ghost var bits, tail := value, bytes[at + 1..at + len];
    var i := at + 1;
    while i < at + len
      invariant at + 1 <= i <= at + len
      invariant AllContinuation(bytes[at + 1..i])
      invariant value == Accumulate(bits, bytes[at + 1..i])
    {
      var b := bytes[i];
      ghost var seen := bytes[at + 1..i + 1];
      SeenSoFar(bytes, at + 1, i, at + len);
      if !IsContinuation(b) {
        assert tail[i - at - 1] == b;
        return Rejected;
      }
      if value * 64 >= 0x1_0000_0000_0000_0000 {
        AccumulateGrows(bits, tail, i - at);
        return Rejected;
      }
      value := value * 64 + b % 64;
      i := i + 1;
    }
    if value < MinForLen(len) || value > IV_MAX {
      return Rejected;
    }
    return Char(len, value);
  }

  /** A tail is exactly the low bits of the value it produced, and what is above them is the lead's bits. */
  lemma {:induction false} AccumulateInverts(v: nat, t: seq<byte>)
    requires AllContinuation(t)
    ensures Tail(Accumulate(v, t), |t|) == t
    ensures Top(Accumulate(v, t), |t|) == v
  {
    if t != [] {
      var init := t[..|t| - 1];
      AccumulateInverts(v, init);
      assert Accumulate(v, t) / 64 == Accumulate(v, init);
      assert t == init + [t[|t| - 1]];
    }
  }

  lemma {:induction false} AccumulateOfTail(c: nat, n: nat)
    ensures Accumulate(Top(c, n), Tail(c, n)) == c
  {
    if n > 0 {
      var t := Tail(c, n);
      AccumulateOfTail(c / 64, n - 1);
      assert t[..|t| - 1] == Tail(c / 64, n - 1);
      assert t[|t| - 1] % 64 == c % 64;
    }
  }

  /** How many values a lead byte of each form can carry. */
  function LeadRoom(len: nat): nat {
    match len
    case 1 => 0x80
    case 2 => 0x20
    case 3 => 0x10
    case 4 => 0x08
    case 5 => 0x04
    case 6 => 0x02
    case _ => 1
  }

  lemma LeadBits(lead: byte)
    requires Lead(lead).Some?
    ensures var (len, bits) := Lead(lead).value;
            lead == LeadBase(len) + bits && bits < LeadRoom(len) && (1 <= len <= 7 || len == 13)
  {}

  /** The form a lead announces is the shortest one for the value, exactly when the minimum and the ceiling hold. */
  lemma ShortestIff(c: nat, len: nat)
    requires 1 <= len <= 7 || len == 13
    requires Top(c, len - 1) < LeadRoom(len)
    requires MinForLen(len) <= c <= IV_MAX
    ensures SeqLen(c) == len
  {
    TopSteps(c, len - 1);
  }

  /** Decoding at `at` yields `c` exactly when the bytes there begin with the one encoding of `c`. */
  lemma DecodeAtIff(bytes: seq<byte>, at: nat, len: nat, c: CodePoint)
    requires at < |bytes|
    ensures DecodeAt(bytes, at) == Char(len, c)
       <==> len == SeqLen(c) && at + len <= |bytes| && bytes[at..at + len] == Encode(c)
  {
    if DecodeAt(bytes, at) == Char(len, c) {
      var bits := Lead(bytes[at]).value.1;
      var t := bytes[at + 1..at + len];
      AccumulateInverts(bits, t);
      LeadBits(bytes[at]);
      ShortestIff(c, len);
      assert bytes[at..at + len] == [bytes[at]] + t;
    }
    if len == SeqLen(c) && at + len <= |bytes| && bytes[at..at + len] == Encode(c) {
      EncodedDecodes(bytes, at, c);
    }
  }

  lemma LeadOfEncode(c: CodePoint)
    ensures Lead(Encode(c)[0]) == Some((SeqLen(c), Top(c, SeqLen(c) - 1)))
    ensures MinForLen(SeqLen(c)) <= c
    ensures SeqLen(c) <= 7 || SeqLen(c) == 13
  {
    TopSteps(c, SeqLen(c) - 1);
    LeadOfRoom(SeqLen(c), Top(c, SeqLen(c) - 1));
  }

  lemma LeadOfRoom(len: nat, bits: nat)
    requires (1 <= len <= 7 || len == 13) && bits < LeadRoom(len)
    ensures Lead(LeadBase(len) + bits) == Some((len, bits))
  {}

  lemma EncodedDecodes(bytes: seq<byte>, at: nat, c: CodePoint)
    requires at + SeqLen(c) <= |bytes| && bytes[at..at + SeqLen(c)] == Encode(c)
    ensures DecodeAt(bytes, at) == Char(SeqLen(c), c)
  {
    var len := SeqLen(c);
    LeadOfEncode(c);
    assert bytes[at] == bytes[at..at + len][0];
    assert bytes[at + 1..at + len] == bytes[at..at + len][1..] == Tail(c, len - 1);
    AccumulateOfTail(c, len - 1);
  }
}
