/**
  * Equality: an inference grid over what the two scan states already know, then one streaming walk.  Whatever true states
  * the two sides carry, the answer is key equality.
  */
module Equality {
  import opened Wrappers
  import opened LexOrder
  import opened PerlUtf8
  import opened PerlText
  import opened UpgradeText
  import opened Scan
  import opened Transitions
  import opened Classify
  import opened BlockedClassify
  import opened PackedCodec
  import opened PackedOrder
  import opened InlineCodec
  import opened Compare

  const WALK_FIRST_BLOCK := 64

  // ── What the grid rests on ──────────────────────────────────────

  lemma {:induction false} UpgradeLength(pb: seq<byte>)
    ensures |EncodeAll(pb)| >= |pb|
    ensures |EncodeAll(pb)| == |pb| <==> AllAscii(pb)
  {
    hide Encode;
    if pb != [] {
      UpgradeByte(pb[0]);
      UpgradeLength(pb[1..]);
      assert AllAscii(pb) <==> IsAscii(pb[0]) && AllAscii(pb[1..]) by {
        assert pb == [pb[0]] + pb[1..];
      }
    }
  }

  /** The class of a flagged string equal to an upgrade is decided by the plain side's bytes. */
  lemma UpgradeClass(pb: seq<byte>)
    ensures ClassOf(EncodeAll(pb)) == if AllAscii(pb) then AsciiClass else Latin1Class
  {
    hide Encode, EncodeAll;
    UpgradeDecodes(pb);
    if !AllAscii(pb) {
      var i :| 0 <= i < |pb| && !IsAscii(pb[i]);
      assert pb[i] >= 0x80;
    }
  }

  /** The five early answers across flags: each is a proof that the keys differ. */
  function CrossGrid(fLen: nat, sf: ScanState, pLen: nat, sp: ScanState): bool {
    || pLen > fLen
    || ((sf == Utf8Latin1 || sf == Utf8NonAscii) && pLen == fLen)
    || (sf == Ascii && IsKnownNonAscii(sp))
    || (sp == Ascii && IsKnownNonAscii(sf))
    || IsKnownBeyondLatin1(sf)
    || sf == MalformedUtf8
  }

  /** The grid on classes alone: nothing it answers false for could have been an upgrade and its source. */
  lemma GridByClass(fLen: nat, sf: ScanState, fc: Terminal, pLen: nat, sp: ScanState, pc: Terminal)
    requires fc in Allows(sf) && pc in Allows(sp) && fc in {AsciiClass, Latin1Class}
    requires pLen <= fLen && (pLen == fLen <==> fc == AsciiClass) && (fc == AsciiClass <==> pc == AsciiClass)
    ensures !CrossGrid(fLen, sf, pLen, sp)
  {}

  lemma CrossGridIsSound(fb: seq<byte>, sf: ScanState, pb: seq<byte>, sp: ScanState)
    requires Holds(sf, fb) && Holds(sp, pb) && CrossGrid(|fb|, sf, |pb|, sp)
    ensures fb != EncodeAll(pb)
  {
    hide Encode, EncodeAll, ClassOf, Holds, CrossGrid, Allows;
    UpgradeLength(pb);
    UpgradeClass(pb);
    HoldsByClass(sf, fb);
    HoldsByClass(sp, pb);
    FactByClass(AllAsciiBytes, pb);
    if fb == EncodeAll(pb) {
      GridByClass(|fb|, sf, ClassOf(fb), |pb|, sp, ClassOf(pb));
    }
  }

  /** The two early answers under one flag: different classes, or a Rust-invalid one beside a Rust-valid state. */
  function SameGrid(sa: ScanState, sb: ScanState): bool {
    || (IsTerminal(sa) && IsTerminal(sb) && sa != sb)
    || (IsTerminal(sa) && !IsRustValid(sa) && IsRustValid(sb))
    || (IsTerminal(sb) && !IsRustValid(sb) && IsRustValid(sa))
  }

  lemma SameGridIsSound(x: seq<byte>, sa: ScanState, y: seq<byte>, sb: ScanState)
    requires Holds(sa, x) && Holds(sb, y) && SameGrid(sa, sb)
    ensures x != y
  {
    hide ClassOf;
    HoldsByClass(sa, x);
    HoldsByClass(sb, y);
  }

  // ── The walk ────────────────────────────────────────────────────

  /** The first character of a window of at most four bytes, where Rust's own decoder finds one. */
  function RustFirst(window: seq<byte>): (r: Option<(nat, nat)>)
    requires 0 < |window| <= 4
    ensures r.Some? ==> 1 <= r.value.1 <= |window|
  {
    match DecodeAt(window, 0)
    case Rejected => None
    case Char(len, c) => if RustScalar(c) then Some((c, len)) else None
  }

  function Window(fb: seq<byte>, i: nat): seq<byte>
    requires i < |fb|
  {
    fb[i..if i + 4 <= |fb| then i + 4 else |fb|]
  }

  /** The flagged side's first `i` bytes are the upgrade of the plain side's first `j`. */
  ghost predicate Matched(fb: seq<byte>, i: nat, pb: seq<byte>, j: nat)
    requires i <= |fb| && j <= |pb|
  {
    fb[..i] == EncodeAll(pb[..j])
  }

  /** If the keys agree, what follows the match is the encoding of the plain side's next byte. */
  lemma NextEncoding(fb: seq<byte>, i: nat, pb: seq<byte>, j: nat)
    requires i < |fb| && j <= |pb| && Matched(fb, i, pb, j) && fb == EncodeAll(pb)
    ensures j < |pb| && i + SeqLen(pb[j]) <= |fb| && fb[i..i + SeqLen(pb[j])] == Encode(pb[j])
  {
    hide Encode, EncodeAll, SeqLen;
    MoreToCome(fb, i, pb, j);
    EncodeAllAt(pb, j);
    AfterPrefix(fb, i, EncodeAll(pb[..j]), Encode(pb[j]), EncodeAll(pb[j + 1..]));
  }

  lemma MoreToCome(fb: seq<byte>, i: nat, pb: seq<byte>, j: nat)
    requires i < |fb| && j <= |pb| && Matched(fb, i, pb, j) && fb == EncodeAll(pb)
    ensures j < |pb|
  {
    hide Encode, EncodeAll;
    assert |fb[..i]| == i;
    if j == |pb| {
      WholeTake(pb, j);
    }
  }

  lemma WholeTake(s: seq<byte>, n: nat)
    requires n == |s|
    ensures s[..n] == s
  {}

  lemma AfterPrefix(whole: seq<byte>, i: nat, a: seq<byte>, b: seq<byte>, c: seq<byte>)
    requires i <= |whole| && whole == a + b + c && whole[..i] == a
    ensures i + |b| <= |whole| && whole[i..i + |b|] == b
  {
    assert |a| == i;
  }

  /** If the keys agree, the next character of the walk is the plain side's next byte. */
  lemma WalkMustAgree(fb: seq<byte>, i: nat, pb: seq<byte>, j: nat)
    requires i < |fb| && j <= |pb| && Matched(fb, i, pb, j) && fb == EncodeAll(pb)
    ensures j < |pb| && RustFirst(Window(fb, i)) == Some((pb[j], SeqLen(pb[j])))
  {
    hide Encode, EncodeAll, DecodeAt, SeqLen, Matched;
    NextEncoding(fb, i, pb, j);
    ByteLen(pb[j]);
    var window, len := Window(fb, i), SeqLen(pb[j]);
    assert window[0..len] == fb[i..i + len];
    DecodeAtIff(window, 0, len, pb[j]);
  }

  lemma ByteLen(c: byte)
    ensures 1 <= SeqLen(c) <= 2 && RustScalar(c)
  {}

  /** An agreeing character extends the match. */
  lemma WalkExtends(fb: seq<byte>, i: nat, pb: seq<byte>, j: nat)
    requires i < |fb| && j < |pb| && Matched(fb, i, pb, j)
    requires RustFirst(Window(fb, i)).Some? && RustFirst(Window(fb, i)).value.0 == pb[j]
    ensures var len := RustFirst(Window(fb, i)).value.1;
            i + len <= |fb| && Matched(fb, i + len, pb, j + 1)
  {
    hide Encode, EncodeAll, DecodeAt;
    var window := Window(fb, i);
    var len := RustFirst(window).value.1;
    DecodeAtIff(window, 0, len, pb[j]);
    assert fb[i..i + len] == window[0..len];
    assert fb[..i + len] == fb[..i] + fb[i..i + len];
    EncodeAllUpTo(pb, j);
  }

  /** A pure-ASCII block agrees exactly when it equals the plain side's next bytes. */
  lemma {:induction false} AsciiWalk(fb: seq<byte>, i: nat, end: nat, pb: seq<byte>, j: nat)
    requires i <= end <= |fb| && j <= |pb| && Matched(fb, i, pb, j) && AllAscii(fb[i..end])
    ensures fb == EncodeAll(pb) ==> j + (end - i) <= |pb| && fb[i..end] == pb[j..j + (end - i)]
    ensures j + (end - i) <= |pb| && fb[i..end] == pb[j..j + (end - i)] ==> Matched(fb, end, pb, j + (end - i))
    decreases end - i
  {
    hide Encode, EncodeAll, DecodeAt;
    if i < end {
      assert fb[i] == fb[i..end][0] && fb[i + 1..end] == fb[i..end][1..];
      AsciiWindow(fb, i);
      if fb == EncodeAll(pb) {
        WalkMustAgree(fb, i, pb, j);
      }
      if j < |pb| && fb[i] == pb[j] {
        WalkExtends(fb, i, pb, j);
        AsciiWalk(fb, i + 1, end, pb, j + 1);
        assert fb[i..end] == [fb[i]] + fb[i + 1..end];
        if j + (end - i) <= |pb| {
          assert pb[j..j + (end - i)] == [pb[j]] + pb[j + 1..j + (end - i)];
        }
      } else if j + (end - i) <= |pb| {
        assert pb[j..j + (end - i)][0] == pb[j];
      }
    }
  }

  lemma AsciiWindow(fb: seq<byte>, i: nat)
    requires i < |fb| && IsAscii(fb[i])
    ensures RustFirst(Window(fb, i)) == Some((fb[i], 1))
  {}

  /** A block with high bytes: one character at a time, the last one completing past the block's end. */
  method ScalarWalk(fb: seq<byte>, from: nat, end: nat, pb: seq<byte>, at: nat, saw: bool)
    returns (ok: bool, i: nat, j: nat, sawNonAscii: bool)
    requires from < end <= |fb| && at <= |pb| && Matched(fb, from, pb, at)
    requires saw <==> !AllAscii(pb[..at])
    ensures !ok ==> fb != EncodeAll(pb)
    ensures ok ==> from < i <= |fb| && j <= |pb| && Matched(fb, i, pb, j)
    ensures ok ==> (sawNonAscii <==> !AllAscii(pb[..j]))
  {
    hide Encode, EncodeAll, DecodeAt, RustFirst, Matched, AllAscii;
    i, j, sawNonAscii := from, at, saw;
    while i < end
      invariant from <= i <= |fb| && j <= |pb| && Matched(fb, i, pb, j)
      invariant sawNonAscii <==> !AllAscii(pb[..j])
      invariant i == from || from < i
      decreases |fb| - i
    {
      var first := RustFirst(Window(fb, i));
      if fb == EncodeAll(pb) {
        WalkMustAgree(fb, i, pb, j);
      }
      if first.None? || j >= |pb| || first.value.0 != pb[j] {
        return false, i, j, sawNonAscii;
      }
      WalkExtends(fb, i, pb, j);
      AsciiAppend(pb[..j], pb[j]);
      assert pb[..j + 1] == pb[..j] + [pb[j]];
      sawNonAscii := sawNonAscii || pb[j] >= 0x80;
      i, j := i + first.value.1, j + 1;
    }
    ok := true;
  }

  /** Decide whether a flagged string's bytes are the upgrade of a plain string's. */
  method Walk(fb: seq<byte>, pb: seq<byte>, block: nat) returns (same: bool, sawNonAscii: bool)
    requires block > 0
    ensures same <==> fb == EncodeAll(pb)
    ensures same ==> (sawNonAscii <==> !AllAscii(pb))
  {
    hide Encode, EncodeAll, DecodeAt, RustFirst, Matched, AllAscii;
    sawNonAscii := false;
    var i: nat, j: nat := 0, 0;
    MatchedNone(fb, pb);
    while i < |fb|
      invariant i <= |fb| && j <= |pb| && Matched(fb, i, pb, j)
      invariant sawNonAscii <==> !AllAscii(pb[..j])
      decreases |fb| - i
    {
      var end := if i == 0 then (if WALK_FIRST_BLOCK <= |fb| then WALK_FIRST_BLOCK else |fb|) else BlockEnd(i, |fb|, block);
      var hi := HighBitGate(fb, i, end);
      if !hi {
        var n := end - i;
        AsciiWalk(fb, i, end, pb, j);
        if j + n > |pb| || fb[i..end] != pb[j..j + n] {
          return false, sawNonAscii;
        }
        AsciiPrefix(pb, j, j + n);
        i, j := end, j + n;
        continue;
      }
      var ok;
      ok, i, j, sawNonAscii := ScalarWalk(fb, i, end, pb, j, sawNonAscii);
      if !ok {
        return false, sawNonAscii;
      }
    }
    WalkDone(fb, pb, j);
    assert pb[..|pb|] == pb;
    return j == |pb|, sawNonAscii;
  }

  lemma MatchedNone(fb: seq<byte>, pb: seq<byte>)
    ensures Matched(fb, 0, pb, 0) && AllAscii(pb[..0])
  {}

  /** A walk that consumed the flagged side proves equality exactly when it consumed the plain side too. */
  lemma WalkDone(fb: seq<byte>, pb: seq<byte>, j: nat)
    requires j <= |pb| && Matched(fb, |fb|, pb, j)
    ensures fb == EncodeAll(pb) <==> j == |pb|
  {
    hide Encode, EncodeAll;
    assert fb[..|fb|] == fb && pb[..|pb|] == pb;
    if j < |pb| {
      EncodeAllAt(pb, j);
      UpgradeByte(pb[j]);
    }
  }

  lemma AsciiPrefix(pb: seq<byte>, j: nat, k: nat)
    requires j <= k <= |pb| && AllAscii(pb[j..k])
    ensures AllAscii(pb[..k]) <==> AllAscii(pb[..j])
  {
    assert pb[..k] == pb[..j] + pb[j..k];
    assert forall i :: 0 <= i < j ==> pb[..k][i] == pb[..j][i];
  }

  /** What a completed walk teaches about the two sides. */
  datatype Learned = NothingNew | Both(flagged: ScanState, plain: ScanState)

  method EqPerl(a: PString, sa: ScanState, b: PString, sb: ScanState, block: nat) returns (same: bool, learned: Learned)
    requires block > 0 && a.Valid() && b.Valid() && Holds(sa, a.Bytes()) && Holds(sb, b.Bytes())
    ensures same <==> a.Key() == b.Key()
    ensures learned.Both? <==> same && a.utf8 != b.utf8
    ensures learned.Both? ==>
              var flagged, plain := if a.utf8 then a else b, if a.utf8 then b else a;
              && Holds(learned.flagged, flagged.Bytes()) && IsTerminal(learned.flagged)
              && Holds(learned.plain, plain.Bytes()) && (learned.plain == Ascii || IsKnownNonAscii(learned.plain))
  {
    hide Encode, EncodeAll, Holds, Packed.Bytes;
    learned := NothingNew;
    if a.utf8 == b.utf8 {
      SameFlagKeys(a, b);
      if SameGrid(sa, sb) {
        SameGridIsSound(a.Bytes(), sa, b.Bytes(), sb);
        return false, learned;
      }
      same := EqSameFlag(a, b);
      return;
    }
    var flagged, plain := if a.utf8 then a else b, if a.utf8 then b else a;
    var sf, sp := if a.utf8 then sa else sb, if a.utf8 then sb else sa;
    var fb, pb := AsBytes(flagged), AsBytes(plain);
    if CrossGrid(|fb|, sf, |pb|, sp) {
      CrossGridIsSound(fb, sf, pb, sp);
      return false, learned;
    }
    var sawNonAscii;
    same, sawNonAscii := Walk(fb, pb, block);
    if same {
      LearnedIsTrue(pb);
      learned := Both(if sawNonAscii then Utf8Latin1 else Ascii, if sawNonAscii then NonAscii else Ascii);
    }
  }

  lemma SameFlagKeys(a: PString, b: PString)
    requires a.Valid() && b.Valid() && a.utf8 == b.utf8
    ensures a.Key() == b.Key() <==> a.Bytes() == b.Bytes()
  {
    hide Encode, EncodeAll;
    UpgradeDecodes(a.Bytes());
    UpgradeDecodes(b.Bytes());
  }

  lemma LearnedIsTrue(pb: seq<byte>)
    ensures Holds(if AllAscii(pb) then Ascii else Utf8Latin1, EncodeAll(pb))
    ensures Holds(if AllAscii(pb) then Ascii else NonAscii, pb)
  {
    hide Encode, EncodeAll, ClassOf;
    UpgradeClass(pb);
    HoldsByClass(if AllAscii(pb) then Ascii else Utf8Latin1, EncodeAll(pb));
    HoldsByClass(if AllAscii(pb) then Ascii else NonAscii, pb);
    FactByClass(AllAsciiBytes, pb);
    FactByClass(HighBit, pb);
  }

  /** Byte equality on whatever storage the two sides have. */
  method EqSameFlag(a: PString, b: PString) returns (same: bool)
    requires a.Valid() && b.Valid()
    ensures same <==> a.Bytes() == b.Bytes()
  {
    hide Packed.Bytes, Choose, Inline.Bytes, Inline.Canonical;
    match (a.storage, b.storage) {
      case (InEnvelope(Verbatim(ta, fa, ba)), InEnvelope(Verbatim(tb, fb, bb))) =>
        EqualEnvelopeIff(a.storage.v, b.storage.v);
        return ta == tb && fa == fb && ba == bb;
      case (InEnvelope(Compressed(fa, ba)), InEnvelope(Compressed(fb, bb))) =>
        EqualEnvelopeIff(a.storage.v, b.storage.v);
        return fa == fb && ba == bb;
      case (InNibbles(p), InNibbles(q)) =>
        EqualRepresentationIff(p, q);
        return p.alphabet == q.alphabet && p.full == q.full && p.nibbles == q.nibbles;
      case (InNibbles(p), _) =>
        same := EqBytes(p, AsBytes(b));
      case (_, InNibbles(q)) =>
        same := EqBytes(q, AsBytes(a));
      case _ =>
        return AsBytes(a) == AsBytes(b);
    }
  }

  /** Equality and the order agree: the order answers Equal exactly when equality holds. */
  method EqualityAgreesWithOrder(a: PString, sa: ScanState, b: PString, sb: ScanState, block: nat) returns (same: bool, o: Ordering)
    requires block > 0 && a.Valid() && b.Valid() && Holds(sa, a.Bytes()) && Holds(sb, b.Bytes())
    ensures same <==> o == Equal
  {
    hide Encode, EncodeAll, Holds, CmpSeq, PString.Key;
    var learned;
    same, learned := EqPerl(a, sa, b, sb, block);
    o := CmpPerl(a, b);
    CmpEqualIff(a.Key(), b.Key());
  }
}
