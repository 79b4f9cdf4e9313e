/**
  * The Latin-1 upgrade and its inverse: in place on one buffer, by copying, and as a stream of chunks.
  */
module Latin1 {
  import opened Wrappers
  import opened PerlUtf8
  import opened PerlText
  import opened UpgradeText
  import opened Scan
  import opened Compare
  import opened Equality
  import opened Digest
  import W = Words

  /** Where octet `k`'s encoding begins in the upgrade. */
  function Pos(s: seq<byte>, k: nat): nat
    requires k <= |s|
  {
    k + VariantCount(s[..k])
  }

  lemma UpgradeAt(s: seq<byte>, k: nat)
    requires k < |s|
    ensures Pos(s, k + 1) == Pos(s, k) + |Virtual(s[k])| <= |Upgrade(s)|
    ensures forall j :: 0 <= j < |Virtual(s[k])| ==> Upgrade(s)[Pos(s, k) + j] == Virtual(s[k])[j]
  {
    hide EncodeAll, Upgrade;
    UpgradeMore(s, k);
    UpgradeLen(s[..k]);
    UpgradeLen(s[..k + 1]);
    UpgradeConcat(s[..k], s[k..]);
    assert s[..k] + s[k..] == s;
  }

  lemma PosBound(s: seq<byte>, k: nat)
    requires k <= |s|
    ensures k <= Pos(s, k) <= |Upgrade(s)|
  {
    hide EncodeAll, Upgrade;
    if k < |s| {
      UpgradeAt(s, k);
    } else {
      PosEnds(s);
    }
  }

  lemma PosEnds(s: seq<byte>)
    ensures Pos(s, 0) == 0 && Pos(s, |s|) == |Upgrade(s)|
  {
    hide EncodeAll, Upgrade;
    UpgradeLen(s);
    assert s[..|s|] == s;
  }

  /** What the two read arms recover from an upgrade at an octet's place. */
  lemma ReadBack(text: seq<byte>, k: nat)
    requires k < |text|
    ensures Pos(text, k) < |Upgrade(text)|
    ensures var up, p := Upgrade(text), Pos(text, k);
            && (up[p] < 0x80 ==> text[k] == up[p] && Pos(text, k + 1) == p + 1)
            && (up[p] >= 0x80 ==> p + 1 < |up| && text[k] == up[p] % 4 * 64 + up[p + 1] % 64 && Pos(text, k + 1) == p + 2)
  {
    hide EncodeAll, Upgrade, VariantCount;
    UpgradeAt(text, k);
    var up, p := Upgrade(text), Pos(text, k);
    assert up[p + 0] == Virtual(text[k])[0];
    if text[k] >= 0x80 {
      assert up[p + 1] == Virtual(text[k])[1];
    }
  }

  // ── In place ────────────────────────────────────────────────────

  lemma SameEnds(a: seq<byte>, b: seq<byte>, first: nat, last: nat)
    requires |a| == |b| && first <= last <= |a|
    requires forall k :: 0 <= k < first || last <= k < |a| ==> a[k] == b[k]
    ensures a[..first] == b[..first] && a[last..] == b[last..]
  {}

  /** One octet's encoding written so that it ends at `end`. */
  method PutBefore(base: array<byte>, end: nat, octet: byte) returns (dst: nat)
    requires |Virtual(octet)| <= end <= base.Length
    modifies base
    ensures dst == end - |Virtual(octet)|
    ensures forall j :: 0 <= j < |Virtual(octet)| ==> base[dst + j] == Virtual(octet)[j]
    ensures forall k :: 0 <= k < dst || end <= k < base.Length ==> base[k] == old(base[k])
  {
    if octet < 0x80 {
      dst := end - 1;
      base[dst] := octet;
    } else {
      dst := end - 2;
      base[dst] := 0xC0 + octet / 64;
      base[dst + 1] := 0x80 + octet % 64;
    }
  }

  /**
    * Widen `base[first..oldLen]` in place, last byte first.  The write cursor leads the read cursor by the expansions
    * still owed, so no byte is overwritten before it is read.
    */
  method ExpandInPlace(base: array<byte>, first: nat, oldLen: nat, newLen: nat)
    requires first <= oldLen <= newLen <= base.Length
    requires newLen == oldLen + VariantCount(base[first..oldLen])
    modifies base
    ensures base[first..newLen] == Upgrade(old(base[first..oldLen]))
    ensures base[..first] == old(base[..first]) && base[newLen..] == old(base[newLen..])
  {
    hide EncodeAll, Upgrade, VariantCount, Virtual, Pos;
    ghost var text := base[first..oldLen];
    ghost var up := Upgrade(text);
    var src, dst := oldLen, newLen;
    UpgradeLen(text);
    PosEnds(text);
    while src > first
      invariant first <= src <= oldLen && src <= dst <= newLen
      invariant dst == first + Pos(text, src - first)
      invariant forall k :: 0 <= k < src || newLen <= k < base.Length ==> base[k] == old(base[k])
      invariant forall k :: dst <= k < newLen ==> base[k] == up[k - first]
    {
      src := src - 1;
      UpgradeAt(text, src - first);
      PosBound(text, src - first);
      assert base[src] == text[src - first];
      ghost var end, was := dst, base[..];
      dst := PutBefore(base, dst, base[src]);
      forall k | dst <= k < newLen
        ensures base[k] == up[k - first]
      {
        if k < end {
          assert up[dst - first + (k - dst)] == Virtual(text[src - first])[k - dst] == base[dst + (k - dst)];
        } else {
          assert base[k] == was[k];
        }
      }
      assert forall k :: 0 <= k < src || newLen <= k < base.Length ==> base[k] == was[k];
    }
    assert dst == first && |up| == newLen - first;
    assert forall q :: 0 <= q < |up| ==> base[first..newLen][q] == base[first + q] == up[q];
    SameEnds(base[..], old(base[..]), first, newLen);
    assert base[..][newLen..] == base[newLen..] && old(base[..])[newLen..] == old(base[newLen..]);
    assert base[..][..first] == base[..first] && old(base[..])[..first] == old(base[..first]);
  }

  /** Contract `base[first..oldLen]` in place: the write cursor trails by the sequences already collapsed. */
  method ContractInPlace(base: array<byte>, first: nat, oldLen: nat, newLen: nat, ghost text: seq<byte>)
    requires first <= oldLen <= base.Length && newLen == first + |text|
    requires base[first..oldLen] == Upgrade(text)
    modifies base
    ensures newLen <= oldLen && base[first..newLen] == text
    ensures base[..first] == old(base[..first]) && base[oldLen..] == old(base[oldLen..])
  {
    hide EncodeAll, Upgrade, Pos, VariantCount, Virtual;
    ghost var up := Upgrade(text);
    UpgradeLen(text);
    PosEnds(text);
    assert forall q :: 0 <= q < |up| ==> base[first + q] == base[first..oldLen][q] == up[q];
    var src, dst := first, first;
    while src < oldLen
      invariant first <= dst <= src <= oldLen && dst - first <= |text|
      invariant src == first + Pos(text, dst - first)
      invariant forall k :: first <= k < dst ==> base[k] == text[k - first]
      invariant forall q :: src - first <= q < |up| ==> base[first + q] == up[q]
      invariant forall k :: 0 <= k < first || oldLen <= k < base.Length ==> base[k] == old(base[k])
    {
      ReadBack(text, dst - first);
      PosBound(text, dst - first + 1);
      var byte := base[src];
      assert byte == base[first + (src - first)];
      if byte < 0x80 {
        base[dst] := byte;
        src := src + 1;
      } else {
        assert base[src + 1] == base[first + (src - first + 1)];
        base[dst] := byte % 4 * 64 + base[src + 1] % 64;
        src := src + 2;
      }
      dst := dst + 1;
    }
    if dst - first < |text| {
      ReadBack(text, dst - first);
    }
    SameEnds(base[..], old(base[..]), first, oldLen);
    assert base[..][oldLen..] == base[oldLen..] && old(base[..])[oldLen..] == old(base[oldLen..]);
    assert base[..][..first] == base[..first] && old(base[..])[..first] == old(base[..first]);
  }

  // ── Counted in words ────────────────────────────────────────────

  function Octet(b: byte): W.octet {
    b as bv8
  }

  /** The bytes as the machine's octets, which is how the word-wise scans see them. */
  function Octets(s: seq<byte>): (r: seq<W.octet>)
    ensures |r| == |s| && forall k :: 0 <= k < |r| ==> r[k] == Octet(s[k])
  {
    seq(|s|, k requires 0 <= k < |s| => Octet(s[k]))
  }

  lemma HighOctet(b: byte)
    ensures Octet(b) >= 0x80 <==> b >= 0x80
  {}

  lemma OneVariant(b: byte)
    ensures W.Variants([Octet(b)]) == if b >= 0x80 then 1 else 0
  {
    HighOctet(b);
    assert W.Variants([Octet(b)][1..]) == 0;
  }

  /** The count the word scan is exact about is the count widening needs. */
  lemma {:induction false} VariantsAreCounted(s: seq<byte>)
    ensures W.Variants(Octets(s)) == VariantCount(s)
  {
    hide Octet;
    if s != [] {
      var n := |s| - 1;
      VariantsAreCounted(s[..n]);
      assert Octets(s) == Octets(s[..n]) + [Octet(s[n])];
      W.VariantsConcat(Octets(s[..n]), [Octet(s[n])]);
      OneVariant(s[n]);
    }
  }

  lemma {:induction false} VariantsSplit(a: seq<byte>, b: seq<byte>)
    ensures VariantCount(a + b) == VariantCount(a) + VariantCount(b)
  {
    if b == [] {
      assert a + b == a;
    } else {
      VariantsSplit(a, b[..|b| - 1]);
      assert (a + b)[..|a + b| - 1] == a + b[..|b| - 1];
    }
  }

  lemma {:induction false} NoneVariant(s: seq<byte>)
    requires forall k :: 0 <= k < |s| ==> s[k] < 0x80
    ensures VariantCount(s) == 0 && Upgrade(s) == s
  {
    hide EncodeAll, Upgrade;
    if s == [] {
      UpgradeEmpty();
    } else {
      var n := |s| - 1;
      NoneVariant(s[..n]);
      UpgradeMore(s, n);
      assert s[..n + 1] == s == s[..n] + [s[n]];
    }
  }

  lemma LowOctets(s: seq<byte>, n: nat)
    requires n <= |s| && forall k :: 0 <= k < n ==> Octets(s)[k] < 0x80
    ensures forall k :: 0 <= k < n ==> s[k] < 0x80
  {
    hide Octet;
    forall k | 0 <= k < n
      ensures s[k] < 0x80
    {
      HighOctet(s[k]);
      assert Octets(s)[k] < 0x80;
    }
  }

  /** Nothing before the first high octet widens. */
  lemma FirstHigh(s: seq<byte>, first: nat)
    requires first < |s| && s[first] >= 0x80 && forall k :: 0 <= k < first ==> s[k] < 0x80
    ensures VariantCount(s) == VariantCount(s[first..]) > 0 && Upgrade(s) == s[..first] + Upgrade(s[first..])
  {
    hide EncodeAll, Upgrade;
    NoneVariant(s[..first]);
    UpgradeConcat(s[..first], s[first..]);
    VariantsSplit(s[..first], s[first..]);
    assert s == s[..first] + s[first..];
    HeadVariant(s[first..]);
  }

  lemma HeadVariant(s: seq<byte>)
    requires s != [] && s[0] >= 0x80
    ensures VariantCount(s) > 0
  {
    VariantsSplit([s[0]], s[1..]);
    assert s == [s[0]] + s[1..] && [s[0]][..0] == [];
  }

  /**
    * A unique buffer upgraded where it stands, if it has a high octet and the room: the first one found and the rest
    * counted word by word.
    */
  method UpgradeInPlace(base: array<byte>, oldLen: nat) returns (r: Option<nat>)
    requires oldLen <= base.Length && VariantCount(base[..oldLen]) < W.U32
    modifies base
    ensures r.Some? <==> old(VariantCount(base[..oldLen]) > 0 && |Upgrade(base[..oldLen])| <= base.Length)
    ensures r.Some? ==> r.value <= base.Length && base[..r.value] == Upgrade(old(base[..oldLen]))
    ensures r.Some? ==> base[r.value..] == old(base[r.value..])
    ensures r.None? ==> base[..] == old(base[..])
  {
    hide EncodeAll, Upgrade, VariantCount, Octet;
    ghost var text := base[..oldLen];
    UpgradeLen(text);
    var first := W.FirstVariant(Octets(base[..oldLen]));
    LowOctets(text, if first.None? then oldLen else first.value);
    if first.None? {
      NoneVariant(text);
      return None;
    }
    HighOctet(text[first.value]);
    FirstHigh(text, first.value);
    assert text[first.value..] == base[first.value..oldLen];
    var expansion := WordCount(base[first.value..oldLen]);
    var newLen := oldLen + expansion;
    if newLen > base.Length {
      return None;
    }
    ExpandInPlace(base, first.value, oldLen, newLen);
    assert base[..newLen] == base[..first.value] + base[first.value..newLen];
    assert text[..first.value] == old(base[..first.value]);
    r := Some(newLen);
  }

  lemma WordsWithin(octets: seq<W.octet>)
    ensures W.Variants(octets[..|octets| / 8 * 8]) <= W.Variants(octets)
  {
    hide W.Variants;
    var cut := |octets| / 8 * 8;
    W.VariantsConcat(octets[..cut], octets[cut..]);
    assert octets[..cut] + octets[cut..] == octets;
  }

  method WordCount(s: seq<byte>) returns (n: nat)
    requires VariantCount(s) < W.U32
    ensures n == VariantCount(s)
  {
    hide Octet, VariantCount, W.Variants;
    var octets := Octets(s);
    ghost var words;
    n, words := W.VariantCount(octets);
    VariantsAreCounted(s);
    WordsWithin(octets);
  }

  // ── What contracts ──────────────────────────────────────────────

  /** Count the two-byte sequences, or refuse: defined exactly on contractible text. */
  method Contractions(bytes: seq<byte>) returns (r: Option<nat>, ghost text: seq<byte>)
    ensures r.Some? <==> Contractible(bytes)
    ensures r.Some? ==> bytes == Upgrade(text) && |bytes| == |text| + r.value
  {
    hide Decode, EncodeAll, Upgrade, Contractible;
    var count, i := 0, 0;
    text := [];
    UpgradeEmpty();
    assert bytes[..0] == [];
    while i < |bytes|
      invariant i <= |bytes| && bytes[..i] == Upgrade(text)
      invariant i == |text| + count
    {
      var b := bytes[i];
      ContractStep(bytes, i, text);
      if b < 0x80 {
        text := text + [b];
        i := i + 1;
      } else if i + 1 < |bytes| && IsPair(b, bytes[i + 1]) {
        text := text + [FromPair(b, bytes[i + 1])];
        count := count + 1;
        i := i + 2;
      } else {
        return None, text;
      }
    }
    assert bytes[..i] == bytes;
    ContractibleIff(bytes, text);
    return Some(count), text;
  }

  /** A fresh contraction of the bytes, or nothing when the content refuses. */
  method Downgraded(bytes: seq<byte>) returns (r: Option<seq<byte>>)
    ensures r.Some? <==> Contractible(bytes)
    ensures r.Some? ==> Upgrade(r.value) == bytes
  {
    hide Decode, EncodeAll, Upgrade, Contractible, Virtual;
    ghost var text;
    var count;
    count, text := Contractions(bytes);
    if count.None? {
      return None;
    }
    var out: seq<byte> := [];
    var src := 0;
    PosEnds(text);
    UpgradeLen(text);
    while src < |bytes|
      invariant src <= |bytes| && |out| <= |text| && out == text[..|out|]
      invariant src == Pos(text, |out|)
    {
      UpgradeAt(text, |out|);
      ReadBack(text, |out|);
      var b := bytes[src];
      if b < 0x80 {
        out := out + [b];
        src := src + 1;
      } else {
        out := out + [b % 4 * 64 + bytes[src + 1] % 64];
        src := src + 2;
      }
    }
    if |out| < |text| {
      UpgradeAt(text, |out|);
      ReadBack(text, |out|);
    }
    assert out == text;
    return Some(out);
  }

  /** Widening in place and contracting again leaves every byte of the text where it was. */
  method ExpandThenContract(base: array<byte>, first: nat, oldLen: nat, newLen: nat)
    requires first <= oldLen <= newLen <= base.Length
    requires newLen == oldLen + VariantCount(base[first..oldLen])
    modifies base
    ensures base[..oldLen] == old(base[..oldLen])
  {
    hide EncodeAll, Upgrade, VariantCount;
    ghost var text := base[first..oldLen];
    ExpandInPlace(base, first, oldLen, newLen);
    ContractInPlace(base, first, newLen, oldLen, text);
    assert base[..oldLen] == base[..first] + base[first..oldLen];
    assert old(base[..oldLen]) == old(base[..first]) + text;
  }

  /** Contracting in place and widening again restores contractible text. */
  method ContractThenExpand(base: array<byte>, first: nat, oldLen: nat) returns (ok: bool)
    requires first <= oldLen <= base.Length
    modifies base
    ensures ok <==> old(Contractible(base[first..oldLen]))
    ensures base[..oldLen] == old(base[..oldLen])
  {
    hide EncodeAll, Upgrade, VariantCount, Contractible;
    ghost var text;
    var count;
    count, text := Contractions(base[first..oldLen]);
    if count.None? {
      return false;
    }
    UpgradeLen(text);
    var newLen := oldLen - count.value;
    ghost var content := base[first..oldLen];
    ContractInPlace(base, first, oldLen, newLen, text);
    ExpandInPlace(base, first, newLen, oldLen);
    assert base[..oldLen] == base[..first] + base[first..oldLen];
    assert old(base[..oldLen]) == old(base[..first]) + content;
    return true;
  }

  // ── Streaming ───────────────────────────────────────────────────

  const STAGED := 64

  /** A chunk a formatter may take as text: whole characters Rust can hold. */
  ghost predicate ChunkIsText(chunk: seq<byte>) {
    Holds(MaybeUtf8Latin1, chunk)
  }

  lemma UpgradeIsText(text: seq<byte>)
    ensures ChunkIsText(Upgrade(text))
  {
    hide Decode, EncodeAll, ClassOf;
    UpgradeClass(text);
    HoldsByClass(MaybeUtf8Latin1, Upgrade(text));
  }

  lemma {:induction false} AsciiIsItsUpgrade(run: seq<byte>)
    requires AllAscii(run)
    ensures Upgrade(run) == run
  {
    hide Encode;
    if run != [] {
      UpgradeByte(run[0]);
      AsciiIsItsUpgrade(run[1..]);
      assert run == [run[0]] + run[1..];
    }
  }

  /** The sink has taken text chunk by chunk, and together they are the upgrade of the first `m` octets. */
  ghost predicate Delivered(chunks: seq<seq<byte>>, accepts: nat -> bool, bytes: seq<byte>, m: nat) {
    && m <= |bytes| && Flatten(chunks) == Upgrade(bytes[..m])
    && forall k :: 0 <= k < |chunks| ==> ChunkIsText(chunks[k]) && accepts(k)
  }

  lemma DeliverMore(chunks: seq<seq<byte>>, accepts: nat -> bool, bytes: seq<byte>, m: nat, i: nat)
    requires Delivered(chunks, accepts, bytes, m) && m <= i <= |bytes| && accepts(|chunks|)
    ensures Delivered(chunks + [Upgrade(bytes[m..i])], accepts, bytes, i)
  {
    hide Upgrade, EncodeAll, Holds;
    var chunk := Upgrade(bytes[m..i]);
    UpgradeIsText(bytes[m..i]);
    FlattenAppend(chunks, chunk);
    UpgradeConcat(bytes[..m], bytes[m..i]);
    assert bytes[..i] == bytes[..m] + bytes[m..i];
  }

  /** The maximal ASCII run from `i`. */
  method AsciiRunEnd(bytes: seq<byte>, i: nat) returns (end: nat)
    requires i <= |bytes|
    ensures i <= end <= |bytes| && AllAscii(bytes[i..end])
    ensures end < |bytes| ==> bytes[end] >= 0x80
  {
    end := i;
    while end < |bytes| && bytes[end] < 0x80
      invariant i <= end <= |bytes| && AllAscii(bytes[i..end])
    {
      assert bytes[i..end + 1] == bytes[i..end] + [bytes[end]];
      end := end + 1;
    }
  }

  /**
    * Stream the upgrade: each ASCII run as it stands, the high octets as batches of whole pairs.  `accepts` is the sink's
    * answer to its k-th call; a refusal ends the walk, with a whole number of characters delivered.
    */
  method WidenLatin1(bytes: seq<byte>, accepts: nat -> bool) returns (ok: bool, chunks: seq<seq<byte>>)
    ensures forall k :: 0 <= k < |chunks| ==> ChunkIsText(chunks[k]) && accepts(k)
    ensures ok ==> Flatten(chunks) == Upgrade(bytes)
    ensures !ok ==> !accepts(|chunks|) && exists m :: 0 <= m <= |bytes| && Flatten(chunks) == Upgrade(bytes[..m])
  {
    hide Upgrade, EncodeAll, Holds, Flatten, Virtual;
    chunks := [];
    var i := 0;
    UpgradeEmpty();
    FlattenNone();
    assert bytes[..0] == [];
    while i < |bytes|
      invariant Delivered(chunks, accepts, bytes, i)
      decreases |bytes| - i
    {
      var run := AsciiRunEnd(bytes, i);
      if run > i {
        AsciiIsItsUpgrade(bytes[i..run]);
        if !accepts(|chunks|) {
          return false, chunks;
        }
        DeliverMore(chunks, accepts, bytes, i, run);
        chunks := chunks + [bytes[i..run]];
        i := run;
      }
      var high;
      ok, chunks, high := WidenHigh(bytes, i, accepts, chunks);
      if !ok {
        return;
      }
      assert high > i || i == |bytes| || run > i;
      i := high;
    }
    assert bytes[..i] == bytes;
    ok := true;
  }

  lemma FlattenNone()
    ensures Flatten<byte>([]) == []
  {}

  /** The high octets from `i`, staged in pairs and flushed in batches. */
  method WidenHigh(bytes: seq<byte>, from: nat, accepts: nat -> bool, before: seq<seq<byte>>)
    returns (ok: bool, chunks: seq<seq<byte>>, i: nat)
    requires from <= |bytes| && Delivered(before, accepts, bytes, from)
    ensures ok ==> from <= i && Delivered(chunks, accepts, bytes, i)
    ensures ok && from < |bytes| && bytes[from] >= 0x80 ==> from < i
    ensures !ok ==> !accepts(|chunks|) && exists m :: 0 <= m <= |bytes| && Delivered(chunks, accepts, bytes, m)
  {
    hide Upgrade, EncodeAll, Holds, Flatten, Delivered, Virtual;
    chunks, i := before, from;
    var staged: seq<byte> := [];
    ghost var m := from;
    UpgradeEmpty();
    assert bytes[m..i] == [];
    while i < |bytes| && bytes[i] >= 0x80
      invariant from <= m <= i <= |bytes|
      invariant staged == Upgrade(bytes[m..i]) && |staged| <= STAGED
      invariant Delivered(chunks, accepts, bytes, m)
      invariant |staged| % 2 == 0
    {
      if |staged| == STAGED {
        if !accepts(|chunks|) {
          return false, chunks, i;
        }
        DeliverMore(chunks, accepts, bytes, m, i);
        chunks, staged, m := chunks + [staged], [], i;
        assert bytes[m..i] == [];
      }
      UpgradeSingle(bytes[i]);
      UpgradeConcat(bytes[m..i], [bytes[i]]);
      assert bytes[m..i + 1] == bytes[m..i] + [bytes[i]];
      VirtualPair(bytes[i]);
      staged := staged + [0xC0 + bytes[i] / 64, 0x80 + bytes[i] % 64];
      i := i + 1;
    }
    if |staged| > 0 {
      if !accepts(|chunks|) {
        return false, chunks, i;
      }
      DeliverMore(chunks, accepts, bytes, m, i);
      chunks := chunks + [staged];
    } else {
      NothingStaged(bytes, m, i);
    }
    ok := true;
  }

  lemma VirtualPair(b: byte)
    requires b >= 0x80
    ensures Virtual(b) == [0xC0 + b / 64, 0x80 + b % 64]
  {}

  lemma NothingStaged(bytes: seq<byte>, m: nat, i: nat)
    requires m <= i <= |bytes| && Upgrade(bytes[m..i]) == []
    ensures m == i
  {
    UpgradeLen(bytes[m..i]);
  }

  /** A fresh upgraded buffer: the stream into a sink that cannot fail. */
  method Upgraded(bytes: seq<byte>) returns (out: seq<byte>)
    ensures out == Upgrade(bytes) && |out| == |bytes| + VariantCount(bytes)
  {
    hide Upgrade, EncodeAll, VariantCount;
    var ok, chunks := WidenLatin1(bytes, k => true);
    UpgradeLen(bytes);
    return Flatten(chunks);
  }
}
