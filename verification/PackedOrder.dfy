/** Comparing packed strings without decoding them, and against plain bytes. */
module PackedOrder {
  import opened Wrappers
  import opened LexOrder
  import opened Nibbles
  import opened PackedCodec

  function Zeros(n: nat): seq<int> {
    seq(n, i => 0)
  }

  /** The content nibbles of a packed string. */
  function Codes(p: Packed): (cs: seq<nibble>)
    requires p.Valid()
    ensures |cs| == p.Len()
  {
    seq(p.Len(), i requires 0 <= i < p.Len() => NibbleAt(p.nibbles, i))
  }

  /** Symbols are numbered in ASCII order, so comparing codes compares text. */
  lemma CodesCompareAsText(a: Alphabet, xs: seq<nibble>, ys: seq<nibble>, s: seq<byte>, t: seq<byte>)
    requires |xs| == |s| && |ys| == |t|
    requires forall i :: 0 <= i < |xs| ==> s[i] == Symbols(a)[xs[i]]
    requires forall i :: 0 <= i < |ys| ==> t[i] == Symbols(a)[ys[i]]
    ensures CmpSeq(xs, ys) == CmpSeq(s, t)
    decreases |xs|
  {
    hide Symbols;
    if xs != [] && ys != [] && xs[0] == ys[0] {
      CodesCompareAsText(a, xs[1..], ys[1..], s[1..], t[1..]);
    } else if xs != [] && ys != [] {
      assert Symbols(a)[xs[0]] != Symbols(a)[ys[0]];
    }
  }

  /** Where one text ends, the padding is no symbol above it: zeros and a shorter length lose. */
  lemma {:induction false} PaddingLoses(n: nat, y: seq<nibble>, p: int, q: int)
    requires |y| <= n && p < q
    ensures CmpSeq(Zeros(n) + [p], y + Zeros(n - |y|) + [q]) == Less
    decreases n
  {
    var a, b := Zeros(n) + [p], y + Zeros(n - |y|) + [q];
    if n > 0 && b[0] == 0 {
      assert a[1..] == Zeros(n - 1) + [p];
      var y' := if y == [] then [] else y[1..];
      assert b[1..] == y' + Zeros(n - 1 - |y'|) + [q];
      PaddingLoses(n - 1, y', p, q);
    }
  }

  /** Padding both texts to one width and appending their lengths compares them as texts. */
  lemma {:induction false} PaddedCompare(n: nat, x: seq<nibble>, y: seq<nibble>, p: int, q: int)
    requires |x| <= n && |y| <= n && p - q == |x| - |y|
    ensures CmpSeq(x + Zeros(n - |x|) + [p], y + Zeros(n - |y|) + [q]) == CmpSeq(x, y)
    decreases n
  {
    var a, b := x + Zeros(n - |x|) + [p], y + Zeros(n - |y|) + [q];
    if x == [] && y == [] {
      assert a == b;
      CmpEqualIff(a, b);
    } else if x == [] {
      assert a == Zeros(n) + [p];
      PaddingLoses(n, y, p, q);
    } else if y == [] {
      assert b == Zeros(n) + [q];
      PaddingLoses(n, x, q, p);
      CmpReverse(a, b);
    } else if x[0] == y[0] {
      assert a[1..] == x[1..] + Zeros(n - |x|) + [p];
      assert b[1..] == y[1..] + Zeros(n - |y|) + [q];
      PaddedCompare(n - 1, x[1..], y[1..], p, q);
    }
  }

  /** Two keys of one width, then a last element each. */
  lemma {:induction false} ThenLast(a: seq<int>, b: seq<int>, p: int, q: int)
    requires |a| == |b|
    ensures CmpSeq(a + [p], b + [q]) == CmpSeq(a, b).Then(CmpInt(p, q))
  {
    if a != [] {
      assert (a + [p])[1..] == a[1..] + [p] && (b + [q])[1..] == b[1..] + [q];
      if a[0] == b[0] {
        ThenLast(a[1..], b[1..], p, q);
      }
    }
  }

  /** Cutting the longer text to the other's length forgets only that it was longer. */
  lemma {:induction false} CutLonger(x: seq<int>, y: seq<int>)
    requires |y| < |x|
    ensures CmpSeq(x, y) == CmpSeq(x[..|y|], y).Then(Greater)
  {
    if y != [] && x[0] == y[0] {
      CutLonger(x[1..], y[1..]);
      assert x[..|y|][1..] == x[1..][..|y| - 1];
    }
  }

  lemma {:induction false} CutPastShorter(x: seq<int>, y: seq<int>, n: nat)
    requires |y| < n <= |x|
    ensures CmpSeq(x, y) == CmpSeq(x[..n], y)
  {
    if y != [] && x[0] == y[0] {
      CutPastShorter(x[1..], y[1..], n - 1);
      assert x[..n][1..] == x[1..][..n - 1];
    }
  }

  /** The comparison as written: plain bytes within one length family; across families the shared part, then length. */
  function CmpSameAlphabet(p: Packed, q: Packed): Ordering {
    if p.full == q.full then CmpSeq(p.nibbles, q.nibbles)
    else
      CmpSeq(p.nibbles[..PACKED_BYTES - 1], q.nibbles[..PACKED_BYTES - 1])
        .Then(CmpInt(NibbleAt(p.nibbles, MAX_PACKED_LEN - 2), NibbleAt(q.nibbles, MAX_PACKED_LEN - 2)))
        .Then(CmpInt(p.Len(), q.Len()))
  }

  lemma UnfoldShort(p: Packed)
    requires p.Valid() && !p.full
    ensures Unfold(p.nibbles) == Codes(p) + Zeros(LENGTH_NIBBLE - p.Len()) + [p.Len() - MIN_PACKED_LEN]
  {}

  lemma UnfoldFull(p: Packed)
    requires p.Valid() && p.full
    ensures Unfold(p.nibbles) == Codes(p)
  {}

  lemma SharedPart(p: Packed, q: Packed)
    ensures CmpSeq(p.nibbles[..PACKED_BYTES - 1], q.nibbles[..PACKED_BYTES - 1])
              .Then(CmpInt(NibbleAt(p.nibbles, MAX_PACKED_LEN - 2), NibbleAt(q.nibbles, MAX_PACKED_LEN - 2)))
         == CmpSeq(Unfold(p.nibbles)[..LENGTH_NIBBLE], Unfold(q.nibbles)[..LENGTH_NIBBLE])
  {
    var us, vs := Unfold(p.nibbles), Unfold(q.nibbles);
    BytesCompareAsNibbles(p.nibbles, q.nibbles, 0, PACKED_BYTES - 1);
    assert p.nibbles[0..14] == p.nibbles[..14] && q.nibbles[0..14] == q.nibbles[..14];
    assert us[0..28] == us[..28] && vs[0..28] == vs[..28];
    ThenLast(us[..28], vs[..28], us[28], vs[28]);
    assert us[..29] == us[..28] + [us[28]] && vs[..29] == vs[..28] + [vs[28]];
  }

  /** A full text against a shorter one: twenty-nine shared nibbles, then the lengths. */
  lemma FullAgainstShort(p: Packed, q: Packed)
    requires p.Valid() && q.Valid() && p.full && !q.full
    ensures CmpSeq(Unfold(p.nibbles)[..LENGTH_NIBBLE], Unfold(q.nibbles)[..LENGTH_NIBBLE]).Then(CmpInt(p.Len(), q.Len()))
         == CmpSeq(Codes(p), Codes(q))
  {
    var x, y := Codes(p), Codes(q);
    UnfoldFull(p);
    UnfoldShort(q);
    var n := LENGTH_NIBBLE - |y|;
    assert Unfold(q.nibbles)[..LENGTH_NIBBLE] == y + Zeros(n);
    ThenLast(x[..LENGTH_NIBBLE], y + Zeros(n), LENGTH_NIBBLE, |y|);
    PaddedCompare(LENGTH_NIBBLE, x[..LENGTH_NIBBLE], y, LENGTH_NIBBLE, |y|);
    assert x[..LENGTH_NIBBLE] + Zeros(0) == x[..LENGTH_NIBBLE];
    if |y| == LENGTH_NIBBLE {
      CutLonger(x, y);
    } else {
      CutPastShorter(x, y, LENGTH_NIBBLE);
    }
  }

  lemma SameFamily(p: Packed, q: Packed)
    requires p.Valid() && q.Valid() && p.full == q.full
    ensures CmpSeq(p.nibbles, q.nibbles) == CmpSeq(Codes(p), Codes(q))
  {
    hide NibbleAt;
    BytesCompareAsNibbles(p.nibbles, q.nibbles, 0, PACKED_BYTES);
    assert p.nibbles[0..15] == p.nibbles && q.nibbles[0..15] == q.nibbles;
    assert Unfold(p.nibbles)[0..30] == Unfold(p.nibbles) && Unfold(q.nibbles)[0..30] == Unfold(q.nibbles);
    if p.full {
      UnfoldFull(p);
      UnfoldFull(q);
    } else {
      UnfoldShort(p);
      UnfoldShort(q);
      PaddedCompare(LENGTH_NIBBLE, Codes(p), Codes(q), p.Len() - MIN_PACKED_LEN, q.Len() - MIN_PACKED_LEN);
    }
  }

  /** Packed comparison within an alphabet is byte-string order on the text, trailing spaces included. */
  lemma CmpSameAlphabetIsTextOrder(p: Packed, q: Packed)
    requires p.Valid() && q.Valid() && p.alphabet == q.alphabet
    ensures CmpSameAlphabet(p, q) == CmpSeq(p.Bytes(), q.Bytes())
  {
    hide Symbols, NibbleAt;
    CodesCompareAsText(p.alphabet, Codes(p), Codes(q), p.Bytes(), q.Bytes());
    if p.full == q.full {
      SameFamily(p, q);
    } else {
      SharedPart(p, q);
      if p.full {
        FullAgainstShort(p, q);
      } else {
        var us, vs := Unfold(p.nibbles)[..LENGTH_NIBBLE], Unfold(q.nibbles)[..LENGTH_NIBBLE];
        FullAgainstShort(q, p);
        CmpReverse(us, vs);
        CmpReverse(Codes(p), Codes(q));
        assert CmpInt(q.Len(), p.Len()) == CmpInt(p.Len(), q.Len()).Reverse();
      }
    }
  }

  /** Two canonical values are the same representation exactly when they hold the same text. */
  lemma EqualRepresentationIff(p: Packed, q: Packed)
    requires Canonical(p) && Canonical(q)
    ensures p == q <==> p.Bytes() == q.Bytes()
  {
    if p.Bytes() == q.Bytes() {
      PackedByContent(p, q);
    }
  }

  method EqBytes(p: Packed, other: seq<byte>) returns (same: bool)
    requires p.Valid()
    ensures same <==> p.Bytes() == other
  {
    hide Symbols, NibbleAt;
    if p.Len() != |other| {
      return false;
    }
    for i := 0 to |other|
      invariant p.Bytes()[..i] == other[..i]
    {
      if Symbols(p.alphabet)[NibbleAt(p.nibbles, i)] != other[i] {
        assert p.Bytes()[i] != other[i];
        return false;
      }
    }
    return true;
  }

  method CmpBytes(p: Packed, other: seq<byte>) returns (o: Ordering)
    requires p.Valid()
    ensures o == CmpSeq(p.Bytes(), other)
  {
    hide Symbols, NibbleAt, CmpSeq;
    ghost var text := p.Bytes();
    var len := p.Len();
    var i := 0;
    while i < len && i < |other|
      invariant i <= len && i <= |other|
      invariant text[..i] == other[..i]
    {
      var symbol := Symbols(p.alphabet)[NibbleAt(p.nibbles, i)];
      if symbol != other[i] {
        CmpAtDifference(text, other, i);
        return CmpInt(symbol, other[i]);
      }
      i := i + 1;
    }
    assert text == text[..i] + text[i..] && other == other[..i] + other[i..];
    CmpSharedPrefix(text[..i], text[i..], other[i..]);
    CmpOneEnded(text[i..], other[i..]);
    return CmpInt(len, |other|);
  }

  lemma CmpOneEnded(a: seq<int>, b: seq<int>)
    requires a == [] || b == []
    ensures CmpSeq(a, b) == CmpInt(|a|, |b|)
  {}
}
