/** Lexicographic order on sequences of numbers, as `Ord` for slices defines it. */
module LexOrder {
  import opened Wrappers

  datatype Ordering = Less | Equal | Greater {
    function Reverse(): Ordering {
      match this
      case Less => Greater
      case Equal => Equal
      case Greater => Less
    }

    /** The first decisive answer of the two. */
    function Then(next: Ordering): Ordering {
      if this == Equal then next else this
    }
  }

  function CmpInt(a: int, b: int): Ordering {
    if a < b then Less else if a == b then Equal else Greater
  }

  function CmpSeq(a: seq<int>, b: seq<int>): Ordering {
    if a == [] then (if b == [] then Equal else Less)
    else if b == [] then Greater
    else if a[0] != b[0] then CmpInt(a[0], b[0])
    else CmpSeq(a[1..], b[1..])
  }

  lemma {:induction false} CmpEqualIff(a: seq<int>, b: seq<int>)
    ensures CmpSeq(a, b) == Equal <==> a == b
  {
    if a != [] && b != [] && a[0] == b[0] {
      CmpEqualIff(a[1..], b[1..]);
      assert a == [a[0]] + a[1..] && b == [b[0]] + b[1..];
    }
  }

  lemma {:induction false} CmpReverse(a: seq<int>, b: seq<int>)
    ensures CmpSeq(b, a) == CmpSeq(a, b).Reverse()
  {
    if a != [] && b != [] && a[0] == b[0] {
      CmpReverse(a[1..], b[1..]);
    }
  }

  lemma {:induction false} CmpTransitive(a: seq<int>, b: seq<int>, c: seq<int>)
    requires CmpSeq(a, b) != Greater && CmpSeq(b, c) != Greater
    ensures CmpSeq(a, c) != Greater
    ensures CmpSeq(a, c) == Equal ==> CmpSeq(a, b) == Equal && CmpSeq(b, c) == Equal
  {
    if a != [] && b != [] && c != [] && a[0] == b[0] == c[0] {
      CmpTransitive(a[1..], b[1..], c[1..]);
    }
  }

  lemma {:induction false} CmpSharedPrefix(p: seq<int>, a: seq<int>, b: seq<int>)
    ensures CmpSeq(p + a, p + b) == CmpSeq(a, b)
  {
    if p == [] {
      assert p + a == a && p + b == b;
    } else {
      assert (p + a)[1..] == p[1..] + a && (p + b)[1..] == p[1..] + b;
      CmpSharedPrefix(p[1..], a, b);
    }
  }

  /** The first position where the two differ decides, whatever follows. */
  lemma {:induction false} CmpAtDifference(a: seq<int>, b: seq<int>, k: nat)
    requires k < |a| && k < |b| && a[..k] == b[..k] && a[k] != b[k]
    ensures CmpSeq(a, b) == CmpInt(a[k], b[k])
  {
    assert a == a[..k] + a[k..] && b == b[..k] + b[k..];
    CmpSharedPrefix(a[..k], a[k..], b[k..]);
  }
}
