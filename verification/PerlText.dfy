/**
  * Whole strings of perl's extended UTF-8: decoding as the inverse of encoding, concatenation, self-synchronization,
  * and the order law.
  */
module PerlText {
  import opened Wrappers
  import opened LexOrder
  import opened PerlUtf8

  /** The plain decode: one character after another from the front, or nothing when any is rejected. */
  function Decode(bytes: seq<byte>): Option<seq<CodePoint>> {
    if bytes == [] then Some([])
    else
      match DecodeAt(bytes, 0)
      case Rejected => None
      case Char(len, c) =>
        match Decode(bytes[len..])
        case None => None
        case Some(rest) => Some([c] + rest)
  }

  predicate Decodable(bytes: seq<byte>) {
    Decode(bytes).Some?
  }

  /** The code points of decodable text. */
  function Chars(bytes: seq<byte>): seq<CodePoint>
    requires Decodable(bytes)
  {
    Decode(bytes).value
  }

  lemma {:induction false} DecodeIff(bytes: seq<byte>, cs: seq<CodePoint>)
    ensures Decode(bytes) == Some(cs) <==> bytes == EncodeAll(cs)
    decreases |bytes| + |cs|
  {
    if bytes == [] {
      assert cs != [] ==> EncodeAll(cs) == Encode(cs[0]) + EncodeAll(cs[1..]);
    } else if cs != [] {
      DecodeAtIff(bytes, 0, SeqLen(cs[0]), cs[0]);
      var len := SeqLen(cs[0]);
      if DecodeAt(bytes, 0) == Char(len, cs[0]) {
        DecodeIff(bytes[len..], cs[1..]);
        assert bytes == bytes[..len] + bytes[len..];
        assert cs == [cs[0]] + cs[1..];
        assert EncodeAll(cs)[len..] == EncodeAll(cs[1..]);
      } else {
        assert EncodeAll(cs)[..len] == Encode(cs[0]);
        if Decode(bytes) == Some(cs) {
          var step := DecodeAt(bytes, 0);
          DecodeAtIff(bytes, 0, step.len, step.value);
          assert false;
        }
      }
    }
  }

  lemma {:induction false} EncodeAllConcat(a: seq<CodePoint>, b: seq<CodePoint>)
    ensures EncodeAll(a + b) == EncodeAll(a) + EncodeAll(b)
  {
    if a == [] {
      assert a + b == b;
    } else {
      assert (a + b)[1..] == a[1..] + b;
      EncodeAllConcat(a[1..], b);
    }
  }

  /** Decoding is per position: nothing before `at` matters. */
  lemma DecodeShift(bytes: seq<byte>, at: nat)
    requires at < |bytes|
    ensures DecodeAt(bytes, at) == DecodeAt(bytes[at..], 0)
  {
    var tail := bytes[at..];
    forall len, c | 1 <= len
      ensures DecodeAt(bytes, at) == Char(len, c) <==> DecodeAt(tail, 0) == Char(len, c)
    {
      DecodeAtIff(bytes, at, len, c);
      DecodeAtIff(tail, 0, len, c);
      if at + len <= |bytes| {
        assert tail[..len] == bytes[at..at + len];
      }
    }
    var a, b := DecodeAt(bytes, at), DecodeAt(tail, 0);
    assert a.Char? ==> b == Char(a.len, a.value);
    assert b.Char? ==> a == Char(b.len, b.value);
  }

  /** After a decodable prefix, what follows decides by itself. */
  lemma {:induction false} DecodeConcat(x: seq<byte>, y: seq<byte>)
    requires Decodable(x)
    ensures Decodable(x + y) <==> Decodable(y)
    ensures Decodable(y) ==> Chars(x + y) == Chars(x) + Chars(y)
    decreases |x|
  {
    if x == [] {
      assert x + y == y;
      if Decodable(y) {
        assert [] + Chars(y) == Chars(y);
      }
    } else {
      var len, c := DecodeAt(x, 0).len, DecodeAt(x, 0).value;
      DecodeAtIff(x, 0, len, c);
      DecodeAtIff(x + y, 0, len, c);
      assert (x + y)[..len] == x[..len];
      assert (x + y)[len..] == x[len..] + y;
      DecodeConcat(x[len..], y);
      if Decodable(y) {
        assert [c] + (Chars(x[len..]) + Chars(y)) == ([c] + Chars(x[len..])) + Chars(y);
      }
    }
  }

  lemma DecodeSingle(c: CodePoint)
    ensures Decode(Encode(c)) == Some([c])
  {
    DecodeIff(Encode(c), [c]);
    assert [c][1..] == [];
    assert EncodeAll([c]) == Encode(c) + [];
  }

  /** ASCII bytes are their own code points. */
  lemma {:induction false} DecodeAscii(bytes: seq<byte>)
    requires AllAscii(bytes)
    ensures Decode(bytes) == Some(bytes)
  {
    if bytes != [] {
      assert DecodeAt(bytes, 0) == Char(1, bytes[0]);
      DecodeAscii(bytes[1..]);
      assert bytes == [bytes[0]] + bytes[1..];
    }
  }

  /** A cut before a byte that is not a continuation byte never splits a character. */
  lemma CleanCut(bytes: seq<byte>, k: nat)
    requires Decodable(bytes) && k <= |bytes|
    requires k < |bytes| ==> !IsContinuation(bytes[k])
    ensures Decodable(bytes[..k]) && Decodable(bytes[k..])
    ensures Chars(bytes) == Chars(bytes[..k]) + Chars(bytes[k..])
  {
    CleanPrefix(bytes, k);
    DecodeConcat(bytes[..k], bytes[k..]);
    assert bytes == bytes[..k] + bytes[k..];
  }

  lemma {:induction false} CleanPrefix(bytes: seq<byte>, k: nat)
    requires Decodable(bytes) && k <= |bytes|
    requires k < |bytes| ==> !IsContinuation(bytes[k])
    ensures Decodable(bytes[..k])
    decreases |bytes|
  {
    if k > 0 {
      var len, c := DecodeAt(bytes, 0).len, DecodeAt(bytes, 0).value;
      DecodeAtIff(bytes, 0, len, c);
      assert forall i :: 1 <= i < len ==> IsContinuation(bytes[0..len][i]) && bytes[0..len][i] == bytes[i];
      var rest := bytes[len..];
      CleanPrefix(rest, k - len);
      assert bytes[..k][0..len] == bytes[0..len];
      assert bytes[..k][len..] == bytes[len..k];
      assert rest[..k - len] == bytes[len..k];
      DecodeAtIff(bytes[..k], 0, len, c);
    }
  }

  /** A cut before a continuation byte leaves nothing decodable on either side of it. */
  lemma DirtyCut(bytes: seq<byte>, i: nat, k: nat, j: nat)
    requires Decodable(bytes) && i <= k <= j <= |bytes| && k < |bytes|
    requires IsContinuation(bytes[k])
    ensures i < k ==> !Decodable(bytes[i..k])
    ensures k < j ==> !Decodable(bytes[k..j])
  {
    if k < j {
      assert bytes[k..j][0] == bytes[k];
    }
    if i < k && Decodable(bytes[i..k]) {
      assert !IsContinuation(bytes[i]) by {
        assert bytes[i..k][0] == bytes[i];
      }
      CleanCut(bytes, i);
      var rest := bytes[i..];
      assert rest == bytes[i..k] + bytes[k..];
      DecodeConcat(bytes[i..k], bytes[k..]);
    }
  }

  // ── Order ───────────────────────────────────────────────────────

  lemma {:induction false} TopMonotone(c: nat, d: nat, n: nat)
    requires c <= d
    ensures Top(c, n) <= Top(d, n)
  {
    if n > 0 {
      TopMonotone(c / 64, d / 64, n - 1);
    }
  }

  lemma {:induction false} TailOrder(c: nat, d: nat, n: nat) returns (k: nat)
    requires c < d && Top(c, n) == Top(d, n)
    ensures k < n && Tail(c, n)[..k] == Tail(d, n)[..k] && Tail(c, n)[k] < Tail(d, n)[k]
  {
    if c / 64 == d / 64 {
      k := n - 1;
      assert Tail(c, n)[..k] == Tail(c / 64, n - 1);
    } else {
      k := TailOrder(c / 64, d / 64, n - 1);
      assert Tail(c, n)[..k] == Tail(c / 64, n - 1)[..k] == Tail(d / 64, n - 1)[..k] == Tail(d, n)[..k];
    }
  }

  /** The encodings of two code points differ within both, in the direction of the code points. */
  lemma EncodeOrder(c: CodePoint, d: CodePoint) returns (k: nat)
    requires c < d
    ensures k < |Encode(c)| && k < |Encode(d)|
    ensures Encode(c)[..k] == Encode(d)[..k] && Encode(c)[k] < Encode(d)[k]
  {
    var m, n := SeqLen(c) - 1, SeqLen(d) - 1;
    LeadOfEncode(c);
    LeadOfEncode(d);
    LeadBits(Encode(c)[0]);
    LeadBits(Encode(d)[0]);
    k := 0;
    if m == n {
      TopMonotone(c, d, n);
      if Top(c, n) == Top(d, n) {
        var j := TailOrder(c, d, n);
        k := j + 1;
        assert Encode(c)[..k] == [Encode(c)[0]] + Tail(c, n)[..j];
        assert Encode(d)[..k] == [Encode(d)[0]] + Tail(d, n)[..j];
      }
    } else {
      assert LeadBase(m + 1) + LeadRoom(m + 1) <= LeadBase(n + 1);
    }
  }

  /** Byte order on the encodings is code-point order, the 7- and 13-byte forms included. */
  lemma {:induction false} EncodeAllOrder(cs: seq<CodePoint>, ds: seq<CodePoint>)
    ensures CmpSeq(EncodeAll(cs), EncodeAll(ds)) == CmpSeq(cs, ds)
    decreases |cs|
  {
    if cs != [] && ds != [] {
      var x, y := EncodeAll(cs[1..]), EncodeAll(ds[1..]);
      if cs[0] == ds[0] {
        EncodeAllOrder(cs[1..], ds[1..]);
        CmpSharedPrefix(Encode(cs[0]), x, y);
      } else {
        var lo, hi := if cs[0] < ds[0] then cs[0] else ds[0], if cs[0] < ds[0] then ds[0] else cs[0];
        var k := EncodeOrder(lo, hi);
        assert EncodeAll(cs)[..k] == Encode(cs[0])[..k] && EncodeAll(ds)[..k] == Encode(ds[0])[..k];
        CmpAtDifference(EncodeAll(cs), EncodeAll(ds), k);
      }
    }
  }
}
