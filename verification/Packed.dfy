/**
  * The packed strings: 16 to 30 characters of one sixteen-symbol alphabet, two to a byte.  A string shorter than thirty
  * keeps its length in the last nibble; the nibbles between are zero.
  */
module PackedCodec {
  import opened Wrappers
  import opened LexOrder
  import opened Nibbles

  const MIN_PACKED_LEN := 16
  const MAX_PACKED_LEN := 30
  const LENGTH_NIBBLE := 29

  datatype Alphabet = Numeric | DateTimePlus | DateTimeZulu

  const ALPHABETS: seq<Alphabet> := [Numeric, DateTimePlus, DateTimeZulu]

  /** The symbol lists in ASCII order, space first: " +-.0123456789Ee", " +-.0123456789:T", " -.0123456789:TZ". */
  function Symbols(a: Alphabet): (s: seq<byte>)
    ensures |s| == 16 && s[0] == 0x20
    ensures forall i, j :: 0 <= i < j < 16 ==> s[i] < s[j]
  {
    match a
    case Numeric => [0x20, 0x2B, 0x2D, 0x2E, 0x30, 0x31, 0x32, 0x33, 0x34, 0x35, 0x36, 0x37, 0x38, 0x39, 0x45, 0x65]
    case DateTimePlus => [0x20, 0x2B, 0x2D, 0x2E, 0x30, 0x31, 0x32, 0x33, 0x34, 0x35, 0x36, 0x37, 0x38, 0x39, 0x3A, 0x54]
    case DateTimeZulu => [0x20, 0x2D, 0x2E, 0x30, 0x31, 0x32, 0x33, 0x34, 0x35, 0x36, 0x37, 0x38, 0x39, 0x3A, 0x54, 0x5A]
  }

  /** The encode table's entry for a byte; the sentinel for an absent byte is `None`. */
  function EncodeEntry(a: Alphabet, b: byte): (e: Option<nibble>)
    ensures e.Some? ==> Symbols(a)[e.value] == b
    ensures e.None? ==> b !in Symbols(a)
  {
    IndexFrom(Symbols(a), b, 0)
  }

  function IndexFrom(s: seq<byte>, b: byte, i: nat): (e: Option<nibble>)
    requires |s| == 16 && i <= 16
    ensures e.Some? ==> i <= e.value && s[e.value] == b
    ensures e.None? ==> forall k :: i <= k < 16 ==> s[k] != b
    decreases 16 - i
  {
    if i == 16 then None else if s[i] == b then Some(i) else IndexFrom(s, b, i + 1)
  }

  predicate Encodable(a: Alphabet, bytes: seq<byte>) {
    forall i :: 0 <= i < |bytes| ==> EncodeEntry(a, bytes[i]).Some?
  }

  /** Space, minus, point and digits in all three; then plus and `E`/`e`, plus and `:`/`T`, or `:`/`T`/`Z`. */
  predicate HasSymbol(a: Alphabet, b: byte) {
    || b == 0x20 || b == 0x2D || b == 0x2E || 0x30 <= b <= 0x39
    || (b == 0x2B && a != DateTimeZulu)
    || ((b == 0x45 || b == 0x65) && a == Numeric)
    || ((b == 0x3A || b == 0x54) && a != Numeric)
    || (b == 0x5A && a == DateTimeZulu)
  }

  /** What an alphabet can hold, character by character. */
  lemma EncodableIff(a: Alphabet, bytes: seq<byte>)
    ensures Encodable(a, bytes) <==> forall i :: 0 <= i < |bytes| ==> HasSymbol(a, bytes[i])
  {
    hide EncodeEntry, Symbols, HasSymbol;
    forall b {
      HasEntryIff(a, b);
    }
  }

  lemma HasEntryIff(a: Alphabet, b: byte)
    ensures EncodeEntry(a, b).Some? <==> HasSymbol(a, b)
  {
    hide IndexFrom;
    assert HasSymbol(a, b) <==> b in Symbols(a);
  }

  datatype Packed = Packed(alphabet: Alphabet, full: bool, nibbles: Payload) {
    function Len(): nat {
      if full then MAX_PACKED_LEN else MIN_PACKED_LEN + NibbleAt(nibbles, LENGTH_NIBBLE)
    }

    /** A length below the capacity, and zero nibbles between the content and the length. */
    predicate Valid() {
      full || (Len() < MAX_PACKED_LEN && forall i :: Len() <= i < LENGTH_NIBBLE ==> NibbleAt(nibbles, i) == 0)
    }

    /** The content as text. */
    function Bytes(): (s: seq<byte>)
      requires Valid()
      ensures |s| == Len()
      ensures forall i :: 0 <= i < |s| ==> s[i] == Symbols(alphabet)[NibbleAt(nibbles, i)]
    {
      seq(Len(), i requires 0 <= i < Len() => Symbols(alphabet)[NibbleAt(nibbles, i)])
    }
  }

  /** A packed value is settled by its alphabet and its text. */
  lemma PackedByContent(p: Packed, q: Packed)
    requires p.Valid() && q.Valid() && p.alphabet == q.alphabet && p.Bytes() == q.Bytes()
    ensures p == q
  {
    assert p.Len() == |p.Bytes()| == |q.Bytes()| == q.Len();
    forall i | 0 <= i < NIBBLES
      ensures NibbleAt(p.nibbles, i) == NibbleAt(q.nibbles, i)
    {
      if i < p.Len() {
        assert p.Bytes()[i] == q.Bytes()[i];
      }
    }
    SameNibbles(p.nibbles, q.nibbles);
  }

  /** Encode into a named alphabet. */
  method PackIn(bytes: seq<byte>, alphabet: Alphabet) returns (r: Option<Packed>)
    requires MIN_PACKED_LEN <= |bytes| <= MAX_PACKED_LEN
    ensures r.Some? <==> Encodable(alphabet, bytes)
    ensures r.Some? ==> r.value.Valid() && r.value.alphabet == alphabet && r.value.Bytes() == bytes
  {
    hide Symbols, EncodeEntry;
    var nibbles := ZERO;
    for i := 0 to |bytes|
      invariant Encodable(alphabet, bytes[..i])
      invariant forall j :: 0 <= j < i ==> Symbols(alphabet)[NibbleAt(nibbles, j)] == bytes[j]
      invariant forall j :: i <= j < NIBBLES ==> NibbleAt(nibbles, j) == 0
    {
      var n := EncodeEntry(alphabet, bytes[i]);
      if n.None? {
        return None;
      }
      nibbles := SetNibble(nibbles, i, n.value);
      assert bytes[..i + 1] == bytes[..i] + [bytes[i]];
    }
    assert bytes[..|bytes|] == bytes;
    var full := |bytes| == MAX_PACKED_LEN;
    if !full {
      nibbles := SetNibble(nibbles, LENGTH_NIBBLE, |bytes| % 16);
    }
    return Some(Packed(alphabet, full, nibbles));
  }

  /** The first alphabet, in priority order, that holds every byte. */
  function Choose(bytes: seq<byte>): (a: Option<Alphabet>)
    ensures a.None? <==> !Encodable(Numeric, bytes) && !Encodable(DateTimePlus, bytes) && !Encodable(DateTimeZulu, bytes)
    ensures a.Some? ==> Encodable(a.value, bytes)
    ensures a.Some? && a.value != Numeric ==> !Encodable(Numeric, bytes)
    ensures a == Some(DateTimeZulu) ==> !Encodable(DateTimePlus, bytes)
  {
    hide EncodeEntry;
    if Encodable(Numeric, bytes) then Some(Numeric)
    else if Encodable(DateTimePlus, bytes) then Some(DateTimePlus)
    else if Encodable(DateTimeZulu, bytes) then Some(DateTimeZulu)
    else None
  }

  /** The representation a text takes: its canonical alphabet and its content. */
  ghost predicate Canonical(p: Packed) {
    p.Valid() && Choose(p.Bytes()) == Some(p.alphabet)
  }

  /** Exactly the outcome packing `bytes` whole has. */
  ghost predicate PacksTo(bytes: seq<byte>, r: Option<Packed>) {
    && (r.Some? <==> Choose(bytes).Some?)
    && (r.Some? ==> Canonical(r.value) && r.value.Bytes() == bytes)
  }

  lemma EncodablePrefix(a: Alphabet, bytes: seq<byte>, i: nat)
    requires i < |bytes|
    ensures Encodable(a, bytes[..i + 1]) <==> Encodable(a, bytes[..i]) && EncodeEntry(a, bytes[i]).Some?
    ensures !Encodable(a, bytes[..i + 1]) ==> !Encodable(a, bytes)
  {
    hide EncodeEntry, Symbols;
    var upTo := bytes[..i + 1];
    assert upTo == bytes[..i] + [bytes[i]];
    assert forall k :: 0 <= k < |upTo| ==> upTo[k] == bytes[k];
  }

  lemma NothingToHold(bytes: seq<byte>)
    ensures forall a :: Encodable(a, bytes[..0])
  {}

  /** Classify and pack: one pass tracking what every alphabet still holds. */
  method Pack(bytes: seq<byte>) returns (r: Option<Packed>)
    requires MIN_PACKED_LEN <= |bytes| <= MAX_PACKED_LEN
    ensures PacksTo(bytes, r)
  {
    hide Encodable, EncodeEntry;
    NothingToHold(bytes);
    var numeric, plus, zulu := true, true, true;
    for i := 0 to |bytes|
      invariant numeric <==> Encodable(Numeric, bytes[..i])
      invariant plus <==> Encodable(DateTimePlus, bytes[..i])
      invariant zulu <==> Encodable(DateTimeZulu, bytes[..i])
    {
      EncodablePrefix(Numeric, bytes, i);
      EncodablePrefix(DateTimePlus, bytes, i);
      EncodablePrefix(DateTimeZulu, bytes, i);
      numeric := numeric && EncodeEntry(Numeric, bytes[i]).Some?;
      plus := plus && EncodeEntry(DateTimePlus, bytes[i]).Some?;
      zulu := zulu && EncodeEntry(DateTimeZulu, bytes[i]).Some?;
      if !numeric && !plus && !zulu {
        return None;
      }
    }
    assert bytes[..|bytes|] == bytes;
    r := PackIn(bytes, if numeric then Numeric else if plus then DateTimePlus else DateTimeZulu);
  }

  // ── Moving between alphabets, and appending ─────────────────────

  /** Each symbol has one code, its position. */
  lemma EncodeSymbol(a: Alphabet, n: nibble)
    ensures EncodeEntry(a, Symbols(a)[n]) == Some(n)
  {
    hide Symbols, IndexFrom;
    assert Symbols(a)[n] in Symbols(a);
  }

  /** The transitions the append path relies on: nothing rewritten, one decrement, or no counterpart. */
  lemma TransitionTable(n: nibble)
    ensures EncodeEntry(DateTimePlus, Symbols(Numeric)[n]) == if n < 14 then Some(n) else None
    ensures EncodeEntry(DateTimeZulu, Symbols(Numeric)[n])
         == if n == 0 then Some(0) else if n == 1 || n >= 14 then None else Some(n - 1)
    ensures EncodeEntry(DateTimeZulu, Symbols(DateTimePlus)[n])
         == if n == 0 then Some(0) else if n == 1 then None else Some(n - 1)
  {
    hide IndexFrom;
    if n < 14 {
      EncodeSymbol(DateTimePlus, n);
    }
    if n == 0 || n > 1 {
      EncodeSymbol(DateTimeZulu, if n == 0 then 0 else n - 1);
    }
  }

  lemma OwnBytesEncode(p: Packed)
    requires p.Valid()
    ensures Encodable(p.alphabet, p.Bytes())
  {
    hide Symbols, EncodeEntry;
    forall i | 0 <= i < p.Len()
      ensures EncodeEntry(p.alphabet, p.Bytes()[i]).Some?
    {
      EncodeSymbol(p.alphabet, NibbleAt(p.nibbles, i));
    }
  }

  method Transcode(p: Packed, to: Alphabet) returns (r: Option<Packed>)
    requires p.Valid()
    ensures r.Some? <==> Encodable(to, p.Bytes())
    ensures r.Some? ==> r.value.Valid() && r.value.alphabet == to && r.value.Bytes() == p.Bytes()
  {
    hide Symbols, EncodeEntry;
    if to == p.alphabet {
      OwnBytesEncode(p);
      return Some(p);
    }
    var nibbles := p.nibbles;
    ghost var bytes := p.Bytes();
    for i := 0 to p.Len()
      invariant forall j :: 0 <= j < i ==> EncodeEntry(to, bytes[j]).Some?
      invariant forall j :: 0 <= j < i ==> Symbols(to)[NibbleAt(nibbles, j)] == bytes[j]
      invariant forall j :: i <= j < NIBBLES ==> NibbleAt(nibbles, j) == NibbleAt(p.nibbles, j)
    {
      var symbol := Symbols(p.alphabet)[NibbleAt(p.nibbles, i)];
      var mapped := EncodeEntry(to, symbol);
      if mapped.None? {
        assert bytes[i] == symbol;
        return None;
      }
      nibbles := SetNibble(nibbles, i, mapped.value);
    }
    return Some(Packed(to, p.full, nibbles));
  }

  method AllIn(a: Alphabet, bytes: seq<byte>) returns (all: bool)
    ensures all <==> Encodable(a, bytes)
  {
    hide EncodeEntry, Symbols;
    for i := 0 to |bytes|
      invariant forall j :: 0 <= j < i ==> EncodeEntry(a, bytes[j]).Some?
    {
      var e := EncodeEntry(a, bytes[i]);
      if e.None? {
        return false;
      }
    }
    return true;
  }

  lemma EncodableConcat(a: Alphabet, x: seq<byte>, y: seq<byte>)
    ensures Encodable(a, x + y) <==> Encodable(a, x) && Encodable(a, y)
  {
    hide EncodeEntry, Symbols;
    assert forall i :: 0 <= i < |x| ==> (x + y)[i] == x[i];
    assert forall i :: 0 <= i < |y| ==> (x + y)[|x| + i] == y[i];
  }

  /** Write the tail's symbols after the content that is already there. */
  method WriteTail(nibbles: Payload, at: nat, a: Alphabet, tail: seq<byte>) returns (out: Payload)
    requires at + |tail| <= NIBBLES && Encodable(a, tail)
    ensures forall j :: 0 <= j < |tail| ==> Symbols(a)[NibbleAt(out, at + j)] == tail[j]
    ensures forall j :: 0 <= j < at || at + |tail| <= j < NIBBLES ==> NibbleAt(out, j) == NibbleAt(nibbles, j)
  {
    hide EncodeEntry, Symbols;
    out := nibbles;
    for i := 0 to |tail|
      invariant forall j :: 0 <= j < i ==> Symbols(a)[NibbleAt(out, at + j)] == tail[j]
      invariant forall j :: 0 <= j < at || at + i <= j < NIBBLES ==> NibbleAt(out, j) == NibbleAt(nibbles, j)
    {
      out := SetNibble(out, at + i, EncodeEntry(a, tail[i]).value);
    }
  }

  /**
    * Append without leaving the nibbles.  The outcome is the one packing the joined text whole would have, whichever
    * alphabet the content stood in before.
    */
  method Push(p: Packed, tail: seq<byte>) returns (r: Option<Packed>)
    requires p.Valid()
    ensures |p.Bytes() + tail| > MAX_PACKED_LEN ==> r == None
    ensures |p.Bytes() + tail| <= MAX_PACKED_LEN ==> PacksTo(p.Bytes() + tail, r)
  {
    hide EncodeEntry, Symbols, Encodable, NibbleAt, Packed.Bytes;
    var len := p.Len();
    var newLen := len + |tail|;
    if newLen > MAX_PACKED_LEN {
      return None;
    }
    ghost var joined := p.Bytes() + tail;
    EncodableConcat(Numeric, p.Bytes(), tail);
    EncodableConcat(DateTimePlus, p.Bytes(), tail);
    EncodableConcat(DateTimeZulu, p.Bytes(), tail);
    var target: Option<Alphabet>, moved: Option<Packed> := None, None;
    var k := 0;
    while k < |ALPHABETS| && target == None
      invariant 0 <= k <= 3
      invariant target == None ==> moved == None && forall j :: 0 <= j < k ==> !Encodable(ALPHABETS[j], joined)
      invariant target.Some? ==> Choose(joined) == target
      invariant target.Some? ==> moved.Some? && moved.value.Valid() && moved.value.alphabet == target.value
                                 && moved.value.Bytes() == p.Bytes()
    {
      var fits := AllIn(ALPHABETS[k], tail);
      var t := Transcode(p, ALPHABETS[k]);
      EncodableConcat(ALPHABETS[k], p.Bytes(), tail);
      if fits && t.Some? {
        assert k >= 1 ==> !Encodable(ALPHABETS[0], joined);
        assert k >= 2 ==> !Encodable(ALPHABETS[1], joined);
        target, moved := Some(ALPHABETS[k]), t;
      }
      k := k + 1;
    }
    if target == None {
      assert !Encodable(ALPHABETS[0], joined) && !Encodable(ALPHABETS[1], joined) && !Encodable(ALPHABETS[2], joined);
      return None;
    }
    var nibbles := WriteTail(moved.value.nibbles, len, target.value, tail);
    var full := newLen == MAX_PACKED_LEN;
    if !full {
      nibbles := SetNibble(nibbles, LENGTH_NIBBLE, newLen % 16);
    }
    var out := Packed(target.value, full, nibbles);
    AppendedContent(moved.value, tail, out);
    return Some(out);
  }

  lemma AppendedContent(p: Packed, tail: seq<byte>, q: Packed)
    requires p.Valid() && q.alphabet == p.alphabet
    requires var n := p.Len() + |tail|; n <= MAX_PACKED_LEN && q.full == (n == MAX_PACKED_LEN)
    requires forall j :: 0 <= j < p.Len() ==> NibbleAt(q.nibbles, j) == NibbleAt(p.nibbles, j)
    requires forall j :: 0 <= j < |tail| ==> Symbols(p.alphabet)[NibbleAt(q.nibbles, p.Len() + j)] == tail[j]
    requires forall j :: p.Len() + |tail| <= j < LENGTH_NIBBLE ==> NibbleAt(q.nibbles, j) == NibbleAt(p.nibbles, j)
    requires !q.full ==> NibbleAt(q.nibbles, LENGTH_NIBBLE) == (p.Len() + |tail|) % 16
    ensures q.Valid() && q.Bytes() == p.Bytes() + tail
  {
    hide Symbols;
  }

  /** Appending piece by piece ends at the representation of the whole: `pack(s).push(t)` is `pack(s + t)`. */
  method PackThenPush(s: seq<byte>, t: seq<byte>) returns (pushed: Option<Packed>, whole: Option<Packed>)
    requires MIN_PACKED_LEN <= |s| && |s + t| <= MAX_PACKED_LEN
    ensures pushed == whole && PacksTo(s + t, whole)
  {
    var first := Pack(s);
    whole := Pack(s + t);
    if first.None? {
      EncodableConcat(Numeric, s, t);
      EncodableConcat(DateTimePlus, s, t);
      EncodableConcat(DateTimeZulu, s, t);
      return None, whole;
    }
    pushed := Push(first.value, t);
    if pushed.Some? {
      PackedByContent(pushed.value, whole.value);
    }
  }
}
