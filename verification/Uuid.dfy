/**
  * The packed UUIDs: the canonical lowercase spelling of section 4 of RFC 9562, with the version and variant digits
  * implied by a form and the other thirty digits in fifteen bytes.
  */
module UuidCodec {
  import opened Wrappers
  import opened Nibbles

  const UUID_LEN := 36
  const HYPHENS: set<nat> := {8, 13, 18, 23}

  type shard = x: nat | x < 4

  /** A version family; the hash families carry the variant digit's two data bits as a shard. */
  datatype UuidForm = V1 | V3(s: shard) | V4(s: shard) | V5(s: shard) | V6 | V7

  // ── Spellings ───────────────────────────────────────────────────

  /** Only lower-case digits are read. */
  function HexValue(b: byte): (v: Option<nibble>)
    ensures v.Some? <==> exists n: nibble :: DigitChar(false, n) == b
    ensures v.Some? ==> DigitChar(false, v.value) == b
  {
    if 0x30 <= b <= 0x39 then
      assert DigitChar(false, b - 0x30) == b;
      Some(b - 0x30)
    else if 0x61 <= b <= 0x66 then
      assert DigitChar(false, b - 0x61 + 10) == b;
      Some(b - 0x61 + 10)
    else None
  }

  lemma LowerDigitsDiffer(m: nibble, n: nibble)
    ensures DigitChar(false, m) == DigitChar(false, n) <==> m == n
  {}

  /** Where digit `d` stands among the hyphens. */
  function Position(d: nat): nat
    requires d < 32
  {
    if d < 8 then d else if d < 12 then d + 1 else if d < 16 then d + 2 else if d < 20 then d + 3 else d + 4
  }

  /** The digits before position `i`. */
  function DigitsBefore(i: nat): nat
    requires i <= UUID_LEN
  {
    if i <= 8 then i else if i <= 13 then i - 1 else if i <= 18 then i - 2 else if i <= 23 then i - 3 else i - 4
  }

  type Digits = ds: seq<nibble> | |ds| == 32 witness seq(32, i => 0)

  /** `bytes` is the canonical spelling of thirty-two digits. */
  ghost predicate Spells(bytes: seq<byte>, ds: Digits) {
    && |bytes| == UUID_LEN
    && (forall i :: i in HYPHENS ==> bytes[i] == 0x2D)
    && forall i :: 0 <= i < UUID_LEN && i !in HYPHENS ==> bytes[i] == DigitChar(false, ds[DigitsBefore(i)])
  }

  lemma SpellingDecides(bytes: seq<byte>, ds: Digits, bytes': seq<byte>, ds': Digits)
    requires Spells(bytes, ds) && Spells(bytes', ds')
    ensures bytes == bytes' <==> ds == ds'
  {
    if bytes == bytes' {
      forall d | 0 <= d < 32
        ensures ds[d] == ds'[d]
      {
        var i := Position(d);
        assert DigitsBefore(i) == d && i !in HYPHENS;
        assert bytes[i] == DigitChar(false, ds[d]) && bytes'[i] == DigitChar(false, ds'[d]);
        LowerDigitsDiffer(ds[d], ds'[d]);
      }
    }
  }

  // ── Forms ───────────────────────────────────────────────────────

  /** The digit whose top two bits a time form requires zero, and fuses with the variant bits. */
  function FusedAt(form: UuidForm): Option<nat> {
    match form
    case V1 => Some(13)
    case V6 | V7 => Some(0)
    case _ => None
  }

  function Version(form: UuidForm): nibble {
    match form
    case V1 => 1
    case V3(_) => 3
    case V4(_) => 4
    case V5(_) => 5
    case V6 => 6
    case V7 => 7
  }

  /** The RFC variant, a served version, and the range requirement of the time forms. */
  predicate Recognized(ds: Digits) {
    && ds[16] / 4 == 2
    && (3 <= ds[12] <= 5 || (ds[12] == 1 && ds[13] < 4) || ((ds[12] == 6 || ds[12] == 7) && ds[0] < 4))
  }

  function FormOf(ds: Digits): UuidForm
    requires Recognized(ds)
  {
    match ds[12]
    case 1 => V1
    case 3 => V3(ds[16] % 4)
    case 4 => V4(ds[16] % 4)
    case 5 => V5(ds[16] % 4)
    case 6 => V6
    case _ => V7
  }

  /** The stored index of digit `i`, digits 12 and 16 being implied. */
  function StoredIndex(i: nat): nat
    requires i < 32 && i != 12 && i != 16
  {
    if i < 12 then i else if i < 16 then i - 1 else i - 2
  }

  function DigitIndex(j: nat): (d: nat)
    requires j < NIBBLES
    ensures d < 32 && d != 12 && d != 16
  {
    if j < 12 then j else if j < 15 then j + 1 else j + 2
  }

  /** What digit `i` is stored as: itself, or with the variant bits above its two live bits. */
  function StoredDigit(ds: Digits, i: nat): nibble
    requires Recognized(ds) && i < 32
  {
    if FusedAt(FormOf(ds)) == Some(i) then ds[16] % 4 * 4 + ds[i] % 4 else ds[i]
  }

  /** `payload` stores the digits `ds` of a spelling of `form`. */
  predicate Stores(form: UuidForm, payload: Payload, ds: Digits) {
    && Recognized(ds) && form == FormOf(ds)
    && forall j :: 0 <= j < NIBBLES ==> NibbleAt(payload, j) == StoredDigit(ds, DigitIndex(j))
  }

  /** The digits a form and a payload stand for: every pair stands for some. */
  function Rebuild(form: UuidForm, payload: Payload): Digits {
    seq(32, i requires 0 <= i < 32 => RebuildDigit(form, payload, i))
  }

  function RebuildDigit(form: UuidForm, payload: Payload, i: nat): nibble
    requires i < 32
  {
    if i == 12 then Version(form)
    else if i == 16 then
      8 + (match form
           case V3(s) => s
           case V4(s) => s
           case V5(s) => s
           case V1 => NibbleAt(payload, 12) / 4
           case _ => NibbleAt(payload, 0) / 4)
    else if FusedAt(form) == Some(i) then NibbleAt(payload, StoredIndex(i)) % 4
    else NibbleAt(payload, StoredIndex(i))
  }

  /** A form and a payload store exactly one digit sequence: the one they rebuild. */
  lemma StoresIff(form: UuidForm, payload: Payload, ds: Digits)
    ensures Stores(form, payload, ds) <==> ds == Rebuild(form, payload)
  {
    if Stores(form, payload, ds) {
      StoredIsRebuilt(form, payload, ds);
    }
    if ds == Rebuild(form, payload) {
      RebuiltIsStored(form, payload);
    }
  }

  lemma StoredDigitBack(form: UuidForm, payload: Payload, ds: Digits, i: nat)
    requires Stores(form, payload, ds) && i < 32
    ensures ds[i] == RebuildDigit(form, payload, i)
  {
    hide NibbleAt;
    if i == 16 {
      if FusedAt(form).Some? {
        var top := FusedAt(form).value;
        assert NibbleAt(payload, StoredIndex(top)) == StoredDigit(ds, DigitIndex(StoredIndex(top)));
      }
    } else if i != 12 {
      assert NibbleAt(payload, StoredIndex(i)) == StoredDigit(ds, DigitIndex(StoredIndex(i)));
    }
  }

  lemma StoredIsRebuilt(form: UuidForm, payload: Payload, ds: Digits)
    requires Stores(form, payload, ds)
    ensures ds == Rebuild(form, payload)
  {
    hide Stores, RebuildDigit;
    forall i | 0 <= i < 32
      ensures ds[i] == Rebuild(form, payload)[i]
    {
      StoredDigitBack(form, payload, ds, i);
    }
  }

  lemma RebuiltIsStored(form: UuidForm, payload: Payload)
    ensures Stores(form, payload, Rebuild(form, payload))
  {
    hide NibbleAt;
    var ds := Rebuild(form, payload);
    RebuildRecognized(form, payload);
    forall j | 0 <= j < NIBBLES
      ensures NibbleAt(payload, j) == StoredDigit(ds, DigitIndex(j))
    {
      assert ds[DigitIndex(j)] == RebuildDigit(form, payload, DigitIndex(j));
      assert StoredIndex(DigitIndex(j)) == j;
      assert ds[16] == RebuildDigit(form, payload, 16);
    }
  }

  lemma RebuildRecognized(form: UuidForm, payload: Payload)
    ensures Recognized(Rebuild(form, payload)) && FormOf(Rebuild(form, payload)) == form
  {
    hide NibbleAt;
    var r := Rebuild(form, payload);
    assert r[12] == Version(form) && r[16] == RebuildDigit(form, payload, 16);
    assert r[0] == RebuildDigit(form, payload, 0) && r[13] == RebuildDigit(form, payload, 13);
  }

  // ── The codec ───────────────────────────────────────────────────

  /** The pair a spelling is stored as, and nothing for any other bytes. */
  ghost predicate ClassifiesTo(bytes: seq<byte>, r: Option<(UuidForm, Payload)>) {
    match r
    case Some((form, payload)) => Spells(bytes, Rebuild(form, payload))
    case None => forall form, payload :: !Spells(bytes, Rebuild(form, payload))
  }

  /** Pack thirty-two digits into thirty nibbles, skipping the two implied ones. */
  method PackSkipping(ds: Digits) returns (payload: Payload)
    ensures forall j :: 0 <= j < NIBBLES ==> NibbleAt(payload, j) == ds[DigitIndex(j)]
  {
    hide NibbleAt;
    payload := ZERO;
    var out := 0;
    for i := 0 to 32
      invariant out == if i <= 12 then i else if i <= 16 then i - 1 else i - 2
      invariant forall j :: 0 <= j < out ==> NibbleAt(payload, j) == ds[DigitIndex(j)]
    {
      if i != 12 && i != 16 {
        payload := SetNibble(payload, out, ds[i]);
        out := out + 1;
      }
    }
  }

  method PackTime(ds: Digits, top: nat, variantBits: nat) returns (r: Option<Payload>)
    requires top < 32 && top != 12 && top != 16 && variantBits < 4
    ensures r.Some? <==> ds[top] < 4
    ensures r.Some? ==> forall j :: 0 <= j < NIBBLES ==>
              NibbleAt(r.value, j) == if DigitIndex(j) == top then variantBits * 4 + ds[top] else ds[DigitIndex(j)]
  {
    if ds[top] / 4 != 0 {
      return None;
    }
    var p := PackSkipping(ds[top := variantBits * 4 + ds[top]]);
    return Some(p);
  }

  lemma SpelledDigit(bytes: seq<byte>, i: nat)
    requires i < |bytes| && i !in HYPHENS
    ensures forall ds :: Spells(bytes, ds) ==> HexValue(bytes[i]).Some?
  {}

  /** Read the digits of a spelling, or find that it is none. */
  method ReadDigits(bytes: seq<byte>) returns (r: Option<Digits>)
    ensures r.Some? ==> Spells(bytes, r.value)
    ensures r.None? ==> forall ds :: !Spells(bytes, ds)
  {
    if |bytes| != UUID_LEN {
      return None;
    }
    var nibbles: seq<nibble> := [];
    for i := 0 to UUID_LEN
      invariant |nibbles| == DigitsBefore(i)
      invariant forall k :: 0 <= k < i && k in HYPHENS ==> bytes[k] == 0x2D
      invariant forall k :: 0 <= k < i && k !in HYPHENS ==> bytes[k] == DigitChar(false, nibbles[DigitsBefore(k)])
    {
      if i in HYPHENS {
        if bytes[i] != 0x2D {
          return None;
        }
      } else {
        var v := HexValue(bytes[i]);
        if v.None? {
          SpelledDigit(bytes, i);
          return None;
        }
        nibbles := nibbles + [v.value];
      }
    }
    return Some(nibbles);
  }

  method ClassifyUuid(bytes: seq<byte>) returns (r: Option<(UuidForm, Payload)>)
    ensures ClassifiesTo(bytes, r)
  {
    hide NibbleAt, Spells;
    var read := ReadDigits(bytes);
    if read.None? {
      return None;
    }
    var ds := read.value;
    var variantBits := ds[16] % 4;
    if ds[16] / 4 != 2 {
      NotRecognized(bytes, ds);
      return None;
    }
    if 3 <= ds[12] <= 5 {
      var p := PackSkipping(ds);
      StoresIff(FormOf(ds), p, ds);
      return Some((FormOf(ds), p));
    }
    if ds[12] != 1 && ds[12] != 6 && ds[12] != 7 {
      NotRecognized(bytes, ds);
      return None;
    }
    var top := if ds[12] == 1 then 13 else 0;
    var p := PackTime(ds, top, variantBits);
    if p.None? {
      NotRecognized(bytes, ds);
      return None;
    }
    StoresIff(FormOf(ds), p.value, ds);
    return Some((FormOf(ds), p.value));
  }

  lemma NotRecognized(bytes: seq<byte>, ds: Digits)
    requires Spells(bytes, ds) && !Recognized(ds)
    ensures forall form, payload :: !Spells(bytes, Rebuild(form, payload))
  {
    hide Spells, Rebuild;
    forall form, payload | Spells(bytes, Rebuild(form, payload))
      ensures false
    {
      SpellingDecides(bytes, ds, bytes, Rebuild(form, payload));
      RebuildRecognized(form, payload);
    }
  }

  /** Reconstruct the spelling into the caller's buffer. */
  /** Unstow the digits, the version and the variant restored. */
  method Unpack(form: UuidForm, payload: Payload) returns (nibbles: seq<nibble>)
    ensures nibbles == Rebuild(form, payload)
  {
    hide NibbleAt;
    nibbles := [];
    for i := 0 to 32
      invariant |nibbles| == i
      invariant forall k :: 0 <= k < i && k != 12 && k != 16 ==> nibbles[k] == NibbleAt(payload, StoredIndex(k))
    {
      nibbles := nibbles + [if i == 12 || i == 16 then 0 else NibbleAt(payload, StoredIndex(i))];
    }
    nibbles := nibbles[12 := Version(form)];
    var variantBits: nat;
    match form {
      case V3(s) => variantBits := s;
      case V4(s) => variantBits := s;
      case V5(s) => variantBits := s;
      case _ =>
        var at := FusedAt(form).value;
        variantBits := nibbles[at] / 4;
        nibbles := nibbles[at := nibbles[at] % 4];
    }
    nibbles := nibbles[16 := 8 + variantBits];
  }

  method DecodeUuid(form: UuidForm, payload: Payload, out: array<byte>) returns (n: nat)
    requires out.Length >= UUID_LEN
    modifies out
    ensures n == UUID_LEN && Spells(out[..n], Rebuild(form, payload))
    ensures out[n..] == old(out[n..])
  {
    hide NibbleAt, RebuildDigit;
    var nibbles := Unpack(form, payload);
    var d := 0;
    for i := 0 to UUID_LEN
      invariant d == DigitsBefore(i)
      invariant forall k :: 0 <= k < i && k in HYPHENS ==> out[k] == 0x2D
      invariant forall k :: 0 <= k < i && k !in HYPHENS ==> out[k] == DigitChar(false, nibbles[DigitsBefore(k)])
      invariant forall k :: UUID_LEN <= k < out.Length ==> out[k] == old(out[k])
    {
      if i in HYPHENS {
        out[i] := 0x2D;
      } else {
        out[i] := DigitChar(false, nibbles[d]);
        d := d + 1;
      }
    }
    n := UUID_LEN;
  }

  /**
    * The correspondence is one to one: each spelling belongs to at most one form and payload, so classifying what was
    * decoded gives back the pair, and decoding what was classified gives back the text.
    */
  lemma OnePairPerSpelling(bytes: seq<byte>, form: UuidForm, payload: Payload, r: Option<(UuidForm, Payload)>)
    requires ClassifiesTo(bytes, r) && Spells(bytes, Rebuild(form, payload))
    ensures r == Some((form, payload))
  {
    hide Spells, Rebuild, NibbleAt;
    var (form', payload') := r.value;
    SpellingDecides(bytes, Rebuild(form, payload), bytes, Rebuild(form', payload'));
    RebuildRecognized(form, payload);
    RebuildRecognized(form', payload');
    StoresIff(form, payload, Rebuild(form, payload));
    StoresIff(form', payload', Rebuild(form, payload));
    SameNibbles(payload, payload');
  }

  /** Every pair survives the trip through its text. */
  method DecodeThenClassify(form: UuidForm, payload: Payload) returns (r: Option<(UuidForm, Payload)>)
    ensures r == Some((form, payload))
  {
    var out := new byte[UUID_LEN];
    var n := DecodeUuid(form, payload, out);
    r := ClassifyUuid(out[..n]);
    OnePairPerSpelling(out[..n], form, payload, r);
  }

  /** Every recognized text survives the trip through its pair. */
  method ClassifyThenDecode(bytes: seq<byte>) returns (r: Option<seq<byte>>)
    ensures r.Some? ==> r.value == bytes
    ensures r.Some? <==> exists ds :: Spells(bytes, ds) && Recognized(ds)
  {
    var c := ClassifyUuid(bytes);
    if c.None? {
      forall ds | Spells(bytes, ds)
        ensures !Recognized(ds)
      {
        if Recognized(ds) {
          RecognizedIsStored(ds);
        }
      }
      return None;
    }
    var (form, payload) := c.value;
    var out := new byte[UUID_LEN];
    var n := DecodeUuid(form, payload, out);
    RebuildRecognized(form, payload);
    SpellingDecides(bytes, Rebuild(form, payload), out[..n], Rebuild(form, payload));
    return Some(out[..n]);
  }

  /** Every recognized digit sequence is some pair's. */
  lemma RecognizedIsStored(ds: Digits)
    requires Recognized(ds)
    ensures exists form, payload :: ds == Rebuild(form, payload)
  {
    hide NibbleAt;
    var payload: Payload := seq(PACKED_BYTES, k requires 0 <= k < PACKED_BYTES =>
      StoredDigit(ds, DigitIndex(2 * k)) * 16 + StoredDigit(ds, DigitIndex(2 * k + 1)));
    StoredPayload(payload, ds);
    StoresIff(FormOf(ds), payload, ds);
  }

  lemma StoredPayload(payload: Payload, ds: Digits)
    requires Recognized(ds)
    requires forall k :: 0 <= k < PACKED_BYTES ==>
               payload[k] == StoredDigit(ds, DigitIndex(2 * k)) as int * 16 + StoredDigit(ds, DigitIndex(2 * k + 1)) as int
    ensures Stores(FormOf(ds), payload, ds)
  {
    hide StoredDigit, DigitIndex;
    forall j | 0 <= j < NIBBLES
      ensures NibbleAt(payload, j) == StoredDigit(ds, DigitIndex(j))
    {
      var k := j / 2;
      assert j == 2 * k || j == 2 * k + 1;
    }
  }
}
