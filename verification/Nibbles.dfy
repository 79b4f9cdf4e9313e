/** Two four-bit values per byte, high one first, over the fifteen bytes of an envelope. */
module Nibbles {
  import opened Wrappers
  import opened LexOrder

  const PACKED_BYTES := 15
  const NIBBLES := 30

  type nibble = x: int | 0 <= x < 16

  /** The hex digit a nibble is written as. */
  function DigitChar(upper: bool, n: nibble): byte {
    if n < 10 then 0x30 + n else if upper then 0x41 + (n - 10) else 0x61 + (n - 10)
  }

  type Payload = p: seq<byte> | |p| == PACKED_BYTES witness seq(15, i => 0)

  function NibbleAt(p: Payload, i: nat): nibble
    requires i < NIBBLES
  {
    var b := p[i / 2];
    if i % 2 == 0 then b / 16 else b % 16
  }

  function SetNibble(p: Payload, i: nat, v: nibble): (p': Payload)
    requires i < NIBBLES
    ensures forall j :: 0 <= j < NIBBLES ==> NibbleAt(p', j) == if j == i then v else NibbleAt(p, j)
  {
    var b := p[i / 2];
    assert (b % 16 + v * 16) / 16 == v && (b % 16 + v * 16) % 16 == b % 16;
    assert (b / 16 * 16 + v) / 16 == b / 16 && (b / 16 * 16 + v) % 16 == v;
    p[i / 2 := if i % 2 == 0 then b % 16 + v * 16 else b / 16 * 16 + v]
  }

  const ZERO: Payload := seq(PACKED_BYTES, i => 0)

  /** The thirty nibbles of a payload, in order. */
  function Unfold(p: Payload): (ns: seq<nibble>)
    ensures |ns| == NIBBLES
    ensures forall i :: 0 <= i < NIBBLES ==> ns[i] == NibbleAt(p, i)
  {
    seq(NIBBLES, i requires 0 <= i < NIBBLES => NibbleAt(p, i))
  }

  lemma SameNibbles(p: Payload, q: Payload)
    requires forall i :: 0 <= i < NIBBLES ==> NibbleAt(p, i) == NibbleAt(q, i)
    ensures p == q
  {
    forall k | 0 <= k < PACKED_BYTES
      ensures p[k] == q[k]
    {
      assert NibbleAt(p, 2 * k) == NibbleAt(q, 2 * k) && NibbleAt(p, 2 * k + 1) == NibbleAt(q, 2 * k + 1);
      assert p[k] == NibbleAt(p, 2 * k) * 16 + NibbleAt(p, 2 * k + 1);
      assert q[k] == NibbleAt(q, 2 * k) * 16 + NibbleAt(q, 2 * k + 1);
    }
  }

  /** Two nibbles a side compare as the bytes they make. */
  lemma PairCompares(b: byte, c: byte, s: seq<int>, t: seq<int>, x: seq<int>, y: seq<int>)
    requires CmpSeq(s, t) == CmpSeq(x, y)
    ensures CmpSeq([b] + s, [c] + t) == CmpSeq([b / 16, b % 16] + x, [c / 16, c % 16] + y)
  {
    var p, q := [b / 16, b % 16] + x, [c / 16, c % 16] + y;
    assert ([b] + s)[1..] == s && ([c] + t)[1..] == t;
    assert p[1..][1..] == x && q[1..][1..] == y;
    assert b == b / 16 * 16 + b % 16 && c == c / 16 * 16 + c % 16;
  }

  lemma FirstPair(p: Payload, from: nat, to: nat)
    requires from < to <= PACKED_BYTES
    ensures p[from..to] == [p[from]] + p[from + 1..to]
    ensures Unfold(p)[2 * from..2 * to] == [p[from] / 16, p[from] % 16] + Unfold(p)[2 * (from + 1)..2 * to]
  {
    var ns := Unfold(p);
    assert ns[2 * from] == NibbleAt(p, 2 * from) && ns[2 * from + 1] == NibbleAt(p, 2 * from + 1);
  }

  /** Comparing the bytes compares the nibbles, up to any byte boundary. */
  lemma {:induction false} BytesCompareAsNibbles(p: Payload, q: Payload, from: nat, to: nat)
    requires from <= to <= PACKED_BYTES
    ensures CmpSeq(p[from..to], q[from..to]) == CmpSeq(Unfold(p)[2 * from..2 * to], Unfold(q)[2 * from..2 * to])
    decreases PACKED_BYTES - from
  {
    hide Unfold, NibbleAt;
    if from < to {
      hide CmpSeq;
      BytesCompareAsNibbles(p, q, from + 1, to);
      FirstPair(p, from, to);
      FirstPair(q, from, to);
      PairCompares(p[from], q[from], p[from + 1..to], q[from + 1..to],
                   Unfold(p)[2 * (from + 1)..2 * to], Unfold(q)[2 * (from + 1)..2 * to]);
    }
  }
}
