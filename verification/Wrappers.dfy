/** The optional value, the byte, and the three-way ordering every other module is built on. */
module Wrappers {

  datatype Option<+T> = None | Some(value: T)

  type byte = x: int | 0 <= x < 256

  predicate IsAscii(b: byte) {
    b < 0x80
  }

  /** `b & 0xC0 == 0x80`: a byte that can never begin a character. */
  predicate IsContinuation(b: byte) {
    0x80 <= b < 0xC0
  }

  ghost predicate AllAscii(s: seq<byte>) {
    forall i :: 0 <= i < |s| ==> IsAscii(s[i])
  }

  /** The pieces joined. */
  function Flatten<T>(pieces: seq<seq<T>>): seq<T> {
    if pieces == [] then [] else pieces[0] + Flatten(pieces[1..])
  }

  lemma {:induction false} FlattenAppend<T>(pieces: seq<seq<T>>, last: seq<T>)
    ensures Flatten(pieces + [last]) == Flatten(pieces) + last
  {
    if pieces == [] {
      assert [last][1..] == [];
    } else {
      FlattenAppend(pieces[1..], last);
      assert (pieces + [last])[1..] == pieces[1..] + [last];
    }
  }
}
