/** What an `each` walk has yielded so far, counting only the present life of a key: a delete forgets its yields. */
module WalkLog {
  import opened Values
  import opened Wrappers

  type Key = seq<byte>

  datatype Entry = Entry(key: Key, value: Value)

  predicate Distinct(log: seq<Key>) {
    forall i, j :: 0 <= i < j < |log| ==> log[i] != log[j]
  }

  function KeySet(log: seq<Key>): set<Key> {
    set k | k in log
  }

  function Without(log: seq<Key>, key: Key): seq<Key> {
    if log == [] then []
    else (if log[0] == key then [] else [log[0]]) + Without(log[1..], key)
  }

  lemma {:induction false} WithoutDropsOneKey(log: seq<Key>, key: Key)
    requires Distinct(log)
    ensures Distinct(Without(log, key)) && KeySet(Without(log, key)) == KeySet(log) - {key}
  {
    if log != [] {
      WithoutDropsOneKey(log[1..], key);
      var rest := Without(log[1..], key);
      assert log == [log[0]] + log[1..];
      assert forall k :: k in rest <==> k in KeySet(rest);
      assert log[0] !in rest;
    }
  }

  lemma Appended(log: seq<Key>, key: Key)
    requires Distinct(log) && key !in KeySet(log)
    ensures Distinct(log + [key]) && KeySet(log + [key]) == KeySet(log) + {key}
  {}

  predicate DistinctKeys(entries: seq<Entry>) {
    forall i, j :: 0 <= i < j < |entries| ==> entries[i].key != entries[j].key
  }

  /** The keys of the first `n` entries. */
  function KeysBelow(entries: seq<Entry>, n: nat): set<Key>
    requires n <= |entries|
  {
    set i | 0 <= i < n :: entries[i].key
  }

  function IndexOf(entries: seq<Entry>, key: Key): (r: Option<nat>)
    ensures r.Some? ==> r.value < |entries| && entries[r.value].key == key
    ensures r.None? ==> forall i :: 0 <= i < |entries| ==> entries[i].key != key
  {
    if entries == [] then None
    else if entries[0].key == key then Some(0)
    else
      match IndexOf(entries[1..], key)
      case Some(i) => Some(i + 1)
      case None => None
  }
}
