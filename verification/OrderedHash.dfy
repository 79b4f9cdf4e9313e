/**
  * The insertion-ordered hash engine: an entry sequence, `swap_remove` deletion, and an `each` cursor that deletion
  * adjusts.  A walk with deletes at or after the current entry yields every surviving key exactly once; one delete
  * further behind the cursor loses a key and repeats another.
  */
module OrderedEngine {
  import opened Values
  import opened WalkLog
  import opened Wrappers

  datatype Ordered = Ordered(entries: seq<Entry>, cursor: nat)

  const EMPTY := Ordered([], 0)

  ghost predicate WellFormed(h: Ordered) {
    DistinctKeys(h.entries) && h.cursor <= |h.entries|
  }

  /** Constant-time removal: the last entry takes the vacated place. */
  function SwapRemove(entries: seq<Entry>, i: nat): seq<Entry>
    requires i < |entries|
  {
    entries[i := entries[|entries| - 1]][..|entries| - 1]
  }

  datatype Event = Each | Delete(key: Key) | Store(key: Key, value: Value) | Keys

  function Effect(h: Ordered, e: Event): Ordered {
    match e
    case Each => h.(cursor := if h.cursor < |h.entries| then h.cursor + 1 else 0)
    case Delete(key) =>
      (match IndexOf(h.entries, key)
       case None => h
       case Some(i) => Ordered(SwapRemove(h.entries, i), if i < h.cursor then h.cursor - 1 else h.cursor))
    case Store(key, value) =>
      (match IndexOf(h.entries, key)
       case None => h.(entries := h.entries + [Entry(key, value)])
       case Some(i) => h.(entries := h.entries[i := Entry(key, value)]))
    case Keys => h.(cursor := 0)
  }

  function Yield(h: Ordered): Option<Entry> {
    if h.cursor < |h.entries| then Some(h.entries[h.cursor]) else None
  }

  function Logged(h: Ordered, log: seq<Key>, e: Event): seq<Key> {
    match e
    case Each => (match Yield(h) case Some(entry) => log + [entry.key] case None => [])
    case Delete(key) => Without(log, key)
    case Store(_, _) => log
    case Keys => []
  }

  class OrderedHash {
    var entries: seq<Entry>
    var cursor: nat
    var readonly: bool

    ghost function State(): Ordered
      reads this
    {
      Ordered(entries, cursor)
    }

    ghost predicate Valid()
      reads this
    {
      WellFormed(State())
    }

    method Store(key: Key, value: Value) returns (ok: bool)
      requires Valid()
      modifies this`entries
      ensures Valid() && ok == !readonly
      ensures State() == if ok then Effect(old(State()), Event.Store(key, value)) else old(State())
    {
      if readonly {
        return false;
      }
      var index := IndexOf(entries, key);
      entries := if index.Some? then entries[index.value := Entry(key, value)] else entries + [Entry(key, value)];
      ok := true;
    }

    method Delete(key: Key) returns (ok: bool, value: Value)
      requires Valid()
      modifies this`entries, this`cursor
      ensures Valid() && ok == !readonly
      ensures State() == if ok then Effect(old(State()), Event.Delete(key)) else old(State())
      ensures value == if ok && IndexOf(old(entries), key).Some? then old(entries)[IndexOf(old(entries), key).value].value else Undef
    {
      ok, value := !readonly, Undef;
      if readonly {
        return;
      }
      var index := IndexOf(entries, key);
      if index.None? {
        return;
      }
      value := entries[index.value].value;
      entries := SwapRemove(entries, index.value);
      if index.value < cursor {
        cursor := cursor - 1;
      }
    }

    method Each() returns (pair: Option<Entry>)
      requires Valid()
      modifies this`cursor
      ensures Valid() && State() == Effect(old(State()), Event.Each) && pair == Yield(old(State()))
    {
      if cursor < |entries| {
        pair := Some(entries[cursor]);
        cursor := cursor + 1;
      } else {
        cursor := 0;
        pair := None;
      }
    }

    method Keys() returns (keys: seq<Key>)
      requires Valid()
      modifies this`cursor
      ensures Valid() && State() == Effect(old(State()), Event.Keys)
      ensures Distinct(keys) && KeySet(keys) == KeysBelow(entries, |entries|)
    {
      cursor := 0;
      keys := seq(|entries|, i requires 0 <= i < |entries| reads this => entries[i].key);
      assert forall i :: 0 <= i < |entries| ==> keys[i] == entries[i].key;
    }
  }

  // ── One step ────────────────────────────────────────────────────

  /** The log holds each key behind the cursor exactly once, and no other. */
  ghost predicate Tally(h: Ordered, log: seq<Key>)
    requires h.cursor <= |h.entries|
  {
    Distinct(log) && KeySet(log) == KeysBelow(h.entries, h.cursor)
  }

  /** A delete the walk can take: of an absent key, at or after the current entry, or once nothing is left to visit. */
  predicate Gentle(h: Ordered, e: Event) {
    e.Delete? && IndexOf(h.entries, e.key).Some? ==>
      IndexOf(h.entries, e.key).value + 1 >= h.cursor || h.cursor == |h.entries|
  }

  lemma EffectKeepsValid(h: Ordered, e: Event)
    requires WellFormed(h)
    ensures WellFormed(Effect(h, e))
  {}

  /** The keys behind the cursor after a delete at `i`. */
  lemma ErasedKeys(h: Ordered, key: Key, i: nat)
    requires WellFormed(h) && IndexOf(h.entries, key) == Some(i)
    ensures var r := Effect(h, Delete(key));
            KeysBelow(r.entries, r.cursor) ==
            if i >= h.cursor then KeysBelow(h.entries, h.cursor)
            else if i + 1 == h.cursor || h.cursor == |h.entries| then KeysBelow(h.entries, h.cursor) - {key}
            else KeysBelow(h.entries, h.cursor) - {key, h.entries[h.cursor - 1].key} + {h.entries[|h.entries| - 1].key}
  {
    var r := Effect(h, Delete(key));
    var last := |h.entries| - 1;
    forall j | 0 <= j < r.cursor
      ensures r.entries[j] == if j == i then h.entries[last] else h.entries[j]
    {}
    var below := KeysBelow(r.entries, r.cursor);
    forall j | 0 <= j < h.cursor && j != i
      ensures h.entries[j].key in below || (j == last && i < h.cursor == |h.entries|) || j == h.cursor - 1
    {
      if j < r.cursor {
        assert r.entries[j].key in below;
      }
    }
    if i < h.cursor == |h.entries| && i < last {
      assert r.entries[i].key in below;
    }
    if i + 1 < h.cursor < |h.entries| {
      assert r.entries[i].key in below;
    }
  }

  /** Deleting keeps the tally exactly when it is gentle. */
  lemma DeleteKeepsTallyIff(h: Ordered, log: seq<Key>, key: Key)
    requires WellFormed(h) && Tally(h, log)
    ensures WellFormed(Effect(h, Delete(key)))
    ensures Tally(Effect(h, Delete(key)), Without(log, key)) <==> Gentle(h, Delete(key))
  {
    EffectKeepsValid(h, Delete(key));
    WithoutDropsOneKey(log, key);
    match IndexOf(h.entries, key)
    case None =>
    case Some(i) =>
      ErasedKeys(h, key, i);
      assert i >= h.cursor ==> key !in KeysBelow(h.entries, h.cursor);
      if i + 1 < h.cursor < |h.entries| {
        assert h.entries[h.cursor - 1].key in KeysBelow(h.entries, h.cursor);
      }
  }

  lemma StepKeepsTally(h: Ordered, log: seq<Key>, e: Event)
    requires WellFormed(h) && Tally(h, log) && Gentle(h, e)
    ensures WellFormed(Effect(h, e)) && Tally(Effect(h, e), Logged(h, log, e))
  {
    EffectKeepsValid(h, e);
    var r := Effect(h, e);
    match e
    case Delete(key) => DeleteKeepsTallyIff(h, log, key);
    case Each =>
      if h.cursor < |h.entries| {
        assert h.entries[h.cursor].key !in KeysBelow(h.entries, h.cursor);
        Appended(log, h.entries[h.cursor].key);
        assert KeysBelow(r.entries, r.cursor) == KeysBelow(h.entries, h.cursor) + {h.entries[h.cursor].key};
      }
    case Store(key, _) =>
      assert forall j :: 0 <= j < h.cursor ==> r.entries[j].key == h.entries[j].key;
      assert KeysBelow(r.entries, r.cursor) == KeysBelow(h.entries, h.cursor);
    case Keys =>
  }

  /** What a hash holds, key by key, the order apart. */
  function Lookup(entries: seq<Entry>, key: Key): Option<Value> {
    match IndexOf(entries, key)
    case Some(i) => Some(entries[i].value)
    case None => None
  }

  lemma LookupIs(entries: seq<Entry>, i: nat)
    requires DistinctKeys(entries) && i < |entries|
    ensures Lookup(entries, entries[i].key) == Some(entries[i].value)
  {}

  /** Storing sets one key, deleting clears one, and walking touches none. */
  lemma EffectOnLookup(h: Ordered, e: Event, k: Key)
    requires WellFormed(h)
    ensures Lookup(Effect(h, e).entries, k) ==
            match e
            case Store(key, value) => if k == key then Some(value) else Lookup(h.entries, k)
            case Delete(key) => if k == key then None else Lookup(h.entries, k)
            case _ => Lookup(h.entries, k)
  {
    EffectKeepsValid(h, e);
    var r := Effect(h, e).entries;
    match (e, IndexOf(h.entries, k)) {
      case (Store(key, value), None) =>
        if k == key {
          LookupIs(r, |h.entries|);
        }
      case (Store(key, value), Some(j)) => LookupIs(r, j);
      case (Delete(key), Some(j)) =>
        var last := |h.entries| - 1;
        if k != key && IndexOf(h.entries, key).Some? {
          LookupIs(r, if j == last then IndexOf(h.entries, key).value else j);
        }
      case _ =>
    }
  }

  // ── Runs ────────────────────────────────────────────────────────

  function Final(h: Ordered, events: seq<Event>): Ordered {
    if events == [] then h else Effect(Final(h, events[..|events| - 1]), events[|events| - 1])
  }

  function Log(h: Ordered, events: seq<Event>): seq<Key> {
    if events == [] then []
    else
      var before := events[..|events| - 1];
      Logged(Final(h, before), Log(h, before), events[|events| - 1])
  }

  predicate GentleRun(h: Ordered, events: seq<Event>) {
    events == [] || (
      && GentleRun(h, events[..|events| - 1])
      && Gentle(Final(h, events[..|events| - 1]), events[|events| - 1]))
  }

  lemma {:induction false} RunKeepsTally(h: Ordered, events: seq<Event>)
    requires WellFormed(h) && h.cursor == 0 && GentleRun(h, events)
    ensures WellFormed(Final(h, events)) && Tally(Final(h, events), Log(h, events))
  {
    if events != [] {
      var before := events[..|events| - 1];
      RunKeepsTally(h, before);
      StepKeepsTally(Final(h, before), Log(h, before), events[|events| - 1]);
    }
  }

  /** When a gentle walk answers `None`, it has yielded every surviving key exactly once. */
  lemma WalkYieldsEverySurvivorOnce(h: Ordered, events: seq<Event>)
    requires WellFormed(h) && h.cursor == 0 && GentleRun(h, events)
    requires Yield(Final(h, events)).None?
    ensures var log := Log(h, events);
            Distinct(log) && KeySet(log) == KeysBelow(Final(h, events).entries, |Final(h, events).entries|)
  {
    RunKeepsTally(h, events);
  }

  /**
    * A delete further behind the cursor, mid-walk: the last entry slips behind the cursor unvisited, and the current
    * entry comes round again.
    */
  lemma RoughDeleteLosesAndRepeats(h: Ordered, log: seq<Key>, key: Key)
    requires WellFormed(h) && Tally(h, log) && !Gentle(h, Delete(key))
    ensures var r := Effect(h, Delete(key));
            var lost, again := h.entries[|h.entries| - 1].key, h.entries[h.cursor - 1].key;
            && h.cursor > 1 && lost != again
            && (exists j :: 0 <= j < r.cursor && r.entries[j].key == lost) && lost !in Without(log, key)
            && Yield(r) == Some(h.entries[h.cursor - 1]) && again in Without(log, key)
  {
    WithoutDropsOneKey(log, key);
    var r := Effect(h, Delete(key));
    var i := IndexOf(h.entries, key).value;
    assert r.entries[i].key == h.entries[|h.entries| - 1].key;
    assert h.entries[h.cursor - 1].key in KeysBelow(h.entries, h.cursor);
    assert forall k :: k in Without(log, key) <==> k in KeySet(Without(log, key));
  }

  lemma OneMore(h: Ordered, events: seq<Event>, e: Event)
    ensures Final(h, events + [e]) == Effect(Final(h, events), e)
    ensures Log(h, events + [e]) == Logged(Final(h, events), Log(h, events), e)
    ensures GentleRun(h, events + [e]) <==> GentleRun(h, events) && Gentle(Final(h, events), e)
  {
    assert (events + [e])[..|events|] == events;
  }

  function ThreeThenTwo(a: Entry, b: Entry, c: Entry): seq<Event> {
    [Store(a.key, a.value)] + [Store(b.key, b.value)] + [Store(c.key, c.value)] + [Each] + [Each]
  }

  lemma AbsentIsAppended(h: Ordered, e: Entry)
    requires forall i :: 0 <= i < |h.entries| ==> h.entries[i].key != e.key
    ensures Effect(h, Store(e.key, e.value)) == Ordered(h.entries + [e], h.cursor)
  {
    assert IndexOf(h.entries, e.key).None?;
  }

  lemma ThreeStored(a: Entry, b: Entry, c: Entry)
    requires a.key != b.key && a.key != c.key && b.key != c.key
    ensures var stores := [Store(a.key, a.value)] + [Store(b.key, b.value)] + [Store(c.key, c.value)];
            Final(EMPTY, stores) == Ordered([a, b, c], 0) && Log(EMPTY, stores) == [] && GentleRun(EMPTY, stores)
  {
    hide IndexOf, Effect;
    var first := [Store(a.key, a.value)];
    OneMore(EMPTY, [], Store(a.key, a.value));
    assert [] + first == first;
    AbsentIsAppended(EMPTY, a);
    OneMore(EMPTY, first, Store(b.key, b.value));
    AbsentIsAppended(Ordered([a], 0), b);
    OneMore(EMPTY, first + [Store(b.key, b.value)], Store(c.key, c.value));
    AbsentIsAppended(Ordered([a, b], 0), c);
    assert EMPTY.entries + [a] == [a] && [a] + [b] == [a, b] && [a, b] + [c] == [a, b, c];
  }

  /**
    * Such a delete is reached from an empty hash: three keys stored, two calls of `each`, and the first key deleted.
    * The walk then yields the second key again and ends, and the third has never been yielded.
    */
  lemma RoughRun(a: Entry, b: Entry, c: Entry)
    requires a.key != b.key && a.key != c.key && b.key != c.key
    ensures var events := ThreeThenTwo(a, b, c);
            var h, log := Final(EMPTY, events), Log(EMPTY, events);
            && WellFormed(EMPTY) && GentleRun(EMPTY, events) && log == [a.key, b.key]
            && WellFormed(h) && Tally(h, log) && !Gentle(h, Delete(a.key))
            && var rough := events + [Delete(a.key)];
               && Yield(Final(EMPTY, rough)) == Some(b)
               && Yield(Final(EMPTY, rough + [Each])) == None
               && Log(EMPTY, rough + [Each]) == [b.key, b.key]
               && Final(EMPTY, rough + [Each]).entries == [c, b]
  {
    ThreeStored(a, b, c);
    var events := ThreeThenTwo(a, b, c);
    OneMore(EMPTY, events[..3], Each);
    OneMore(EMPTY, events[..4], Each);
    assert events[..4] == events[..3] + [Each] && events == events[..4] + [Each];
    RunKeepsTally(EMPTY, events);
    OneMore(EMPTY, events, Delete(a.key));
    OneMore(EMPTY, events + [Delete(a.key)], Each);
    WithoutFirst(a.key, b.key);
  }

  lemma WithoutFirst(first: Key, second: Key)
    requires first != second
    ensures Without([first, second], first) == [second]
  {
    assert [first, second][1..] == [second] && [second][1..] == [];
    assert Without([second], first) == [second] + Without([], first);
  }
}
