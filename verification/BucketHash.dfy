/**
  * The default hash engine: a bucket table with an `each` cursor over bucket indices.  Erasure moves nothing, so a walk
  * is exact under any deletes at all; a new key may rehash the table and restarts the walk.
  */
module BucketEngine {
  import opened Values
  import opened WalkLog
  import opened Wrappers

  type Bucket = Option<Entry>

  datatype Buckets = Buckets(table: seq<Bucket>, cursor: nat)

  ghost predicate WellFormed(h: Buckets) {
    && h.cursor <= |h.table|
    && forall i, j :: 0 <= i < j < |h.table| && h.table[i].Some? && h.table[j].Some? ==>
         h.table[i].value.key != h.table[j].value.key
  }

  function KeysIn(table: seq<Bucket>, n: nat): set<Key>
    requires n <= |table|
  {
    set i | 0 <= i < n && table[i].Some? :: table[i].value.key
  }

  function BucketOf(table: seq<Bucket>, key: Key): (r: Option<nat>)
    ensures r.Some? ==> r.value < |table| && table[r.value].Some? && table[r.value].value.key == key
    ensures r.None? ==> forall i :: 0 <= i < |table| && table[i].Some? ==> table[i].value.key != key
  {
    if table == [] then None
    else if table[0].Some? && table[0].value.key == key then Some(0)
    else
      match BucketOf(table[1..], key)
      case Some(i) => Some(i + 1)
      case None => None
  }

  /** The first occupied bucket from `at` on, or the table's end. */
  function NextOccupied(table: seq<Bucket>, at: nat): (r: nat)
    requires at <= |table|
    ensures at <= r <= |table|
    ensures r < |table| ==> table[r].Some?
    ensures forall i :: at <= i < r ==> table[i].None?
    decreases |table| - at
  {
    if at == |table| || table[at].Some? then at else NextOccupied(table, at + 1)
  }

  /** `rehashed` is the table a new key's insertion leaves, whatever layout the hasher gives it. */
  datatype Event = Each | Delete(key: Key) | Store(key: Key, value: Value, rehashed: seq<Bucket>) | Keys

  ghost predicate Admissible(h: Buckets, e: Event) {
    e.Store? && BucketOf(h.table, e.key).None? ==>
      && WellFormed(Buckets(e.rehashed, 0))
      && forall b :: b in e.rehashed && b.Some? <==> b == Some(Entry(e.key, e.value)) || (b in h.table && b.Some?)
  }

  function Effect(h: Buckets, e: Event): Buckets
    requires h.cursor <= |h.table|
  {
    match e
    case Each =>
      (var at := NextOccupied(h.table, h.cursor);
       h.(cursor := if at < |h.table| then at + 1 else 0))
    case Delete(key) =>
      (match BucketOf(h.table, key)
       case None => h
       case Some(i) => h.(table := h.table[i := None]))
    case Store(key, value, rehashed) =>
      (match BucketOf(h.table, key)
       case None => Buckets(rehashed, 0)
       case Some(i) => h.(table := h.table[i := Some(Entry(key, value))]))
    case Keys => h.(cursor := 0)
  }

  function Yield(h: Buckets): Option<Entry>
    requires h.cursor <= |h.table|
  {
    var at := NextOccupied(h.table, h.cursor);
    if at < |h.table| then h.table[at] else None
  }

  function Logged(h: Buckets, log: seq<Key>, e: Event): seq<Key>
    requires h.cursor <= |h.table|
  {
    match e
    case Each => (match Yield(h) case Some(entry) => log + [entry.key] case None => [])
    case Delete(key) => Without(log, key)
    case Store(key, _, _) => if BucketOf(h.table, key).Some? then log else []
    case Keys => []
  }

  class BucketHash {
    var table: seq<Bucket>
    var cursor: nat

    ghost function State(): Buckets
      reads this
    {
      Buckets(table, cursor)
    }

    /** Scan for the next occupied bucket. */
    method Each() returns (pair: Option<Entry>)
      requires WellFormed(State())
      modifies this`cursor
      ensures State() == Effect(old(State()), Event.Each) && pair == Yield(old(State()))
    {
      while cursor < |table|
        invariant cursor <= |table| && table == old(table)
        invariant NextOccupied(table, cursor) == NextOccupied(table, old(cursor))
      {
        var bucket := cursor;
        cursor := cursor + 1;
        if table[bucket].Some? {
          return table[bucket];
        }
      }
      cursor := 0;
      pair := None;
    }
  }

  /** What a table holds, key by key, the layout apart. */
  function Lookup(table: seq<Bucket>, key: Key): Option<Value> {
    match BucketOf(table, key)
    case Some(i) => Some(table[i].value.value)
    case None => None
  }

  lemma LookupIs(h: Buckets, i: nat)
    requires WellFormed(h) && i < |h.table| && h.table[i].Some?
    ensures Lookup(h.table, h.table[i].value.key) == Some(h.table[i].value.value)
  {}

  /** A key looks up a value exactly when some bucket holds them. */
  lemma LookupIff(h: Buckets, key: Key, value: Value)
    requires WellFormed(h)
    ensures Lookup(h.table, key) == Some(value) <==> Some(Entry(key, value)) in h.table
  {
    if Some(Entry(key, value)) in h.table {
      var i :| 0 <= i < |h.table| && h.table[i] == Some(Entry(key, value));
      LookupIs(h, i);
    }
  }

  /** Storing sets one key, deleting clears one, and walking touches none, whatever a rehash does to the layout. */
  lemma EffectOnLookup(h: Buckets, e: Event, k: Key, value: Value)
    requires WellFormed(h) && Admissible(h, e)
    ensures WellFormed(Effect(h, e))
    ensures Lookup(Effect(h, e).table, k) == Some(value) <==>
            match e
            case Store(key, v, _) => if k == key then v == value else Lookup(h.table, k) == Some(value)
            case Delete(key) => k != key && Lookup(h.table, k) == Some(value)
            case _ => Lookup(h.table, k) == Some(value)
  {
    LookupIff(h, k, value);
    LookupIff(Effect(h, e), k, value);
    match e {
      case Store(key, v, rehashed) =>
        match BucketOf(h.table, key) {
          case None =>
            assert Some(Entry(k, value)) in rehashed <==>
                   Some(Entry(k, value)) == Some(Entry(key, v)) || Some(Entry(k, value)) in h.table;
          case Some(i) => UpdatedTable(h.table, i, Some(Entry(key, v)), Some(Entry(k, value)));
        }
      case Delete(key) =>
        match BucketOf(h.table, key) {
          case None =>
          case Some(i) => UpdatedTable(h.table, i, None, Some(Entry(k, value)));
        }
      case _ =>
    }
  }

  lemma UpdatedTable(table: seq<Bucket>, i: nat, b: Bucket, x: Bucket)
    requires i < |table|
    ensures x in table[i := b] <==> x == b || exists j :: 0 <= j < |table| && j != i && table[j] == x
  {
    if x == b {
      assert table[i := b][i] == x;
    }
    if j :| 0 <= j < |table| && j != i && table[j] == x {
      assert table[i := b][j] == x;
    }
  }

  // ── Runs ────────────────────────────────────────────────────────

  ghost predicate Tally(h: Buckets, log: seq<Key>)
    requires h.cursor <= |h.table|
  {
    Distinct(log) && KeySet(log) == KeysIn(h.table, h.cursor)
  }

  lemma EachKeepsTally(h: Buckets, log: seq<Key>)
    requires WellFormed(h) && Tally(h, log)
    ensures Tally(Effect(h, Each), Logged(h, log, Each))
    ensures Yield(h).None? ==> KeySet(log) == KeysIn(h.table, |h.table|)
  {
    var at := NextOccupied(h.table, h.cursor);
    if at < |h.table| {
      var key := h.table[at].value.key;
      assert key !in KeysIn(h.table, h.cursor);
      Appended(log, key);
      assert KeysIn(h.table, at + 1) == KeysIn(h.table, h.cursor) + {key};
    }
  }

  /** Rewriting an occupied bucket takes its old key from the keys around it and adds its new one. */
  lemma ReplacedKeys(table: seq<Bucket>, i: nat, bucket: Bucket, n: nat)
    requires WellFormed(Buckets(table, n)) && i < |table| && table[i].Some?
    ensures KeysIn(table[i := bucket], n) ==
            KeysIn(table, n) - {table[i].value.key} + (if i < n && bucket.Some? then {bucket.value.key} else {})
  {
    var r := table[i := bucket];
    forall j | 0 <= j < n && j != i && table[j].Some?
      ensures table[j].value.key in KeysIn(r, n)
    {
      assert r[j] == table[j];
    }
    if i < n && bucket.Some? {
      assert r[i] == bucket;
    }
  }

  lemma StepKeepsTally(h: Buckets, log: seq<Key>, e: Event)
    requires WellFormed(h) && Tally(h, log) && Admissible(h, e)
    ensures WellFormed(Effect(h, e)) && Tally(Effect(h, e), Logged(h, log, e))
  {
    var r := Effect(h, e);
    match e
    case Each => EachKeepsTally(h, log);
    case Delete(key) =>
      WithoutDropsOneKey(log, key);
      match BucketOf(h.table, key) {
        case Some(i) => ReplacedKeys(h.table, i, None, h.cursor);
        case None =>
      }
    case Store(key, _, _) =>
      match BucketOf(h.table, key) {
        case Some(i) => ReplacedKeys(h.table, i, Some(Entry(key, e.value)), h.cursor);
        case None =>
      }
    case Keys =>
  }

  /** The state and the log after a run; no step of it asks more than a table the hasher could leave. */
  ghost predicate IsRun(h: Buckets, events: seq<Event>, last: Buckets, log: seq<Key>)
    requires WellFormed(h)
    decreases |events|, 0
  {
    if events == [] then last == h && log == []
    else exists before: Buckets, seen: seq<Key> :: Continues(h, events, before, seen, last, log)
  }

  ghost predicate Continues(h: Buckets, events: seq<Event>, before: Buckets, seen: seq<Key>, last: Buckets, log: seq<Key>)
    requires WellFormed(h) && events != []
    decreases |events| - 1, 1
  {
    var e := events[|events| - 1];
    && before.cursor <= |before.table| && Admissible(before, e)
    && last == Effect(before, e) && log == Logged(before, seen, e)
    && IsRun(h, events[..|events| - 1], before, seen)
  }

  lemma {:induction false} RunKeepsTally(h: Buckets, events: seq<Event>, last: Buckets, log: seq<Key>)
    requires WellFormed(h) && h.cursor == 0 && IsRun(h, events, last, log)
    ensures WellFormed(last) && Tally(last, log)
  {
    if events != [] {
      var before, seen :| Continues(h, events, before, seen, last, log);
      RunKeepsTally(h, events[..|events| - 1], before, seen);
      StepKeepsTally(before, seen, events[|events| - 1]);
    }
  }

  /** Whatever was deleted on the way, a walk that answers `None` has yielded every surviving key exactly once. */
  lemma WalkYieldsEverySurvivorOnce(h: Buckets, events: seq<Event>, last: Buckets, log: seq<Key>)
    requires WellFormed(h) && h.cursor == 0 && IsRun(h, events, last, log)
    ensures last.cursor <= |last.table| && Distinct(log)
    ensures Yield(last).None? ==> KeySet(log) == KeysIn(last.table, |last.table|)
  {
    RunKeepsTally(h, events, last, log);
    EachKeepsTally(last, log);
  }
}
