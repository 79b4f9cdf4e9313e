/**
  * The immutable hash engine: `each` walks a snapshot's keys through an owning iterator and looks every key up live, so
  * deletes and inserts of any kind leave the walk exact for the keys they do not touch.
  */
module ImmutableEngine {
  import opened Values
  import opened WalkLog
  import opened Wrappers

  /** The live map, and the keys the parked snapshot iterator has still to offer. */
  datatype Immutable = Immutable(map_: map<Key, Value>, iter: Option<seq<Key>>)

  /** Every key of the map once, in an order the iterator chooses. */
  predicate IsListing(order: seq<Key>, keys: set<Key>) {
    Distinct(order) && KeySet(order) == keys
  }

  lemma {:induction false} ListingExists(keys: set<Key>) returns (order: seq<Key>)
    ensures IsListing(order, keys)
  {
    order := [];
    if keys != {} {
      var k :| k in keys;
      var rest := ListingExists(keys - {k});
      Appended(rest, k);
      order := rest + [k];
    }
  }

  /** What is left of a walk once the keys no longer live have been skipped. */
  function Skipped(walk: seq<Key>, live: set<Key>): (r: seq<Key>)
    ensures r != [] ==> r[0] in live
  {
    if walk == [] || walk[0] in live then walk else Skipped(walk[1..], live)
  }

  /** Skipping drops no live key. */
  lemma {:induction false} SkippedKeepsLive(walk: seq<Key>, live: set<Key>)
    requires Distinct(walk)
    ensures Distinct(Skipped(walk, live))
    ensures KeySet(walk) * live <= KeySet(Skipped(walk, live)) <= KeySet(walk)
  {
    if walk != [] && walk[0] !in live {
      SkippedKeepsLive(walk[1..], live);
      assert walk == [walk[0]] + walk[1..];
    }
  }

  /** `order` is the snapshot iterator's listing, consulted when an `Each` begins a walk. */
  datatype Event = Each(order: seq<Key>) | Delete(key: Key) | Store(key: Key, value: Value) | Keys

  predicate Admissible(h: Immutable, e: Event) {
    e.Each? && h.iter.None? ==> IsListing(e.order, h.map_.Keys)
  }

  function Walking(h: Immutable, e: Event): seq<Key>
    requires e.Each?
  {
    Skipped(if h.iter.Some? then h.iter.value else e.order, h.map_.Keys)
  }

  function Effect(h: Immutable, e: Event): Immutable {
    match e
    case Each(_) => (var walk := Walking(h, e); h.(iter := if walk == [] then None else Some(walk[1..])))
    case Delete(key) => h.(map_ := h.map_ - {key})
    case Store(key, value) => h.(map_ := h.map_[key := value])
    case Keys => h.(iter := None)
  }

  function Yield(h: Immutable, e: Event): (r: Option<Entry>)
    requires e.Each?
    ensures r.Some? ==> r.value.key in h.map_ && h.map_[r.value.key] == r.value.value
  {
    var walk := Walking(h, e);
    if walk == [] then None else Some(Entry(walk[0], h.map_[walk[0]]))
  }

  class ImmutableHash {
    var map_: map<Key, Value>
    var iter: Option<seq<Key>>
    var readonly: bool

    ghost function State(): Immutable
      reads this
    {
      Immutable(map_, iter)
    }

    method Store(key: Key, value: Value) returns (ok: bool)
      modifies this`map_
      ensures ok == !readonly
      ensures State() == if ok then Effect(old(State()), Event.Store(key, value)) else old(State())
    {
      ok := !readonly;
      if ok {
        map_ := map_[key := value];
      }
    }

    method Delete(key: Key) returns (ok: bool, value: Value)
      modifies this`map_
      ensures ok == !readonly
      ensures State() == if ok then Effect(old(State()), Event.Delete(key)) else old(State())
      ensures value == if ok && key in old(map_) then old(map_)[key] else Undef
    {
      ok := !readonly;
      value := if ok && key in map_ then map_[key] else Undef;
      if ok {
        map_ := map_ - {key};
      }
    }

    /** Walk the parked iterator, or a fresh snapshot's, to the first key still live. */
    method Each() returns (pair: Option<Entry>, ghost order: seq<Key>)
      modifies this`iter
      ensures Admissible(old(State()), Event.Each(order))
      ensures State() == Effect(old(State()), Event.Each(order)) && pair == Yield(old(State()), Event.Each(order))
    {
      order := ListingExists(map_.Keys);
      var walk;
      if iter.Some? {
        walk := iter.value;
      } else {
        walk :| IsListing(walk, map_.Keys);
        order := walk;
      }
      ghost var begun := walk;
      while walk != []
        invariant Skipped(walk, map_.Keys) == Skipped(begun, map_.Keys)
        decreases |walk|
      {
        var key := walk[0];
        if key in map_ {
          iter := Some(walk[1..]);
          return Some(Entry(key, map_[key])), order;
        }
        walk := walk[1..];
      }
      iter := None;
      pair := None;
    }
  }

  // ── Runs ────────────────────────────────────────────────────────

  /**
    * A walk as a run sees it: the keys it has yielded, and those of its snapshot's keys that have been live ever since
    * the snapshot was taken.
    */
  datatype Walk = Walk(log: seq<Key>, steady: set<Key>)

  const NoWalk := Walk([], {})

  function Advance(h: Immutable, w: Walk, e: Event): Walk {
    match e
    case Each(order) =>
      (var begun := if h.iter.Some? then w else Walk([], KeySet(order));
       match Yield(h, e)
       case Some(entry) => begun.(log := begun.log + [entry.key])
       case None => NoWalk)
    case Delete(key) => w.(steady := w.steady - {key})
    case Store(_, _) => w
    case Keys => NoWalk
  }

  /** No key is yielded twice or still to come once yielded, and every steady key is one or the other. */
  ghost predicate Sound(h: Immutable, w: Walk) {
    && Distinct(w.log)
    && w.steady <= h.map_.Keys
    && match h.iter
       case None => w == NoWalk
       case Some(rest) => Distinct(rest) && KeySet(w.log) !! KeySet(rest) && w.steady <= KeySet(w.log) + KeySet(rest)
  }

  lemma Headed(walk: seq<Key>)
    requires walk != [] && Distinct(walk)
    ensures Distinct(walk[1..]) && KeySet(walk) == KeySet(walk[1..]) + {walk[0]} && walk[0] !in KeySet(walk[1..])
  {
    assert walk == [walk[0]] + walk[1..];
  }

  lemma EachKeepsSound(h: Immutable, w: Walk, e: Event)
    requires e.Each? && h.iter.Some? && Sound(h, w)
    ensures Sound(Effect(h, e), Advance(h, w, e))
    ensures Yield(h, e).None? ==> w.steady <= KeySet(w.log)
    ensures Yield(h, e).Some? ==> Yield(h, e).value.key !in KeySet(w.log)
  {
    hide KeySet, Distinct, Skipped;
    SkippedKeepsLive(h.iter.value, h.map_.Keys);
    var walk := Walking(h, e);
    assert w.steady <= KeySet(w.log) + KeySet(walk) by {
      forall k | k in w.steady && k !in KeySet(w.log)
        ensures k in KeySet(walk)
      {
        assert k in KeySet(h.iter.value) * h.map_.Keys;
      }
    }
    if walk == [] {
      Nothing();
    } else {
      Headed(walk);
      Appended(w.log, walk[0]);
    }
  }

  lemma Nothing()
    ensures KeySet([]) == {} && Distinct([])
  {}

  lemma StepKeepsSound(h: Immutable, w: Walk, e: Event)
    requires Sound(h, w) && Admissible(h, e)
    ensures Sound(Effect(h, e), Advance(h, w, e))
  {
    hide KeySet, Distinct, Skipped;
    Nothing();
    if e.Each? {
      if h.iter.Some? {
        EachKeepsSound(h, w, e);
      } else {
        EachKeepsSound(h.(iter := Some(e.order)), Walk([], KeySet(e.order)), e);
      }
    }
  }

  function Final(h: Immutable, events: seq<Event>): Immutable {
    if events == [] then h else Effect(Final(h, events[..|events| - 1]), events[|events| - 1])
  }

  function Progress(h: Immutable, events: seq<Event>): Walk {
    if events == [] then NoWalk
    else
      var before := events[..|events| - 1];
      Advance(Final(h, before), Progress(h, before), events[|events| - 1])
  }

  predicate AdmissibleRun(h: Immutable, events: seq<Event>) {
    events == [] || (
      && AdmissibleRun(h, events[..|events| - 1])
      && Admissible(Final(h, events[..|events| - 1]), events[|events| - 1]))
  }

  lemma {:induction false} RunKeepsSound(h: Immutable, events: seq<Event>)
    requires h.iter.None? && AdmissibleRun(h, events)
    ensures Sound(Final(h, events), Progress(h, events))
  {
    if events != [] {
      var before := events[..|events| - 1];
      RunKeepsSound(h, before);
      StepKeepsSound(Final(h, before), Progress(h, before), events[|events| - 1]);
    }
  }

  /**
    * At every point of every run the walk under way has yielded no key twice; when its next `each` answers `None`, it
    * has yielded every key live throughout, and a pair it answers instead is a new key with the value it has now.
    */
  lemma WalkIsExact(h: Immutable, events: seq<Event>, e: Event)
    requires h.iter.None? && AdmissibleRun(h, events) && e.Each? && Final(h, events).iter.Some?
    ensures var now, walk := Final(h, events), Progress(h, events);
            && Distinct(walk.log)
            && (Yield(now, e).None? ==> walk.steady <= KeySet(walk.log))
            && (Yield(now, e).Some? ==>
                  var pair := Yield(now, e).value;
                  pair.key in now.map_ && pair.value == now.map_[pair.key] && pair.key !in KeySet(walk.log))
  {
    RunKeepsSound(h, events);
    EachKeepsSound(Final(h, events), Progress(h, events), e);
  }
}
