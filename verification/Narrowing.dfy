/**
  * Any number of threads narrowing one shared scan slot through the compare-exchange meet loop.  Every load and every
  * exchange is one atomic step; an exchange may also fail for no reason, as the weak form allows.
  */
module Narrowing {
  import opened Wrappers
  import opened Scan
  import opened ScanMeet

  datatype Phase = Start | Looping(current: ScanState) | Done

  datatype Narrower = Narrower(cert: ScanState, phase: Phase)

  datatype Shared = Shared(slot: ScanState, threads: seq<Narrower>)

  /** One atomic step of thread `i`: its first load, its exit when nothing would change, or one exchange attempt. */
  ghost predicate Step(s: Shared, s': Shared, i: nat) {
    && i < |s.threads|
    && var t := s.threads[i];
       match t.phase
       case Start => s' == Moved(s, i, Looping(s.slot))
       case Looping(current) =>
         var merged := Meet(current, t.cert);
         if merged == current then s' == Moved(s, i, Done)
         else
           || (s.slot == current && s' == Moved(s, i, Done).(slot := merged))
           || s' == Moved(s, i, Looping(s.slot))
       case Done => false
  }

  ghost function Moved(s: Shared, i: nat, phase: Phase): Shared
    requires i < |s.threads|
  {
    s.(threads := s.threads[i := s.threads[i].(phase := phase)])
  }

  /** The states one interleaving passes through, first to last. */
  ghost predicate IsRun(run: seq<Shared>) {
    && run != []
    && (|run| > 1 ==> IsRun(Before(run)) && exists i :: Step(Last(Before(run)), Last(run), i))
  }

  function Last(run: seq<Shared>): Shared
    requires run != []
  {
    run[|run| - 1]
  }

  function Before(run: seq<Shared>): seq<Shared>
    requires run != []
  {
    run[..|run| - 1]
  }

  ghost predicate AllDone(s: Shared) {
    forall i :: 0 <= i < |s.threads| ==> s.threads[i].phase == Done
  }

  /** Threads that have not begun, each with something true to record about the same immutable bytes. */
  ghost predicate Init(s: Shared, bytes: seq<byte>) {
    && Holds(s.slot, bytes)
    && forall i :: 0 <= i < |s.threads| ==> s.threads[i].phase == Start && Holds(s.threads[i].cert, bytes)
  }

  /** Everything `coarse` asserts is among what `fine` asserts, on every string. */
  ghost predicate Finer(fine: ScanState, coarse: ScanState) {
    forall y :: Holds(fine, y) ==> Holds(coarse, y)
  }

  /** What the initial slot and every certification say together. */
  ghost predicate Together(s0: Shared, y: seq<byte>) {
    Holds(s0.slot, y) && forall i :: 0 <= i < |s0.threads| ==> Holds(s0.threads[i].cert, y)
  }

  ghost predicate Inv(s0: Shared, s: Shared, bytes: seq<byte>) {
    && |s.threads| == |s0.threads|
    && Holds(s.slot, bytes)
    && Finer(s.slot, s0.slot)
    && (forall y :: Together(s0, y) ==> Holds(s.slot, y))
    && forall i :: 0 <= i < |s.threads| ==>
         && s.threads[i].cert == s0.threads[i].cert
         && Holds(s.threads[i].cert, bytes)
         && (s.threads[i].phase.Looping? ==> Finer(s.slot, s.threads[i].phase.current))
         && (s.threads[i].phase.Done? ==> Finer(s.slot, s.threads[i].cert))
  }

  lemma StepKeeps(s0: Shared, s: Shared, s': Shared, i: nat, bytes: seq<byte>)
    requires Inv(s0, s, bytes) && Step(s, s', i)
    ensures Inv(s0, s', bytes) && Finer(s'.slot, s.slot)
  {
    var t := s.threads[i];
    if t.phase.Looping? {
      var current := t.phase.current;
      MeetIsConjunction(current, t.cert, bytes);
    }
  }

  lemma {:induction false} RunKeeps(run: seq<Shared>, bytes: seq<byte>)
    requires IsRun(run) && Init(run[0], bytes)
    ensures Inv(run[0], Last(run), bytes)
    decreases |run|
  {
    if |run| > 1 {
      RunKeeps(Before(run), bytes);
      var i :| Step(Last(Before(run)), Last(run), i);
      StepKeeps(run[0], Last(Before(run)), Last(run), i, bytes);
    }
  }

  /** The slot stays true and only gains facts, over every interleaving. */
  lemma {:induction false} SlotOnlyNarrows(run: seq<Shared>, bytes: seq<byte>, j: nat)
    requires IsRun(run) && Init(run[0], bytes) && j < |run|
    ensures Holds(Last(run).slot, bytes) && Finer(Last(run).slot, run[j].slot)
    decreases |run|
  {
    RunKeeps(run, bytes);
    if j < |run| - 1 {
      var init := Before(run);
      SlotOnlyNarrows(init, bytes, j);
      RunKeeps(init, bytes);
      var i :| Step(Last(init), Last(run), i);
      StepKeeps(run[0], Last(init), Last(run), i, bytes);
    }
  }

  /** Once every thread is done the slot asserts exactly the conjunction of all that was certified. */
  lemma QuiescentSlot(run: seq<Shared>, bytes: seq<byte>)
    requires IsRun(run) && Init(run[0], bytes) && AllDone(Last(run))
    ensures forall y :: Holds(Last(run).slot, y) <==> Together(run[0], y)
  {
    RunKeeps(run, bytes);
    var s0, s := run[0], Last(run);
    forall y | Holds(s.slot, y)
      ensures Together(s0, y)
    {
      forall i | 0 <= i < |s0.threads|
        ensures Holds(s0.threads[i].cert, y)
      {
        assert s.threads[i].phase == Done;
      }
    }
  }

  // ── How much can happen ─────────────────────────────────────────

  /** The classes the slot still allows: it can only shrink, and never below the true one. */
  function Room(s: Shared): nat {
    |Allows(s.slot)|
  }

  lemma SlotChangeShrinks(s0: Shared, s: Shared, s': Shared, i: nat, bytes: seq<byte>)
    requires Inv(s0, s, bytes) && Step(s, s', i)
    ensures Allows(s'.slot) <= Allows(s.slot)
    ensures 1 <= Room(s') <= Room(s) <= 5
    ensures s'.slot != s.slot ==> Room(s') < Room(s)
  {
    var t := s.threads[i];
    HoldsByClass(s.slot, bytes);
    if s'.slot != s.slot {
      HoldsByClass(t.cert, bytes);
      MeetAt(s.slot, t.cert, ClassOf(bytes));
      MeetAllows(s.slot, t.cert);
      if Allows(s'.slot) == Allows(s.slot) {
        AllowsInjective(s'.slot, s.slot);
      }
      ProperSubsetIsSmaller(Allows(s'.slot), Allows(s.slot));
    }
    RoomBounds(s, bytes);
    StepKeeps(s0, s, s', i, bytes);
    RoomBounds(s', bytes);
  }

  lemma RoomBounds(s: Shared, bytes: seq<byte>)
    requires Holds(s.slot, bytes)
    ensures 1 <= Room(s) <= 5
  {
    HoldsByClass(s.slot, bytes);
    assert ClassOf(bytes) in Allows(s.slot);
    var all := {AsciiClass, Latin1Class, NonLatin1Class, ExtendedClass, MalformedClass};
    assert Allows(s.slot) <= all;
    SubsetIsNoLarger(Allows(s.slot), all);
  }

  lemma {:induction false} SubsetIsNoLarger<T>(a: set<T>, b: set<T>)
    requires a <= b
    ensures |a| <= |b|
  {
    if x :| x in a {
      SubsetIsNoLarger(a - {x}, b - {x});
    }
  }

  lemma ProperSubsetIsSmaller<T>(a: set<T>, b: set<T>)
    requires a < b
    ensures |a| < |b|
  {
    var x :| x in b && x !in a;
    SubsetIsNoLarger(a, b - {x});
  }

  /** How often the slot's value changed. */
  function Changes(run: seq<Shared>): nat {
    if |run| < 2 then 0
    else Changes(Before(run)) + (if Last(run).slot == Last(Before(run)).slot then 0 else 1)
  }

  lemma {:induction false} ChangesAgainstRoom(run: seq<Shared>, bytes: seq<byte>)
    requires IsRun(run) && Init(run[0], bytes)
    ensures Changes(run) + Room(Last(run)) <= Room(run[0])
    decreases |run|
  {
    if |run| > 1 {
      var init := Before(run);
      ChangesAgainstRoom(init, bytes);
      RunKeeps(init, bytes);
      var i :| Step(Last(init), Last(run), i);
      SlotChangeShrinks(run[0], Last(init), Last(run), i, bytes);
    }
  }

  /** However many threads race, at most four exchanges ever change the slot. */
  lemma AtMostFourChanges(run: seq<Shared>, bytes: seq<byte>)
    requires IsRun(run) && Init(run[0], bytes)
    ensures Changes(run) <= 4
  {
    ChangesAgainstRoom(run, bytes);
    RunKeeps(run, bytes);
    RoomBounds(run[0], bytes);
    RoomBounds(Last(run), bytes);
  }

  lemma FinerAllows(fine: ScanState, coarse: ScanState)
    requires Finer(fine, coarse)
    ensures Allows(fine) <= Allows(coarse)
  {
    forall t | t in Allows(fine)
      ensures t in Allows(coarse)
    {
      WitnessClass(t);
      HoldsByClass(fine, Witness(t));
      HoldsByClass(coarse, Witness(t));
    }
  }

  /**
    * An exchange that fails because another thread got there first leaves its own thread with strictly less room, so
    * no thread retries more than four times on that account.
    */
  lemma LostRaceNarrows(s0: Shared, s: Shared, s': Shared, i: nat, bytes: seq<byte>)
    requires Inv(s0, s, bytes) && Step(s, s', i)
    requires s.threads[i].phase.Looping? && s.slot != s.threads[i].phase.current && !s'.threads[i].phase.Done?
    ensures s'.slot == s.slot && s'.threads[i].phase == Looping(s.slot)
    ensures |Allows(s.slot)| < |Allows(s.threads[i].phase.current)|
  {
    var current := s.threads[i].phase.current;
    FinerAllows(s.slot, current);
    if Allows(s.slot) == Allows(current) {
      AllowsInjective(s.slot, current);
    }
    ProperSubsetIsSmaller(Allows(s.slot), Allows(current));
  }
}
