/**
  * Perl's arrays over a slot buffer whose live window floats behind a gap, so that `shift` slides the window instead of
  * the elements and `unshift` reclaims the gap.  Each operation is proved against a sequence with holes, whichever arm
  * of the header holds the geometry and whether or not the allocator serves the request.
  */
module GapArray {
  import opened Values
  import opened Wrappers

  /** A slot: `None` is a hole, `Some(Undef)` an existing element holding undef. */
  type Slot = Option<Value>

  const USIZE_MAX := 0xFFFF_FFFF_FFFF_FFFF

  const U32_MAX := 0xFFFF_FFFF

  newtype u32 = x: int | 0 <= x <= U32_MAX

  // ── The sequence with holes ─────────────────────────────────────

  function Holes(n: nat): seq<Slot> {
    seq(n, _ => None)
  }

  function Extended(s: seq<Slot>, n: nat): seq<Slot> {
    if n <= |s| then s else s + Holes(n - |s|)
  }

  /** Reading never creates: a hole and an index past the end look alike. */
  function Get(s: seq<Slot>, i: nat): Slot {
    if i < |s| then s[i] else None
  }

  /** The sequence without its trailing holes. */
  function Trimmed(s: seq<Slot>): seq<Slot> {
    if |s| > 0 && s[|s| - 1].None? then Trimmed(s[..|s| - 1]) else s
  }

  function Deleted(s: seq<Slot>, i: nat): seq<Slot> {
    if i >= |s| then s
    else if i == |s| - 1 then Trimmed(s[i := None])
    else s[i := None]
  }

  type usize = n: nat | n <= USIZE_MAX

  datatype Op =
    | Set(index: usize, value: Value)
    | Ensure(index: usize)
    | Delete(index: usize)
    | Push(value: Value)
    | Pop
    | Shift
    | Unshift(value: Value)
    | Clear

  datatype Outcome = Done | Got(value: Value) | ReadOnly | OutOfMemory

  /** The sequence after an operation that ran to its end. */
  function After(s: seq<Slot>, op: Op): seq<Slot> {
    match op
    case Set(i, v) => Extended(s, i + 1)[i := Some(v)]
    case Ensure(i) => Extended(s, i + 1)[i := Some(OrUndef(Get(s, i)))]
    case Delete(i) => Deleted(s, i)
    case Push(v) => s + [Some(v)]
    case Pop => if s == [] then s else s[..|s| - 1]
    case Shift => if s == [] then s else s[1..]
    case Unshift(v) => [Some(v)] + s
    case Clear => []
  }

  /** The answer of an operation that ran to its end. */
  function Answer(s: seq<Slot>, op: Op): Outcome {
    match op
    case Ensure(i) => Got(OrUndef(Get(s, i)))
    case Delete(i) => Got(OrUndef(Get(s, i)))
    case Pop => Got(if s == [] then Undef else OrUndef(s[|s| - 1]))
    case Shift => Got(if s == [] then Undef else OrUndef(s[0]))
    case _ => Done
  }

  predicate Grows(op: Op) {
    op.Set? || op.Ensure? || op.Push? || op.Unshift?
  }

  /** The one relation between an operation's sequence before, its outcome and its sequence after. */
  predicate Performs(op: Op, readonly: bool, before: seq<Slot>, out: Outcome, after: seq<Slot>) {
    if readonly then out == ReadOnly && after == before
    else if out == OutOfMemory then Grows(op) && after == before
    else out == Answer(before, op) && after == After(before, op)
  }

  // ── What the specification promises ─────────────────────────────

  lemma {:induction false} TrimmedIsLongestOccupied(s: seq<Slot>)
    ensures var t := Trimmed(s);
            && t <= s
            && (t != [] ==> t[|t| - 1].Some?)
            && forall k :: |t| <= k < |s| ==> s[k].None?
  {
    if |s| > 0 && s[|s| - 1].None? {
      TrimmedIsLongestOccupied(s[..|s| - 1]);
    }
  }

  /** Deleting makes one index read as a hole, no other index reads differently, and only the end can be cut. */
  lemma DeleteObserved(s: seq<Slot>, i: nat, k: nat)
    ensures Get(Deleted(s, i), k) == if k == i then None else Get(s, k)
    ensures i + 1 == |s| ==> Deleted(s, i) == [] || Deleted(s, i)[|Deleted(s, i)| - 1].Some?
    ensures i + 1 != |s| ==> |Deleted(s, i)| == |s|
  {
    if i < |s| {
      TrimmedIsLongestOccupied(s[i := None]);
    }
  }

  /** Assigning past the end leaves only holes between, and no other index reads differently. */
  lemma SetObserved(s: seq<Slot>, i: usize, v: Value, k: nat)
    ensures Get(After(s, Set(i, v)), k) == if k == i then Some(v) else Get(s, k)
    ensures |After(s, Set(i, v))| == if i < |s| then |s| else i + 1
    ensures Get(After(s, Ensure(i)), k) == if k == i then Some(OrUndef(Get(s, i))) else Get(s, k)
  {}

  /** Taking an element out answers what was there, and taking it again answers undef, as a hole does. */
  lemma DeleteAnswers(s: seq<Slot>, i: usize, v: Value)
    ensures Answer(After(s, Set(i, v)), Delete(i)) == Got(v)
    ensures Answer(After(s, Delete(i)), Delete(i)) == Got(Undef)
    ensures Answer(After(s, Set(i, v)), Ensure(i)) == Got(v)
    ensures Answer(After(s, Delete(i)), Ensure(i)) == Got(Undef)
    ensures Get(s, i).None? ==> Answer(s, Delete(i)) == Answer(s, Ensure(i)) == Got(Undef)
  {
    DeleteObserved(s, i, i);
    SetObserved(s, i, v, i);
  }

  /** At the ends a hole comes away as undef, and an empty array stays as it is. */
  lemma HolesComeAway(s: seq<Slot>)
    ensures After(s + [None], Pop) == s && Answer(s + [None], Pop) == Got(Undef)
    ensures After([None] + s, Shift) == s && Answer([None] + s, Shift) == Got(Undef)
    ensures After([], Pop) == After([], Shift) == [] && Answer([], Pop) == Answer([], Shift) == Got(Undef)
  {
    assert (s + [None])[..|s|] == s;
    assert ([None] + s)[1..] == s;
  }

  /** `push` is undone by `pop`, `unshift` by `shift`, each handing the value back. */
  lemma EndsInvert(s: seq<Slot>, v: Value)
    ensures After(After(s, Push(v)), Pop) == s && Answer(After(s, Push(v)), Pop) == Got(v)
    ensures After(After(s, Unshift(v)), Shift) == s && Answer(After(s, Unshift(v)), Shift) == Got(v)
  {
    assert (s + [Some(v)])[..|s|] == s;
    assert ([Some(v)] + s)[1..] == s;
  }

  // ── The geometry and its header ─────────────────────────────────

  /** Buffer base, gap size, live count, and usable slots from the gap's end. */
  datatype Geometry = Geometry(ptr: array<Slot>, start: nat, len: nat, cap: nat)

  /** The two arms: `u32` fields beside the buffer's base, or one box holding the wide geometry. */
  datatype Header =
    | Small(ptr: array<Slot>, start: u32, len: u32, cap: u32)
    | Large(wide: Geometry)

  function Parts(h: Header): Geometry {
    match h
    case Small(ptr, start, len, cap) => Geometry(ptr, start as nat, len as nat, cap as nat)
    case Large(wide) => wide
  }

  predicate Fits(g: Geometry) {
    g.start <= U32_MAX && g.len <= U32_MAX && g.cap <= U32_MAX
  }

  function StoreParts(h: Header, g: Geometry): (r: Header)
    ensures Parts(r) == g
    ensures r.Large? <==> h.Large? || !Fits(g)
  {
    if h.Large? then Large(g)
    else if Fits(g) then Small(g.ptr, g.start as u32, g.len as u32, g.cap as u32)
    else Large(g)
  }

  /** The whole buffer is gap plus capacity, and every slot outside the live window is empty. */
  ghost predicate Framed(slots: seq<Slot>, start: nat, len: nat, cap: nat) {
    && start + cap == |slots|
    && len <= cap
    && (forall k :: 0 <= k < start || start + len <= k < |slots| ==> slots[k].None?)
  }

  ghost predicate WellFormed(g: Geometry)
    reads g.ptr
  {
    g.ptr.Length <= USIZE_MAX && Framed(g.ptr[..], g.start, g.len, g.cap)
  }

  ghost function Live(g: Geometry): seq<Slot>
    requires g.start + g.len <= g.ptr.Length
    reads g.ptr
  {
    g.ptr[..][g.start..g.start + g.len]
  }

  /** What a run of `unshift` has prepaid: two moves for each live slot beyond the gap. */
  function Potential(g: Geometry): int {
    2 * (g.len - g.start)
  }

  // ── Growth ──────────────────────────────────────────────────────

  /** The allocator grants at least the request, all slots empty, or fails. */
  method AllocateSlots(atLeast: nat) returns (r: Option<array<Slot>>)
    requires atLeast <= USIZE_MAX
    ensures r.Some? ==> fresh(r.value) && atLeast <= r.value.Length <= USIZE_MAX && forall k :: 0 <= k < r.value.Length ==> r.value[k].None?
  {
    if * {
      return None;
    }
    var granted :| atLeast <= granted <= USIZE_MAX;
    var slots := new Slot[granted](_ => None);
    r := Some(slots);
  }

  function Moved(s: seq<Slot>, from: nat, to: nat, n: nat): (r: seq<Slot>)
    requires from + n <= |s| && to + n <= |s|
    ensures |r| == |s|
  {
    s[..to] + s[from..from + n] + s[to + n..]
  }

  function Emptied(s: seq<Slot>, lo: nat, hi: nat): (r: seq<Slot>)
    requires lo <= hi <= |s|
    ensures |r| == |s|
  {
    s[..lo] + Holes(hi - lo) + s[hi..]
  }

  /** Copy `n` slots between two places of one buffer, which may overlap. */
  method MoveSlots(a: array<Slot>, from: nat, to: nat, n: nat)
    requires from + n <= a.Length && to + n <= a.Length
    modifies a
    ensures a[..] == Moved(old(a[..]), from, to, n)
  {
    forall k | to <= k < to + n {
      a[k] := a[from + (k - to)];
    }
  }

  method EmptySlots(a: array<Slot>, lo: nat, hi: nat)
    requires lo <= hi <= a.Length
    modifies a
    ensures a[..] == Emptied(old(a[..]), lo, hi)
  {
    forall k | lo <= k < hi {
      a[k] := None;
    }
  }

  lemma ReclaimedSlots(s: seq<Slot>, start: nat, len: nat, cap: nat)
    requires Framed(s, start, len, cap)
    ensures var r := Emptied(Moved(s, start, 0, len), len, start + len);
            Framed(r, 0, len, start + cap) && r[..len] == s[start..start + len]
  {}

  /** Slide the live window to the base and empty what it left. */
  method ReclaimGap(g: Geometry) returns (r: Geometry)
    requires WellFormed(g)
    modifies g.ptr
    ensures WellFormed(r) && Live(r) == old(Live(g))
    ensures r == Geometry(g.ptr, 0, g.len, g.start + g.cap)
  {
    hide Moved, Emptied;
    ReclaimedSlots(g.ptr[..], g.start, g.len, g.cap);
    MoveSlots(g.ptr, g.start, 0, g.len);
    EmptySlots(g.ptr, g.len, g.start + g.len);
    r := Geometry(g.ptr, 0, g.len, g.start + g.cap);
  }

  lemma MovedOutSlots(s: seq<Slot>, start: nat, len: nat, cap: nat, t: seq<Slot>)
    requires Framed(s, start, len, cap) && len <= |t| && t == s[start..start + len] + Holes(|t| - len)
    ensures Framed(t, 0, len, |t|) && t[..len] == s[start..start + len]
  {}

  /** Move the live slots to the base of a new buffer; the old one is released without reading its slots. */
  method Reallocate(g: Geometry, requested: nat) returns (ok: bool, r: Geometry)
    requires WellFormed(g) && g.len <= requested
    ensures WellFormed(r) && Live(r) == Live(g) && r.len == g.len
    ensures ok ==> fresh(r.ptr) && r.start == 0 && r.cap >= requested
    ensures !ok ==> r == g
  {
    ok, r := false, g;
    if requested > USIZE_MAX {
      return;
    }
    var grant := AllocateSlots(requested);
    if grant.None? {
      return;
    }
    var slots := grant.value;
    forall i | 0 <= i < g.len {
      slots[i] := g.ptr[g.start + i];
    }
    assert slots[..] == g.ptr[..][g.start..g.start + g.len] + Holes(slots.Length - g.len);
    MovedOutSlots(g.ptr[..], g.start, g.len, g.cap, slots[..]);
    ok, r := true, Geometry(slots, 0, g.len, slots.Length);
  }

  /** Reclaim the gap, then allocate anew on the curve `requested + cap / 5`. */
  method Grow(g: Geometry, minCap: nat) returns (ok: bool, r: Geometry, moved: nat)
    requires WellFormed(g)
    modifies g.ptr
    ensures WellFormed(r) && Live(r) == old(Live(g)) && r.len == g.len
    ensures r.ptr == g.ptr || fresh(r.ptr)
    ensures ok ==> r.cap >= minCap
    ensures g.cap >= minCap ==> ok && r == g && moved == 0
    ensures !ok ==> r == Geometry(g.ptr, 0, g.len, g.start + g.cap) && minCap > g.start + g.cap
    ensures g.start == 0 ==> r.start == 0 && moved <= (if ok then g.len else 0)
    ensures g.cap >= minCap || (!ok && g.start == 0) ==> unchanged(g.ptr)
  {
    hide Framed, Live;
    ok, r, moved := true, g, 0;
    if g.cap >= minCap {
      return;
    }
    if g.start > 0 {
      r := ReclaimGap(g);
      moved := g.len;
      if r.cap >= minCap {
        return;
      }
    }
    assert r.len <= r.cap by {
      WindowFits(r);
    }
    ok, r := Reallocate(r, minCap + r.cap / 5);
    moved := if ok then moved + r.len else moved;
  }

  lemma WindowFits(g: Geometry)
    requires WellFormed(g)
    ensures g.start + g.len <= g.ptr.Length == g.start + g.cap && g.len <= g.cap
  {}

  /** Taking empty slots into the window adds holes at the end. */
  lemma WidenLive(g: Geometry, needed: nat)
    requires WellFormed(g) && g.len <= needed <= g.cap
    ensures WellFormed(g.(len := needed)) && Live(g.(len := needed)) == Extended(Live(g), needed)
  {
    var wide := g.(len := needed);
    forall k | 0 <= k < needed
      ensures Live(wide)[k] == Extended(Live(g), needed)[k]
    {
      assert Live(wide)[k] == g.ptr[g.start + k];
    }
  }

  /** Make the live window reach `index + 1`; the slots it takes in are holes already. */
  method ExtendTo(g: Geometry, index: nat) returns (ok: bool, r: Geometry)
    requires WellFormed(g) && index <= USIZE_MAX
    modifies g.ptr
    ensures WellFormed(r) && (r.ptr == g.ptr || fresh(r.ptr))
    ensures ok ==> Live(r) == Extended(old(Live(g)), index + 1)
    ensures !ok ==> Live(r) == old(Live(g)) && r.len == g.len && r.ptr == g.ptr
    ensures !ok ==> r == if index == USIZE_MAX then g else Geometry(g.ptr, 0, g.len, g.start + g.cap)
    ensures !ok && r.start == g.start ==> unchanged(g.ptr)
    ensures g.start == 0 ==> r.start == 0
  {
    hide Extended;
    ok, r := true, g;
    if index == USIZE_MAX {
      return false, g;
    }
    var needed := index + 1;
    if needed > g.cap {
      var moved;
      ok, r, moved := Grow(g, needed);
      if !ok {
        return;
      }
    }
    if needed > r.len {
      WidenLive(r, needed);
      r := r.(len := needed);
    } else {
      ExtendedWithin(Live(r), needed);
    }
  }

  lemma ExtendedWithin(s: seq<Slot>, n: nat)
    requires n <= |s|
    ensures Extended(s, n) == s
  {}

  // ── The front ───────────────────────────────────────────────────

  lemma MovedUpAt(s: seq<Slot>, len: nat, shift: nat, m: nat, k: nat)
    requires len + shift <= |s| && m <= shift && m <= len && k < |s|
    ensures Emptied(Moved(s, 0, shift, len), 0, m)[k] ==
            if k < m then None else if shift <= k < shift + len then s[k - shift] else s[k]
  {
    var moved := Moved(s, 0, shift, len);
    assert moved[k] == if shift <= k < shift + len then s[k - shift] else s[k];
  }

  lemma MovedUpSlots(s: seq<Slot>, len: nat, shift: nat)
    requires Framed(s, 0, len, |s|) && len + shift <= |s|
    ensures var r := Emptied(Moved(s, 0, shift, len), 0, if shift < len then shift else len);
            Framed(r, shift, len, |s| - shift) && r[shift..shift + len] == s[..len]
  {
    hide Moved, Emptied;
    var m := if shift < len then shift else len;
    var r := Emptied(Moved(s, 0, shift, len), 0, m);
    forall k | 0 <= k < |s|
      ensures r[k] == if k < m then None else if shift <= k < shift + len then s[k - shift] else s[k]
    {
      MovedUpAt(s, len, shift, m, k);
    }
    SameWindow(r, s, shift, len);
    forall k | 0 <= k < shift || shift + len <= k < |r|
      ensures r[k].None?
    {
      MovedUpAt(s, len, shift, m, k);
    }
  }

  lemma SameWindow(r: seq<Slot>, s: seq<Slot>, shift: nat, len: nat)
    requires shift + len <= |r| && len <= |s| && forall k :: shift <= k < shift + len ==> r[k] == s[k - shift]
    ensures r[shift..shift + len] == s[..len]
  {}

  /** Filling the last slot of the gap puts a value before the window. */
  lemma FilledFront(s: seq<Slot>, start: nat, len: nat, cap: nat, slot: Slot)
    requires Framed(s, start, len, cap) && start > 0
    ensures var t := s[start - 1 := slot];
            Framed(t, start - 1, len + 1, cap + 1) && t[start - 1..start + len] == [slot] + s[start..start + len]
  {}

  /** Slide the live slots right by `shift`, leaving a gap of empty slots. */
  method OpenGap(g: Geometry, shift: nat) returns (r: Geometry)
    requires WellFormed(g) && g.start == 0 && g.len + shift <= g.cap
    modifies g.ptr
    ensures WellFormed(r) && Live(r) == old(Live(g))
    ensures r == Geometry(g.ptr, shift, g.len, g.cap - shift)
  {
    hide Moved, Emptied;
    MovedUpSlots(g.ptr[..], g.len, shift);
    MoveSlots(g.ptr, 0, shift, g.len);
    EmptySlots(g.ptr, 0, if shift < g.len then shift else g.len);
    r := Geometry(g.ptr, shift, g.len, g.cap - shift);
  }

  /** Put a slot where the gap ends. */
  method FillFront(g: Geometry, slot: Slot) returns (r: Geometry)
    requires WellFormed(g) && g.start > 0
    modifies g.ptr
    ensures WellFormed(r) && Live(r) == [slot] + old(Live(g))
    ensures r == Geometry(g.ptr, g.start - 1, g.len + 1, g.cap + 1)
  {
    FilledFront(g.ptr[..], g.start, g.len, g.cap, slot);
    g.ptr[g.start - 1] := slot;
    r := Geometry(g.ptr, g.start - 1, g.len + 1, g.cap + 1);
    assert g.ptr[..] == old(g.ptr[..])[g.start - 1 := slot];
  }

  /**
    * Perl's two phases: reclaim a slot of the gap, or slide the live slots by the need plus a fill that is carved back
    * off as fresh gap.  `moved` counts the live slots copied, paid for by the potential.
    */
  method UnshiftParts(g: Geometry, value: Value) returns (ok: bool, r: Geometry, moved: nat)
    requires WellFormed(g)
    modifies g.ptr
    ensures WellFormed(r) && (r.ptr == g.ptr || fresh(r.ptr))
    ensures Live(r) == if ok then [Some(value)] + old(Live(g)) else old(Live(g))
    ensures !ok ==> r == g && g.start == 0 && moved == 0
    ensures moved + Potential(r) <= Potential(g) + 4
    ensures 0 <= Potential(g) ==> 0 <= Potential(r)
  {
    hide Live, Framed;
    ok, r, moved := true, g, 0;
    if g.start == 0 {
      var slide := if g.len >= 2 then g.len - 1 else 0;
      ok, r, moved := Grow(g, g.len + 1 + slide);
      if !ok {
        WindowFits(r);
        return;
      }
      r := OpenGap(r, 1 + slide);
      moved := moved + r.len;
    }
    r := FillFront(r, Some(value));
  }

  // ── Single slots and the end ────────────────────────────────────

  method StoreAt(g: Geometry, index: nat, slot: Slot)
    requires WellFormed(g) && index < g.len
    modifies g.ptr
    ensures WellFormed(g) && Live(g) == old(Live(g))[index := slot]
  {
    g.ptr[g.start + index] := slot;
    assert g.ptr[..] == old(g.ptr[..])[g.start + index := slot];
  }

  /** A hole at either end may leave the window. */
  lemma NarrowLive(g: Geometry)
    requires WellFormed(g) && g.len > 0
    ensures Live(g)[g.len - 1].None? ==>
              var r := g.(len := g.len - 1);
              WellFormed(r) && Live(r) == Live(g)[..g.len - 1]
    ensures Live(g)[0].None? ==>
              var r := Geometry(g.ptr, g.start + 1, g.len - 1, g.cap - 1);
              WellFormed(r) && Live(r) == Live(g)[1..]
  {
    assert Live(g)[0] == g.ptr[..][g.start] && Live(g)[g.len - 1] == g.ptr[..][g.start + g.len - 1];
  }

  /** Shorten the window through its trailing holes. */
  method TrimParts(g: Geometry) returns (r: Geometry)
    requires WellFormed(g)
    ensures WellFormed(r) && r.ptr == g.ptr && Live(r) == Trimmed(Live(g))
  {
    r := g;
    while r.len > 0 && r.ptr[r.start + r.len - 1].None?
      invariant WellFormed(r) && r.ptr == g.ptr && Trimmed(Live(r)) == Trimmed(Live(g))
      decreases r.len
    {
      NarrowLive(r);
      r := r.(len := r.len - 1);
    }
  }

  method ClearParts(g: Geometry) returns (r: Geometry)
    requires WellFormed(g)
    modifies g.ptr
    ensures WellFormed(r) && r.ptr == g.ptr && Live(r) == []
  {
    EmptySlots(g.ptr, g.start, g.start + g.len);
    r := g.(len := 0);
  }

  // ── A reallocation refused half way ─────────────────────────────

  /** The live window read where the gap used to end, after its slots have moved down by the gap. */
  function Slid(s: seq<Slot>, gap: nat): seq<Slot> {
    if gap <= |s| then s[gap..] + Holes(gap) else Holes(|s|)
  }

  predicate HolesBefore(s: seq<Slot>, n: nat) {
    forall k :: 0 <= k < n && k < |s| ==> s[k].None?
  }

  lemma SlidSlots(t: seq<Slot>, start: nat, len: nat, cap: nat)
    requires Framed(t, 0, len, start + cap) && len <= cap
    ensures t[start..start + len] == Slid(t[..len], start)
    ensures Framed(t, start, len, cap) <==> HolesBefore(t[..len], start)
  {
    assert forall k :: 0 <= k < len ==> t[..len][k] == t[k];
  }

  /** Exactly when the stale geometry still shows the sequence it showed before. */
  lemma SlidUnchangedIff(s: seq<Slot>, gap: nat)
    ensures Slid(s, gap) == s <==> gap == 0 || HolesBefore(s, |s|)
  {
    if gap > 0 && Slid(s, gap) == s {
      forall k | 0 <= k < |s|
        ensures s[k].None?
      {
        SlidTail(s, gap, k);
      }
    }
  }

  lemma {:induction false} SlidTail(s: seq<Slot>, gap: nat, k: nat)
    requires gap > 0 && Slid(s, gap) == s && k < |s|
    ensures s[k].None?
    decreases |s| - k
  {
    assert s[k] == Slid(s, gap)[k];
    if k + gap < |s| {
      SlidTail(s, gap, k + gap);
    }
  }

  /** A refused vivification that shows nothing: the index overflows, there is no gap, or there are only holes. */
  predicate Spared(s: seq<Slot>, gap: nat, index: usize) {
    index == USIZE_MAX || gap == 0 || HolesBefore(s, |s|)
  }

  /** What a geometry left behind shows, once its slots have been slid to the base. */
  lemma StaleGeometry(g: Geometry, slid: Geometry)
    requires WellFormed(slid) && slid == Geometry(g.ptr, 0, g.len, g.start + g.cap) && g.len <= g.cap
    ensures g.start + g.len <= g.ptr.Length && Live(g) == Slid(Live(slid), g.start)
    ensures WellFormed(g) <==> HolesBefore(Live(slid), g.start)
  {
    SlidSlots(g.ptr[..], g.start, g.len, g.cap);
  }

  method OnlyHoles(g: Geometry) returns (all: bool)
    requires WellFormed(g)
    ensures all <==> HolesBefore(Live(g), g.len)
  {
    all := true;
    for k := 0 to g.len
      invariant all <==> HolesBefore(Live(g), k)
    {
      assert Live(g)[k] == g.ptr[g.start + k];
      all := all && g.ptr[g.start + k].None?;
    }
  }

  method ReadOrVivify(g: Geometry, index: nat) returns (out: Outcome)
    requires WellFormed(g) && index < g.len
    modifies g.ptr
    ensures WellFormed(g) && Live(g) == old(Live(g))[index := Some(OrUndef(old(Live(g))[index]))]
    ensures out == Got(OrUndef(old(Live(g))[index]))
  {
    var slot := g.ptr[g.start + index];
    assert slot == Live(g)[index];
    StoreAt(g, index, Some(OrUndef(slot)));
    out := Got(OrUndef(slot));
  }

  // ── Runs ────────────────────────────────────────────────────────

  function Next(s: seq<Slot>, op: Op, out: Outcome): seq<Slot> {
    if out == ReadOnly || out == OutOfMemory then s else After(s, op)
  }

  function Replay(s: seq<Slot>, ops: seq<Op>, outs: seq<Outcome>): seq<Slot>
    requires |ops| == |outs|
  {
    var n := |ops|;
    if n == 0 then s else Next(Replay(s, ops[..n - 1], outs[..n - 1]), ops[n - 1], outs[n - 1])
  }

  /** Every outcome of the run is the one its operation owes the sequence it met. */
  predicate Faithful(s: seq<Slot>, readonly: bool, ops: seq<Op>, outs: seq<Outcome>)
    requires |ops| == |outs|
  {
    var n := |ops|;
    n == 0 || (
      && Faithful(s, readonly, ops[..n - 1], outs[..n - 1])
      && Performs(ops[n - 1], readonly, Replay(s, ops[..n - 1], outs[..n - 1]), outs[n - 1], Replay(s, ops, outs)))
  }

  lemma AnswerRan(s: seq<Slot>, op: Op)
    ensures Answer(s, op) != ReadOnly && Answer(s, op) != OutOfMemory
  {}

  lemma ReplayStep(s: seq<Slot>, readonly: bool, ops: seq<Op>, outs: seq<Outcome>, op: Op, out: Outcome, after: seq<Slot>)
    requires |ops| == |outs| && Faithful(s, readonly, ops, outs)
    requires Performs(op, readonly, Replay(s, ops, outs), out, after)
    ensures Replay(s, ops + [op], outs + [out]) == after
    ensures Faithful(s, readonly, ops + [op], outs + [out])
  {
    hide After, Answer;
    AnswerRan(Replay(s, ops, outs), op);
    assert (ops + [op])[..|ops|] == ops && (outs + [out])[..|ops|] == outs;
  }

  /** What the three ways a `push` can end come to. */
  lemma PushPerforms(readonly: bool, s: seq<Slot>, v: Value)
    ensures readonly ==> Performs(Op.Push(v), readonly, s, ReadOnly, s)
    ensures !readonly ==> Performs(Op.Push(v), readonly, s, OutOfMemory, s)
    ensures |Extended(s, |s| + 1)| == |s| + 1
    ensures !readonly ==> Performs(Op.Push(v), readonly, s, Done, Extended(s, |s| + 1)[|s| := Some(v)])
  {
    assert Extended(s, |s| + 1)[|s| := Some(v)] == s + [Some(v)];
  }

  /** The array: a header in either arm, and the dynamic readonly flag. */
  class PerlArray {
    var header: Header
    var readonly: bool

    ghost predicate Valid()
      reads this, Parts(header).ptr
    {
      WellFormed(Parts(header))
    }

    ghost function Contents(): seq<Slot>
      requires Valid()
      reads this, Parts(header).ptr
    {
      Live(Parts(header))
    }

    constructor ()
      ensures Valid() && fresh(Parts(header).ptr) && Contents() == [] && !readonly
      ensures Parts(header).start == Parts(header).len == 0
    {
      var slots := new Slot[0];
      header := Small(slots, 0, 0, 0);
      readonly := false;
    }

    method Set(index: usize, value: Value) returns (out: Outcome)
      requires Valid()
      modifies this`header, Parts(header).ptr
      ensures Parts(header).ptr == old(Parts(header).ptr) || fresh(Parts(header).ptr)
      ensures Valid() && Performs(Op.Set(index, value), readonly, old(Contents()), out, Contents())
      ensures old(header.Large?) ==> header.Large?
    {
      hide Live, Framed;
      if readonly {
        return ReadOnly;
      }
      var ok, parts := ExtendTo(Parts(header), index);
      if ok {
        ExtendedLength(parts, old(Contents()), index);
        StoreAt(parts, index, Some(value));
      }
      header := StoreParts(header, parts);
      out := if ok then Done else OutOfMemory;
    }

    /**
      * The lvalue door returns early on a refused allocation, before it stores the geometry whose gap it has already
      * reclaimed: the header keeps the old gap over slots that have moved.
      */
    method EnsureElement(index: usize) returns (out: Outcome)
      requires Valid()
      modifies this`header, Parts(header).ptr
      ensures Parts(header).ptr == old(Parts(header).ptr) || fresh(Parts(header).ptr)
      ensures out != OutOfMemory ==> Valid() && Performs(Ensure(index), readonly, old(Contents()), out, Contents())
      ensures out == OutOfMemory ==> !readonly && header == old(header)
      ensures out == OutOfMemory ==> Parts(header).start + Parts(header).len <= Parts(header).ptr.Length
      ensures out == OutOfMemory ==>
                (Live(Parts(header)) == old(Contents()) <==> Spared(old(Contents()), Parts(header).start, index))
      ensures out == OutOfMemory && Live(Parts(header)) == old(Contents()) ==> Valid()
      ensures out == OutOfMemory && index < USIZE_MAX ==>
                && Live(Parts(header)) == Slid(old(Contents()), Parts(header).start)
                && (Valid() <==> HolesBefore(old(Contents()), Parts(header).start))
      ensures old(header.Large?) ==> header.Large?
    {
      hide Live, Framed, Slid;
      if readonly {
        return ReadOnly;
      }
      WindowFits(Parts(header));
      LiveLength(Parts(header));
      var ok, parts := ExtendTo(Parts(header), index);
      if !ok {
        WindowFits(parts);
        if index < USIZE_MAX {
          StaleGeometry(Parts(header), parts);
          SlidUnchangedIff(Live(parts), Parts(header).start);
        }
        return OutOfMemory;
      }
      ExtendedLength(parts, old(Contents()), index);
      out := ReadOrVivify(parts, index);
      header := StoreParts(header, parts);
    }

    method Delete(index: usize) returns (out: Outcome)
      requires Valid()
      modifies this`header, Parts(header).ptr
      ensures Parts(header).ptr == old(Parts(header).ptr)
      ensures Valid() && Performs(Op.Delete(index), readonly, old(Contents()), out, Contents())
      ensures old(header.Large?) ==> header.Large?
    {
      if readonly {
        return ReadOnly;
      }
      var parts := Parts(header);
      if index >= parts.len {
        return Got(Undef);
      }
      out := Got(OrUndef(parts.ptr[parts.start + index]));
      StoreAt(parts, index, None);
      if index == parts.len - 1 {
        parts := TrimParts(parts);
      }
      header := StoreParts(header, parts);
    }

    method Push(value: Value) returns (out: Outcome)
      requires Valid()
      modifies this`header, Parts(header).ptr
      ensures Parts(header).ptr == old(Parts(header).ptr) || fresh(Parts(header).ptr)
      ensures Valid() && Performs(Op.Push(value), readonly, old(Contents()), out, Contents())
      ensures old(Parts(header).start) == 0 ==> Parts(header).start == 0
      ensures old(header.Large?) ==> header.Large?
    {
      hide Live, Framed, Extended, Performs;
      PushPerforms(readonly, Contents(), value);
      if readonly {
        return ReadOnly;
      }
      var index := Parts(header).len;
      LiveLength(Parts(header));
      WindowFits(Parts(header));
      var ok, parts := ExtendTo(Parts(header), index);
      if ok {
        ExtendedLength(parts, old(Contents()), index);
        StoreAt(parts, index, Some(value));
      }
      header := StoreParts(header, parts);
      out := if ok then Done else OutOfMemory;
    }

    method Pop() returns (out: Outcome)
      requires Valid()
      modifies this`header, Parts(header).ptr
      ensures Parts(header).ptr == old(Parts(header).ptr)
      ensures Valid() && Performs(Op.Pop, readonly, old(Contents()), out, Contents())
      ensures old(header.Large?) ==> header.Large?
    {
      if readonly {
        return ReadOnly;
      }
      var parts := Parts(header);
      if parts.len == 0 {
        return Got(Undef);
      }
      var last := parts.len - 1;
      out := Got(OrUndef(parts.ptr[parts.start + last]));
      StoreAt(parts, last, None);
      NarrowLive(parts);
      header := StoreParts(header, parts.(len := last));
    }

    method Shift() returns (out: Outcome)
      requires Valid()
      modifies this`header, Parts(header).ptr
      ensures Parts(header).ptr == old(Parts(header).ptr)
      ensures Valid() && Performs(Op.Shift, readonly, old(Contents()), out, Contents())
      ensures !readonly && old(Contents()) != [] ==> Parts(header).start == old(Parts(header).start) + 1
      ensures old(header.Large?) ==> header.Large?
    {
      if readonly {
        return ReadOnly;
      }
      var parts := Parts(header);
      if parts.len == 0 {
        return Got(Undef);
      }
      out := Got(OrUndef(parts.ptr[parts.start]));
      StoreAt(parts, 0, None);
      NarrowLive(parts);
      header := StoreParts(header, Geometry(parts.ptr, parts.start + 1, parts.len - 1, parts.cap - 1));
    }

    method Unshift(value: Value) returns (out: Outcome, moved: nat)
      requires Valid()
      modifies this`header, Parts(header).ptr
      ensures Parts(header).ptr == old(Parts(header).ptr) || fresh(Parts(header).ptr)
      ensures Valid() && Performs(Op.Unshift(value), readonly, old(Contents()), out, Contents())
      ensures moved + Potential(Parts(header)) <= old(Potential(Parts(header))) + 4
      ensures 0 <= old(Potential(Parts(header))) ==> 0 <= Potential(Parts(header))
      ensures old(header.Large?) ==> header.Large?
    {
      if readonly {
        return ReadOnly, 0;
      }
      var ok, parts;
      ok, parts, moved := UnshiftParts(Parts(header), value);
      header := StoreParts(header, parts);
      out := if ok then Done else OutOfMemory;
    }

    method Clear() returns (out: Outcome)
      requires Valid()
      modifies this`header, Parts(header).ptr
      ensures Parts(header).ptr == old(Parts(header).ptr)
      ensures Valid() && Performs(Op.Clear, readonly, old(Contents()), out, Contents())
      ensures old(header.Large?) ==> header.Large?
    {
      if readonly {
        return ReadOnly;
      }
      var parts := ClearParts(Parts(header));
      header := StoreParts(header, parts);
      out := Done;
    }

    /** One operation, whichever it is; only a refused `Ensure` over a reclaimed gap tears what the array shows. */
    method Apply(op: Op) returns (out: Outcome, torn: bool)
      requires Valid()
      modifies this`header, Parts(header).ptr
      ensures Parts(header).ptr == old(Parts(header).ptr) || fresh(Parts(header).ptr)
      ensures torn <==> op.Ensure? && out == OutOfMemory && !Spared(old(Contents()), old(Parts(header).start), op.index)
      ensures !torn ==> Valid() && Performs(op, readonly, old(Contents()), out, Contents())
      ensures torn ==> Torn(old(Contents()))
    {
      hide Live, WellFormed, Slid;
      torn := false;
      match op
      case Set(index, value) => out := Set(index, value);
      case Ensure(index) =>
        LiveLength(Parts(header));
        var hollow := OnlyHoles(Parts(header));
        var gap := Parts(header).start;
        out := EnsureElement(index);
        torn := out == OutOfMemory && !(index == USIZE_MAX || gap == 0 || hollow);
      case Delete(index) => out := Delete(index);
      case Push(value) => out := Push(value);
      case Pop => out := Pop();
      case Shift => out := Shift();
      case Unshift(value) =>
        var moved;
        out, moved := Unshift(value);
      case Clear => out := Clear();
    }

    /** The array shows `s` slid down by its gap, and so not `s`. */
    ghost predicate Torn(s: seq<Slot>)
      reads this, Parts(header).ptr
    {
      var g := Parts(header);
      g.start + g.len <= g.ptr.Length && Live(g) == Slid(s, g.start) && Live(g) != s
    }

    /** A run of operations, refused ones included, to its end or to the first refusal that tears what the array shows. */
    method Run(ops: seq<Op>) returns (outs: seq<Outcome>, torn: bool)
      requires Valid()
      modifies this`header, Parts(header).ptr
      ensures |outs| <= |ops| && Faithful(old(Contents()), readonly, ops[..|outs|], outs)
      ensures !torn ==> |outs| == |ops| && Valid() && Contents() == Replay(old(Contents()), ops, outs)
      ensures torn ==> |outs| < |ops| && ops[|outs|].Ensure? && Torn(Replay(old(Contents()), ops[..|outs|], outs))
    {
      hide Live, WellFormed, Performs, Replay, Faithful;
      outs, torn := [], false;
      RunBegins(old(Contents()), readonly);
      while |outs| < |ops|
        invariant Valid() && |outs| <= |ops| && readonly == old(readonly)
        invariant Parts(header).ptr == old(Parts(header).ptr) || fresh(Parts(header).ptr)
        invariant Faithful(old(Contents()), readonly, ops[..|outs|], outs)
        invariant Contents() == Replay(old(Contents()), ops[..|outs|], outs)
        decreases |ops| - |outs|
      {
        var op := ops[|outs|];
        var out;
        out, torn := Apply(op);
        if torn {
          return;
        }
        ReplayStep(old(Contents()), readonly, ops[..|outs|], outs, op, out, Contents());
        assert ops[..|outs|] + [op] == ops[..|outs| + 1];
        outs := outs + [out];
      }
      assert ops[..|outs|] == ops;
    }
  }

  lemma TwoSlid(v: Value, w: Value)
    ensures Slid([Some(v), Some(w)], 1) == [Some(w), None] && !HolesBefore([Some(v), Some(w)], 1)
  {
    assert [Some(v), Some(w)][0].Some?;
  }

  /**
    * Three pushes and a shift leave two elements behind a gap of one.  If those are served and the vivification after
    * them is refused, the first element is lost, the second stands in its place, and a hole stands where it was.
    */
  method RefusedEnsureLosesAnElement(u: Value, v: Value, w: Value, index: usize)
    returns (a: PerlArray, outs: seq<Outcome>)
    requires index < USIZE_MAX
    ensures |outs| == 5
    ensures outs == [Done, Done, Done, Got(u), OutOfMemory] ==>
              && Parts(a.header).start + Parts(a.header).len <= Parts(a.header).ptr.Length
              && Live(Parts(a.header)) == [Some(w), None] && !a.Valid()
  {
    hide Live, WellFormed, Framed, Slid, HolesBefore;
    a := new PerlArray();
    var first := a.Push(u);
    var second := a.Push(v);
    var third := a.Push(w);
    var shifted := a.Shift();
    TwoSlid(v, w);
    assert first == second == third == Done ==> a.Contents() == [Some(v), Some(w)];
    var last := a.EnsureElement(index);
    outs := [first, second, third, shifted, last];
  }

  lemma RunBegins(s: seq<Slot>, readonly: bool)
    ensures Faithful(s, readonly, [], []) && Replay(s, [], []) == s
  {}

  /** From empty, `n` calls of `unshift` move at most `4 * n` live slots between them. */
  method UnshiftAll(values: seq<Value>) returns (a: PerlArray, moved: nat)
    ensures fresh(a) && a.Valid() && moved <= 4 * |values|
  {
    a := new PerlArray();
    moved := 0;
    for i := 0 to |values|
      invariant fresh(a) && fresh(Parts(a.header).ptr) && a.Valid()
      invariant moved + Potential(Parts(a.header)) <= 4 * i && 0 <= Potential(Parts(a.header))
    {
      var out, more := a.Unshift(values[i]);
      moved := moved + more;
    }
  }

  lemma LiveLength(g: Geometry)
    requires WellFormed(g)
    ensures |Live(g)| == g.len
  {}

  lemma ExtendedLength(g: Geometry, s: seq<Slot>, index: nat)
    requires WellFormed(g) && Live(g) == Extended(s, index + 1)
    ensures index < g.len
  {}
}
