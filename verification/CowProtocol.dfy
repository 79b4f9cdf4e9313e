/**
  * The copy-on-write buffers as threads see them: every atomic step of clone, drop, slice, oversized-view minting,
  * unshare and in-place append, in any interleaving.  Tier buffers and `Adopted` structs are both cells here: each has a
  * reference count, and each is freed by whichever release took the count from one.
  */
module CowProtocol {
  import opened Wrappers

  // ── State ───────────────────────────────────────────────────────

  /** Whether a cell owns its bytes, or pins another cell's through the reference recorded at `claim`. */
  datatype Kind = Owns | Borrows(target: nat, claim: nat)

  /**
    * One allocation.  `root` and `base` locate its bytes, resolved when it was made; `held` says its holder has not been
    * surrendered yet; `freedWith` logs the capacities it has been handed back to the allocator with.
    */
  datatype Cell = Cell(refs: nat, cap: nat, extent: nat, kind: Kind, root: nat, base: nat, held: bool,
                       bytes: seq<byte>, freedWith: seq<nat>)

  /**
    * What some thread has in hand.  A handle, a mint in flight and an `Adopted` struct's holder each own a reference, and
    * carry the capacity their release will use.  `checked` marks a handle borrowed exclusively, whose uniqueness has been
    * seen and whose write is still to come.  A teardown is a thread between its last decrement and the free.
    */
  datatype Claim =
    | Handle(cell: nat, cap: nat, offset: nat, len: nat, whole: bool, checked: bool)
    | Mint(cell: nat, cap: nat)
    | Held(cell: nat, cap: nat, child: nat)
    | Teardown(cell: nat, cap: nat, surrendered: bool)
    | Gone

  datatype State = State(cells: seq<Cell>, claims: seq<Claim>)

  const Nothing := State([], [])

  predicate OwnsReference(cl: Claim) {
    cl.Handle? || cl.Mint? || cl.Held?
  }

  // ── Steps ───────────────────────────────────────────────────────

  datatype Step =
    | Birth(bytes: seq<byte>, cap: nat, whole: bool)
    | Clone(i: nat)
    | Slice(i: nat, offset: nat, len: nat)
    | MintBegin(i: nat)
    | MintDone(i: nat, offset: nat, len: nat, size: nat)
    | MintFailed(i: nat)
    | Drop(i: nat)
    | CheckUnique(i: nat)
    | AppendInPlace(i: nat, suffix: seq<byte>)
    | Bail(i: nat)
    | Surrender(i: nat)
    | Free(i: nat)

  predicate IsClaim(st: State, i: nat) {
    i < |st.claims| && (!st.claims[i].Gone? ==> st.claims[i].cell < |st.cells|)
  }

  /** A handle some thread may use: one that is not in the middle of another thread's exclusive borrow. */
  predicate IsUsable(st: State, i: nat) {
    IsClaim(st, i) && st.claims[i].Handle? && !st.claims[i].checked
  }

  predicate Enabled(st: State, s: Step) {
    match s
    case Birth(bytes, cap, _) => |bytes| <= cap
    case Clone(i) => IsUsable(st, i)
    case Slice(i, offset, len) => IsUsable(st, i) && offset + len <= st.claims[i].len
    case MintBegin(i) => IsUsable(st, i)
    case MintDone(i, offset, len, _) =>
      IsClaim(st, i) && st.claims[i].Mint? && offset + len <= st.cells[st.claims[i].cell].extent
    case MintFailed(i) => IsClaim(st, i) && st.claims[i].Mint?
    case Drop(i) => IsUsable(st, i)
    case CheckUnique(i) => IsUsable(st, i) && st.claims[i].whole
    case AppendInPlace(i, suffix) =>
      IsClaim(st, i) && st.claims[i].Handle? && st.claims[i].checked && st.claims[i].len + |suffix| <= st.claims[i].cap
    case Bail(i) => IsClaim(st, i) && st.claims[i].Handle? && st.claims[i].checked
    case Surrender(i) =>
      && IsClaim(st, i) && st.claims[i].Teardown? && !st.claims[i].surrendered
      && var kind := st.cells[st.claims[i].cell].kind;
         kind.Borrows? ==> IsClaim(st, kind.claim) && OwnsReference(st.claims[kind.claim])
    case Free(i) => IsClaim(st, i) && st.claims[i].Teardown? && st.claims[i].surrendered
  }

  /** `fetch_add`, and the claim that now owns the reference. */
  function Retain(st: State, cl: Claim): State
    requires OwnsReference(cl) && cl.cell < |st.cells|
  {
    var cell := st.cells[cl.cell];
    State(st.cells[cl.cell := cell.(refs := cell.refs + 1)], st.claims + [cl])
  }

  /** `fetch_sub`: the release that takes the count from one goes on to tear the cell down. */
  function Release(st: State, i: nat): State
    requires IsClaim(st, i) && OwnsReference(st.claims[i])
  {
    var cl := st.claims[i];
    var cell := st.cells[cl.cell];
    State(st.cells[cl.cell := cell.(refs := if cell.refs > 0 then cell.refs - 1 else 0)],
          st.claims[i := if cell.refs == 1 then Teardown(cl.cell, cl.cap, false) else Gone])
  }

  /** A new cell with one reference, and the handle that owns it. */
  function Allocate(st: State, cell: Cell, whole: bool): State {
    State(st.cells + [cell], st.claims + [Handle(|st.cells|, cell.cap, 0, cell.extent, whole, false)])
  }

  /** `suffix` copied over what lies at `at`, an offset no handle has past the initialized bytes. */
  function Written(bytes: seq<byte>, at: nat, suffix: seq<byte>): seq<byte> {
    var head := if at <= |bytes| then bytes[..at] else bytes;
    head + suffix + if at + |suffix| <= |bytes| then bytes[at + |suffix|..] else []
  }

  /** The holder is dropped: an owned object falls with its fields, a retained one has its reference surrendered. */
  function SurrenderHolder(st: State, i: nat): State
    requires Enabled(st, Surrender(i))
  {
    var c := st.claims[i].cell;
    var marked := State(st.cells[c := st.cells[c].(held := false)], st.claims[i := st.claims[i].(surrendered := true)]);
    if st.cells[c].kind.Borrows? then Release(marked, st.cells[c].kind.claim) else marked
  }

  function Apply(st: State, s: Step): State
    requires Enabled(st, s)
  {
    match s
    case Birth(bytes, cap, whole) =>
      Allocate(st, Cell(1, cap, |bytes|, Owns, |st.cells|, 0, true, bytes, []), whole)
    case Clone(i) => Retain(st, st.claims[i])
    case Slice(i, offset, len) =>
      Retain(st, st.claims[i].(offset := st.claims[i].offset + offset, len := len, whole := false))
    case MintBegin(i) => Retain(st, Mint(st.claims[i].cell, st.claims[i].cap))
    case MintDone(i, offset, len, size) =>
      var parent := st.cells[st.claims[i].cell];
      var adopted := st.(claims := st.claims[i := Held(st.claims[i].cell, st.claims[i].cap, |st.cells|)]);
      Allocate(adopted, Cell(1, size, len, Borrows(st.claims[i].cell, i), parent.root, parent.base + offset, true, [], []), false)
    case MintFailed(i) => Release(st, i)
    case Drop(i) => Release(st, i)
    case CheckUnique(i) =>
      st.(claims := st.claims[i := st.claims[i].(checked := st.cells[st.claims[i].cell].refs == 1)])
    case AppendInPlace(i, suffix) =>
      var h := st.claims[i];
      var cell := st.cells[h.cell];
      var bytes := Written(cell.bytes, h.len, suffix);
      State(st.cells[h.cell := cell.(bytes := bytes, extent := |bytes|)],
            st.claims[i := h.(len := h.len + |suffix|, checked := false)])
    case Bail(i) => st.(claims := st.claims[i := st.claims[i].(checked := false)])
    case Surrender(i) => SurrenderHolder(st, i)
    case Free(i) =>
      var t := st.claims[i];
      var cell := st.cells[t.cell];
      State(st.cells[t.cell := cell.(freedWith := cell.freedWith + [t.cap])], st.claims[i := Gone])
  }

  // ── Counting ────────────────────────────────────────────────────

  datatype Tally = References | Teardowns

  function Weight(cl: Claim, t: Tally, c: nat): nat {
    if (if t == References then OwnsReference(cl) else cl.Teardown?) && cl.cell == c then 1 else 0
  }

  function Count(claims: seq<Claim>, t: Tally, c: nat): nat {
    if claims == [] then 0 else Count(claims[..|claims| - 1], t, c) + Weight(claims[|claims| - 1], t, c)
  }

  lemma CountAppend(claims: seq<Claim>, cl: Claim, t: Tally, c: nat)
    ensures Count(claims + [cl], t, c) == Count(claims, t, c) + Weight(cl, t, c)
  {
    assert (claims + [cl])[..|claims|] == claims;
  }

  lemma {:induction false} CountUpdate(claims: seq<Claim>, i: nat, cl: Claim, t: Tally, c: nat)
    requires i < |claims|
    ensures Count(claims[i := cl], t, c) + Weight(claims[i], t, c) == Count(claims, t, c) + Weight(cl, t, c)
  {
    hide Weight;
    var last := |claims| - 1;
    if i < last {
      CountUpdate(claims[..last], i, cl, t, c);
      assert claims[i := cl][..last] == claims[..last][i := cl];
    } else {
      assert claims[i := cl][..last] == claims[..last];
    }
  }

  lemma {:induction false} CountedOnce(claims: seq<Claim>, i: nat, t: Tally, c: nat)
    requires i < |claims| && Weight(claims[i], t, c) == 1
    ensures Count(claims, t, c) >= 1
  {
    if i < |claims| - 1 {
      CountedOnce(claims[..|claims| - 1], i, t, c);
    }
  }

  lemma {:induction false} CountedTwice(claims: seq<Claim>, i: nat, j: nat, t: Tally, c: nat)
    requires i < j < |claims| && Weight(claims[i], t, c) == 1 && Weight(claims[j], t, c) == 1
    ensures Count(claims, t, c) >= 2
  {
    var last := |claims| - 1;
    if j < last {
      CountedTwice(claims[..last], i, j, t, c);
    } else {
      CountedOnce(claims[..last], i, t, c);
    }
  }

  lemma {:induction false} NeverCounted(claims: seq<Claim>, t: Tally, c: nat)
    requires forall i :: 0 <= i < |claims| ==> Weight(claims[i], t, c) == 0
    ensures Count(claims, t, c) == 0
  {
    if claims != [] {
      NeverCounted(claims[..|claims| - 1], t, c);
    }
  }

  // ── The invariant ───────────────────────────────────────────────

  /**
    * The count is the references owned, and the cell is in exactly one of three conditions: counted, in the hands of one
    * teardown, or freed once, with the capacity it was made with.
    */
  ghost predicate CellOk(st: State, c: nat)
    requires c < |st.cells|
  {
    var cell := st.cells[c];
    && cell.refs == Count(st.claims, References, c)
    && (if cell.refs > 0 then 1 else 0) + Count(st.claims, Teardowns, c) + |cell.freedWith| == 1
    && (cell.freedWith == [] || cell.freedWith == [cell.cap])
    && (cell.refs > 0 ==> cell.held)
    && match cell.kind
       case Owns => cell.root == c && cell.base == 0 && cell.extent == |cell.bytes| && cell.extent <= cell.cap
       case Borrows(target, k) =>
         && target < c && k < |st.claims|
         && cell.root == st.cells[target].root
         && st.cells[target].base <= cell.base
         && cell.base + cell.extent <= st.cells[target].base + st.cells[target].extent
         && (cell.held ==> st.claims[k] == Held(target, st.cells[target].cap, c))
  }

  ghost predicate ClaimOk(st: State, i: nat)
    requires i < |st.claims|
  {
    var cl := st.claims[i];
    !cl.Gone? ==>
      && cl.cell < |st.cells|
      && cl.cap == st.cells[cl.cell].cap
      && (cl.Handle? ==>
            && cl.offset + cl.len <= st.cells[cl.cell].extent
            && (cl.whole ==> cl.offset == 0 && st.cells[cl.cell].kind.Owns?)
            && (cl.checked ==> cl.whole && st.cells[cl.cell].refs == 1))
      && (cl.Held? ==> cl.child < |st.cells| && st.cells[cl.child].kind == Borrows(cl.cell, i))
      && (cl.Teardown? ==> st.cells[cl.cell].held == !cl.surrendered)
  }

  ghost predicate Inv(st: State) {
    && (forall c :: 0 <= c < |st.cells| ==> CellOk(st, c))
    && (forall i :: 0 <= i < |st.claims| ==> ClaimOk(st, i))
  }

  // ── Each step keeps it ──────────────────────────────────────────

  lemma RetainKeepsInv(st: State, i: nat, cl: Claim)
    requires Inv(st) && IsUsable(st, i) && OwnsReference(cl) && cl.cell == st.claims[i].cell && cl.cap == st.claims[i].cap
    requires !cl.Held? && (cl.Handle? ==> !cl.checked && cl.offset + cl.len <= st.cells[cl.cell].extent)
    requires cl.Handle? && cl.whole ==> cl.offset == 0 && st.cells[cl.cell].kind.Owns?
    ensures Inv(Retain(st, cl))
  {
    hide Count;
    var r := Retain(st, cl);
    assert ClaimOk(st, i) && CellOk(st, cl.cell);
    CountedOnce(st.claims, i, References, cl.cell);
    forall c | 0 <= c < |r.cells|
      ensures CellOk(r, c)
    {
      assert CellOk(st, c);
      CountAppend(st.claims, cl, References, c);
      CountAppend(st.claims, cl, Teardowns, c);
      match st.cells[c].kind
      case Borrows(target, _) => assert CellOk(st, target);
      case Owns =>
    }
    forall j | 0 <= j < |r.claims|
      ensures ClaimOk(r, j)
    {
      if j < |st.claims| {
        assert ClaimOk(st, j);
        if st.claims[j].Handle? && st.claims[j].checked && st.claims[j].cell == cl.cell {
          SoleReference(st, i, j);
        }
      }
    }
  }

  /** A handle seen unique is the only claim that owns a reference. */
  lemma SoleReference(st: State, i: nat, j: nat)
    requires Inv(st) && i < |st.claims| && j < |st.claims| && OwnsReference(st.claims[i])
    requires st.claims[j].Handle? && st.claims[j].checked && st.claims[i].cell == st.claims[j].cell
    ensures i == j
  {
    var c := st.claims[j].cell;
    assert ClaimOk(st, i) && ClaimOk(st, j) && CellOk(st, c);
    if i < j {
      CountedTwice(st.claims, i, j, References, c);
    } else if j < i {
      CountedTwice(st.claims, j, i, References, c);
    }
  }

  lemma ReleaseKeepsInv(st: State, i: nat)
    requires Inv(st) && IsClaim(st, i) && OwnsReference(st.claims[i])
    requires st.claims[i].Held? ==> st.claims[i].child < |st.cells| && !st.cells[st.claims[i].child].held
    ensures Inv(Release(st, i))
  {
    hide Count;
    var r, cl := Release(st, i), st.claims[i];
    assert ClaimOk(st, i) && CellOk(st, cl.cell);
    CountedOnce(st.claims, i, References, cl.cell);
    forall c | 0 <= c < |r.cells|
      ensures CellOk(r, c)
    {
      assert CellOk(st, c);
      CountUpdate(st.claims, i, r.claims[i], References, c);
      CountUpdate(st.claims, i, r.claims[i], Teardowns, c);
      match st.cells[c].kind
      case Borrows(target, _) => assert CellOk(st, target);
      case Owns =>
    }
    forall j | 0 <= j < |r.claims|
      ensures ClaimOk(r, j)
    {
      assert ClaimOk(st, j);
      if j != i && st.claims[j].Handle? && st.claims[j].checked && st.claims[j].cell == cl.cell {
        SoleReference(st, i, j);
      }
    }
  }

  /** No claim can be on a cell not made yet. */
  lemma FreshCell(st: State, t: Tally)
    requires Inv(st)
    ensures Count(st.claims, t, |st.cells|) == 0
  {
    forall i | 0 <= i < |st.claims|
      ensures Weight(st.claims[i], t, |st.cells|) == 0
    {
      assert ClaimOk(st, i);
    }
    NeverCounted(st.claims, t, |st.cells|);
  }

  lemma BirthKeepsInv(st: State, bytes: seq<byte>, cap: nat, whole: bool)
    requires Inv(st) && |bytes| <= cap
    ensures Inv(Apply(st, Birth(bytes, cap, whole)))
  {
    hide Count;
    var r := Apply(st, Birth(bytes, cap, whole));
    var h := r.claims[|st.claims|];
    forall c | 0 <= c < |r.cells|
      ensures CellOk(r, c)
    {
      CountAppend(st.claims, h, References, c);
      CountAppend(st.claims, h, Teardowns, c);
      if c < |st.cells| {
        assert CellOk(st, c);
      } else {
        FreshCell(st, References);
        FreshCell(st, Teardowns);
      }
    }
    forall j | 0 <= j < |r.claims|
      ensures ClaimOk(r, j)
    {
      if j < |st.claims| {
        assert ClaimOk(st, j);
      }
    }
  }

  /** The mint's own reference becomes the holder of the new struct. */
  lemma MintDoneKeepsInv(st: State, i: nat, offset: nat, len: nat, size: nat)
    requires Inv(st) && Enabled(st, MintDone(i, offset, len, size))
    ensures Inv(Apply(st, MintDone(i, offset, len, size)))
  {
    hide Count;
    var r := Apply(st, MintDone(i, offset, len, size));
    var held, h := r.claims[i], r.claims[|st.claims|];
    assert ClaimOk(st, i) && CellOk(st, st.claims[i].cell);
    forall c | 0 <= c < |r.cells|
      ensures CellOk(r, c)
    {
      CountUpdate(st.claims, i, held, References, c);
      CountUpdate(st.claims, i, held, Teardowns, c);
      CountAppend(st.claims[i := held], h, References, c);
      CountAppend(st.claims[i := held], h, Teardowns, c);
      if c < |st.cells| {
        assert CellOk(st, c);
      } else {
        FreshCell(st, References);
        FreshCell(st, Teardowns);
      }
    }
    forall j | 0 <= j < |r.claims|
      ensures ClaimOk(r, j)
    {
      if j < |st.claims| {
        assert ClaimOk(st, j);
      }
    }
  }

  lemma RemarkKeepsInv(st: State, i: nat, cl: Claim)
    requires Inv(st) && IsClaim(st, i) && st.claims[i].Handle?
    requires cl.Handle? && cl == st.claims[i].(checked := cl.checked)
    requires cl.checked ==> cl.whole && st.cells[cl.cell].refs == 1
    ensures Inv(st.(claims := st.claims[i := cl]))
  {
    hide Count;
    var r := st.(claims := st.claims[i := cl]);
    assert ClaimOk(st, i);
    forall c | 0 <= c < |r.cells|
      ensures CellOk(r, c)
    {
      assert CellOk(st, c);
      CountUpdate(st.claims, i, cl, References, c);
      CountUpdate(st.claims, i, cl, Teardowns, c);
    }
    forall j | 0 <= j < |r.claims|
      ensures ClaimOk(r, j)
    {
      assert ClaimOk(st, j);
    }
  }

  lemma AppendKeepsInv(st: State, i: nat, suffix: seq<byte>)
    requires Inv(st) && Enabled(st, AppendInPlace(i, suffix))
    ensures Inv(Apply(st, AppendInPlace(i, suffix)))
  {
    hide Count, Written;
    var r, h := Apply(st, AppendInPlace(i, suffix)), st.claims[i];
    assert ClaimOk(st, i) && CellOk(st, h.cell);
    WrittenLength(st.cells[h.cell].bytes, h.len, suffix);
    forall c | 0 <= c < |r.cells|
      ensures CellOk(r, c)
    {
      assert CellOk(st, c);
      CountUpdate(st.claims, i, r.claims[i], References, c);
      CountUpdate(st.claims, i, r.claims[i], Teardowns, c);
    }
    forall j | 0 <= j < |r.claims|
      ensures ClaimOk(r, j)
    {
      assert ClaimOk(st, j);
    }
  }

  lemma WrittenLength(bytes: seq<byte>, at: nat, suffix: seq<byte>)
    requires at <= |bytes|
    ensures |Written(bytes, at, suffix)| == if at + |suffix| <= |bytes| then |bytes| else at + |suffix|
    ensures Written(bytes, at, suffix)[..at + |suffix|] == bytes[..at] + suffix
  {}

  lemma FreeKeepsInv(st: State, i: nat)
    requires Inv(st) && Enabled(st, Free(i))
    ensures Inv(Apply(st, Free(i)))
  {
    hide Count;
    var r, t := Apply(st, Free(i)), st.claims[i];
    assert ClaimOk(st, i) && CellOk(st, t.cell);
    CountedOnce(st.claims, i, Teardowns, t.cell);
    forall c | 0 <= c < |r.cells|
      ensures CellOk(r, c)
    {
      assert CellOk(st, c);
      CountUpdate(st.claims, i, Gone, References, c);
      CountUpdate(st.claims, i, Gone, Teardowns, c);
    }
    forall j | 0 <= j < |r.claims|
      ensures ClaimOk(r, j)
    {
      assert ClaimOk(st, j);
    }
  }

  function Marked(st: State, i: nat): State
    requires IsClaim(st, i) && st.claims[i].Teardown?
  {
    var c := st.claims[i].cell;
    State(st.cells[c := st.cells[c].(held := false)], st.claims[i := st.claims[i].(surrendered := true)])
  }

  lemma MarkedKeepsInv(st: State, i: nat)
    requires Inv(st) && IsClaim(st, i) && st.claims[i].Teardown? && !st.claims[i].surrendered
    ensures Inv(Marked(st, i))
  {
    hide Count;
    var r, t := Marked(st, i), st.claims[i];
    assert ClaimOk(st, i) && CellOk(st, t.cell);
    CountedOnce(st.claims, i, Teardowns, t.cell);
    forall c | 0 <= c < |r.cells|
      ensures CellOk(r, c)
    {
      assert CellOk(st, c);
      CountUpdate(st.claims, i, r.claims[i], References, c);
      CountUpdate(st.claims, i, r.claims[i], Teardowns, c);
    }
    forall j | 0 <= j < |r.claims|
      ensures ClaimOk(r, j)
    {
      assert ClaimOk(st, j);
      if j != i && st.claims[j].Teardown? && st.claims[j].cell == t.cell {
        OneTeardown(st, i, j);
      }
    }
  }

  /** Only one thread ever tears a cell down. */
  lemma OneTeardown(st: State, i: nat, j: nat)
    requires Inv(st) && i < |st.claims| && j < |st.claims|
    requires st.claims[i].Teardown? && st.claims[j].Teardown? && st.claims[i].cell == st.claims[j].cell
    ensures i == j
  {
    var c := st.claims[i].cell;
    assert ClaimOk(st, i) && CellOk(st, c);
    if i < j {
      CountedTwice(st.claims, i, j, Teardowns, c);
    } else if j < i {
      CountedTwice(st.claims, j, i, Teardowns, c);
    }
  }

  /** The reference a holder pins is there to surrender. */
  lemma SurrenderKeepsInv(st: State, i: nat)
    requires Inv(st) && IsClaim(st, i) && st.claims[i].Teardown? && !st.claims[i].surrendered
    ensures Enabled(st, Surrender(i)) && Inv(Apply(st, Surrender(i)))
  {
    var c := st.claims[i].cell;
    assert ClaimOk(st, i) && CellOk(st, c);
    MarkedKeepsInv(st, i);
    match st.cells[c].kind
    case Owns =>
    case Borrows(target, k) => ReleaseKeepsInv(Marked(st, i), k);
  }

  lemma StepKeepsInv(st: State, s: Step)
    requires Inv(st) && Enabled(st, s)
    ensures Inv(Apply(st, s))
  {
    hide CellOk;
    match s
    case Birth(bytes, cap, whole) => BirthKeepsInv(st, bytes, cap, whole);
    case Clone(i) =>
      assert ClaimOk(st, i);
      RetainKeepsInv(st, i, st.claims[i]);
    case Slice(i, offset, len) =>
      assert ClaimOk(st, i);
      RetainKeepsInv(st, i, st.claims[i].(offset := st.claims[i].offset + offset, len := len, whole := false));
    case MintBegin(i) => RetainKeepsInv(st, i, Mint(st.claims[i].cell, st.claims[i].cap));
    case MintDone(i, offset, len, size) => MintDoneKeepsInv(st, i, offset, len, size);
    case MintFailed(i) => ReleaseKeepsInv(st, i);
    case Drop(i) => ReleaseKeepsInv(st, i);
    case CheckUnique(i) => RemarkKeepsInv(st, i, Apply(st, s).claims[i]);
    case AppendInPlace(i, suffix) => AppendKeepsInv(st, i, suffix);
    case Bail(i) => RemarkKeepsInv(st, i, Apply(st, s).claims[i]);
    case Surrender(i) => SurrenderKeepsInv(st, i);
    case Free(i) => FreeKeepsInv(st, i);
  }

  // ── Runs ────────────────────────────────────────────────────────

  /** Where a run from `st` leads, if its steps are enabled one after the other, whichever threads take them. */
  function Play(st: State, steps: seq<Step>): Option<State> {
    if steps == [] then Some(st)
    else
      match Play(st, steps[..|steps| - 1])
      case None => None
      case Some(mid) => if Enabled(mid, steps[|steps| - 1]) then Some(Apply(mid, steps[|steps| - 1])) else None
  }

  /** A run from nothing. */
  function Run(steps: seq<Step>): Option<State> {
    Play(Nothing, steps)
  }

  lemma {:induction false} PlayKeepsInv(st: State, steps: seq<Step>)
    requires Inv(st) && Play(st, steps).Some?
    ensures Inv(Play(st, steps).value)
  {
    if steps != [] {
      PlayKeepsInv(st, steps[..|steps| - 1]);
      StepKeepsInv(Play(st, steps[..|steps| - 1]).value, steps[|steps| - 1]);
    }
  }

  lemma RunKeepsInv(steps: seq<Step>)
    requires Run(steps).Some?
    ensures Inv(Run(steps).value)
  {
    PlayKeepsInv(Nothing, steps);
  }

  /** The claims that own a reference on a cell. */
  function Owners(claims: seq<Claim>, c: nat): set<nat> {
    set i | 0 <= i < |claims| && OwnsReference(claims[i]) && claims[i].cell == c
  }

  lemma {:induction false} CountIsOwners(claims: seq<Claim>, c: nat)
    ensures Count(claims, References, c) == |Owners(claims, c)|
  {
    if claims == [] {
      assert Owners(claims, c) == {};
    } else {
      var last := |claims| - 1;
      CountIsOwners(claims[..last], c);
      assert Owners(claims, c) ==
             Owners(claims[..last], c) + if Weight(claims[last], References, c) == 1 then {last} else {};
    }
  }

  /** At every point of every run, a count is its cell's live handles, holders and mints in flight. */
  lemma CountsAreExact(steps: seq<Step>, c: nat)
    requires Run(steps).Some? && c < |Run(steps).value.cells|
    ensures Run(steps).value.cells[c].refs == |Owners(Run(steps).value.claims, c)|
  {
    RunKeepsInv(steps);
    var st := Run(steps).value;
    assert CellOk(st, c);
    CountIsOwners(st.claims, c);
  }

  // ── Nothing leaks ───────────────────────────────────────────────

  /** A holder's struct has yet to surrender it, and a struct that has been freed has nothing left to surrender. */
  ghost predicate Paired(st: State) {
    && (forall i :: 0 <= i < |st.claims| && st.claims[i].Held? ==>
          st.claims[i].child < |st.cells| && st.cells[st.claims[i].child].held)
    && (forall c :: 0 <= c < |st.cells| && st.cells[c].freedWith != [] ==> !st.cells[c].held)
  }

  lemma StepKeepsPaired(st: State, s: Step)
    requires Inv(st) && Paired(st) && Enabled(st, s)
    ensures Paired(Apply(st, s))
  {
    hide CellOk;
    if s.Surrender? || s.Free? {
      assert ClaimOk(st, s.i);
      if s.Surrender? {
        HeldByItsOwn(st, st.claims[s.i].cell);
      }
    }
  }

  /** The only holder a struct can have is the one it records. */
  lemma HeldByItsOwn(st: State, c: nat)
    requires Inv(st)
    ensures forall i :: 0 <= i < |st.claims| && st.claims[i].Held? && st.claims[i].child == c ==>
              c < |st.cells| && st.cells[c].kind == Borrows(st.claims[i].cell, i)
  {
    forall i | 0 <= i < |st.claims| && st.claims[i].Held? && st.claims[i].child == c
      ensures c < |st.cells| && st.cells[c].kind == Borrows(st.claims[i].cell, i)
    {
      assert ClaimOk(st, i);
    }
  }

  lemma {:induction false} RunIsPaired(steps: seq<Step>)
    requires Run(steps).Some?
    ensures Paired(Run(steps).value)
  {
    if steps != [] {
      RunIsPaired(steps[..|steps| - 1]);
      RunKeepsInv(steps[..|steps| - 1]);
      StepKeepsPaired(Run(steps[..|steps| - 1]).value, steps[|steps| - 1]);
    }
  }

  /** A claim some thread still has in hand, as opposed to one resting in a struct. */
  predicate InHand(cl: Claim) {
    cl.Handle? || cl.Mint? || cl.Teardown?
  }

  /** Whether `d` is `c`, or borrows from it through structs that have not surrendered their holders. */
  predicate Pins(st: State, d: nat, c: nat)
    decreases d
  {
    d < |st.cells| &&
    (d == c ||
     match st.cells[d].kind
     case Owns => false
     case Borrows(target, _) => st.cells[d].held && target < d && Pins(st, target, c))
  }

  lemma {:induction false} SomethingCounted(claims: seq<Claim>, t: Tally, c: nat) returns (i: nat)
    requires Count(claims, t, c) > 0
    ensures i < |claims| && Weight(claims[i], t, c) == 1
  {
    var last := |claims| - 1;
    if Weight(claims[last], t, c) == 1 {
      i := last;
    } else {
      i := SomethingCounted(claims[..last], t, c);
    }
  }

  lemma {:induction false} PinsStep(st: State, d: nat, c: nat, target: nat)
    requires Pins(st, d, c) && c < |st.cells| && st.cells[c].kind.Borrows? && st.cells[c].kind.target == target
    requires st.cells[c].held && target < c
    ensures Pins(st, d, target)
    decreases d
  {
    if d != c {
      PinsStep(st, st.cells[d].kind.target, c, target);
    }
  }

  /** Up the chain of holders from any cell not yet freed there is a claim in hand. */
  lemma {:induction false} PinnedFromHand(st: State, c: nat) returns (i: nat)
    requires Inv(st) && Paired(st) && c < |st.cells| && st.cells[c].freedWith == []
    ensures i < |st.claims| && InHand(st.claims[i]) && Pins(st, st.claims[i].cell, c)
    decreases |st.cells| - c
  {
    hide Pins;
    assert CellOk(st, c);
    i := SomethingCounted(st.claims, if st.cells[c].refs > 0 then References else Teardowns, c);
    assert Pins(st, c, c) by {
      PinsItself(st, c);
    }
    if st.claims[i].Held? {
      var child := st.claims[i].child;
      assert ClaimOk(st, i) && CellOk(st, child);
      i := PinnedFromHand(st, child);
      PinsStep(st, st.claims[i].cell, child, c);
    }
  }

  lemma PinsItself(st: State, c: nat)
    requires c < |st.cells|
    ensures Pins(st, c, c)
  {}

  /** Down the chain of holders from a cell not yet freed, nothing has been freed. */
  lemma {:induction false} PinnedIsUnfreed(st: State, d: nat, c: nat)
    requires Inv(st) && Pins(st, d, c) && st.cells[d].freedWith == []
    ensures c < |st.cells| && st.cells[c].freedWith == []
    decreases d
  {
    hide Count;
    if d != c {
      var target := st.cells[d].kind.target;
      assert CellOk(st, d) && CellOk(st, target);
      CountedOnce(st.claims, st.cells[d].kind.claim, References, target);
      PinnedIsUnfreed(st, target, c);
    }
  }

  /** Whatever names a cell names one not yet freed. */
  lemma NamedIsUnfreed(st: State, i: nat)
    requires Inv(st) && i < |st.claims| && !st.claims[i].Gone?
    ensures st.claims[i].cell < |st.cells| && st.cells[st.claims[i].cell].freedWith == []
  {
    hide Count;
    var cl := st.claims[i];
    assert ClaimOk(st, i) && CellOk(st, cl.cell);
    CountedOnce(st.claims, i, if cl.Teardown? then Teardowns else References, cl.cell);
  }

  /** At every point of every run, a cell is still to be freed exactly while something in some thread's hands pins it. */
  lemma NothingLeaks(steps: seq<Step>, c: nat)
    requires Run(steps).Some? && c < |Run(steps).value.cells|
    ensures var st := Run(steps).value;
            st.cells[c].freedWith == [] <==>
            exists i :: 0 <= i < |st.claims| && InHand(st.claims[i]) && Pins(st, st.claims[i].cell, c)
  {
    RunKeepsInv(steps);
    RunIsPaired(steps);
    var st := Run(steps).value;
    if st.cells[c].freedWith == [] {
      var i := PinnedFromHand(st, c);
    } else {
      forall i | 0 <= i < |st.claims| && InHand(st.claims[i])
        ensures !Pins(st, st.claims[i].cell, c)
      {
        NamedIsUnfreed(st, i);
        if Pins(st, st.claims[i].cell, c) {
          PinnedIsUnfreed(st, st.claims[i].cell, c);
        }
      }
    }
  }

  /** No cell is ever freed twice, or while anything still names it; once no thread has anything in hand, each is freed. */
  lemma FreedExactlyOnce(steps: seq<Step>, c: nat)
    requires Run(steps).Some? && c < |Run(steps).value.cells|
    ensures var st, cell := Run(steps).value, Run(steps).value.cells[c];
            && cell.freedWith in {[], [cell.cap]}
            && (cell.freedWith != [] ==> forall i :: 0 <= i < |st.claims| && !st.claims[i].Gone? ==> st.claims[i].cell != c)
            && ((forall i :: 0 <= i < |st.claims| ==> !InHand(st.claims[i])) ==> cell.freedWith == [cell.cap])
  {
    RunKeepsInv(steps);
    NothingLeaks(steps, c);
    var st := Run(steps).value;
    var cell := st.cells[c];
    assert CellOk(st, c);
    forall i | 0 <= i < |st.claims| && !st.claims[i].Gone?
      ensures cell.freedWith != [] ==> st.claims[i].cell != c
    {
      NamedIsUnfreed(st, i);
    }
  }

  // ── Teardowns finish ────────────────────────────────────────────

  /** The most steps a claim's release can still cost. */
  function Owed(cl: Claim): nat {
    match cl
    case Held(_, _, _) => 3
    case Teardown(_, _, surrendered) => if surrendered then 1 else 2
    case _ => 0
  }

  function AllOwed(claims: seq<Claim>): nat {
    if claims == [] then 0 else AllOwed(claims[..|claims| - 1]) + Owed(claims[|claims| - 1])
  }

  lemma {:induction false} OwedUpdate(claims: seq<Claim>, i: nat, cl: Claim)
    requires i < |claims|
    ensures AllOwed(claims[i := cl]) + Owed(claims[i]) == AllOwed(claims) + Owed(cl)
  {
    hide Owed;
    var last := |claims| - 1;
    if i < last {
      OwedUpdate(claims[..last], i, cl);
      assert claims[i := cl][..last] == claims[..last][i := cl];
    } else {
      assert claims[i := cl][..last] == claims[..last];
    }
  }

  /** A teardown is never stuck: its next step is enabled, and brings the end of all teardowns nearer. */
  lemma TeardownMoves(st: State, i: nat)
    requires Inv(st) && i < |st.claims| && st.claims[i].Teardown?
    ensures var s := if st.claims[i].surrendered then Free(i) else Surrender(i);
            Enabled(st, s) && AllOwed(Apply(st, s).claims) < AllOwed(st.claims)
  {
    hide Count;
    assert ClaimOk(st, i);
    if st.claims[i].surrendered {
      OwedUpdate(st.claims, i, Gone);
    } else {
      SurrenderKeepsInv(st, i);
      var kind, marked := st.cells[st.claims[i].cell].kind, Marked(st, i).claims;
      OwedUpdate(st.claims, i, marked[i]);
      if kind.Borrows? {
        assert CellOk(st, st.claims[i].cell);
        CountedOnce(st.claims, i, Teardowns, st.claims[i].cell);
        OwedUpdate(marked, kind.claim, Apply(st, Surrender(i)).claims[kind.claim]);
      }
    }
  }

  /** What the last owner lets go, the threads tearing down free: from any state with no handle or mint, a run frees all. */
  lemma {:induction false} EverythingCanBeFreed(st: State) returns (steps: seq<Step>)
    requires Inv(st) && Paired(st)
    requires forall i :: 0 <= i < |st.claims| ==> !st.claims[i].Handle? && !st.claims[i].Mint?
    ensures Play(st, steps).Some? && Inv(Play(st, steps).value)
    ensures |steps| <= AllOwed(st.claims)
    ensures forall c :: 0 <= c < |Play(st, steps).value.cells| ==>
              Play(st, steps).value.cells[c].freedWith == [Play(st, steps).value.cells[c].cap]
    decreases AllOwed(st.claims)
  {
    if i :| 0 <= i < |st.claims| && st.claims[i].Teardown? {
      var s := if st.claims[i].surrendered then Free(i) else Surrender(i);
      TeardownMoves(st, i);
      StepKeepsInv(st, s);
      StepKeepsPaired(st, s);
      var rest := EverythingCanBeFreed(Apply(st, s));
      PlayCons(st, s, rest);
      steps := [s] + rest;
    } else {
      steps := [];
      forall c | 0 <= c < |st.cells|
        ensures st.cells[c].freedWith == [st.cells[c].cap]
      {
        assert CellOk(st, c);
        if st.cells[c].freedWith == [] {
          var i := PinnedFromHand(st, c);
        }
      }
    }
  }

  lemma {:induction false} PlayCons(st: State, s: Step, rest: seq<Step>)
    requires Enabled(st, s)
    ensures Play(st, [s] + rest) == Play(Apply(st, s), rest)
  {
    var all := [s] + rest;
    if rest == [] {
      assert all[..0] == [];
    } else {
      assert all[..|all| - 1] == [s] + rest[..|rest| - 1];
      PlayCons(st, s, rest[..|rest| - 1]);
    }
  }

  // ── What a handle sees ──────────────────────────────────────────

  /** The handle's bytes lie in a cell that is still counted and has not been freed. */
  ghost predicate Readable(st: State, i: nat) {
    && IsClaim(st, i) && st.claims[i].Handle?
    && var h, cell := st.claims[i], st.cells[st.claims[i].cell];
       && cell.root < |st.cells|
       && cell.base + h.offset + h.len <= |st.cells[cell.root].bytes|
       && st.cells[cell.root].refs > 0 && st.cells[cell.root].freedWith == []
  }

  ghost function View(st: State, i: nat): (bytes: seq<byte>)
    requires Readable(st, i)
    ensures |bytes| == st.claims[i].len
  {
    var h, cell := st.claims[i], st.cells[st.claims[i].cell];
    st.cells[cell.root].bytes[cell.base + h.offset..cell.base + h.offset + h.len]
  }

  /** Along the chain of holders, whoever pins a cell pins the cell its bytes live in. */
  lemma {:induction false} RootIsPinned(st: State, c: nat)
    requires Inv(st) && c < |st.cells| && st.cells[c].refs > 0
    ensures var cell := st.cells[c];
            && cell.root < |st.cells| && st.cells[cell.root].refs > 0 && st.cells[cell.root].freedWith == []
            && cell.base + cell.extent <= |st.cells[cell.root].bytes|
            && (cell.root == c ||
                exists k :: 0 <= k < |st.claims| && st.claims[k].Held? && st.claims[k].cell == cell.root)
    decreases c
  {
    assert CellOk(st, c);
    match st.cells[c].kind
    case Owns =>
    case Borrows(target, k) =>
      CountedOnce(st.claims, k, References, target);
      assert CellOk(st, target);
      RootIsPinned(st, target);
  }

  lemma HandleIsReadable(st: State, i: nat)
    requires Inv(st) && i < |st.claims| && st.claims[i].Handle?
    ensures Readable(st, i)
  {
    assert ClaimOk(st, i);
    assert CellOk(st, st.claims[i].cell);
    CountedOnce(st.claims, i, References, st.claims[i].cell);
    RootIsPinned(st, st.claims[i].cell);
  }

  /** In any run, no handle outlives the buffer it reads. */
  lemma NoHandleOutlivesItsBuffer(steps: seq<Step>, i: nat)
    requires Run(steps).Some? && i < |Run(steps).value.claims| && Run(steps).value.claims[i].Handle?
    ensures Readable(Run(steps).value, i)
  {
    RunKeepsInv(steps);
    HandleIsReadable(Run(steps).value, i);
  }

  /** A cell being written through a handle seen unique holds no bytes of any other handle. */
  lemma WriterIsAlone(st: State, j: nat, i: nat)
    requires Inv(st) && i < |st.claims| && j < |st.claims| && i != j
    requires st.claims[j].Handle? && st.claims[j].checked && st.claims[i].Handle?
    ensures Readable(st, i) && st.cells[st.claims[i].cell].root != st.claims[j].cell
  {
    HandleIsReadable(st, i);
    assert ClaimOk(st, i) && CellOk(st, st.claims[i].cell);
    var c := st.claims[i].cell;
    CountedOnce(st.claims, i, References, c);
    RootIsPinned(st, c);
    if st.cells[c].root == c {
      if c == st.claims[j].cell {
        SoleReference(st, i, j);
      }
    } else {
      var k :| 0 <= k < |st.claims| && st.claims[k].Held? && st.claims[k].cell == st.cells[c].root;
      if st.cells[c].root == st.claims[j].cell {
        SoleReference(st, k, j);
      }
    }
  }

  /** A step that neither writes through a handle nor drops it leaves the handle where it was. */
  lemma StepKeepsHandle(st: State, s: Step, i: nat)
    requires Inv(st) && Enabled(st, s) && i < |st.claims| && st.claims[i].Handle?
    requires s != Drop(i) && !(s.AppendInPlace? && s.i == i)
    ensures var r := Apply(st, s);
            i < |r.claims| && r.claims[i].Handle? && r.claims[i] == st.claims[i].(checked := r.claims[i].checked)
  {
    if s.Surrender? {
      assert ClaimOk(st, s.i) && CellOk(st, st.claims[s.i].cell);
    }
  }

  lemma StepKeepsBytes(st: State, s: Step, c: nat)
    requires Inv(st) && Enabled(st, s) && c < |st.cells|
    ensures var r := Apply(st, s);
            && c < |r.cells| && r.cells[c].root == st.cells[c].root && r.cells[c].base == st.cells[c].base
            && (!(s.AppendInPlace? && st.claims[s.i].cell == c) ==> r.cells[c].bytes == st.cells[c].bytes)
  {}

  /** No step changes the bytes any other handle sees. */
  lemma NoStepChangesAnotherView(st: State, s: Step, i: nat)
    requires Inv(st) && Enabled(st, s) && i < |st.claims| && st.claims[i].Handle?
    requires s != Drop(i) && !(s.AppendInPlace? && s.i == i)
    ensures Readable(st, i) && Readable(Apply(st, s), i) && View(Apply(st, s), i) == View(st, i)
  {
    hide CellOk, ClaimOk, Apply;
    StepKeepsInv(st, s);
    StepKeepsHandle(st, s, i);
    HandleIsReadable(st, i);
    HandleIsReadable(Apply(st, s), i);
    var c := st.claims[i].cell;
    StepKeepsBytes(st, s, c);
    StepKeepsBytes(st, s, st.cells[c].root);
    if s.AppendInPlace? {
      WriterIsAlone(st, s.i, i);
    }
  }

  /** The writer sees what it had, and the suffix after it. */
  lemma AppendAddsTheSuffix(st: State, i: nat, suffix: seq<byte>)
    requires Inv(st) && Enabled(st, AppendInPlace(i, suffix))
    ensures var r := Apply(st, AppendInPlace(i, suffix));
            Readable(st, i) && Readable(r, i) && View(r, i) == View(st, i) + suffix
  {
    hide Written;
    var r, h := Apply(st, AppendInPlace(i, suffix)), st.claims[i];
    StepKeepsInv(st, AppendInPlace(i, suffix));
    HandleIsReadable(st, i);
    HandleIsReadable(r, i);
    assert ClaimOk(st, i) && CellOk(st, h.cell);
    WrittenLength(st.cells[h.cell].bytes, h.len, suffix);
    assert View(r, i) == r.cells[h.cell].bytes[..h.len + |suffix|];
    assert View(st, i) == st.cells[h.cell].bytes[..h.len];
  }

  /** Clones and slices see the bytes they were made from. */
  lemma CloneSees(st: State, i: nat)
    requires Inv(st) && Enabled(st, Clone(i))
    ensures var r := Apply(st, Clone(i));
            Readable(st, i) && Readable(r, |st.claims|) && View(r, |st.claims|) == View(st, i)
  {
    hide CellOk, ClaimOk;
    StepKeepsInv(st, Clone(i));
    HandleIsReadable(st, i);
    HandleIsReadable(Apply(st, Clone(i)), |st.claims|);
  }

  lemma SliceSees(st: State, i: nat, offset: nat, len: nat)
    requires Inv(st) && Enabled(st, Slice(i, offset, len))
    ensures var r := Apply(st, Slice(i, offset, len));
            Readable(st, i) && Readable(r, |st.claims|) && View(r, |st.claims|) == View(st, i)[offset..offset + len]
  {
    hide CellOk, ClaimOk;
    StepKeepsInv(st, Slice(i, offset, len));
    HandleIsReadable(st, i);
    HandleIsReadable(Apply(st, Slice(i, offset, len)), |st.claims|);
    var h, cell := st.claims[i], st.cells[st.claims[i].cell];
    SubSlice(st.cells[cell.root].bytes, cell.base + h.offset, h.len, offset, len);
  }

  lemma SubSlice(s: seq<byte>, at: nat, n: nat, offset: nat, len: nat)
    requires at + n <= |s| && offset + len <= n
    ensures s[at..at + n][offset..offset + len] == s[at + offset..at + offset + len]
  {
    var a, b := s[at..at + n][offset..offset + len], s[at + offset..at + offset + len];
    forall k | 0 <= k < len
      ensures a[k] == b[k]
    {
      assert a[k] == s[at..at + n][offset + k] == s[at + (offset + k)];
    }
    assert a == b;
  }

  /** An oversized view, however deep its parents, sees the span of its parent that any handle there sees. */
  lemma MintedViewSees(st: State, j: nat, offset: nat, len: nat, size: nat, i: nat)
    requires Inv(st) && Enabled(st, MintDone(j, offset, len, size)) && IsUsable(st, i)
    requires st.claims[i].cell == st.claims[j].cell
    requires st.claims[i].offset <= offset && offset + len <= st.claims[i].offset + st.claims[i].len
    ensures var r, at := Apply(st, MintDone(j, offset, len, size)), offset - st.claims[i].offset;
            Readable(st, i) && Readable(r, |st.claims|) && View(r, |st.claims|) == View(st, i)[at..at + len]
  {
    hide ClaimOk;
    StepKeepsInv(st, MintDone(j, offset, len, size));
    HandleIsReadable(st, i);
    HandleIsReadable(Apply(st, MintDone(j, offset, len, size)), |st.claims|);
    assert CellOk(st, st.claims[i].cell);
    var h, cell := st.claims[i], st.cells[st.claims[i].cell];
    SubSlice(st.cells[cell.root].bytes, cell.base + h.offset, h.len, offset - h.offset, len);
  }

  // ── Unsharing ───────────────────────────────────────────────────

  /** Whether a step goes through some other claim than `i`: what other threads can do while `i` is borrowed exclusively. */
  predicate Elsewhere(s: Step, i: nat) {
    s.Birth? || s.i != i
  }

  predicate AllElsewhere(steps: seq<Step>, i: nat) {
    forall k :: 0 <= k < |steps| ==> Elsewhere(steps[k], i)
  }

  /** Whatever other threads do, a handle stays where it is, sees the same bytes, and stays alone if it was. */
  lemma {:induction false} OthersLeaveHandle(st: State, steps: seq<Step>, i: nat)
    requires Inv(st) && i < |st.claims| && st.claims[i].Handle? && AllElsewhere(steps, i) && Play(st, steps).Some?
    ensures var r := Play(st, steps).value;
            && Inv(r) && i < |r.claims| && r.claims[i] == st.claims[i]
            && Readable(st, i) && Readable(r, i) && View(r, i) == View(st, i)
            && (st.cells[st.claims[i].cell].refs == 1 ==> r.cells[r.claims[i].cell].refs == 1)
  {
    hide CellOk, ClaimOk, Readable, View;
    HandleIsReadable(st, i);
    if steps != [] {
      var last := |steps| - 1;
      OthersLeaveHandle(st, steps[..last], i);
      var mid := Play(st, steps[..last]).value;
      StepKeepsInv(mid, steps[last]);
      StepElsewhere(mid, steps[last], i);
      NoStepChangesAnotherView(mid, steps[last], i);
    }
  }

  lemma StepElsewhere(st: State, s: Step, i: nat)
    requires Inv(st) && Enabled(st, s) && i < |st.claims| && st.claims[i].Handle? && Elsewhere(s, i)
    ensures var r, c := Apply(st, s), st.claims[i].cell;
            && i < |r.claims| && r.claims[i] == st.claims[i]
            && c < |st.cells| && c < |r.cells| && (st.cells[c].refs == 1 ==> r.cells[c].refs == 1)
  {
    hide Count;
    assert ClaimOk(st, i);
    var c := st.claims[i].cell;
    if st.cells[c].refs == 1 {
      forall j | 0 <= j < |st.claims| && j != i
        ensures !(OwnsReference(st.claims[j]) && st.claims[j].cell == c)
      {
        if OwnsReference(st.claims[j]) && st.claims[j].cell == c {
          assert CellOk(st, c);
          CountedTwice(st.claims, if i < j then i else j, if i < j then j else i, References, c);
        }
      }
    }
    if s.Surrender? {
      assert ClaimOk(st, s.i) && CellOk(st, st.claims[s.i].cell);
    }
  }

  /** A handle on a whole buffer asks whether it is unique; a view does not need to. */
  function Asked(st: State, i: nat): State
    requires IsUsable(st, i)
  {
    if st.claims[i].whole then Apply(st, CheckUnique(i)) else st
  }

  /**
    * Unsharing, with other threads at work between its steps: a handle found unique is left on its storage, which is and
    * stays its own; any other has its bytes copied to a buffer only it refers to, and lets the shared one go.
    */
  lemma UnshareKeepsTheBytes(st: State, i: nat, before: seq<Step>, cap: nat, between: seq<Step>)
    requires Inv(st) && IsUsable(st, i) && st.claims[i].len <= cap
    requires AllElsewhere(before, i) && Play(Asked(st, i), before).Some?
    ensures var seen := Play(Asked(st, i), before).value;
            && Readable(st, i) && i < |seen.claims| && Readable(seen, i) && View(seen, i) == View(st, i)
            && seen.claims[i].cell == st.claims[i].cell && seen.claims[i].len == st.claims[i].len
            && (seen.claims[i].checked <==> st.claims[i].whole && st.cells[st.claims[i].cell].refs == 1)
            && (seen.claims[i].checked ==> seen.cells[seen.claims[i].cell].refs == 1)
            && (!seen.claims[i].checked ==>
                  var n, copied := |seen.claims|, Play(Apply(seen, Birth(View(seen, i), cap, true)), between);
                  copied.Some? && AllElsewhere(between, i) && AllElsewhere(between, n) ==>
                    Enabled(copied.value, Drop(i)) &&
                    var r := Apply(copied.value, Drop(i));
                    && n < |r.claims| && Readable(r, n) && View(r, n) == View(st, i)
                    && r.claims[n].cell == |seen.cells| && r.cells[r.claims[n].cell].kind.Owns?
                    && r.cells[r.claims[n].cell].refs == 1)
  {
    hide CellOk, ClaimOk, Readable, View, Apply;
    HandleIsReadable(st, i);
    AskedChangesNothing(st, i);
    OthersLeaveHandle(Asked(st, i), before, i);
    var seen := Play(Asked(st, i), before).value;
    if !seen.claims[i].checked {
      HandleIsClaim(seen, i);
      var n, copied := |seen.claims|, Play(Apply(seen, Birth(View(seen, i), cap, true)), between);
      if copied.Some? && AllElsewhere(between, i) && AllElsewhere(between, n) {
        CopyThenDrop(seen, i, cap, between);
      }
    }
  }

  lemma HandleIsClaim(st: State, i: nat)
    requires Inv(st) && i < |st.claims| && st.claims[i].Handle?
    ensures IsClaim(st, i)
  {
    assert ClaimOk(st, i);
  }

  lemma AskedChangesNothing(st: State, i: nat)
    requires Inv(st) && IsUsable(st, i)
    ensures var r := Asked(st, i);
            && Inv(r) && |r.claims| == |st.claims| && r.cells == st.cells
            && Readable(st, i) && Readable(r, i) && View(r, i) == View(st, i)
            && r.claims[i] == st.claims[i].(checked := st.claims[i].whole && st.cells[st.claims[i].cell].refs == 1)
  {
    hide CellOk, ClaimOk;
    HandleIsReadable(st, i);
    if st.claims[i].whole {
      StepKeepsInv(st, CheckUnique(i));
      HandleIsReadable(Asked(st, i), i);
    }
  }

  lemma CopyThenDrop(seen: State, i: nat, cap: nat, between: seq<Step>)
    requires Inv(seen) && IsUsable(seen, i) && seen.claims[i].len <= cap && Readable(seen, i)
    requires AllElsewhere(between, i) && AllElsewhere(between, |seen.claims|)
    requires Play(Apply(seen, Birth(View(seen, i), cap, true)), between).Some?
    ensures var n, copied := |seen.claims|, Play(Apply(seen, Birth(View(seen, i), cap, true)), between).value;
            Enabled(copied, Drop(i)) &&
            var r := Apply(copied, Drop(i));
            && n < |r.claims| && Readable(r, n) && View(r, n) == View(seen, i)
            && r.claims[n].cell == |seen.cells| && r.cells[r.claims[n].cell].kind.Owns?
            && r.cells[r.claims[n].cell].refs == 1
  {
    hide CellOk, ClaimOk, Readable, View;
    var n, bytes := |seen.claims|, View(seen, i);
    var born := Apply(seen, Birth(bytes, cap, true));
    NewbornSees(seen, bytes, cap);
    StepElsewhere(seen, Birth(bytes, cap, true), i);
    OthersLeaveHandle(born, between, i);
    OthersLeaveHandle(born, between, n);
    var copied := Play(born, between).value;
    KindsStay(born, between, |seen.cells|);
    HandleIsClaim(copied, i);
    StepElsewhere(copied, Drop(i), n);
    NoStepChangesAnotherView(copied, Drop(i), n);
  }

  lemma NewbornSees(st: State, bytes: seq<byte>, cap: nat)
    requires Inv(st) && |bytes| <= cap
    ensures var r, n := Apply(st, Birth(bytes, cap, true)), |st.claims|;
            Inv(r) && Readable(r, n) && View(r, n) == bytes && r.cells[r.claims[n].cell].refs == 1
  {
    hide CellOk, ClaimOk;
    StepKeepsInv(st, Birth(bytes, cap, true));
    HandleIsReadable(Apply(st, Birth(bytes, cap, true)), |st.claims|);
  }

  lemma KindStays(st: State, s: Step, c: nat)
    requires Enabled(st, s) && c < |st.cells|
    ensures c < |Apply(st, s).cells| && Apply(st, s).cells[c].kind == st.cells[c].kind
  {}

  lemma {:induction false} KindsStay(st: State, steps: seq<Step>, c: nat)
    requires Play(st, steps).Some? && c < |st.cells|
    ensures c < |Play(st, steps).value.cells| && Play(st, steps).value.cells[c].kind == st.cells[c].kind
  {
    hide Apply, Enabled;
    if steps != [] {
      var last := |steps| - 1;
      KindsStay(st, steps[..last], c);
      KindStays(Play(st, steps[..last]).value, steps[last], c);
    }
  }
}
