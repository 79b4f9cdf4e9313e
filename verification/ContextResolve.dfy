/**
  * A body whose value its caller decides is stamped once, for a runtime context, and resolved when that arrives.  This is
  * when that agrees with having stamped it for the context that arrives.
  */
module ContextResolve {
  import opened ContextStamp
  import opened Syntax
  import opened Wrappers

  // ── Which nodes are stamped ─────────────────────────────────────

  /** Which nodes a pass stamps does not depend on the contexts it starts from. */
  lemma {:induction false} SameKeys(ast: Ast, n: nat, c: Context, d: Context, pre: Stamps)
    requires WellFormed(ast) && n < |ast| == |pre|
    ensures Marks(ast, Work(n, c), pre).Keys == Marks(ast, Work(n, d), pre).Keys
    decreases n + 1, 0
  {
    hide Pushes;
    if pre[n].None? {
      PushesBelow(ast, n, c);
      PushesBelow(ast, n, d);
      PushesSameNodes(ast[n], c, d);
      SameKeysAll(ast, Pushes(ast[n], c), Pushes(ast[n], d), pre, n);
    }
  }

  lemma {:induction false} SameKeysAll(ast: Ast, a: seq<Work>, b: seq<Work>, pre: Stamps, bound: nat)
    requires WellFormed(ast) && Below(a, bound) && Below(b, bound) && bound <= |ast| == |pre| && SameNodes(a, b)
    ensures MarksAll(ast, a, pre, bound).Keys == MarksAll(ast, b, pre, bound).Keys
    decreases bound, |a| + 1
  {
    hide Marks;
    if a != [] {
      var v, w := a[|a| - 1], b[|b| - 1];
      SameKeysAll(ast, a[..|a| - 1], b[..|b| - 1], pre, bound);
      SameKeys(ast, v.node, v.ctx, w.ctx, pre);
    }
  }

  /** First writer wins, and nothing beneath an assignment, a reference or a stamped node is reached. */
  lemma StampedStay(ast: Ast, w: Work, st: Stamps, x: nat)
    requires WellFormed(ast) && w.node < |ast| == |st| && Single(Bag(ast, w.node)) && x < |ast|
    ensures st[x].Some? ==> Descend(ast, w, st)[x] == st[x]
    ensures st[w.node].Some? ==> Descend(ast, w, st) == st
    ensures st[w.node].None? ==> Descend(ast, w, st)[w.node] == Some(w.ctx)
    ensures st[w.node].None? && ast[w.node].Deferred? && x != w.node ==> Descend(ast, w, st)[x] == st[x]
  {
    hide Descend, Bag, Single;
    DescendIsMarks(ast, w, st);
    MarksWithin(ast, w, st);
    if st[w.node].None? {
      PushesBelow(ast, w.node, w.ctx);
      MarksAllWithin(ast, Pushes(ast[w.node], w.ctx), st, w.node);
    }
  }

  // ── Marks, one by one ───────────────────────────────────────────

  lemma OwnMark(ast: Ast, w: Work, pre: Stamps)
    requires WellFormed(ast) && w.node < |ast| == |pre| && pre[w.node].None?
    ensures w.node in Marks(ast, w, pre) && Marks(ast, w, pre)[w.node] == w.ctx
    ensures Below(Pushes(ast[w.node], w.ctx), w.node)
    ensures var children := MarksAll(ast, Pushes(ast[w.node], w.ctx), pre, w.node);
            forall x :: x in Marks(ast, w, pre) && x != w.node <==> x in children
    ensures var children := MarksAll(ast, Pushes(ast[w.node], w.ctx), pre, w.node);
            forall x :: x in children ==> Marks(ast, w, pre)[x] == children[x]
  {
    hide Pushes;
    PushesBelow(ast, w.node, w.ctx);
    MarksAllWithin(ast, Pushes(ast[w.node], w.ctx), pre, w.node);
  }

  /** In a tree the marks of a list are those of its parts, each keeping its own. */
  lemma SplitMarks(ast: Ast, ws: seq<Work>, pre: Stamps, bound: nat)
    requires WellFormed(ast) && Below(ws, bound) && bound <= |ast| == |pre| && ws != []
    requires Single(BagAll(ast, Nodes(ws), bound))
    ensures var front, last := ws[..|ws| - 1], ws[|ws| - 1];
            && Below(front, bound) && last.node < bound
            && Single(BagAll(ast, Nodes(front), bound)) && Single(Bag(ast, last.node))
            && var a, b := MarksAll(ast, front, pre, bound), Marks(ast, last, pre);
               && MarksAll(ast, ws, pre, bound) == a + b && a.Keys !! b.Keys
  {
    hide Bag, Single, Marks;
    var front, last := ws[..|ws| - 1], ws[|ws| - 1];
    NodesFront(ws);
    FrontBelow(ws, bound);
    SingleParts(BagAll(ast, Nodes(ws), bound), BagAll(ast, Nodes(front), bound), Bag(ast, last.node));
    MarksAllWithin(ast, front, pre, bound);
    MarksWithin(ast, last, pre);
  }

  lemma SingleBelow(ast: Ast, n: nat, c: Context)
    requires WellFormed(ast) && n < |ast| && Single(Bag(ast, n))
    ensures Below(Pushes(ast[n], c), n) && Single(BagAll(ast, Nodes(Pushes(ast[n], c)), n))
  {
    hide Pushes, Single;
    PushesBelow(ast, n, c);
    TargetsAnyContext(ast[n], c);
    SingleParts(Bag(ast, n), multiset{n}, BagAll(ast, Targets(ast[n]), n));
  }

  /** Whatever a list puts first on an unstamped node is its mark. */
  lemma {:induction false} MarkedHere(ast: Ast, ws: seq<Work>, pre: Stamps, bound: nat, i: nat)
    requires WellFormed(ast) && Below(ws, bound) && bound <= |ast| == |pre| && i < |ws|
    requires Single(BagAll(ast, Nodes(ws), bound)) && pre[ws[i].node].None?
    ensures ws[i].node in MarksAll(ast, ws, pre, bound) && MarksAll(ast, ws, pre, bound)[ws[i].node] == ws[i].ctx
    decreases |ws|
  {
    hide MarksAll, Marks, BagAll, Bag, Single;
    SplitMarks(ast, ws, pre, bound);
    var front, last := ws[..|ws| - 1], ws[|ws| - 1];
    if i < |front| {
      assert front[i] == ws[i];
      MarkedHere(ast, front, pre, bound, i);
    } else {
      OwnMark(ast, last, pre);
    }
  }

  /** A marked node marks its unstamped children as its own mark says. */
  lemma {:induction false} MarkedChildren(ast: Ast, w: Work, pre: Stamps, x: nat, i: nat)
    requires WellFormed(ast) && w.node < |ast| == |pre| && Single(Bag(ast, w.node)) && x in Marks(ast, w, pre) && x < |ast|
    requires var ws := Pushes(ast[x], Marks(ast, w, pre)[x]); i < |ws| && ws[i].node < |pre| && pre[ws[i].node].None?
    ensures var v := Pushes(ast[x], Marks(ast, w, pre)[x])[i];
            v.node in Marks(ast, w, pre) && Marks(ast, w, pre)[v.node] == v.ctx
    decreases w.node + 1, 0
  {
    hide Pushes, Single, Bag, MarksAll, BagAll;
    MarksWithin(ast, w, pre);
    OwnMark(ast, w, pre);
    SingleBelow(ast, w.node, w.ctx);
    if x == w.node {
      MarkedHere(ast, Pushes(ast[x], w.ctx), pre, x, i);
    } else {
      MarkedChildrenAll(ast, Pushes(ast[w.node], w.ctx), pre, w.node, x, i);
    }
  }

  lemma {:induction false} MarkedChildrenAll(ast: Ast, ws: seq<Work>, pre: Stamps, bound: nat, x: nat, i: nat)
    requires WellFormed(ast) && Below(ws, bound) && bound <= |ast| == |pre| && Single(BagAll(ast, Nodes(ws), bound))
    requires x in MarksAll(ast, ws, pre, bound) && x < |ast|
    requires var us := Pushes(ast[x], MarksAll(ast, ws, pre, bound)[x]);
             i < |us| && us[i].node < |pre| && pre[us[i].node].None?
    ensures var v := Pushes(ast[x], MarksAll(ast, ws, pre, bound)[x])[i];
            v.node in MarksAll(ast, ws, pre, bound) && MarksAll(ast, ws, pre, bound)[v.node] == v.ctx
    decreases bound, |ws| + 1
  {
    hide Pushes, Single, Bag, BagAll, Marks;
    if ws != [] {
      SplitMarks(ast, ws, pre, bound);
      var front, last := ws[..|ws| - 1], ws[|ws| - 1];
      if x in Marks(ast, last, pre) {
        MarkedChildren(ast, last, pre, x, i);
      } else {
        MarkedChildrenAll(ast, front, pre, bound, x, i);
      }
    }
  }

  // ── Resolving ───────────────────────────────────────────────────

  /** The same nodes marked, each with a context that comes to the same in `w`. */
  ghost predicate Alike(a: map<nat, Context>, b: map<nat, Context>, w: Context) {
    a.Keys == b.Keys && forall x :: x in a ==> Resolve(w, a[x]) == Resolve(w, b[x])
  }

  ghost predicate AllStand(a: map<nat, Context>, b: map<nat, Context>, w: Context) {
    a.Keys == b.Keys && forall x :: x in a ==> Stands(w, a[x], b[x])
  }

  /** Both contexts treat a comma's earlier items alike, or they are stamped already. */
  predicate Keeps(items: seq<nat>, c: Context, d: Context, pre: Stamps) {
    (c == List <==> d == List) || forall i :: 0 <= i < |items| - 1 ==> items[i] < |pre| && pre[items[i]].Some?
  }

  /**
    * What can go wrong: in a frame running in list context, a comma stamped `Runtime` has sent its earlier items to void,
    * where list context would have kept them.
    */
  predicate CommaSplits(items: seq<nat>, c: Context, d: Context, pre: Stamps, w: Context) {
    w == List && c == Runtime && !Keeps(items, c, d, pre)
  }

  ghost predicate NoCommaSplits(ast: Ast, a: map<nat, Context>, b: map<nat, Context>, pre: Stamps, w: Context) {
    forall x :: x in a && x in b && x < |ast| && ast[x].Comma? ==> !CommaSplits(ast[x].items, a[x], b[x], pre, w)
  }

  /** Work aligned but for nodes already stamped, which it passes over. */
  ghost predicate AlignedUnstamped(a: seq<Work>, b: seq<Work>, w: Context, pre: Stamps) {
    |a| == |b| && forall i :: 0 <= i < |a| ==>
      a[i].node == b[i].node && (Stands(w, a[i].ctx, b[i].ctx) || (a[i].node < |pre| && pre[a[i].node].Some?))
  }

  lemma PushesAlignUnstamped(k: Kind, c: Context, d: Context, w: Context, pre: Stamps)
    requires IsStatic(w) && Stands(w, c, d) && (k.Comma? ==> !CommaSplits(k.items, c, d, pre, w))
    ensures AlignedUnstamped(Pushes(k, c), Pushes(k, d), w, pre)
  {
    if k.Comma? && !(c == List <==> d == List) {
      PushesSameNodes(k, c, d);
    } else {
      hide Pushes;
      PushesAligned(k, c, d, w);
    }
  }

  lemma FrontAligned(a: seq<Work>, b: seq<Work>, w: Context, pre: Stamps)
    requires AlignedUnstamped(a, b, w, pre) && a != []
    ensures AlignedUnstamped(a[..|a| - 1], b[..|b| - 1], w, pre)
    ensures Nodes(a) == Nodes(b) && a[|a| - 1].node == b[|b| - 1].node
  {}

  lemma {:induction false} MarksStand(ast: Ast, n: nat, c: Context, d: Context, pre: Stamps, w: Context)
    requires WellFormed(ast) && n < |ast| == |pre| && Single(Bag(ast, n)) && IsStatic(w)
    requires Stands(w, c, d) || pre[n].Some?
    requires NoCommaSplits(ast, Marks(ast, Work(n, c), pre), Marks(ast, Work(n, d), pre), pre, w)
    ensures AllStand(Marks(ast, Work(n, c), pre), Marks(ast, Work(n, d), pre), w)
    decreases n + 1, 0
  {
    hide Pushes, Single, Bag, BagAll, MarksAll, Stands;
    if pre[n].None? {
      OwnMark(ast, Work(n, c), pre);
      OwnMark(ast, Work(n, d), pre);
      SingleBelow(ast, n, c);
      SingleBelow(ast, n, d);
      assert ast[n].Comma? ==> !CommaSplits(ast[n].items, c, d, pre, w);
      PushesAlignUnstamped(ast[n], c, d, w, pre);
      MarksAllStand(ast, Pushes(ast[n], c), Pushes(ast[n], d), pre, n, w);
    }
  }

  lemma {:induction false} MarksAllStand(ast: Ast, a: seq<Work>, b: seq<Work>, pre: Stamps, bound: nat, w: Context)
    requires WellFormed(ast) && Below(a, bound) && Below(b, bound) && bound <= |ast| == |pre| && IsStatic(w)
    requires AlignedUnstamped(a, b, w, pre) && Single(BagAll(ast, Nodes(a), bound))
    requires NoCommaSplits(ast, MarksAll(ast, a, pre, bound), MarksAll(ast, b, pre, bound), pre, w)
    ensures AllStand(MarksAll(ast, a, pre, bound), MarksAll(ast, b, pre, bound), w)
    decreases bound, |a| + 1
  {
    hide Pushes, Single, Bag, BagAll, Marks, Stands;
    if a != [] {
      FrontAligned(a, b, w, pre);
      SplitMarks(ast, a, pre, bound);
      SplitMarks(ast, b, pre, bound);
      var v, u := a[|a| - 1], b[|b| - 1];
      LastAligned(a, b, w, pre);
      MarksAllStand(ast, a[..|a| - 1], b[..|b| - 1], pre, bound, w);
      MarksStand(ast, v.node, v.ctx, u.ctx, pre, w);
    }
  }

  lemma LastAligned(a: seq<Work>, b: seq<Work>, w: Context, pre: Stamps)
    requires AlignedUnstamped(a, b, w, pre) && a != []
    ensures var v, u := a[|a| - 1], b[|b| - 1];
            Stands(w, v.ctx, u.ctx) || (v.node < |pre| && pre[v.node].Some?)
  {}

  lemma StandingAlike(a: map<nat, Context>, b: map<nat, Context>, w: Context)
    requires IsStatic(w) && AllStand(a, b, w)
    ensures Alike(a, b, w)
  {
    forall x | x in a
      ensures Resolve(w, a[x]) == Resolve(w, b[x])
    {
      StandsResolves(w, a[x], b[x]);
    }
  }

  /** A comma that splits shows it: an earlier item is void under one stamping and list under the other. */
  lemma SplitShows(ast: Ast, a: seq<Work>, b: seq<Work>, pre: Stamps, w: Context, x: nat)
    requires WellFormed(ast) && Below(a, |ast|) && Below(b, |ast|) && |ast| == |pre| && IsStatic(w)
    requires Nodes(a) == Nodes(b) && IsTree(ast, a)
    requires x in MarksAll(ast, a, pre, |ast|) && x in MarksAll(ast, b, pre, |ast|) && x < |ast| && ast[x].Comma?
    requires CommaSplits(ast[x].items, MarksAll(ast, a, pre, |ast|)[x], MarksAll(ast, b, pre, |ast|)[x], pre, w)
    ensures !Alike(MarksAll(ast, a, pre, |ast|), MarksAll(ast, b, pre, |ast|), w)
  {
    hide MarksAll, Marks, BagAll, Bag, Single;
    var m, k := MarksAll(ast, a, pre, |ast|), MarksAll(ast, b, pre, |ast|);
    var items := ast[x].items;
    PushesBelow(ast, x, m[x]);
    assert forall i :: 0 <= i < |items| - 1 ==> Pushes(ast[x], m[x])[i] == Work(items[i], Void);
    assert forall i :: 0 <= i < |items| - 1 ==> Pushes(ast[x], k[x])[i] == Work(items[i], List);
    assert forall i :: 0 <= i < |items| - 1 ==> items[i] < |pre|;
    var i :| 0 <= i < |items| - 1 && !(items[i] < |pre| && pre[items[i]].Some?);
    MarkedChildrenAll(ast, a, pre, |ast|, x, i);
    MarkedChildrenAll(ast, b, pre, |ast|, x, i);
  }

  /**
    * Stamping for one context and resolving agrees with stamping for what it stands for, exactly when no comma splits.
    */
  lemma ResolvesAlikeIff(ast: Ast, a: seq<Work>, b: seq<Work>, pre: Stamps, w: Context)
    requires WellFormed(ast) && Below(a, |ast|) && Below(b, |ast|) && |ast| == |pre| && IsStatic(w)
    requires Aligned(a, b, w) && IsTree(ast, a)
    ensures var m, k := MarksAll(ast, a, pre, |ast|), MarksAll(ast, b, pre, |ast|);
            Alike(m, k, w) <==> NoCommaSplits(ast, m, k, pre, w)
  {
    hide MarksAll, CommaSplits, BagAll;
    var m, k := MarksAll(ast, a, pre, |ast|), MarksAll(ast, b, pre, |ast|);
    AlignedNodes(a, b, w, pre);
    if NoCommaSplits(ast, m, k, pre, w) {
      MarksAllStand(ast, a, b, pre, |ast|, w);
      StandingAlike(m, k, w);
    } else {
      var x :| x in m && x in k && x < |ast| && ast[x].Comma? && CommaSplits(ast[x].items, m[x], k[x], pre, w);
      SplitShows(ast, a, b, pre, w, x);
    }
  }

  lemma AlignedNodes(a: seq<Work>, b: seq<Work>, w: Context, pre: Stamps)
    requires Aligned(a, b, w)
    ensures Nodes(a) == Nodes(b) && AlignedUnstamped(a, b, w, pre)
  {}

  // ── Told from the tree, before stamping ─────────────────────────

  /** The `i`th child inherits a `Runtime` or a list context as it is. */
  predicate Inherits(k: Kind, i: nat) {
    && i < |Pushes(k, Runtime)| && Pushes(k, Runtime)[i].ctx == Runtime
    && i < |Pushes(k, List)| && Pushes(k, List)[i].ctx == List
  }

  /** An item before the last that stamping would still reach. */
  predicate HasEarlier(items: seq<nat>, pre: Stamps) {
    exists i :: 0 <= i < |items| - 1 && !(items[i] < |pre| && pre[items[i]].Some?)
  }

  /** From an unstamped node, through children that inherit, to a comma with an unstamped earlier item. */
  ghost predicate Loses(ast: Ast, n: nat, pre: Stamps)
    requires n < |ast| == |pre|
    decreases n
  {
    && pre[n].None?
    && ((ast[n].Comma? && HasEarlier(ast[n].items, pre))
        || exists i: nat :: Inherits(ast[n], i) && Pushes(ast[n], Runtime)[i].node < n
                       && Loses(ast, Pushes(ast[n], Runtime)[i].node, pre))
  }

  ghost predicate LosesAt(ast: Ast, a: seq<Work>, b: seq<Work>, pre: Stamps, i: nat)
    requires |ast| == |pre|
  {
    && i < |a| && i < |b| && a[i].ctx == Runtime && b[i].ctx == List
    && a[i].node < |ast| && Loses(ast, a[i].node, pre)
  }

  /** No context but `Runtime` itself turns into list, and no child gets the two but from a parent that has them. */
  lemma OnlyInherited(k: Kind, c: Context, d: Context, i: nat)
    requires Stands(List, c, d) && !(c == Runtime && d == List) && i < |Pushes(k, c)| && i < |Pushes(k, d)|
    ensures !(Pushes(k, c)[i].ctx == Runtime && Pushes(k, d)[i].ctx == List)
  {
    hide Pushes;
    assert Stands(Scalar, c, d);
    PushesAligned(k, c, d, Scalar);
  }

  lemma SplitsJoin(ast: Ast, m: map<nat, Context>, k: map<nat, Context>, n: map<nat, Context>, l: map<nat, Context>,
                   pre: Stamps, w: Context)
    requires m.Keys == k.Keys && n.Keys == l.Keys && m.Keys !! n.Keys
    ensures NoCommaSplits(ast, m + n, k + l, pre, w) <==> NoCommaSplits(ast, m, k, pre, w) && NoCommaSplits(ast, n, l, pre, w)
  {
    hide CommaSplits;
    var a, b := m + n, k + l;
    assert forall x :: x in m ==> x !in n && x !in l && a[x] == m[x] && b[x] == k[x];
    assert forall x :: x in n ==> a[x] == n[x] && b[x] == l[x];
  }

  lemma SplitsOwn(ast: Ast, n: nat, c: Context, d: Context, m: map<nat, Context>, k: map<nat, Context>, pre: Stamps)
    requires n < |ast| && n !in m && n !in k
    ensures NoCommaSplits(ast, map[n := c] + m, map[n := d] + k, pre, List) <==>
            !(ast[n].Comma? && CommaSplits(ast[n].items, c, d, pre, List)) && NoCommaSplits(ast, m, k, pre, List)
  {
    hide CommaSplits;
    var a, b := map[n := c] + m, map[n := d] + k;
    assert n in a && n in b && a[n] == c && b[n] == d;
    assert forall x :: x in m ==> a[x] == m[x];
    assert forall x :: x in k ==> b[x] == k[x];
  }

  /** A comma splits somewhere beneath a node exactly when the node passes `Runtime` for list down to one that loses. */
  lemma {:induction false} SplitsIff(ast: Ast, n: nat, c: Context, d: Context, pre: Stamps)
    requires WellFormed(ast) && n < |ast| == |pre| && Single(Bag(ast, n)) && (Stands(List, c, d) || pre[n].Some?)
    ensures NoCommaSplits(ast, Marks(ast, Work(n, c), pre), Marks(ast, Work(n, d), pre), pre, List) <==>
            !(c == Runtime && d == List && Loses(ast, n, pre))
    decreases n + 1, 0
  {
    hide Pushes, Single, Bag, BagAll, MarksAll, Stands, Loses, WellFormed;
    LosesUnfold(ast, n, pre);
    if pre[n].None? {
      OwnMarks(ast, n, c, pre);
      OwnMarks(ast, n, d, pre);
      var a, b := Pushes(ast[n], c), Pushes(ast[n], d);
      SplitsOwn(ast, n, c, d, MarksAll(ast, a, pre, n), MarksAll(ast, b, pre, n), pre);
      if !(ast[n].Comma? && CommaSplits(ast[n].items, c, d, pre, List)) {
        SingleBelow(ast, n, c);
        SingleBelow(ast, n, d);
        PushesAlignUnstamped(ast[n], c, d, List, pre);
        SplitsAllIff(ast, a, b, pre, n);
        LosesBelow(ast, n, c, d, pre);
      }
    }
  }

  lemma OwnMarks(ast: Ast, n: nat, c: Context, pre: Stamps)
    requires WellFormed(ast) && n < |ast| == |pre| && pre[n].None?
    ensures Below(Pushes(ast[n], c), n)
    ensures Marks(ast, Work(n, c), pre) == map[n := c] + MarksAll(ast, Pushes(ast[n], c), pre, n)
    ensures n !in MarksAll(ast, Pushes(ast[n], c), pre, n)
  {
    hide Pushes;
    PushesBelow(ast, n, c);
    MarksAllWithin(ast, Pushes(ast[n], c), pre, n);
  }

  lemma LosesUnfold(ast: Ast, n: nat, pre: Stamps)
    requires n < |ast| == |pre|
    ensures pre[n].Some? ==> !Loses(ast, n, pre)
    ensures pre[n].None? && ast[n].Comma? && CommaSplits(ast[n].items, Runtime, List, pre, List) ==> Loses(ast, n, pre)
  {}

  lemma LosesThrough(ast: Ast, n: nat, pre: Stamps)
    requires WellFormed(ast) && n < |ast| == |pre| && pre[n].None?
    requires !(ast[n].Comma? && CommaSplits(ast[n].items, Runtime, List, pre, List))
    ensures Loses(ast, n, pre) <==>
            exists i: nat :: LosesAt(ast, Pushes(ast[n], Runtime), Pushes(ast[n], List), pre, i)
  {
    hide Pushes;
    var a, b := Pushes(ast[n], Runtime), Pushes(ast[n], List);
    PushesBelow(ast, n, Runtime);
    hide WellFormed;
    if i: nat :| LosesAt(ast, a, b, pre, i) {
      assert Inherits(ast[n], i);
    }
    if Loses(ast, n, pre) {
      var i: nat :| Inherits(ast[n], i) && a[i].node < n && Loses(ast, a[i].node, pre);
      assert LosesAt(ast, a, b, pre, i);
    }
  }

  /** What a node loses without splitting itself, one of its children loses. */
  lemma LosesBelow(ast: Ast, n: nat, c: Context, d: Context, pre: Stamps)
    requires WellFormed(ast) && n < |ast| == |pre| && pre[n].None? && Stands(List, c, d)
    requires !(ast[n].Comma? && CommaSplits(ast[n].items, c, d, pre, List))
    ensures (exists i: nat :: LosesAt(ast, Pushes(ast[n], c), Pushes(ast[n], d), pre, i)) <==>
            c == Runtime && d == List && Loses(ast, n, pre)
  {
    hide Pushes, Loses, WellFormed, Stands, CommaSplits;
    if c == Runtime && d == List {
      LosesThrough(ast, n, pre);
    } else if i: nat :| LosesAt(ast, Pushes(ast[n], c), Pushes(ast[n], d), pre, i) {
      OnlyInherited(ast[n], c, d, i);
    }
  }

  lemma {:induction false} SplitsAllIff(ast: Ast, a: seq<Work>, b: seq<Work>, pre: Stamps, bound: nat)
    requires WellFormed(ast) && Below(a, bound) && Below(b, bound) && bound <= |ast| == |pre|
    requires AlignedUnstamped(a, b, List, pre) && Single(BagAll(ast, Nodes(a), bound))
    ensures NoCommaSplits(ast, MarksAll(ast, a, pre, bound), MarksAll(ast, b, pre, bound), pre, List) <==>
            !exists i: nat :: LosesAt(ast, a, b, pre, i)
    decreases bound, |a| + 1
  {
    hide Pushes, Single, Bag, BagAll, Marks, Stands, Loses, WellFormed, CommaSplits;
    if a != [] {
      FrontAligned(a, b, List, pre);
      SplitMarks(ast, a, pre, bound);
      SplitMarks(ast, b, pre, bound);
      LastAligned(a, b, List, pre);
      var front, back, v, u := a[..|a| - 1], b[..|b| - 1], a[|a| - 1], b[|b| - 1];
      SplitsAllIff(ast, front, back, pre, bound);
      SplitsIff(ast, v.node, v.ctx, u.ctx, pre);
      SameKeys(ast, v.node, v.ctx, u.ctx, pre);
      SameKeysAll(ast, front, back, pre, bound);
      SplitsJoin(ast, MarksAll(ast, front, pre, bound), MarksAll(ast, back, pre, bound),
                 Marks(ast, v, pre), Marks(ast, u, pre), pre, List);
      LosesLast(ast, a, b, pre);
    }
  }

  lemma LosesLast(ast: Ast, a: seq<Work>, b: seq<Work>, pre: Stamps)
    requires |a| == |b| > 0 && |ast| == |pre|
    ensures var last := |a| - 1;
            (exists i: nat :: LosesAt(ast, a, b, pre, i)) <==>
            (exists i: nat :: LosesAt(ast, a[..last], b[..last], pre, i)) || LosesAt(ast, a, b, pre, last)
  {
    hide Loses;
    var last := |a| - 1;
    if i: nat :| LosesAt(ast, a, b, pre, i) {
      assert i < last ==> LosesAt(ast, a[..last], b[..last], pre, i);
    }
    if i: nat :| LosesAt(ast, a[..last], b[..last], pre, i) {
      assert LosesAt(ast, a, b, pre, i);
    }
  }

  /** Whether a program's value, through what inherits its context, comes to a comma with an unstamped earlier item. */
  ghost predicate ProgramLoses(ast: Ast, statements: seq<Stmt>, pre: Stamps)
    requires |ast| == |pre|
  {
    exists i: nat :: LosesAt(ast, BodyPushes(statements, Runtime), BodyPushes(statements, List), pre, i)
  }

  /**
    * A program stamped `Runtime` and run in `w`, against the program stamped for `w`: they agree in scalar, boolean and
    * void frames, and in a list frame exactly when the program's value does not come to a comma that would lose items.
    */
  lemma RuntimeProgram(ast: Ast, statements: seq<Stmt>, pre: Stamps, w: Context)
    requires WellFormed(ast) && |ast| == |pre| && IsStatic(w) && Below(BodyPushes(statements, Runtime), |ast|)
    requires IsTree(ast, BodyPushes(statements, Runtime))
    ensures Below(BodyPushes(statements, w), |ast|)
    ensures var m := MarksAll(ast, BodyPushes(statements, Runtime), pre, |ast|);
            var k := MarksAll(ast, BodyPushes(statements, w), pre, |ast|);
            && (Alike(m, k, w) <==> !(w == List && ProgramLoses(ast, statements, pre)))
            && ((forall x :: x in m && x < |ast| && ast[x].Comma? ==> m[x] != Runtime) ==> Alike(m, k, w))
  {
    hide BodyPushes, MarksAll, BagAll, Loses;
    var a, b := BodyPushes(statements, Runtime), BodyPushes(statements, w);
    BodyAligned(statements, Runtime, w, w);
    assert Below(b, |ast|) by {
      AlignedBelow(a, b, w, |ast|);
    }
    ResolvesAlikeIff(ast, a, b, pre, w);
    if w == List {
      AlignedNodes(a, b, w, pre);
      SplitsAllIff(ast, a, b, pre, |ast|);
    }
  }

  lemma AlignedBelow(a: seq<Work>, b: seq<Work>, w: Context, bound: nat)
    requires Aligned(a, b, w) && Below(a, bound)
    ensures Below(b, bound)
  {}

  // ── The smallest case that differs ──────────────────────────────

  const Pair: Ast := [Leaf, Leaf, Comma([0, 1])]

  const Unstamped: Stamps := [None, None, None]

  lemma PairWellFormed()
    ensures WellFormed(Pair)
  {
    assert Targets(Pair[0]) == [] && Targets(Pair[1]) == [];
    assert [0, 1][..1] == [0];
    assert Pushes(Pair[2], Void) == [Work(0, Void), Work(1, Void)];
  }

  lemma LeafMark(n: nat, c: Context)
    requires n < 2 && WellFormed(Pair)
    ensures Marks(Pair, Work(n, c), Unstamped) == map[n := c]
  {
    assert MarksAll(Pair, [], Unstamped, n) == map[];
  }

  lemma MarksOfTwo(ast: Ast, v: Work, u: Work, pre: Stamps, bound: nat)
    requires WellFormed(ast) && v.node < bound && u.node < bound && bound <= |ast| == |pre|
    ensures MarksAll(ast, [v, u], pre, bound) == Marks(ast, v, pre) + Marks(ast, u, pre)
  {
    hide Marks, WellFormed;
    assert [v, u][..1] == [v] && [v][..0] == [];
    assert MarksAll(ast, [v], pre, bound) == map[] + Marks(ast, v, pre);
  }

  lemma MarksUnfold(ast: Ast, w: Work, pre: Stamps)
    requires WellFormed(ast) && w.node < |ast| == |pre| && pre[w.node].None?
    ensures Below(Pushes(ast[w.node], w.ctx), w.node)
    ensures Marks(ast, w, pre) == map[w.node := w.ctx] + MarksAll(ast, Pushes(ast[w.node], w.ctx), pre, w.node)
  {
    hide Pushes, WellFormed, MarksAll;
    PushesBelow(ast, w.node, w.ctx);
  }

  lemma PairMarks(c: Context, v: Context, u: Context)
    requires WellFormed(Pair) && Pushes(Pair[2], c) == [Work(0, v), Work(1, u)]
    ensures Marks(Pair, Work(2, c), Unstamped) == map[2 := c, 0 := v, 1 := u]
  {
    hide Pushes, WellFormed, Marks, MarksAll;
    MarksUnfold(Pair, Work(2, c), Unstamped);
    LeafMark(0, v);
    LeafMark(1, u);
    MarksOfTwo(Pair, Work(0, v), Work(1, u), Unstamped, 2);
    MapOfThree(c, v, u);
  }

  lemma MapOfThree(c: Context, v: Context, u: Context)
    ensures map[2 := c] + (map[0 := v] + map[1 := u]) == map[2 := c, 0 := v, 1 := u]
  {}

  /** `(x, y)` as the value of a body: stamped `Runtime`, its first item is void even in a frame that wants a list. */
  lemma RuntimeCommaDropsItsFirstItem()
    ensures WellFormed(Pair)
    ensures Marks(Pair, Work(2, Runtime), Unstamped) == map[2 := Runtime, 0 := Void, 1 := Runtime]
    ensures Marks(Pair, Work(2, List), Unstamped) == map[2 := List, 0 := List, 1 := List]
  {
    hide WellFormed, Marks;
    PairWellFormed();
    assert [0, 1][..1] == [0];
    assert Pushes(Pair[2], Runtime) == [Work(0, Void), Work(1, Runtime)];
    assert Pushes(Pair[2], List) == [Work(0, List), Work(1, List)];
    PairMarks(Runtime, Void, Runtime);
    PairMarks(List, List, List);
  }
}
