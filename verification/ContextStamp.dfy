/**
  * Stamping evaluation contexts from an explicit work queue.  The queue leaves the stamps a recursive descent leaves,
  * stamps no node twice, and stamping a body for a runtime context agrees with stamping it for the context that arrives.
  */
module ContextStamp {
  import opened Syntax
  import opened Wrappers

  type Ast = seq<Kind>

  /** The contexts of all nodes, `None` until stamped. */
  type Stamps = seq<Option<Context>>

  function Nodes(ws: seq<Work>): (r: seq<nat>)
    ensures |r| == |ws| && forall i :: 0 <= i < |r| ==> r[i] == ws[i].node
  {
    seq(|ws|, i requires 0 <= i < |ws| => ws[i].node)
  }

  /** The nodes a node pushes, in whatever context. */
  function Targets(k: Kind): seq<nat> {
    Nodes(Pushes(k, Void))
  }

  lemma TargetsAnyContext(k: Kind, c: Context)
    ensures Nodes(Pushes(k, c)) == Targets(k)
  {
    PushesSameNodes(k, c, Void);
  }

  /** Children come before their parents in the arena. */
  ghost predicate WellFormed(ast: Ast) {
    forall n :: 0 <= n < |ast| ==> forall i :: 0 <= i < |Targets(ast[n])| ==> Targets(ast[n])[i] < n
  }

  ghost predicate Below(ws: seq<Work>, bound: nat) {
    forall i :: 0 <= i < |ws| ==> ws[i].node < bound
  }

  lemma PushesBelow(ast: Ast, n: nat, c: Context)
    requires WellFormed(ast) && n < |ast|
    ensures Below(Pushes(ast[n], c), n)
  {
    TargetsAnyContext(ast[n], c);
    var ws := Pushes(ast[n], c);
    forall i | 0 <= i < |ws|
      ensures ws[i].node < n
    {
      assert ws[i].node == Nodes(ws)[i] == Targets(ast[n])[i];
    }
  }

  // ── The recursive definition ────────────────────────────────────

  /**
    * The stamps that stamping a node adds: none where it is stamped already, else its own and its children's, each child
    * in the context its parent gives it.
    */
  ghost function Marks(ast: Ast, w: Work, pre: Stamps): map<nat, Context>
    requires WellFormed(ast) && w.node < |ast| == |pre|
    decreases w.node + 1, 0
  {
    if pre[w.node].Some? then map[]
    else
      PushesBelow(ast, w.node, w.ctx);
      map[w.node := w.ctx] + MarksAll(ast, Pushes(ast[w.node], w.ctx), pre, w.node)
  }

  ghost function MarksAll(ast: Ast, ws: seq<Work>, pre: Stamps, bound: nat): map<nat, Context>
    requires WellFormed(ast) && Below(ws, bound) && bound <= |ast| == |pre|
    decreases bound, |ws| + 1
  {
    if ws == [] then map[]
    else MarksAll(ast, ws[..|ws| - 1], pre, bound) + Marks(ast, ws[|ws| - 1], pre)
  }

  /** Every node reached, once for each way it is reached. */
  ghost function Bag(ast: Ast, n: nat): multiset<nat>
    requires WellFormed(ast) && n < |ast|
    decreases n + 1, 0
  {
    multiset{n} + BagAll(ast, Targets(ast[n]), n)
  }

  ghost function BagAll(ast: Ast, ns: seq<nat>, bound: nat): multiset<nat>
    requires WellFormed(ast) && bound <= |ast| && forall i :: 0 <= i < |ns| ==> ns[i] < bound
    decreases bound, |ns| + 1
  {
    if ns == [] then multiset{} else BagAll(ast, ns[..|ns| - 1], bound) + Bag(ast, ns[|ns| - 1])
  }

  /** What is reached from a queue. */
  ghost function QueueBag(ast: Ast, ws: seq<Work>): multiset<nat>
    requires WellFormed(ast) && Below(ws, |ast|)
  {
    BagAll(ast, Nodes(ws), |ast|)
  }

  /** Each node is owned by one place: no two paths reach it. */
  ghost predicate IsTree(ast: Ast, ws: seq<Work>)
    requires WellFormed(ast) && Below(ws, |ast|)
  {
    Single(QueueBag(ast, ws))
  }

  ghost predicate Single(bag: multiset<nat>) {
    forall x :: bag[x] <= 1
  }

  lemma SingleParts(whole: multiset<nat>, a: multiset<nat>, b: multiset<nat>)
    requires whole == a + b && Single(whole)
    ensures Single(a) && Single(b) && forall x :: x in a ==> x !in b
  {
    assert forall x :: whole[x] == a[x] + b[x];
  }

  // ── Joining and bounding ────────────────────────────────────────

  lemma {:induction false} BagAllAnyBound(ast: Ast, ns: seq<nat>, a: nat, b: nat)
    requires WellFormed(ast) && a <= |ast| && b <= |ast|
    requires forall i :: 0 <= i < |ns| ==> ns[i] < a && ns[i] < b
    ensures BagAll(ast, ns, a) == BagAll(ast, ns, b)
    decreases |ns|
  {
    if ns != [] {
      BagAllAnyBound(ast, ns[..|ns| - 1], a, b);
    }
  }

  lemma {:induction false} BagAllJoin(ast: Ast, a: seq<nat>, b: seq<nat>, bound: nat)
    requires WellFormed(ast) && bound <= |ast|
    requires (forall i :: 0 <= i < |a| ==> a[i] < bound) && forall i :: 0 <= i < |b| ==> b[i] < bound
    ensures BagAll(ast, a + b, bound) == BagAll(ast, a, bound) + BagAll(ast, b, bound)
    decreases |b|
  {
    hide Bag;
    if b == [] {
      assert a + b == a;
    } else {
      BagAllJoin(ast, a, b[..|b| - 1], bound);
      assert (a + b)[..|a + b| - 1] == a + b[..|b| - 1];
    }
  }

  lemma {:induction false} MarksAllAnyBound(ast: Ast, ws: seq<Work>, pre: Stamps, a: nat, b: nat)
    requires WellFormed(ast) && Below(ws, a) && Below(ws, b) && a <= |ast| == |pre| && b <= |ast|
    ensures MarksAll(ast, ws, pre, a) == MarksAll(ast, ws, pre, b)
    decreases |ws|
  {
    if ws != [] {
      MarksAllAnyBound(ast, ws[..|ws| - 1], pre, a, b);
    }
  }

  lemma {:induction false} MarksAllJoin(ast: Ast, a: seq<Work>, b: seq<Work>, pre: Stamps, bound: nat)
    requires WellFormed(ast) && Below(a, bound) && Below(b, bound) && bound <= |ast| == |pre|
    ensures Below(a + b, bound)
    ensures MarksAll(ast, a + b, pre, bound) == MarksAll(ast, a, pre, bound) + MarksAll(ast, b, pre, bound)
    decreases |b|
  {
    hide Marks;
    if b == [] {
      assert a + b == a;
    } else {
      var front, last := b[..|b| - 1], b[|b| - 1];
      MarksAllJoin(ast, a, front, pre, bound);
      JoinThenDrop(a, b);
      MapsJoin(MarksAll(ast, a, pre, bound), MarksAll(ast, front, pre, bound), Marks(ast, last, pre));
    }
  }

  lemma JoinThenDrop(a: seq<Work>, b: seq<Work>)
    requires b != []
    ensures (a + b)[..|a + b| - 1] == a + b[..|b| - 1] && (a + b)[|a + b| - 1] == b[|b| - 1]
  {}

  lemma MapsJoin(a: map<nat, Context>, b: map<nat, Context>, c: map<nat, Context>)
    ensures (a + b) + c == a + (b + c)
  {}

  /** Marks fall only on nodes reached, and only on unstamped ones. */
  lemma {:induction false} MarksWithin(ast: Ast, w: Work, pre: Stamps)
    requires WellFormed(ast) && w.node < |ast| == |pre|
    ensures forall x :: x in Marks(ast, w, pre) ==> x in Bag(ast, w.node) && x <= w.node && pre[x].None?
    decreases w.node + 1, 0
  {
    if pre[w.node].None? {
      PushesBelow(ast, w.node, w.ctx);
      TargetsAnyContext(ast[w.node], w.ctx);
      MarksAllWithin(ast, Pushes(ast[w.node], w.ctx), pre, w.node);
    }
  }

  lemma {:induction false} MarksAllWithin(ast: Ast, ws: seq<Work>, pre: Stamps, bound: nat)
    requires WellFormed(ast) && Below(ws, bound) && bound <= |ast| == |pre|
    ensures forall x :: x in MarksAll(ast, ws, pre, bound) ==> x in BagAll(ast, Nodes(ws), bound) && x < bound && pre[x].None?
    decreases bound, |ws| + 1
  {
    if ws != [] {
      var front, last := ws[..|ws| - 1], ws[|ws| - 1];
      MarksAllWithin(ast, front, pre, bound);
      MarksWithin(ast, last, pre);
      assert Nodes(ws)[..|ws| - 1] == Nodes(front);
    }
  }

  // ── The work queue ──────────────────────────────────────────────

  /** The stamps with marks laid over them. */
  ghost function Overlay(pre: Stamps, marks: map<nat, Context>): (r: Stamps)
    ensures |r| == |pre| && forall i :: 0 <= i < |r| ==> r[i] == if i in marks then Some(marks[i]) else pre[i]
  {
    seq(|pre|, i requires 0 <= i < |pre| => if i in marks then Some(marks[i]) else pre[i])
  }

  /** Nothing reached from the queue has been reached before, nor will be reached twice. */
  ghost predicate Fresh(ast: Ast, queue: seq<Work>, done: map<nat, Context>)
    requires WellFormed(ast) && Below(queue, |ast|)
  {
    AtMostOnce(QueueBag(ast, queue), done)
  }

  ghost predicate AtMostOnce(bag: multiset<nat>, done: map<nat, Context>) {
    forall x :: bag[x] + (if x in done then 1 else 0) <= 1
  }

  lemma PopBag(ast: Ast, queue: seq<Work>)
    requires WellFormed(ast) && Below(queue, |ast|) && queue != []
    ensures var front, last := queue[..|queue| - 1], queue[|queue| - 1];
            && Below(front, |ast|)
            && QueueBag(ast, queue) == QueueBag(ast, front) + Bag(ast, last.node)
  {
    hide Bag, Pushes;
    NodesFront(queue);
  }

  lemma NodesFront(ws: seq<Work>)
    requires ws != []
    ensures Nodes(ws) != [] && Nodes(ws)[..|Nodes(ws)| - 1] == Nodes(ws[..|ws| - 1])
    ensures Nodes(ws)[|Nodes(ws)| - 1] == ws[|ws| - 1].node
  {}

  /** What a pop takes and a push gives back, counted. */
  lemma OneFewer(bag: multiset<nat>, left: multiset<nat>, front: multiset<nat>, own: multiset<nat>, n: nat,
                 done: map<nat, Context>, c: Context)
    requires bag == front + own == left + multiset{n} && own[n] >= 1
    requires AtMostOnce(bag, done)
    ensures n !in done && n !in front && |left| < |bag| && AtMostOnce(left, done[n := c])
  {
    assert bag[n] == front[n] + own[n];
    assert forall x :: bag[x] == left[x] + if x == n then 1 else 0;
  }

  lemma PushBag(ast: Ast, front: seq<Work>, n: nat, c: Context)
    requires WellFormed(ast) && Below(front, |ast|) && n < |ast|
    ensures var queue := front + Pushes(ast[n], c);
            && Below(queue, |ast|)
            && QueueBag(ast, queue) + multiset{n} == QueueBag(ast, front) + Bag(ast, n)
  {
    hide Pushes;
    var ws := Pushes(ast[n], c);
    PushesBelow(ast, n, c);
    TargetsAnyContext(ast[n], c);
    assert Nodes(front + ws) == Nodes(front) + Nodes(ws);
    BagAllJoin(ast, Nodes(front), Nodes(ws), |ast|);
    BagAllAnyBound(ast, Targets(ast[n]), n, |ast|);
  }

  /** Popping a node already stamped loses nothing. */
  lemma SkipStep(ast: Ast, queue: seq<Work>, pre: Stamps, done: map<nat, Context>)
    requires WellFormed(ast) && Below(queue, |ast|) && queue != [] && |ast| == |pre| && Fresh(ast, queue, done)
    requires pre[queue[|queue| - 1].node].Some?
    ensures var front := queue[..|queue| - 1];
            && Below(front, |ast|) && Fresh(ast, front, done)
            && MarksAll(ast, queue, pre, |ast|) == MarksAll(ast, front, pre, |ast|)
            && |QueueBag(ast, front)| < |QueueBag(ast, queue)|
  {
    hide Bag;
    PopBag(ast, queue);
    var last := queue[|queue| - 1];
    var before := QueueBag(ast, queue[..|queue| - 1]);
    ReachesItself(ast, last.node);
    assert forall x :: (before + Bag(ast, last.node))[x] == before[x] + Bag(ast, last.node)[x];
    assert last.node in Bag(ast, last.node);
  }

  lemma StampBag(ast: Ast, queue: seq<Work>, done: map<nat, Context>)
    requires WellFormed(ast) && Below(queue, |ast|) && queue != [] && Fresh(ast, queue, done)
    ensures var front, last := queue[..|queue| - 1], queue[|queue| - 1];
            var next := front + Pushes(ast[last.node], last.ctx);
            && Below(next, |ast|) && last.node !in done && Fresh(ast, next, done[last.node := last.ctx])
            && Below(front, |ast|) && last.node !in QueueBag(ast, front)
            && |QueueBag(ast, next)| < |QueueBag(ast, queue)|
  {
    hide Pushes, QueueBag, Bag, AtMostOnce, Below, WellFormed, Nodes;
    FrontBelow(queue, |ast|);
    PopBag(ast, queue);
    var front, last := queue[..|queue| - 1], queue[|queue| - 1];
    var n, next := last.node, front + Pushes(ast[last.node], last.ctx);
    PushBag(ast, front, n, last.ctx);
    ReachesItself(ast, n);
    OneFewer(QueueBag(ast, queue), QueueBag(ast, next), QueueBag(ast, front), Bag(ast, n),
             n, done, last.ctx);
  }

  lemma ReachesItself(ast: Ast, n: nat)
    requires WellFormed(ast) && n < |ast|
    ensures Bag(ast, n)[n] >= 1
  {}

  /** Popping a node not stamped moves its mark from what is to come to what is done. */
  lemma StampStep(ast: Ast, queue: seq<Work>, pre: Stamps, done: map<nat, Context>)
    requires WellFormed(ast) && Below(queue, |ast|) && queue != [] && |ast| == |pre| && Fresh(ast, queue, done)
    requires pre[queue[|queue| - 1].node].None?
    ensures var front, last := queue[..|queue| - 1], queue[|queue| - 1];
            var next := front + Pushes(ast[last.node], last.ctx);
            && Below(next, |ast|) && last.node !in done && Fresh(ast, next, done[last.node := last.ctx])
            && done + MarksAll(ast, queue, pre, |ast|) == done[last.node := last.ctx] + MarksAll(ast, next, pre, |ast|)
            && |QueueBag(ast, next)| < |QueueBag(ast, queue)|
  {
    hide Pushes, Fresh, BagAll, Bag;
    StampBag(ast, queue, done);
    var front, last := queue[..|queue| - 1], queue[|queue| - 1];
    var n, c := last.node, last.ctx;
    var children := Pushes(ast[n], c);
    PushesBelow(ast, n, c);
    MarksAllJoin(ast, front, children, pre, |ast|);
    MarksAllAnyBound(ast, children, pre, n, |ast|);
    MarksAllWithin(ast, front, pre, |ast|);
    MarksAllWithin(ast, children, pre, n);
    MoveMark(done, MarksAll(ast, front, pre, |ast|), n, c, MarksAll(ast, children, pre, n));
  }

  lemma MoveMark(done: map<nat, Context>, front: map<nat, Context>, n: nat, c: Context, children: map<nat, Context>)
    requires n !in front && n !in children
    ensures done + (front + (map[n := c] + children)) == done[n := c] + (front + children)
  {}

  /** Pop, stamp and push until the queue is empty. */
  method Drain(ast: Ast, stamps: array<Option<Context>>, work: seq<Work>)
    requires WellFormed(ast) && stamps.Length == |ast| && Below(work, |ast|) && IsTree(ast, work)
    modifies stamps
    ensures stamps[..] == Overlay(old(stamps[..]), MarksAll(ast, work, old(stamps[..]), |ast|))
  {
    hide Pushes, MarksAll, Bag, BagAll;
    ghost var pre := stamps[..];
    ghost var done: map<nat, Context> := map[];
    var queue := work;
    while queue != []
      invariant Below(queue, |ast|) && Fresh(ast, queue, done)
      invariant done + MarksAll(ast, queue, pre, |ast|) == MarksAll(ast, work, pre, |ast|)
      invariant stamps[..] == Overlay(pre, done)
      decreases |QueueBag(ast, queue)|
    {
      var last := queue[|queue| - 1];
      assert stamps[last.node] == stamps[..][last.node];
      NotYetDone(ast, queue, done);
      if stamps[last.node].Some? {
        SkipStep(ast, queue, pre, done);
        queue := queue[..|queue| - 1];
      } else {
        StampStep(ast, queue, pre, done);
        stamps[last.node] := Some(last.ctx);
        queue := queue[..|queue| - 1] + Pushes(ast[last.node], last.ctx);
        done := done[last.node := last.ctx];
      }
    }
    NoMarks(ast, pre);
  }

  lemma NotYetDone(ast: Ast, queue: seq<Work>, done: map<nat, Context>)
    requires WellFormed(ast) && Below(queue, |ast|) && queue != [] && Fresh(ast, queue, done)
    ensures queue[|queue| - 1].node !in done
  {
    hide Bag;
    PopBag(ast, queue);
    var n := queue[|queue| - 1].node;
    ReachesItself(ast, n);
    assert QueueBag(ast, queue)[n] >= 1;
  }

  lemma NoMarks(ast: Ast, pre: Stamps)
    requires WellFormed(ast) && |ast| == |pre|
    ensures Below([], |ast|) && MarksAll(ast, [], pre, |ast|) == map[]
  {}

  // ── The recursive descent ───────────────────────────────────────

  /** Stamp a node unless it is stamped, then its children in order, each finding what the ones before it left. */
  ghost function Descend(ast: Ast, w: Work, st: Stamps): (r: Stamps)
    requires WellFormed(ast) && w.node < |ast| == |st|
    ensures |r| == |st|
    decreases w.node + 1, 0
  {
    if st[w.node].Some? then st
    else
      PushesBelow(ast, w.node, w.ctx);
      DescendAll(ast, Pushes(ast[w.node], w.ctx), st[w.node := Some(w.ctx)], w.node)
  }

  ghost function DescendAll(ast: Ast, ws: seq<Work>, st: Stamps, bound: nat): (r: Stamps)
    requires WellFormed(ast) && Below(ws, bound) && bound <= |ast| == |st|
    ensures |r| == |st|
    decreases bound, |ws| + 1
  {
    if ws == [] then st else Descend(ast, ws[|ws| - 1], DescendAll(ast, ws[..|ws| - 1], st, bound))
  }

  /** Marks depend on the stamps of the nodes reached and on no others. */
  lemma {:induction false} MarksFrame(ast: Ast, w: Work, a: Stamps, b: Stamps)
    requires WellFormed(ast) && w.node < |ast| == |a| == |b|
    requires forall x :: x in Bag(ast, w.node) && x < |ast| ==> a[x] == b[x]
    ensures Marks(ast, w, a) == Marks(ast, w, b)
    decreases w.node + 1, 0
  {
    hide Pushes;
    assert w.node in Bag(ast, w.node);
    PushesBelow(ast, w.node, w.ctx);
    TargetsAnyContext(ast[w.node], w.ctx);
    MarksAllFrame(ast, Pushes(ast[w.node], w.ctx), a, b, w.node);
  }

  lemma {:induction false} MarksAllFrame(ast: Ast, ws: seq<Work>, a: Stamps, b: Stamps, bound: nat)
    requires WellFormed(ast) && Below(ws, bound) && bound <= |ast| == |a| == |b|
    requires forall x :: x in BagAll(ast, Nodes(ws), bound) && x < |ast| ==> a[x] == b[x]
    ensures MarksAll(ast, ws, a, bound) == MarksAll(ast, ws, b, bound)
    decreases bound, |ws| + 1
  {
    if ws != [] {
      assert Nodes(ws)[..|ws| - 1] == Nodes(ws[..|ws| - 1]);
      MarksAllFrame(ast, ws[..|ws| - 1], a, b, bound);
      MarksFrame(ast, ws[|ws| - 1], a, b);
    }
  }

  lemma {:induction false} DescendIsMarks(ast: Ast, w: Work, st: Stamps)
    requires WellFormed(ast) && w.node < |ast| == |st| && Single(Bag(ast, w.node))
    ensures Descend(ast, w, st) == Overlay(st, Marks(ast, w, st))
    decreases w.node + 1, 0
  {
    hide Pushes;
    if st[w.node].None? {
      var n, ws, stamped := w.node, Pushes(ast[w.node], w.ctx), st[w.node := Some(w.ctx)];
      PushesBelow(ast, n, w.ctx);
      TargetsAnyContext(ast[n], w.ctx);
      var below := BagAll(ast, Nodes(ws), n);
      SingleParts(Bag(ast, n), multiset{n}, below);
      assert n in multiset{n};
      DescendAllIsMarks(ast, ws, stamped, n);
      MarksAllFrame(ast, ws, st, stamped, n);
    }
  }

  lemma {:induction false} DescendAllIsMarks(ast: Ast, ws: seq<Work>, st: Stamps, bound: nat)
    requires WellFormed(ast) && Below(ws, bound) && bound <= |ast| == |st|
    requires Single(BagAll(ast, Nodes(ws), bound))
    ensures DescendAll(ast, ws, st, bound) == Overlay(st, MarksAll(ast, ws, st, bound))
    decreases bound, |ws| + 1
  {
    if ws != [] {
      hide Bag, Marks, Descend, Single, Below;
      var front, last := ws[..|ws| - 1], ws[|ws| - 1];
      NodesFront(ws);
      FrontBelow(ws, bound);
      var before, own := BagAll(ast, Nodes(front), bound), Bag(ast, last.node);
      SingleParts(BagAll(ast, Nodes(ws), bound), before, own);
      DescendAllIsMarks(ast, front, st, bound);
      MarksAllWithin(ast, front, st, bound);
      var so := DescendAll(ast, front, st, bound);
      DescendIsMarks(ast, last, so);
      MarksFrame(ast, last, st, so);
      OverlayTwice(st, MarksAll(ast, front, st, bound), Marks(ast, last, st));
    }
  }

  lemma FrontBelow(ws: seq<Work>, bound: nat)
    requires Below(ws, bound) && ws != []
    ensures Below(ws[..|ws| - 1], bound) && ws[|ws| - 1].node < bound
  {}

  lemma OverlayTwice(st: Stamps, a: map<nat, Context>, b: map<nat, Context>)
    ensures Overlay(Overlay(st, a), b) == Overlay(st, a + b)
  {}
}
