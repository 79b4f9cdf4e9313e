/**
  * Teardown of reference-counted graphs through a per-thread worklist.  The outermost release drains the list, nested
  * releases only append to it; the graph left behind is the one recursive drop leaves, for any graph, cycles included.
  */
module Release {

  /** A value held in a cell, an array slot or a hash entry: a leaf, or one strong edge. */
  datatype Value = Leaf(id: nat) | Edge(target: nat)

  datatype Node = Node(alive: bool, strong: nat, contents: seq<Value>)

  const Dead := Node(false, 0, [])

  type Graph = seq<Node>

  predicate CarriesStrongEdge(v: Value) {
    v.Edge?
  }

  // ── Counting edges ──────────────────────────────────────────────

  function EdgeOf(v: Value): multiset<nat> {
    if v.Edge? then multiset{v.target} else multiset{}
  }

  function Edges(vs: seq<Value>): multiset<nat> {
    if vs == [] then multiset{} else EdgeOf(vs[0]) + Edges(vs[1..])
  }

  lemma {:induction false} EdgesConcat(a: seq<Value>, b: seq<Value>)
    ensures Edges(a + b) == Edges(a) + Edges(b)
  {
    hide EdgeOf;
    if a == [] {
      assert a + b == b;
    } else {
      EdgesConcat(a[1..], b);
      assert (a + b)[1..] == a[1..] + b;
    }
  }

  lemma EdgesOne(v: Value)
    ensures Edges([v]) == EdgeOf(v)
  {
    assert [v][1..] == [];
  }

  /** The edges to `n` out of those of the first `k` nodes that lie in `s`. */
  function EdgesFrom(g: Graph, s: set<nat>, n: nat, k: nat): nat
    requires k <= |g|
  {
    if k == 0 then 0
    else EdgesFrom(g, s, n, k - 1) + if k - 1 in s then Edges(g[k - 1].contents)[n] else 0
  }

  function Live(g: Graph): set<nat> {
    set n | 0 <= n < |g| && g[n].alive
  }

  lemma {:induction false} EdgesFromGrows(g: Graph, s: set<nat>, t: set<nat>, n: nat, k: nat)
    requires k <= |g| && s <= t
    ensures EdgesFrom(g, s, n, k) <= EdgesFrom(g, t, n, k)
  {
    if k > 0 {
      EdgesFromGrows(g, s, t, n, k - 1);
    }
  }

  lemma {:induction false} EdgesFromAgree(g: Graph, h: Graph, s: set<nat>, n: nat, k: nat)
    requires k <= |g| == |h| && forall m :: 0 <= m < k && m in s ==> g[m].contents == h[m].contents
    ensures EdgesFrom(g, s, n, k) == EdgesFrom(h, s, n, k)
  {
    if k > 0 {
      EdgesFromAgree(g, h, s, n, k - 1);
    }
  }

  lemma {:induction false} EdgesFromOneMore(g: Graph, s: set<nat>, m: nat, n: nat, k: nat)
    requires m < |g| && m !in s && k <= |g|
    ensures EdgesFrom(g, s + {m}, n, k) == EdgesFrom(g, s, n, k) + if m < k then Edges(g[m].contents)[n] else 0
  {
    if k > 0 {
      EdgesFromOneMore(g, s, m, n, k - 1);
    }
  }

  // ── The invariant of every step ─────────────────────────────────

  /**
    * Every strong count is the handles outside, plus the edges from live nodes, plus the values in hand or pending; a
    * node is alive exactly while its count is positive.
    */
  ghost predicate Balanced(g: Graph, outside: seq<nat>, held: multiset<nat>) {
    && |outside| == |g|
    && (forall n :: n in held ==> n < |g|)
    && forall n :: 0 <= n < |g| ==> BalancedAt(g, outside[n], held, n)
  }

  ghost predicate BalancedAt(g: Graph, outside: nat, held: multiset<nat>, n: nat)
    requires n < |g|
  {
    && g[n].strong == outside + EdgesFrom(g, Live(g), n, |g|) + held[n]
    && (g[n].alive <==> g[n].strong > 0)
    && (g[n].alive ==> forall v :: v in Edges(g[n].contents) ==> v < |g|)
  }

  /** What one drop does to the graph: a count goes down, or the node dies and lets go of its contents. */
  function Dropped(g: Graph, n: nat): Graph
    requires n < |g| && g[n].strong > 0
  {
    if g[n].strong > 1 then g[n := g[n].(strong := g[n].strong - 1)] else g[n := Dead]
  }

  function LetGo(g: Graph, n: nat): seq<Value>
    requires n < |g|
  {
    if g[n].strong > 1 then [] else g[n].contents
  }

  /** One drop keeps the books: what the dying node lets go of is now in hand. */
  lemma DropKeepsBalance(g: Graph, outside: seq<nat>, held: multiset<nat>, n: nat)
    requires Balanced(g, outside, held + multiset{n})
    ensures n < |g| && g[n].alive && g[n].strong > 0
    ensures Balanced(Dropped(g, n), outside, held + Edges(LetGo(g, n)))
    ensures g[n].strong > 1 ==> Balanced(Dropped(g, n), outside, held)
  {
    hide Edges, EdgesFrom;
    assert n in held + multiset{n};
    assert BalancedAt(g, outside[n], held + multiset{n}, n);
    var r := Dropped(g, n);
    forall m | 0 <= m < |g|
      ensures BalancedAt(r, outside[m], held + Edges(LetGo(g, n)), m)
    {
      assert BalancedAt(g, outside[m], held + multiset{n}, m);
      if g[n].strong > 1 {
        NothingLetGo();
        assert Live(r) == Live(g);
        EdgesFromAgree(g, r, Live(g), m, |g|);
      } else {
        assert Live(g) == Live(r) + {n};
        EdgesFromOneMore(g, Live(r), n, m, |g|);
        EdgesFromAgree(g, r, Live(r), m, |g|);
      }
    }
    NothingLetGo();
    forall v | v in held + Edges(LetGo(g, n))
      ensures v < |g|
    {
      if v in held {
        assert v in held + multiset{n};
      }
    }
    if g[n].strong > 1 {
      assert held + Edges(LetGo(g, n)) == held;
    }
  }

  lemma NothingLetGo()
    ensures Edges([]) == multiset{}
  {}

  lemma EdgesLast(vs: seq<Value>)
    requires vs != []
    ensures Edges(vs) == Edges(vs[..|vs| - 1]) + EdgeOf(vs[|vs| - 1])
  {
    hide Edges, EdgeOf;
    EdgesConcat(vs[..|vs| - 1], [vs[|vs| - 1]]);
    EdgesOne(vs[|vs| - 1]);
    assert vs[..|vs| - 1] + [vs[|vs| - 1]] == vs;
  }

  // ── Recursive drop ──────────────────────────────────────────────

  function LiveCount(g: Graph): nat {
    if g == [] then 0 else LiveCount(g[..|g| - 1]) + if g[|g| - 1].alive then 1 else 0
  }

  lemma {:induction false} LiveCountUpdate(g: Graph, n: nat, node: Node)
    requires n < |g| && g[n].alive
    ensures LiveCount(g[n := node]) == LiveCount(g) - if node.alive then 0 else 1
  {
    var last := |g| - 1;
    if n < last {
      LiveCountUpdate(g[..last], n, node);
      assert g[n := node][..last] == g[..last][n := node];
    } else {
      assert g[n := node][..last] == g[..last];
    }
  }

  /** Drop glue as Rust would run it: a dying node drops its contents, in order, before the next value is dropped. */
  function DropAll(g: Graph, vs: seq<Value>): (r: Graph)
    ensures |r| == |g| && LiveCount(r) <= LiveCount(g)
    decreases LiveCount(g), |vs|
  {
    if vs == [] then g
    else if vs[0].Leaf? || vs[0].target >= |g| || !g[vs[0].target].alive then DropAll(g, vs[1..])
    else
      var n := vs[0].target;
      if g[n].strong > 1 then
        LiveCountUpdate(g, n, g[n].(strong := g[n].strong - 1));
        DropAll(g[n := g[n].(strong := g[n].strong - 1)], vs[1..])
      else
        LiveCountUpdate(g, n, Dead);
        DropAll(DropAll(g[n := Dead], g[n].contents), vs[1..])
  }

  // ── Which nodes die ─────────────────────────────────────────────

  function Died(g0: Graph, g: Graph): set<nat>
    requires |g| == |g0|
  {
    set n | 0 <= n < |g0| && g0[n].alive && !g[n].alive
  }

  /** Every node whose count the released values and the edges out of `s` use up is in `s`. */
  ghost predicate Closed(g0: Graph, released: multiset<nat>, s: set<nat>) {
    forall n :: 0 <= n < |g0| && g0[n].alive && g0[n].strong <= released[n] + EdgesFrom(g0, s, n, |g0|) ==> n in s
  }

  ghost predicate DiedOnlyWhereForced(g0: Graph, released: multiset<nat>, g: Graph)
    requires |g| == |g0|
  {
    forall s: set<nat> :: Closed(g0, released, s) ==> Died(g0, g) <= s
  }

  /** A survivor keeps its contents and has lost one count for each value dropped on it. */
  ghost predicate ExplainedAt(g0: Graph, released: multiset<nat>, g: Graph, held: multiset<nat>, n: nat)
    requires |g| == |g0| && n < |g|
  {
    if g[n].alive then
      && g0[n].alive && g[n].contents == g0[n].contents && g[n].strong > 0
      && g[n].strong + released[n] + EdgesFrom(g0, Died(g0, g), n, |g0|) == g0[n].strong + held[n]
    else g[n] == if g0[n].alive then Dead else g0[n]
  }

  /** `g`, with `held` still to be dropped, is a stage of releasing `released` from `g0`, in whatever order. */
  ghost predicate Explains(g0: Graph, released: multiset<nat>, g: Graph, held: multiset<nat>) {
    && |g| == |g0|
    && (forall n :: 0 <= n < |g| ==> ExplainedAt(g0, released, g, held, n))
    && DiedOnlyWhereForced(g0, released, g)
  }

  lemma ReleaseBegins(g0: Graph, outside: seq<nat>, released: multiset<nat>)
    requires Balanced(g0, outside, released)
    ensures Explains(g0, released, g0, released)
  {
    forall n | 0 <= n < |g0|
      ensures ExplainedAt(g0, released, g0, released, n)
    {
      assert BalancedAt(g0, outside[n], released, n);
      assert Died(g0, g0) == {};
      NoEdgesFromNone(g0, n, |g0|);
    }
    assert Died(g0, g0) == {};
  }

  lemma {:induction false} NoEdgesFromNone(g: Graph, n: nat, k: nat)
    requires k <= |g|
    ensures EdgesFrom(g, {}, n, k) == 0
  {
    if k > 0 {
      NoEdgesFromNone(g, n, k - 1);
    }
  }

  lemma DropKeepsExplained(g0: Graph, released: multiset<nat>, g: Graph, held: multiset<nat>, n: nat)
    requires Explains(g0, released, g, held + multiset{n}) && n < |g| && g[n].alive && g[n].strong > 0
    ensures Explains(g0, released, Dropped(g, n), held + Edges(LetGo(g, n)))
    ensures g[n].strong > 1 ==> Explains(g0, released, Dropped(g, n), held)
  {
    hide Edges, EdgesFrom;
    var r := Dropped(g, n);
    assert ExplainedAt(g0, released, g, held + multiset{n}, n);
    if g[n].strong > 1 {
      NothingLetGo();
      assert Died(g0, r) == Died(g0, g);
      forall m | 0 <= m < |g|
        ensures ExplainedAt(g0, released, r, held + Edges(LetGo(g, n)), m)
      {
        assert ExplainedAt(g0, released, g, held + multiset{n}, m);
      }
      assert DiedOnlyWhereForced(g0, released, r);
      assert held + Edges(LetGo(g, n)) == held;
    } else {
      DeathIsForced(g0, released, g, held, n);
      forall m | 0 <= m < |g|
        ensures ExplainedAt(g0, released, r, held + Edges(LetGo(g, n)), m)
      {
        assert ExplainedAt(g0, released, g, held + multiset{n}, m);
        EdgesFromOneMore(g0, Died(g0, g), n, m, |g0|);
      }
    }
  }

  lemma DeathIsForced(g0: Graph, released: multiset<nat>, g: Graph, held: multiset<nat>, n: nat)
    requires Explains(g0, released, g, held + multiset{n}) && n < |g| && g[n].alive && g[n].strong == 1
    ensures Died(g0, Dropped(g, n)) == Died(g0, g) + {n} && DiedOnlyWhereForced(g0, released, Dropped(g, n))
  {
    hide Edges, EdgesFrom;
    assert ExplainedAt(g0, released, g, held + multiset{n}, n);
    assert Died(g0, Dropped(g, n)) == Died(g0, g) + {n};
    forall s: set<nat> | Closed(g0, released, s)
      ensures Died(g0, Dropped(g, n)) <= s
    {
      EdgesFromGrows(g0, Died(g0, g), s, n, |g0|);
    }
  }

  /** With nothing left to drop, the nodes that died are a closed set, and so the least. */
  lemma DeadAreClosed(g0: Graph, released: multiset<nat>, g: Graph)
    requires Explains(g0, released, g, multiset{})
    ensures Closed(g0, released, Died(g0, g))
  {
    forall n | 0 <= n < |g0| && g0[n].alive && g0[n].strong <= released[n] + EdgesFrom(g0, Died(g0, g), n, |g0|)
      ensures n in Died(g0, g)
    {
      assert ExplainedAt(g0, released, g, multiset{}, n);
    }
  }

  /** The order of the drops leaves no trace: any two complete releases of the same values end in the same graph. */
  lemma OrderLeavesNoTrace(g0: Graph, released: multiset<nat>, g: Graph, h: Graph)
    requires Explains(g0, released, g, multiset{}) && Explains(g0, released, h, multiset{})
    ensures g == h
  {
    DeadAreClosed(g0, released, g);
    DeadAreClosed(g0, released, h);
    assert Died(g0, g) == Died(g0, h);
    forall n | 0 <= n < |g0|
      ensures g[n] == h[n]
    {
      assert ExplainedAt(g0, released, g, multiset{}, n) && ExplainedAt(g0, released, h, multiset{}, n);
      assert n in Died(g0, g) <==> g0[n].alive && !g[n].alive;
      assert n in Died(g0, h) <==> g0[n].alive && !h[n].alive;
    }
  }

  /** Recursive drop is one of the orders. */
  lemma {:induction false} DropAllExplained(g0: Graph, released: multiset<nat>, outside: seq<nat>, g: Graph,
                                            vs: seq<Value>, held: multiset<nat>)
    requires Balanced(g, outside, held + Edges(vs)) && Explains(g0, released, g, held + Edges(vs))
    ensures Balanced(DropAll(g, vs), outside, held) && Explains(g0, released, DropAll(g, vs), held)
    decreases LiveCount(g), |vs|
  {
    hide Balanced, Explains, EdgesFrom;
    if vs == [] {
      assert held + Edges(vs) == held;
    } else if vs[0].Leaf? {
      assert held + Edges(vs) == held + Edges(vs[1..]);
      DropAllExplained(g0, released, outside, g, vs[1..], held);
    } else {
      var n, rest := vs[0].target, held + Edges(vs[1..]);
      assert held + Edges(vs) == rest + multiset{n};
      DropKeepsBalance(g, outside, rest, n);
      DropKeepsExplained(g0, released, g, rest, n);
      if g[n].strong > 1 {
        NothingLetGo();
        LiveCountUpdate(g, n, g[n].(strong := g[n].strong - 1));
        DropAllExplained(g0, released, outside, Dropped(g, n), vs[1..], held);
      } else {
        LiveCountUpdate(g, n, Dead);
        DropAllExplained(g0, released, outside, g[n := Dead], g[n].contents, rest);
        DropAllExplained(g0, released, outside, DropAll(g[n := Dead], g[n].contents), vs[1..], held);
      }
    }
  }

  // ── The worklist ────────────────────────────────────────────────

  function Kept(v: Value): (r: seq<Value>)
    ensures Edges(r) == EdgeOf(v)
  {
    EdgesOne(v);
    if CarriesStrongEdge(v) then [v] else []
  }

  /** The graph-bearing values, which are the ones a release appends to the list. */
  function Graphs(vs: seq<Value>): (r: seq<Value>)
    ensures Edges(r) == Edges(vs)
    ensures forall v :: v in r ==> v.Edge?
  {
    var n := |vs|;
    if n == 0 then []
    else
      EdgesConcat(Graphs(vs[..n - 1]), Kept(vs[n - 1]));
      EdgesLast(vs);
      Graphs(vs[..n - 1]) + Kept(vs[n - 1])
  }

  lemma GraphsSnoc(taken: seq<Value>, i: nat)
    requires i < |taken|
    ensures Graphs(taken[..i + 1]) == Graphs(taken[..i]) + Kept(taken[i])
  {
    assert taken[..i + 1][..i] == taken[..i];
  }

  class Thread {
    var graph: Graph
    var draining: bool
    var pending: seq<Value>

    ghost predicate Idle()
      reads this
    {
      !draining && pending == []
    }

    /**
      * Release one value.  `depth` counts the release and drop frames on the native stack: the outermost call is at
      * zero, and no call is ever deeper than two.
      */
    method ReleaseValue(value: Value, ghost outside: seq<nat>, ghost depth: nat)
      requires if draining then depth == 2 else depth == 0 && Idle() && Balanced(graph, outside, EdgeOf(value))
      modifies this
      ensures draining == old(draining)
      ensures old(draining) ==> graph == old(graph) && pending == old(pending) + Kept(value)
      ensures !old(draining) ==> Idle() && Balanced(graph, outside, multiset{}) && graph == DropAll(old(graph), [value])
      decreases 2 - depth
    {
      hide Balanced, Explains, Edges, EdgesFrom, DropAll;
      if !CarriesStrongEdge(value) {
        LeafDropsNothing(graph, value);
        return;
      }
      ghost var g0 := graph;
      pending := pending + [value];
      if draining {
        return;
      }
      draining := true;
      assert pending == [value];
      EdgesOne(value);
      ReleaseBegins(g0, outside, EdgeOf(value));
      Drain(g0, EdgeOf(value), outside, depth);
      draining := false;
      CompleteDrop(g0, outside, graph, value);
    }

    /** The outermost release's loop: pop and drop until nothing is pending. */
    method Drain(ghost g0: Graph, ghost released: multiset<nat>, ghost outside: seq<nat>, ghost depth: nat)
      requires draining && depth == 0
      requires Balanced(graph, outside, Edges(pending)) && Explains(g0, released, graph, Edges(pending))
      requires forall v :: v in pending ==> v.Edge?
      modifies this
      ensures draining && pending == []
      ensures Balanced(graph, outside, multiset{}) && Explains(g0, released, graph, multiset{})
      decreases 2 - depth, 0
    {
      hide Balanced, Explains, Edges, EdgesFrom;
      while pending != []
        invariant draining
        invariant Balanced(graph, outside, Edges(pending)) && Explains(g0, released, graph, Edges(pending))
        invariant forall v :: v in pending ==> v.Edge?
        decreases LiveCount(graph), |pending|
      {
        var next := pending[|pending| - 1];
        EdgesLast(pending);
        pending := pending[..|pending| - 1];
        DropKeepsBalance(graph, outside, Edges(pending), next.target);
        DropKeepsExplained(g0, released, graph, Edges(pending), next.target);
        EdgesConcat(pending, Graphs(LetGo(graph, next.target)));
        DropValue(next, outside, depth + 1);
      }
      NothingLetGo();
    }

    /** Drop a value: its node's count goes down, and a node that dies hands its contents back one by one. */
    method DropValue(value: Value, ghost outside: seq<nat>, ghost depth: nat)
      requires draining && value.Edge? && depth == 1
      requires Balanced(graph, outside, Edges(pending) + EdgeOf(value))
      requires value.target < |graph| && graph[value.target].alive && graph[value.target].strong > 0
      modifies this
      ensures draining && graph == Dropped(old(graph), value.target)
      ensures pending == old(pending) + Graphs(LetGo(old(graph), value.target))
      ensures Balanced(graph, outside, Edges(pending))
      ensures LiveCount(graph) < old(LiveCount(graph)) || (LiveCount(graph) == old(LiveCount(graph)) && pending == old(pending))
      decreases 2 - depth, 1
    {
      hide Balanced, Edges, EdgesFrom;
      var n := value.target;
      DropKeepsBalance(graph, outside, Edges(pending), n);
      if graph[n].strong > 1 {
        LiveCountUpdate(graph, n, graph[n].(strong := graph[n].strong - 1));
        graph := graph[n := graph[n].(strong := graph[n].strong - 1)];
        return;
      }
      LiveCountUpdate(graph, n, Dead);
      var taken := graph[n].contents;
      graph := graph[n := Dead];
      HandBack(taken, outside, depth);
    }

    /** The dying node's own drop: release its contents in order, at every moment accounting for those still in hand. */
    method HandBack(taken: seq<Value>, ghost outside: seq<nat>, ghost depth: nat)
      requires draining && depth == 1
      requires Balanced(graph, outside, Edges(pending) + Edges(taken))
      modifies this
      ensures draining && graph == old(graph) && pending == old(pending) + Graphs(taken)
      ensures Balanced(graph, outside, Edges(pending))
      decreases 2 - depth, 0
    {
      hide Balanced, Edges, EdgesFrom, Graphs, Kept;
      ghost var before := pending;
      assert taken[0..] == taken;
      NoGraphs();
      assert taken[..0] == [];
      for i := 0 to |taken|
        invariant draining && graph == old(graph)
        invariant pending == before + Graphs(taken[..i])
        invariant Balanced(graph, outside, Edges(pending) + Edges(taken[i..]))
      {
        HandOver(pending, taken, i);
        ReleaseValue(taken[i], outside, depth + 1);
        GraphsSnoc(taken, i);
      }
      assert taken[..|taken|] == taken && taken[|taken|..] == [];
      NothingLetGo();
      assert Edges(pending) + multiset{} == Edges(pending);
    }
  }

  lemma NoGraphs()
    ensures Graphs([]) == []
  {}

  /** A value pending weighs what it weighed in hand. */
  lemma HandOver(pending: seq<Value>, taken: seq<Value>, i: nat)
    requires i < |taken|
    ensures Edges(pending + Kept(taken[i])) + Edges(taken[i + 1..]) == Edges(pending) + Edges(taken[i..])
  {
    EdgesConcat(pending, Kept(taken[i]));
    assert taken[i..][1..] == taken[i + 1..];
  }

  lemma LeafDropsNothing(g: Graph, value: Value)
    requires value.Leaf?
    ensures DropAll(g, [value]) == g
  {
    assert [value][1..] == [];
  }

  lemma CompleteDrop(g0: Graph, outside: seq<nat>, g: Graph, value: Value)
    requires Balanced(g0, outside, EdgeOf(value)) && Explains(g0, EdgeOf(value), g, multiset{})
    ensures g == DropAll(g0, [value])
  {
    hide Balanced, Explains, EdgesFrom, DropAll;
    EdgesOne(value);
    ReleaseBegins(g0, outside, EdgeOf(value));
    assert multiset{} + Edges([value]) == EdgeOf(value);
    DropAllExplained(g0, EdgeOf(value), outside, g0, [value], multiset{});
    OrderLeavesNoTrace(g0, EdgeOf(value), g, DropAll(g0, [value]));
  }
}
