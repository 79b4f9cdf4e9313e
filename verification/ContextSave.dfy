/**
  * The two ways stamping is begun, an expression and a whole program, and what the stamps they leave mean: every node
  * newly stamped hands each unstamped node beneath it the context of the place it stands in, and nothing else is stamped.
  */
module ContextSave {
  import opened ContextResolve
  import opened ContextRoles
  import opened ContextStamp
  import opened Syntax
  import opened Wrappers

  // ── Nothing is stamped but from a place ─────────────────────────

  /** Some marked node gives `x` this context. */
  ghost predicate Justified(ast: Ast, marks: map<nat, Context>, x: nat, d: Context) {
    exists n :: n in marks && n < |ast| && Gives(ast[n], marks[n], x, d)
  }

  lemma {:induction false} MarkJustified(ast: Ast, w: Work, pre: Stamps, x: nat)
    requires WellFormed(ast) && w.node < |ast| == |pre| && Single(Bag(ast, w.node)) && x in Marks(ast, w, pre)
    ensures w == Work(x, Marks(ast, w, pre)[x]) || Justified(ast, Marks(ast, w, pre), x, Marks(ast, w, pre)[x])
    decreases w.node + 1, 0
  {
    hide Pushes, Single, Bag, MarksAll, BagAll, Gives;
    MarksWithin(ast, w, pre);
    OwnMark(ast, w, pre);
    SingleBelow(ast, w.node, w.ctx);
    if x != w.node {
      var ws := Pushes(ast[w.node], w.ctx);
      var d := MarksAll(ast, ws, pre, w.node)[x];
      MarkJustifiedAll(ast, ws, pre, w.node, x);
      PushesGive(ast[w.node], w.ctx, x, d);
      if Work(x, d) in ws {
        assert Gives(ast[w.node], Marks(ast, w, pre)[w.node], x, d);
      } else {
        JustifiedGrows(ast, MarksAll(ast, ws, pre, w.node), Marks(ast, w, pre), x, d);
      }
    }
  }

  lemma JustifiedGrows(ast: Ast, a: map<nat, Context>, b: map<nat, Context>, x: nat, d: Context)
    requires Justified(ast, a, x, d) && forall n :: n in a ==> n in b && b[n] == a[n]
    ensures Justified(ast, b, x, d)
  {
    hide Gives;
    var n :| n in a && n < |ast| && Gives(ast[n], a[n], x, d);
    assert n in b && Gives(ast[n], b[n], x, d);
  }

  lemma {:induction false} MarkJustifiedAll(ast: Ast, ws: seq<Work>, pre: Stamps, bound: nat, x: nat)
    requires WellFormed(ast) && Below(ws, bound) && bound <= |ast| == |pre| && Single(BagAll(ast, Nodes(ws), bound))
    requires x in MarksAll(ast, ws, pre, bound)
    ensures var marks := MarksAll(ast, ws, pre, bound);
            Work(x, marks[x]) in ws || Justified(ast, marks, x, marks[x])
    decreases bound, |ws| + 1
  {
    hide Pushes, Single, Bag, BagAll, Marks, Justified;
    if ws != [] {
      SplitMarks(ast, ws, pre, bound);
      var front, last := ws[..|ws| - 1], ws[|ws| - 1];
      var marks := MarksAll(ast, ws, pre, bound);
      if x in Marks(ast, last, pre) {
        MarkJustified(ast, last, pre, x);
        if last != Work(x, marks[x]) {
          JustifiedGrows(ast, Marks(ast, last, pre), marks, x, marks[x]);
        }
      } else {
        MarkJustifiedAll(ast, front, pre, bound, x);
        if Work(x, marks[x]) !in front {
          JustifiedGrows(ast, MarksAll(ast, front, pre, bound), marks, x, marks[x]);
        }
      }
    }
  }

  // ── The stamps left ─────────────────────────────────────────────

  /** A node these stamps have and those had not. */
  predicate IsNew(pre: Stamps, post: Stamps, n: nat) {
    n < |pre| && n < |post| && pre[n].None? && post[n].Some?
  }

  /** What a newly stamped node gives its unstamped nodes is what they are stamped with. */
  ghost predicate HandsDown(ast: Ast, pre: Stamps, post: Stamps, n: nat)
    requires IsNew(pre, post, n) && |pre| == |post| == |ast|
  {
    forall x: nat, d :: Gives(ast[n], post[n].value, x, d) ==>
      x < |ast| && (pre[x].None? ==> post[x] == Some(d))
  }

  /** A newly stamped node is a root, or some newly stamped node gives it its context. */
  ghost predicate IsGiven(ast: Ast, roots: seq<Work>, pre: Stamps, post: Stamps, x: nat)
    requires IsNew(pre, post, x) && |pre| == |post| == |ast|
  {
    || Work(x, post[x].value) in roots
    || exists n: nat :: IsNew(pre, post, n) && Gives(ast[n], post[n].value, x, post[x].value)
  }

  /** The stamps a pass from these roots leaves. */
  ghost predicate Stamped(ast: Ast, roots: seq<Work>, pre: Stamps, post: Stamps) {
    && |pre| == |post| == |ast|
    && (forall n :: 0 <= n < |ast| && pre[n].Some? ==> post[n] == pre[n])
    && (forall i :: 0 <= i < |roots| ==> roots[i].node < |ast| && (pre[roots[i].node].None? ==> post[roots[i].node] == Some(roots[i].ctx)))
    && (forall n: nat :: IsNew(pre, post, n) ==> HandsDown(ast, pre, post, n))
    && (forall x: nat :: IsNew(pre, post, x) ==> IsGiven(ast, roots, pre, post, x))
  }

  lemma NewHandsDown(ast: Ast, roots: seq<Work>, pre: Stamps, n: nat)
    requires WellFormed(ast) && |ast| == |pre| && Below(roots, |ast|) && IsTree(ast, roots)
    requires IsNew(pre, Overlay(pre, MarksAll(ast, roots, pre, |ast|)), n)
    ensures HandsDown(ast, pre, Overlay(pre, MarksAll(ast, roots, pre, |ast|)), n)
  {
    hide Pushes, MarksAll, Marks, Bag, BagAll, Single, Gives, WellFormed;
    var marks := MarksAll(ast, roots, pre, |ast|);
    forall x: nat, d | Gives(ast[n], marks[n], x, d)
      ensures x < |ast| && (pre[x].None? ==> x in marks && marks[x] == d)
    {
      PushesGive(ast[n], marks[n], x, d);
      PushesBelow(ast, n, marks[n]);
      var ws := Pushes(ast[n], marks[n]);
      var i :| 0 <= i < |ws| && ws[i] == Work(x, d);
      if pre[x].None? {
        MarkedChildrenAll(ast, roots, pre, |ast|, n, i);
      }
    }
  }

  lemma NewIsGiven(ast: Ast, roots: seq<Work>, pre: Stamps, x: nat)
    requires WellFormed(ast) && |ast| == |pre| && Below(roots, |ast|) && IsTree(ast, roots)
    requires IsNew(pre, Overlay(pre, MarksAll(ast, roots, pre, |ast|)), x)
    ensures IsGiven(ast, roots, pre, Overlay(pre, MarksAll(ast, roots, pre, |ast|)), x)
  {
    hide Pushes, MarksAll, Marks, Bag, BagAll, Single, Gives, WellFormed;
    var marks := MarksAll(ast, roots, pre, |ast|);
    var post := Overlay(pre, marks);
    MarkJustifiedAll(ast, roots, pre, |ast|, x);
    MarksAllWithin(ast, roots, pre, |ast|);
    if Work(x, marks[x]) !in roots {
      var n :| n in marks && n < |ast| && Gives(ast[n], marks[n], x, marks[x]);
      assert IsNew(pre, post, n) && post[n].value == marks[n];
    }
  }

  /** The marks of a pass laid over the stamps there were are what the pass leaves. */
  lemma OverlayIsStamped(ast: Ast, roots: seq<Work>, pre: Stamps)
    requires WellFormed(ast) && |ast| == |pre| && Below(roots, |ast|) && IsTree(ast, roots)
    ensures Stamped(ast, roots, pre, Overlay(pre, MarksAll(ast, roots, pre, |ast|)))
  {
    hide Pushes, MarksAll, Marks, Bag, BagAll, Single, Gives, WellFormed, HandsDown, IsGiven;
    var marks := MarksAll(ast, roots, pre, |ast|);
    var post := Overlay(pre, marks);
    MarksAllWithin(ast, roots, pre, |ast|);
    forall i | 0 <= i < |roots|
      ensures roots[i].node < |ast| && (pre[roots[i].node].None? ==> post[roots[i].node] == Some(roots[i].ctx))
    {
      if pre[roots[i].node].None? {
        MarkedHere(ast, roots, pre, |ast|, i);
      }
    }
    forall n: nat | IsNew(pre, post, n)
      ensures HandsDown(ast, pre, post, n) && IsGiven(ast, roots, pre, post, n)
    {
      NewHandsDown(ast, roots, pre, n);
      NewIsGiven(ast, roots, pre, n);
    }
  }

  /** Stamp an expression in a context. */
  method SaveContext(ast: Ast, stamps: array<Option<Context>>, root: nat, c: Context)
    requires WellFormed(ast) && stamps.Length == |ast| && root < |ast| && IsTree(ast, [Work(root, c)])
    modifies stamps
    ensures stamps[..] == Descend(ast, Work(root, c), old(stamps[..]))
    ensures Stamped(ast, [Work(root, c)], old(stamps[..]), stamps[..])
  {
    hide Pushes, MarksAll, Marks, Bag, BagAll, Descend, Stamped;
    ghost var pre := stamps[..];
    DescendAllIsMarks(ast, [Work(root, c)], pre, |ast|);
    DescendOne(ast, Work(root, c), pre);
    OverlayIsStamped(ast, [Work(root, c)], pre);
    Drain(ast, stamps, [Work(root, c)]);
  }

  lemma DescendOne(ast: Ast, w: Work, st: Stamps)
    requires WellFormed(ast) && w.node < |ast| == |st|
    ensures DescendAll(ast, [w], st, |ast|) == Descend(ast, w, st)
  {
    assert [w][..0] == [];
  }

  /** What a program's statements evaluate, and in which contexts: the roots of its pass. */
  ghost predicate AreRoots(roots: seq<Work>, statements: seq<Stmt>, c: Context) {
    forall x: nat, d :: Work(x, d) in roots <==> BodyGives(statements, c, x, d)
  }

  lemma BodyRoots(statements: seq<Stmt>, c: Context)
    ensures AreRoots(BodyPushes(statements, c), statements, c)
  {
    forall x: nat, d
      ensures Work(x, d) in BodyPushes(statements, c) <==> BodyGives(statements, c, x, d)
    {
      InBody(statements, c, x, d);
    }
  }

  /** Stamp a whole program: its statements are a body, whose last is in the program's own context. */
  method SaveProgram(ast: Ast, stamps: array<Option<Context>>, statements: seq<Stmt>, c: Context)
    requires WellFormed(ast) && stamps.Length == |ast| && Below(BodyPushes(statements, c), |ast|)
    requires IsTree(ast, BodyPushes(statements, c))
    modifies stamps
    ensures stamps[..] == DescendAll(ast, BodyPushes(statements, c), old(stamps[..]), |ast|)
    ensures exists roots :: AreRoots(roots, statements, c) && Stamped(ast, roots, old(stamps[..]), stamps[..])
  {
    hide Pushes, BodyPushes, MarksAll, Bag, BagAll, DescendAll, Stamped, AreRoots;
    DescendAllIsMarks(ast, BodyPushes(statements, c), stamps[..], |ast|);
    OverlayIsStamped(ast, BodyPushes(statements, c), stamps[..]);
    BodyRoots(statements, c);
    Drain(ast, stamps, BodyPushes(statements, c));
  }
}
