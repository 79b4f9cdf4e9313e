/**
  * The syntax tree as evaluation-context stamping sees it: expression nodes in an arena, each knowing its children, and
  * statements as trees over them.  Kinds the stamping treats alike share a constructor.
  */
module Syntax {
  import opened Wrappers

  // ── Contexts ────────────────────────────────────────────────────

  datatype Context = Scalar | List | Void | Boolean | Runtime | RuntimeTruthTested

  /** The context of a short-circuit operator's left operand. */
  function TruthTested(c: Context): Context {
    match c
    case Void => Boolean
    case Boolean => Boolean
    case Scalar => Scalar
    case List => Scalar
    case Runtime => RuntimeTruthTested
    case RuntimeTruthTested => RuntimeTruthTested
  }

  /** What a stamp comes to in a frame whose runtime context is `w`. */
  function Resolve(w: Context, c: Context): Context {
    match c
    case Runtime => w
    case RuntimeTruthTested => TruthTested(w)
    case _ => c
  }

  /** The contexts a frame can run in. */
  predicate IsStatic(w: Context) {
    w == Scalar || w == List || w == Void || w == Boolean
  }

  /** Truth-testing commutes with resolving, which is why one dynamic mapping is enough. */
  lemma TruthTestedResolves(w: Context, c: Context)
    requires IsStatic(w)
    ensures Resolve(w, TruthTested(c)) == TruthTested(Resolve(w, c)) && IsStatic(Resolve(w, c))
    ensures IsStatic(c) ==> TruthTested(c) == if c in {Void, Boolean} then Boolean else Scalar
  {}

  // ── Nodes ───────────────────────────────────────────────────────

  datatype Part = Constant | ScalarPart(e: nat) | ListPart(e: nat)

  datatype ArrowTarget = Element(e: nat) | CallArgs(args: seq<nat>) | DynMethod(name: nat, args: seq<nat>) | SliceOf(e: nat) | Whole

  datatype Kind =
    | Leaf
    | Deferred(operands: seq<nat>)
    | Interpolated(parts: seq<Part>)
    | Subst(pattern: seq<Part>, replacement: seq<Part>)
    | SubstEval(pattern: seq<Part>, block: seq<Stmt>)
    | LogicalNot(operand: nat)
    | Unary(operand: nat)
    | Forward(inner: nat)
    | ShortCircuit(left: nat, right: nat)
    | Xor(left: nat, right: nat)
    | Binary(left: nat, right: nat)
    | ChainedCmp(items: seq<nat>)
    | Ternary(cond: nat, yes: nat, no: nat)
    | Slice(base: nat, indices: seq<nat>)
    | ListSlice(operand: nat, indices: seq<nat>)
    | ArrowDeref(base: nat, target: ArrowTarget)
    | Elements(items: seq<nat>)
    | MethodCall(invocant: nat, args: seq<nat>)
    | PostfixControl(expr: nat, cond: nat)
    | DoBlock(block: seq<Stmt>)
    | AnonSub(block: seq<Stmt>)
    | Return(result: Option<nat>)
    | Comma(items: seq<nat>)

  /** A block that may be absent is an empty one here: neither pushes anything. */
  datatype Elsif = Elsif(cond: nat, block: seq<Stmt>)

  datatype Stmt =
    | ExprStmt(e: nat)
    | If(cond: nat, block: seq<Stmt>, elsifs: seq<Elsif>, otherwise: seq<Stmt>)
    | Loop(cond: nat, block: seq<Stmt>, cont: seq<Stmt>)
    | For(init: Option<nat>, test: Option<nat>, step: Option<nat>, block: seq<Stmt>)
    | ForEach(list: nat, block: seq<Stmt>, cont: seq<Stmt>)
    | Given(topic: nat, block: seq<Stmt>)
    | Try(block: seq<Stmt>, handler: seq<Stmt>, finally: seq<Stmt>)
    | Bare(block: seq<Stmt>, cont: seq<Stmt>)
    | Effect(block: seq<Stmt>)
    | Labeled(inner: Stmt)
    | SubDecl(defaults: seq<nat>, block: seq<Stmt>)
    | FieldDecl(default: Option<nat>)
    | UseDecl(imports: seq<nat>)
    | Inert

  // ── What stamping a node pushes ─────────────────────────────────

  datatype Work = Work(node: nat, ctx: Context)

  function All(items: seq<nat>, c: Context): (r: seq<Work>)
    ensures |r| == |items| && forall i :: 0 <= i < |r| ==> r[i] == Work(items[i], c)
  {
    seq(|items|, i requires 0 <= i < |items| => Work(items[i], c))
  }

  function Perhaps(e: Option<nat>, c: Context): seq<Work> {
    if e.Some? then [Work(e.value, c)] else []
  }

  function PartPushes(parts: seq<Part>): seq<Work> {
    if parts == [] then []
    else
      (match parts[0]
       case Constant => []
       case ScalarPart(e) => [Work(e, Scalar)]
       case ListPart(e) => [Work(e, List)]) + PartPushes(parts[1..])
  }

  function TargetPushes(target: ArrowTarget): seq<Work> {
    match target
    case Element(e) => [Work(e, Scalar)]
    case CallArgs(args) => All(args, List)
    case DynMethod(name, args) => [Work(name, Scalar)] + All(args, List)
    case SliceOf(e) => [Work(e, List)]
    case Whole => []
  }

  /** A body's last statement is in the body's context, every earlier one void. */
  function BodyPushes(body: seq<Stmt>, c: Context): seq<Work>
    decreases body
  {
    if body == [] then []
    else if |body| == 1 then StmtPushes(body[0], c)
    else StmtPushes(body[0], Void) + BodyPushes(body[1..], c)
  }

  function ElsifPushes(elsifs: seq<Elsif>, c: Context): seq<Work>
    decreases elsifs
  {
    if elsifs == [] then []
    else [Work(elsifs[0].cond, Boolean)] + BodyPushes(elsifs[0].block, c) + ElsifPushes(elsifs[1..], c)
  }

  function StmtPushes(s: Stmt, c: Context): seq<Work>
    decreases s
  {
    match s
    case ExprStmt(e) => [Work(e, c)]
    case If(cond, block, elsifs, otherwise) =>
      [Work(cond, Boolean)] + BodyPushes(block, c) + ElsifPushes(elsifs, c) + BodyPushes(otherwise, c)
    case Loop(cond, block, cont) => [Work(cond, Boolean)] + BodyPushes(block, Void) + BodyPushes(cont, Void)
    case For(init, test, step, block) =>
      Perhaps(init, Void) + Perhaps(test, Boolean) + Perhaps(step, Void) + BodyPushes(block, Void)
    case ForEach(list, block, cont) => [Work(list, List)] + BodyPushes(block, Void) + BodyPushes(cont, Void)
    case Given(topic, block) => [Work(topic, Scalar)] + BodyPushes(block, c)
    case Try(block, handler, finally) => BodyPushes(block, c) + BodyPushes(handler, c) + BodyPushes(finally, Void)
    case Bare(block, cont) => BodyPushes(block, c) + BodyPushes(cont, Void)
    case Effect(block) => BodyPushes(block, Void)
    case Labeled(inner) => StmtPushes(inner, c)
    case SubDecl(defaults, block) => All(defaults, Scalar) + BodyPushes(block, Runtime)
    case FieldDecl(default) => Perhaps(default, Scalar)
    case UseDecl(imports) => All(imports, List)
    case Inert => []
  }

  /** In list context every item of a comma is list; elsewhere all but the last are void. */
  function CommaPushes(items: seq<nat>, c: Context): seq<Work> {
    if c == List then All(items, List)
    else if items == [] then []
    else All(items[..|items| - 1], Void) + [Work(items[|items| - 1], c)]
  }

  function Pushes(k: Kind, c: Context): seq<Work> {
    match k
    case Leaf => []
    case Deferred(_) => []
    case Interpolated(parts) => PartPushes(parts)
    case Subst(pattern, replacement) => PartPushes(pattern) + PartPushes(replacement)
    case SubstEval(pattern, block) => PartPushes(pattern) + BodyPushes(block, Scalar)
    case LogicalNot(operand) => [Work(operand, Boolean)]
    case Unary(operand) => [Work(operand, Scalar)]
    case Forward(inner) => [Work(inner, c)]
    case ShortCircuit(left, right) => [Work(left, TruthTested(c)), Work(right, c)]
    case Xor(left, right) => [Work(left, Boolean), Work(right, Boolean)]
    case Binary(left, right) => [Work(left, Scalar), Work(right, Scalar)]
    case ChainedCmp(items) => All(items, Scalar)
    case Ternary(cond, yes, no) => [Work(cond, Boolean), Work(yes, c), Work(no, c)]
    case Slice(base, indices) => [Work(base, Scalar)] + All(indices, List)
    case ListSlice(operand, indices) => [Work(operand, List)] + All(indices, List)
    case ArrowDeref(base, target) => [Work(base, Scalar)] + TargetPushes(target)
    case Elements(items) => All(items, List)
    case MethodCall(invocant, args) => [Work(invocant, Scalar)] + All(args, List)
    case PostfixControl(expr, cond) => [Work(expr, c), Work(cond, Boolean)]
    case DoBlock(block) => BodyPushes(block, c)
    case AnonSub(block) => BodyPushes(block, Runtime)
    case Return(result) => Perhaps(result, Runtime)
    case Comma(items) => CommaPushes(items, c)
  }

  // ── A context and what it comes to push alike ───────────────────

  /** `d` is `c`, or what `c` comes to in a frame running in `w`. */
  predicate Stands(w: Context, c: Context, d: Context) {
    d == c || d == Resolve(w, c)
  }

  lemma StandsResolves(w: Context, c: Context, d: Context)
    requires IsStatic(w) && Stands(w, c, d)
    ensures Resolve(w, d) == Resolve(w, c)
  {}

  /** The same nodes in the same order, each context standing for the other's in `w`. */
  ghost predicate Aligned(a: seq<Work>, b: seq<Work>, w: Context) {
    |a| == |b| && forall i :: 0 <= i < |a| ==> a[i].node == b[i].node && Stands(w, a[i].ctx, b[i].ctx)
  }

  lemma AlignedJoin(a: seq<Work>, b: seq<Work>, c: seq<Work>, d: seq<Work>, w: Context)
    requires Aligned(a, b, w) && Aligned(c, d, w)
    ensures Aligned(a + c, b + d, w)
  {}

  lemma AlignedSelf(a: seq<Work>, w: Context)
    ensures Aligned(a, a, w)
  {}

  lemma {:induction false} BodyAligned(body: seq<Stmt>, c: Context, d: Context, w: Context)
    requires Stands(w, c, d)
    ensures Aligned(BodyPushes(body, c), BodyPushes(body, d), w)
    decreases body
  {
    hide Aligned, Stands;
    if body == [] {
      AlignedSelf([], w);
    } else if |body| == 1 {
      StmtAligned(body[0], c, d, w);
    } else {
      AlignedSelf(StmtPushes(body[0], Void), w);
      BodyAligned(body[1..], c, d, w);
      AlignedJoin(StmtPushes(body[0], Void), StmtPushes(body[0], Void), BodyPushes(body[1..], c), BodyPushes(body[1..], d), w);
    }
  }

  lemma {:induction false} ElsifsAligned(elsifs: seq<Elsif>, c: Context, d: Context, w: Context)
    requires Stands(w, c, d)
    ensures Aligned(ElsifPushes(elsifs, c), ElsifPushes(elsifs, d), w)
    decreases elsifs
  {
    hide Aligned, Stands;
    if elsifs == [] {
      AlignedSelf([], w);
    } else {
      var e, rest := elsifs[0], elsifs[1..];
      var cond := [Work(e.cond, Boolean)];
      AlignedSelf(cond, w);
      BodyAligned(e.block, c, d, w);
      ElsifsAligned(rest, c, d, w);
      AlignedJoin(cond, cond, BodyPushes(e.block, c), BodyPushes(e.block, d), w);
      AlignedJoin(cond + BodyPushes(e.block, c), cond + BodyPushes(e.block, d), ElsifPushes(rest, c), ElsifPushes(rest, d), w);
    }
  }

  lemma {:induction false} StmtAligned(s: Stmt, c: Context, d: Context, w: Context)
    requires Stands(w, c, d)
    ensures Aligned(StmtPushes(s, c), StmtPushes(s, d), w)
    decreases s
  {
    hide Aligned, Stands;
    match s
    case ExprStmt(e) => OneAligned(e, c, d, w);
    case If(cond, block, elsifs, otherwise) =>
      var test := [Work(cond, Boolean)];
      AlignedSelf(test, w);
      BodyAligned(block, c, d, w);
      ElsifsAligned(elsifs, c, d, w);
      BodyAligned(otherwise, c, d, w);
      AlignedJoin(test, test, BodyPushes(block, c), BodyPushes(block, d), w);
      AlignedJoin(test + BodyPushes(block, c), test + BodyPushes(block, d), ElsifPushes(elsifs, c), ElsifPushes(elsifs, d), w);
      AlignedJoin(test + BodyPushes(block, c) + ElsifPushes(elsifs, c), test + BodyPushes(block, d) + ElsifPushes(elsifs, d),
                  BodyPushes(otherwise, c), BodyPushes(otherwise, d), w);
    case Given(topic, block) =>
      AlignedSelf([Work(topic, Scalar)], w);
      BodyAligned(block, c, d, w);
      AlignedJoin([Work(topic, Scalar)], [Work(topic, Scalar)], BodyPushes(block, c), BodyPushes(block, d), w);
    case Try(block, handler, finally) =>
      BodyAligned(block, c, d, w);
      BodyAligned(handler, c, d, w);
      AlignedSelf(BodyPushes(finally, Void), w);
      AlignedJoin(BodyPushes(block, c), BodyPushes(block, d), BodyPushes(handler, c), BodyPushes(handler, d), w);
      AlignedJoin(BodyPushes(block, c) + BodyPushes(handler, c), BodyPushes(block, d) + BodyPushes(handler, d),
                  BodyPushes(finally, Void), BodyPushes(finally, Void), w);
    case Bare(block, cont) =>
      BodyAligned(block, c, d, w);
      AlignedSelf(BodyPushes(cont, Void), w);
      AlignedJoin(BodyPushes(block, c), BodyPushes(block, d), BodyPushes(cont, Void), BodyPushes(cont, Void), w);
    case Labeled(inner) => StmtAligned(inner, c, d, w);
    case _ => AlignedSelf(StmtPushes(s, c), w);
  }

  lemma OneAligned(e: nat, c: Context, d: Context, w: Context)
    requires Stands(w, c, d)
    ensures Aligned([Work(e, c)], [Work(e, d)], w)
  {}

  lemma ThenAligned(a: seq<Work>, b: seq<Work>, e: nat, c: Context, d: Context, w: Context)
    requires Aligned(a, b, w) && Stands(w, c, d)
    ensures Aligned(a + [Work(e, c)], b + [Work(e, d)], w)
  {}

  lemma CommaAligned(items: seq<nat>, c: Context, d: Context, w: Context)
    requires Stands(w, c, d) && (c == List <==> d == List)
    ensures Aligned(CommaPushes(items, c), CommaPushes(items, d), w)
  {}

  /** Only a comma can tell a list apart from a runtime context that turns out to be one. */
  lemma PushesAligned(k: Kind, c: Context, d: Context, w: Context)
    requires IsStatic(w) && Stands(w, c, d)
    requires k.Comma? ==> (c == List <==> d == List)
    ensures Aligned(Pushes(k, c), Pushes(k, d), w)
  {
    hide CommaPushes, Aligned;
    TruthTestedResolves(w, c);
    match k
    case DoBlock(block) => BodyAligned(block, c, d, w);
    case Comma(items) => CommaAligned(items, c, d, w);
    case Forward(inner) => OneAligned(inner, c, d, w);
    case ShortCircuit(left, right) =>
      OneAligned(left, TruthTested(c), TruthTested(d), w);
      ThenAligned([Work(left, TruthTested(c))], [Work(left, TruthTested(d))], right, c, d, w);
      assert Pushes(k, c) == [Work(left, TruthTested(c))] + [Work(right, c)];
      assert Pushes(k, d) == [Work(left, TruthTested(d))] + [Work(right, d)];
    case Ternary(cond, yes, no) =>
      OneAligned(cond, Boolean, Boolean, w);
      ThenAligned([Work(cond, Boolean)], [Work(cond, Boolean)], yes, c, d, w);
      assert [Work(cond, Boolean)] + [Work(yes, c)] == [Work(cond, Boolean), Work(yes, c)];
      assert [Work(cond, Boolean)] + [Work(yes, d)] == [Work(cond, Boolean), Work(yes, d)];
      ThenAligned([Work(cond, Boolean), Work(yes, c)], [Work(cond, Boolean), Work(yes, d)], no, c, d, w);
      assert Pushes(k, c) == [Work(cond, Boolean), Work(yes, c)] + [Work(no, c)];
      assert Pushes(k, d) == [Work(cond, Boolean), Work(yes, d)] + [Work(no, d)];
    case PostfixControl(expr, cond) =>
      OneAligned(expr, c, d, w);
      ThenAligned([Work(expr, c)], [Work(expr, d)], cond, Boolean, Boolean, w);
      assert Pushes(k, c) == [Work(expr, c)] + [Work(cond, Boolean)];
      assert Pushes(k, d) == [Work(expr, d)] + [Work(cond, Boolean)];
    case _ => AlignedSelf(Pushes(k, c), w);
  }

  /** The same nodes in the same order. */
  ghost predicate SameNodes(a: seq<Work>, b: seq<Work>) {
    |a| == |b| && forall i :: 0 <= i < |a| ==> a[i].node == b[i].node
  }

  lemma SameNodesJoin(a: seq<Work>, b: seq<Work>, c: seq<Work>, d: seq<Work>)
    requires SameNodes(a, b) && SameNodes(c, d)
    ensures SameNodes(a + c, b + d)
  {}

  lemma SameNodesSelf(a: seq<Work>)
    ensures SameNodes(a, a)
  {}

  lemma CommaSameNodes(items: seq<nat>, c: Context, d: Context)
    ensures SameNodes(CommaPushes(items, c), CommaPushes(items, d))
  {}

  lemma SameNodesOne(e: nat, c: Context, d: Context)
    ensures SameNodes([Work(e, c)], [Work(e, d)])
  {}

  lemma SameNodesThen(a: seq<Work>, b: seq<Work>, e: nat, c: Context, d: Context)
    requires SameNodes(a, b)
    ensures SameNodes(a + [Work(e, c)], b + [Work(e, d)])
  {}

  /** What a node pushes does not depend on its context; only how it is stamped does. */
  lemma PushesSameNodes(k: Kind, c: Context, d: Context)
    ensures SameNodes(Pushes(k, c), Pushes(k, d))
  {
    hide CommaPushes, SameNodes;
    match k
    case DoBlock(block) => BodySameNodes(block, c, d);
    case Comma(items) => CommaSameNodes(items, c, d);
    case Forward(inner) => SameNodesOne(inner, c, d);
    case ShortCircuit(left, right) =>
      SameNodesOne(left, TruthTested(c), TruthTested(d));
      SameNodesThen([Work(left, TruthTested(c))], [Work(left, TruthTested(d))], right, c, d);
      assert Pushes(k, c) == [Work(left, TruthTested(c))] + [Work(right, c)];
      assert Pushes(k, d) == [Work(left, TruthTested(d))] + [Work(right, d)];
    case Ternary(cond, yes, no) =>
      SameNodesOne(cond, Boolean, Boolean);
      SameNodesThen([Work(cond, Boolean)], [Work(cond, Boolean)], yes, c, d);
      assert [Work(cond, Boolean)] + [Work(yes, c)] == [Work(cond, Boolean), Work(yes, c)];
      assert [Work(cond, Boolean)] + [Work(yes, d)] == [Work(cond, Boolean), Work(yes, d)];
      SameNodesThen([Work(cond, Boolean), Work(yes, c)], [Work(cond, Boolean), Work(yes, d)], no, c, d);
      assert Pushes(k, c) == [Work(cond, Boolean), Work(yes, c)] + [Work(no, c)];
      assert Pushes(k, d) == [Work(cond, Boolean), Work(yes, d)] + [Work(no, d)];
    case PostfixControl(expr, cond) =>
      SameNodesOne(expr, c, d);
      SameNodesThen([Work(expr, c)], [Work(expr, d)], cond, Boolean, Boolean);
      assert Pushes(k, c) == [Work(expr, c)] + [Work(cond, Boolean)];
      assert Pushes(k, d) == [Work(expr, d)] + [Work(cond, Boolean)];
    case _ => SameNodesSelf(Pushes(k, c));
  }

  lemma {:induction false} BodySameNodes(body: seq<Stmt>, c: Context, d: Context)
    ensures SameNodes(BodyPushes(body, c), BodyPushes(body, d))
    decreases body
  {
    hide SameNodes;
    if body == [] {
      SameNodesSelf([]);
    } else if |body| == 1 {
      StmtSameNodes(body[0], c, d);
    } else {
      BodySameNodes(body[1..], c, d);
      SameNodesSelf(StmtPushes(body[0], Void));
      SameNodesJoin(StmtPushes(body[0], Void), StmtPushes(body[0], Void), BodyPushes(body[1..], c), BodyPushes(body[1..], d));
    }
  }

  lemma {:induction false} ElsifsSameNodes(elsifs: seq<Elsif>, c: Context, d: Context)
    ensures SameNodes(ElsifPushes(elsifs, c), ElsifPushes(elsifs, d))
    decreases elsifs
  {
    hide SameNodes;
    if elsifs == [] {
      SameNodesSelf([]);
    } else {
      var e, rest := elsifs[0], elsifs[1..];
      var cond := [Work(e.cond, Boolean)];
      SameNodesSelf(cond);
      BodySameNodes(e.block, c, d);
      ElsifsSameNodes(rest, c, d);
      SameNodesJoin(cond, cond, BodyPushes(e.block, c), BodyPushes(e.block, d));
      SameNodesJoin(cond + BodyPushes(e.block, c), cond + BodyPushes(e.block, d), ElsifPushes(rest, c), ElsifPushes(rest, d));
    }
  }

  lemma {:induction false} StmtSameNodes(s: Stmt, c: Context, d: Context)
    ensures SameNodes(StmtPushes(s, c), StmtPushes(s, d))
    decreases s
  {
    hide SameNodes;
    match s
    case ExprStmt(e) => SameNodesOne(e, c, d);
    case If(cond, block, elsifs, otherwise) =>
      var test := [Work(cond, Boolean)];
      SameNodesSelf(test);
      BodySameNodes(block, c, d);
      ElsifsSameNodes(elsifs, c, d);
      BodySameNodes(otherwise, c, d);
      SameNodesJoin(test, test, BodyPushes(block, c), BodyPushes(block, d));
      SameNodesJoin(test + BodyPushes(block, c), test + BodyPushes(block, d), ElsifPushes(elsifs, c), ElsifPushes(elsifs, d));
      SameNodesJoin(test + BodyPushes(block, c) + ElsifPushes(elsifs, c), test + BodyPushes(block, d) + ElsifPushes(elsifs, d),
                    BodyPushes(otherwise, c), BodyPushes(otherwise, d));
    case Given(topic, block) =>
      SameNodesSelf([Work(topic, Scalar)]);
      BodySameNodes(block, c, d);
      SameNodesJoin([Work(topic, Scalar)], [Work(topic, Scalar)], BodyPushes(block, c), BodyPushes(block, d));
    case Try(block, handler, finally) =>
      BodySameNodes(block, c, d);
      BodySameNodes(handler, c, d);
      SameNodesSelf(BodyPushes(finally, Void));
      SameNodesJoin(BodyPushes(block, c), BodyPushes(block, d), BodyPushes(handler, c), BodyPushes(handler, d));
      SameNodesJoin(BodyPushes(block, c) + BodyPushes(handler, c), BodyPushes(block, d) + BodyPushes(handler, d),
                    BodyPushes(finally, Void), BodyPushes(finally, Void));
    case Bare(block, cont) =>
      BodySameNodes(block, c, d);
      SameNodesSelf(BodyPushes(cont, Void));
      SameNodesJoin(BodyPushes(block, c), BodyPushes(block, d), BodyPushes(cont, Void), BodyPushes(cont, Void));
    case Labeled(inner) => StmtSameNodes(inner, c, d);
    case _ => SameNodesSelf(StmtPushes(s, c));
  }
}
