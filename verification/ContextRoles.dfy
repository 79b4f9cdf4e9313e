/**
  * What each place in the tree is evaluated in, said place by place and apart from the order a work queue visits them:
  * items are in list context, tests boolean, values scalar, results in whatever context the construct is in, a call's
  * result in the caller's, and what nothing looks at void.
  */
module ContextRoles {
  import opened Syntax
  import opened Wrappers

  // ── The places of an expression ─────────────────────────────────

  predicate HasPart(parts: seq<Part>, part: Part) {
    part in parts
  }

  /** An argument, an element, a subscript of a slice, a listed operand, or an array interpolated in a string. */
  predicate IsItem(k: Kind, x: nat) {
    match k
    case Interpolated(parts) => HasPart(parts, ListPart(x))
    case Subst(pattern, replacement) => HasPart(pattern, ListPart(x)) || HasPart(replacement, ListPart(x))
    case SubstEval(pattern, _) => HasPart(pattern, ListPart(x))
    case Slice(_, indices) => x in indices
    case ListSlice(operand, indices) => x == operand || x in indices
    case ArrowDeref(_, CallArgs(args)) => x in args
    case ArrowDeref(_, DynMethod(_, args)) => x in args
    case ArrowDeref(_, SliceOf(e)) => x == e
    case Elements(items) => x in items
    case MethodCall(_, args) => x in args
    case _ => false
  }

  /** A condition, or an operand of `!` or `xor`. */
  predicate IsTest(k: Kind, x: nat) {
    match k
    case LogicalNot(operand) => x == operand
    case Xor(left, right) => x == left || x == right
    case Ternary(cond, _, _) => x == cond
    case PostfixControl(_, cond) => x == cond
    case _ => false
  }

  /** An operand consumed as one value. */
  predicate IsValue(k: Kind, x: nat) {
    match k
    case Interpolated(parts) => HasPart(parts, ScalarPart(x))
    case Subst(pattern, replacement) => HasPart(pattern, ScalarPart(x)) || HasPart(replacement, ScalarPart(x))
    case SubstEval(pattern, _) => HasPart(pattern, ScalarPart(x))
    case Unary(operand) => x == operand
    case Binary(left, right) => x == left || x == right
    case ChainedCmp(items) => x in items
    case Slice(base, _) => x == base
    case ArrowDeref(base, Element(e)) => x == base || x == e
    case ArrowDeref(base, DynMethod(name, _)) => x == base || x == name
    case ArrowDeref(base, _) => x == base
    case MethodCall(invocant, _) => x == invocant
    case _ => false
  }

  /** What the construct's own value is: a forwarded operand, the right of a short circuit, a branch. */
  predicate IsResult(k: Kind, x: nat) {
    match k
    case Forward(inner) => x == inner
    case ShortCircuit(_, right) => x == right
    case Ternary(_, yes, no) => x == yes || x == no
    case PostfixControl(expr, _) => x == expr
    case _ => false
  }

  /** An item of a comma: one of a list in list context, and otherwise the result if last and discarded if not. */
  predicate IsCommaItem(items: seq<nat>, c: Context, x: nat, d: Context) {
    exists i :: 0 <= i < |items| && x == items[i] && d == if c == List then List else if i == |items| - 1 then c else Void
  }

  // ── The places of a statement ───────────────────────────────────

  /** A body's last statement is in the body's context, and every earlier one is void. */
  predicate BodyGives(body: seq<Stmt>, c: Context, x: nat, d: Context)
    decreases body
  {
    exists i :: 0 <= i < |body| && StmtGives(body[i], if i == |body| - 1 then c else Void, x, d)
  }

  predicate ElsifGives(elsifs: seq<Elsif>, c: Context, x: nat, d: Context)
    decreases elsifs
  {
    exists i :: 0 <= i < |elsifs| && ((x == elsifs[i].cond && d == Boolean) || BodyGives(elsifs[i].block, c, x, d))
  }

  /** Branches give the statement's value; loops, `finally`, `continue` and effect blocks give none. */
  predicate StmtGives(s: Stmt, c: Context, x: nat, d: Context)
    decreases s
  {
    match s
    case ExprStmt(e) => x == e && d == c
    case If(cond, block, elsifs, otherwise) =>
      (x == cond && d == Boolean) || BodyGives(block, c, x, d) || ElsifGives(elsifs, c, x, d) || BodyGives(otherwise, c, x, d)
    case Loop(cond, block, cont) => (x == cond && d == Boolean) || BodyGives(block, Void, x, d) || BodyGives(cont, Void, x, d)
    case For(init, test, step, block) =>
      (Some(x) in {init, step} && d == Void) || (Some(x) == test && d == Boolean) || BodyGives(block, Void, x, d)
    case ForEach(list, block, cont) => (x == list && d == List) || BodyGives(block, Void, x, d) || BodyGives(cont, Void, x, d)
    case Given(topic, block) => (x == topic && d == Scalar) || BodyGives(block, c, x, d)
    case Try(block, handler, finally) => BodyGives(block, c, x, d) || BodyGives(handler, c, x, d) || BodyGives(finally, Void, x, d)
    case Bare(block, cont) => BodyGives(block, c, x, d) || BodyGives(cont, Void, x, d)
    case Effect(block) => BodyGives(block, Void, x, d)
    case Labeled(inner) => StmtGives(inner, c, x, d)
    case SubDecl(defaults, block) => (x in defaults && d == Scalar) || BodyGives(block, Runtime, x, d)
    case FieldDecl(default) => Some(x) == default && d == Scalar
    case UseDecl(imports) => x in imports && d == List
    case Inert => false
  }

  /** A replacement block's value is one value, a `do` or `eval` block's is the construct's, and a sub's is its caller's. */
  predicate BlockGives(k: Kind, c: Context, x: nat, d: Context) {
    match k
    case SubstEval(_, block) => BodyGives(block, Scalar, x, d)
    case DoBlock(block) => BodyGives(block, c, x, d)
    case AnonSub(block) => BodyGives(block, Runtime, x, d)
    case _ => false
  }

  /** A node in context `c` evaluates `x` in context `d`. */
  predicate Gives(k: Kind, c: Context, x: nat, d: Context) {
    || (IsItem(k, x) && d == List)
    || (IsTest(k, x) && d == Boolean)
    || (IsValue(k, x) && d == Scalar)
    || (IsResult(k, x) && d == c)
    || (k.ShortCircuit? && x == k.left && d == TruthTested(c))
    || (k.Return? && k.result == Some(x) && d == Runtime)
    || (k.Comma? && IsCommaItem(k.items, c, x, d))
    || BlockGives(k, c, x, d)
  }

  // ── The queue is fed exactly these ──────────────────────────────

  lemma InAll(items: seq<nat>, c: Context, x: nat, d: Context)
    ensures Work(x, d) in All(items, c) <==> x in items && d == c
  {
    if x in items && d == c {
      var i :| 0 <= i < |items| && items[i] == x;
      assert All(items, c)[i] == Work(x, d);
    }
  }

  lemma InJoin(a: seq<Work>, b: seq<Work>, w: Work)
    ensures w in a + b <==> w in a || w in b
  {}

  lemma {:induction false} InParts(parts: seq<Part>, x: nat, d: Context)
    ensures Work(x, d) in PartPushes(parts) <==>
            (HasPart(parts, ScalarPart(x)) && d == Scalar) || (HasPart(parts, ListPart(x)) && d == List)
  {
    if parts != [] {
      InParts(parts[1..], x, d);
      assert parts == [parts[0]] + parts[1..];
    }
  }

  lemma InTarget(target: ArrowTarget, x: nat, d: Context)
    ensures Work(x, d) in TargetPushes(target) <==>
            match target
            case Element(e) => x == e && d == Scalar
            case CallArgs(args) => x in args && d == List
            case DynMethod(name, args) => (x == name && d == Scalar) || (x in args && d == List)
            case SliceOf(e) => x == e && d == List
            case Whole => false
  {
    match target
    case CallArgs(args) => InAll(args, List, x, d);
    case DynMethod(_, args) => InAll(args, List, x, d);
    case _ =>
  }

  lemma {:induction false} InBody(body: seq<Stmt>, c: Context, x: nat, d: Context)
    ensures Work(x, d) in BodyPushes(body, c) <==> BodyGives(body, c, x, d)
    decreases body
  {
    hide StmtGives, StmtPushes;
    if body == [] {
    } else if |body| == 1 {
      InStmt(body[0], c, x, d);
    } else {
      InStmt(body[0], Void, x, d);
      InBody(body[1..], c, x, d);
      BodyFirst(body, c, x, d);
    }
  }

  lemma BodyFirst(body: seq<Stmt>, c: Context, x: nat, d: Context)
    requires |body| > 1
    ensures BodyGives(body, c, x, d) <==> StmtGives(body[0], Void, x, d) || BodyGives(body[1..], c, x, d)
  {
    hide StmtGives;
    if StmtGives(body[0], Void, x, d) {
      assert BodyGives(body, c, x, d);
    }
    if BodyGives(body[1..], c, x, d) {
      BodyLater(body, c, x, d);
    }
    if BodyGives(body, c, x, d) {
      BodySooner(body, c, x, d);
    }
  }

  lemma BodyLater(body: seq<Stmt>, c: Context, x: nat, d: Context)
    requires |body| > 1 && BodyGives(body[1..], c, x, d)
    ensures BodyGives(body, c, x, d)
  {
    hide StmtGives;
    var rest := body[1..];
    var i :| 0 <= i < |rest| && StmtGives(rest[i], if i == |rest| - 1 then c else Void, x, d);
    assert StmtGives(body[i + 1], if i + 1 == |body| - 1 then c else Void, x, d);
  }

  lemma BodySooner(body: seq<Stmt>, c: Context, x: nat, d: Context)
    requires |body| > 1 && BodyGives(body, c, x, d)
    ensures StmtGives(body[0], Void, x, d) || BodyGives(body[1..], c, x, d)
  {
    hide StmtGives;
    var rest := body[1..];
    var i :| 0 <= i < |body| && StmtGives(body[i], if i == |body| - 1 then c else Void, x, d);
    if i > 0 {
      assert StmtGives(rest[i - 1], if i - 1 == |rest| - 1 then c else Void, x, d);
    }
  }

  lemma {:induction false} InElsifs(elsifs: seq<Elsif>, c: Context, x: nat, d: Context)
    ensures Work(x, d) in ElsifPushes(elsifs, c) <==> ElsifGives(elsifs, c, x, d)
    decreases elsifs
  {
    hide BodyGives, BodyPushes;
    if elsifs != [] {
      InBody(elsifs[0].block, c, x, d);
      InElsifs(elsifs[1..], c, x, d);
      ElsifFirst(elsifs, c, x, d);
    }
  }

  lemma ElsifFirst(elsifs: seq<Elsif>, c: Context, x: nat, d: Context)
    requires elsifs != []
    ensures ElsifGives(elsifs, c, x, d) <==>
            (x == elsifs[0].cond && d == Boolean) || BodyGives(elsifs[0].block, c, x, d) || ElsifGives(elsifs[1..], c, x, d)
  {
    hide BodyGives;
    if ElsifGives(elsifs[1..], c, x, d) {
      ElsifLater(elsifs, c, x, d);
    }
    if ElsifGives(elsifs, c, x, d) {
      ElsifSooner(elsifs, c, x, d);
    }
  }

  lemma ElsifLater(elsifs: seq<Elsif>, c: Context, x: nat, d: Context)
    requires elsifs != [] && ElsifGives(elsifs[1..], c, x, d)
    ensures ElsifGives(elsifs, c, x, d)
  {
    hide BodyGives;
    var rest := elsifs[1..];
    var i :| 0 <= i < |rest| && ((x == rest[i].cond && d == Boolean) || BodyGives(rest[i].block, c, x, d));
    assert rest[i] == elsifs[i + 1];
  }

  lemma ElsifSooner(elsifs: seq<Elsif>, c: Context, x: nat, d: Context)
    requires elsifs != [] && ElsifGives(elsifs, c, x, d)
    ensures (x == elsifs[0].cond && d == Boolean) || BodyGives(elsifs[0].block, c, x, d) || ElsifGives(elsifs[1..], c, x, d)
  {
    hide BodyGives;
    var rest := elsifs[1..];
    var i :| 0 <= i < |elsifs| && ((x == elsifs[i].cond && d == Boolean) || BodyGives(elsifs[i].block, c, x, d));
    if i > 0 {
      assert rest[i - 1] == elsifs[i];
    }
  }

  lemma {:induction false} InStmt(s: Stmt, c: Context, x: nat, d: Context)
    ensures Work(x, d) in StmtPushes(s, c) <==> StmtGives(s, c, x, d)
    decreases s
  {
    hide BodyGives, BodyPushes, ElsifGives, ElsifPushes;
    match s
    case ExprStmt(e) =>
    case If(cond, block, elsifs, otherwise) =>
      InBody(block, c, x, d);
      InElsifs(elsifs, c, x, d);
      InBody(otherwise, c, x, d);
    case Loop(cond, block, cont) =>
      InBody(block, Void, x, d);
      InBody(cont, Void, x, d);
    case For(init, test, step, block) =>
      InBody(block, Void, x, d);
    case ForEach(list, block, cont) =>
      InBody(block, Void, x, d);
      InBody(cont, Void, x, d);
    case Given(topic, block) => InBody(block, c, x, d);
    case Try(block, handler, finally) =>
      InBody(block, c, x, d);
      InBody(handler, c, x, d);
      InBody(finally, Void, x, d);
    case Bare(block, cont) =>
      InBody(block, c, x, d);
      InBody(cont, Void, x, d);
    case Effect(block) => InBody(block, Void, x, d);
    case Labeled(inner) => InStmt(inner, c, x, d);
    case SubDecl(defaults, block) =>
      InAll(defaults, Scalar, x, d);
      InBody(block, Runtime, x, d);
    case FieldDecl(default) =>
    case UseDecl(imports) => InAll(imports, List, x, d);
    case Inert =>
  }

  lemma InComma(items: seq<nat>, c: Context, x: nat, d: Context)
    ensures Work(x, d) in CommaPushes(items, c) <==> IsCommaItem(items, c, x, d)
  {
    var ws := CommaPushes(items, c);
    assert |ws| == |items|;
    forall i | 0 <= i < |items|
      ensures ws[i] == Work(items[i], if c == List then List else if i == |items| - 1 then c else Void)
    {}
  }

  lemma ArrowGives(k: Kind, c: Context, x: nat, d: Context)
    requires k.ArrowDeref?
    ensures Work(x, d) in Pushes(k, c) <==> Gives(k, c, x, d)
  {
    hide TargetPushes;
    InTarget(k.target, x, d);
  }

  /** Strings, patterns and replacements. */
  lemma TextGives(k: Kind, c: Context, x: nat, d: Context)
    requires k.Interpolated? || k.Subst? || k.SubstEval?
    ensures Work(x, d) in Pushes(k, c) <==> Gives(k, c, x, d)
  {
    hide BodyGives, BodyPushes, PartPushes, HasPart;
    match k
    case Interpolated(parts) => InParts(parts, x, d);
    case Subst(pattern, replacement) =>
      InParts(pattern, x, d);
      InParts(replacement, x, d);
    case SubstEval(pattern, block) =>
      InParts(pattern, x, d);
      InBody(block, Scalar, x, d);
  }

  /** Kinds that list their operands. */
  lemma ListGives(k: Kind, c: Context, x: nat, d: Context)
    requires k.ChainedCmp? || k.Slice? || k.ListSlice? || k.Elements? || k.MethodCall?
    ensures Work(x, d) in Pushes(k, c) <==> Gives(k, c, x, d)
  {
    hide All;
    match k
    case ChainedCmp(items) => InAll(items, Scalar, x, d);
    case Slice(_, indices) => InAll(indices, List, x, d);
    case ListSlice(_, indices) => InAll(indices, List, x, d);
    case Elements(items) => InAll(items, List, x, d);
    case MethodCall(_, args) => InAll(args, List, x, d);
  }

  lemma BodyOrCommaGives(k: Kind, c: Context, x: nat, d: Context)
    requires k.DoBlock? || k.AnonSub? || k.Comma?
    ensures Work(x, d) in Pushes(k, c) <==> Gives(k, c, x, d)
  {
    hide BodyGives, BodyPushes, CommaPushes, IsCommaItem;
    match k
    case DoBlock(block) => InBody(block, c, x, d);
    case AnonSub(block) => InBody(block, Runtime, x, d);
    case Comma(items) => InComma(items, c, x, d);
  }

  /** Kinds with at most three operands and no lists of them. */
  lemma FewGive(k: Kind, c: Context, x: nat, d: Context)
    requires !k.Interpolated? && !k.Subst? && !k.SubstEval? && !k.ArrowDeref? && !k.DoBlock? && !k.AnonSub? && !k.Comma?
    requires !k.ChainedCmp? && !k.Slice? && !k.ListSlice? && !k.Elements? && !k.MethodCall?
    ensures Work(x, d) in Pushes(k, c) <==> Gives(k, c, x, d)
  {
    hide BodyGives, BodyPushes, PartPushes, HasPart, TargetPushes, CommaPushes, IsCommaItem, All;
  }

  /** What stamping a node pushes, and with which context, is what its places say. */
  lemma PushesGive(k: Kind, c: Context, x: nat, d: Context)
    ensures Work(x, d) in Pushes(k, c) <==> Gives(k, c, x, d)
  {
    hide Pushes, Gives;
    if k.Interpolated? || k.Subst? || k.SubstEval? {
      TextGives(k, c, x, d);
    } else if k.ArrowDeref? {
      ArrowGives(k, c, x, d);
    } else if k.ChainedCmp? || k.Slice? || k.ListSlice? || k.Elements? || k.MethodCall? {
      ListGives(k, c, x, d);
    } else if k.DoBlock? || k.AnonSub? || k.Comma? {
      BodyOrCommaGives(k, c, x, d);
    } else {
      FewGive(k, c, x, d);
    }
  }
}
