/**
 Boolean expressions: tokens, the grammar they are meant to follow, and the shunting-yard pass that turns
 infix into postfix, written as functions on sequences. The array-based pass is in BoolExprYard.

 The grammar, with & and | of equal precedence and left associative, and ! binding tightest:

   Expr := Term | Expr (&,|) Term        Term := VAR | ! Term | ( Expr )
 */
module BoolExpr {
  import opened Wrappers

  datatype Op = Not | And | Or | Var | LPar | RPar

  /** `pos` is the token's index in the token buffer: it stands for the token's address. */
  datatype Tok = Tok(op: Op, text: string, pos: nat)

  // ----- Grammar -----

  datatype Expr = One(t: Term) | Bin(l: Expr, op: Tok, r: Term)
  datatype Term = Leaf(v: Tok) | Neg(n: Tok, t: Term) | Par(lp: Tok, e: Expr, rp: Tok)

  predicate Binary(op: Op) {
    op == And || op == Or
  }

  predicate GoodExpr(e: Expr) {
    match e
    case One(t) => GoodTerm(t)
    case Bin(l, op, r) => GoodExpr(l) && Binary(op.op) && GoodTerm(r)
  }

  predicate GoodTerm(t: Term) {
    match t
    case Leaf(v) => v.op == Var
    case Neg(n, t) => n.op == Not && GoodTerm(t)
    case Par(lp, e, rp) => lp.op == LPar && GoodExpr(e) && rp.op == RPar
  }

  /** The tokens of a tree in the order they are written. */
  function Yield(e: Expr): seq<Tok> {
    match e
    case One(t) => YieldTerm(t)
    case Bin(l, op, r) => Yield(l) + [op] + YieldTerm(r)
  }

  function YieldTerm(t: Term): seq<Tok> {
    match t
    case Leaf(v) => [v]
    case Neg(n, t) => [n] + YieldTerm(t)
    case Par(lp, e, rp) => [lp] + Yield(e) + [rp]
  }

  /** The operands and operators of a tree, operands first. */
  function Post(e: Expr): seq<Tok> {
    match e
    case One(t) => PostTerm(t)
    case Bin(l, op, r) => Post(l) + PostTerm(r) + [op]
  }

  function PostTerm(t: Term): seq<Tok> {
    match t
    case Leaf(v) => [v]
    case Neg(n, t) => PostTerm(t) + [n]
    case Par(_, e, _) => Post(e)
  }

  ghost predicate Derives(e: Expr, toks: seq<Tok>) {
    GoodExpr(e) && Yield(e) == toks
  }

  // ----- The shunting-yard pass -----

  /** check_one is its negation: may a variable, a negation or a ( follow? None is the start. */
  predicate MayOpen(prev: Option<Op>) {
    prev.None? || prev.value in {And, Or, Not, LPar}
  }

  /** check_two: may a ), a binary operation or the end follow? */
  predicate MayClose(prev: Option<Op>) {
    prev.Some? && prev.value in {Var, RPar}
  }

  datatype Fault =
    | ExpectedOperation | ExpectedVarOrRPar | ExpectedVarOrLPar
    | MissingLPar | MissingRPar | Unfinished

  datatype Yard =
    | Yard(stack: seq<Tok>, out: seq<Tok>, prev: Option<Op>)
    | Bad(at: Tok, fault: Fault)

  function PeekOp(stack: seq<Tok>): Option<Op> {
    if stack == [] then None else Some(stack[|stack| - 1].op)
  }

  /** Moves the negations on top of the stack to the output. */
  function PopNots(stack: seq<Tok>, out: seq<Tok>): (r: (seq<Tok>, seq<Tok>))
    ensures |r.0| + |r.1| == |stack| + |out|
  {
    if PeekOp(stack) == Some(Not) then PopNots(stack[..|stack| - 1], out + [stack[|stack| - 1]])
    else (stack, out)
  }

  /** Moves everything above the topmost ( to the output and drops the (; None if there is no (. */
  function PopToLPar(stack: seq<Tok>, out: seq<Tok>): (r: Option<(seq<Tok>, seq<Tok>)>)
    ensures r.Some? ==> |r.value.0| + |r.value.1| < |stack| + |out|
  {
    if stack == [] then None
    else if stack[|stack| - 1].op == LPar then Some((stack[..|stack| - 1], out))
    else PopToLPar(stack[..|stack| - 1], out + [stack[|stack| - 1]])
  }

  function YardStep(y: Yard, tok: Tok): Yard {
    if y.Bad? then y
    else match tok.op
      case Var =>
        if !MayOpen(y.prev) then Bad(tok, ExpectedOperation)
        else
          var (stack, out) := PopNots(y.stack, y.out + [tok]);
          Yard(stack, out, Some(Var))
      case LPar =>
        if !MayOpen(y.prev) then Bad(tok, ExpectedOperation)
        else Yard(y.stack + [tok], y.out, Some(LPar))
      case RPar =>
        if !MayClose(y.prev) then Bad(tok, ExpectedVarOrRPar)
        else (
          var popped := PopToLPar(y.stack, y.out);
          if popped.None? then Bad(tok, MissingLPar)
          else
            var (stack, out) := PopNots(popped.value.0, popped.value.1);
            Yard(stack, out, Some(RPar)))
      case Not =>
        if !MayOpen(y.prev) then Bad(tok, ExpectedOperation)
        else Yard(y.stack + [tok], y.out, Some(Not))
      case _ =>
        if !MayClose(y.prev) then Bad(tok, ExpectedVarOrLPar)
        else if y.stack != [] && Binary(y.stack[|y.stack| - 1].op) then
          Yard(y.stack[..|y.stack| - 1] + [tok], y.out + [y.stack[|y.stack| - 1]], Some(tok.op))
        else Yard(y.stack + [tok], y.out, Some(tok.op))
  }

  function YardRun(y: Yard, toks: seq<Tok>): Yard
    decreases |toks|
  {
    if toks == [] then y else YardRun(YardStep(y, toks[0]), toks[1..])
  }

  function YardStart(): Yard {
    Yard([], [], None)
  }

  /** Pops what is left on the stack at the end of the input. */
  function PopRest(stack: seq<Tok>, out: seq<Tok>): Yard {
    if stack == [] then Yard([], out, None)
    else
      var top := stack[|stack| - 1];
      if top.op == LPar then Bad(top, MissingRPar) else PopRest(stack[..|stack| - 1], out + [top])
  }

  datatype Outcome = Accepted(rpn: seq<Tok>) | Rejected(at: Tok, fault: Fault)

  /** The whole pass. tst_bool_expr_parse never calls it on an empty token list. */
  function ShuntingYard(toks: seq<Tok>): Outcome
    requires toks != []
  {
    var y := YardRun(YardStart(), toks);
    if y.Bad? then Rejected(y.at, y.fault)
    else if !MayClose(Some(toks[|toks| - 1].op)) then Rejected(toks[|toks| - 1], Unfinished)
    else
      var end := PopRest(y.stack, y.out);
      if end.Bad? then Rejected(end.at, end.fault) else Accepted(end.out)
  }

  // ----- A parser that builds the tree -----

  /** A complete left operand and the binary operation after it, if any. */
  datatype Left = NoLeft | LeftOf(e: Expr, op: Tok)

  /** The open parentheses, innermost first, each with what stands before it on its level. */
  datatype Ctx = Top | Under(up: Ctx, left: Left, nots: seq<Tok>, lp: Tok)

  /** Want: an operand must follow. Have: the innermost level holds a complete expression. */
  datatype Parse = Want(ctx: Ctx, left: Left, nots: seq<Tok>) | Have(ctx: Ctx, e: Expr) | Fail

  /** Applies negations to a term, the last one innermost. */
  function Negate(nots: seq<Tok>, t: Term): Term {
    if nots == [] then t else Neg(nots[0], Negate(nots[1..], t))
  }

  function Attach(left: Left, t: Term): Expr {
    if left.NoLeft? then One(t) else Bin(left.e, left.op, t)
  }

  function ParseStep(p: Parse, tok: Tok): Parse {
    match p
    case Fail => Fail
    case Want(ctx, left, nots) => (
      match tok.op
      case Var => Have(ctx, Attach(left, Negate(nots, Leaf(tok))))
      case LPar => Want(Under(ctx, left, nots, tok), NoLeft, [])
      case Not => Want(ctx, left, nots + [tok])
      case _ => Fail)
    case Have(ctx, e) =>
      match tok.op
      case RPar =>
        if ctx.Top? then Fail
        else Have(ctx.up, Attach(ctx.left, Negate(ctx.nots, Par(ctx.lp, e, tok))))
      case And => Want(ctx, LeftOf(e, tok), [])
      case Or => Want(ctx, LeftOf(e, tok), [])
      case _ => Fail
  }

  function ParseRun(p: Parse, toks: seq<Tok>): Parse
    decreases |toks|
  {
    if toks == [] then p else ParseRun(ParseStep(p, toks[0]), toks[1..])
  }

  function ParseStart(): Parse {
    Want(Top, NoLeft, [])
  }

  // ----- The parser finds every derivation -----

  lemma {:induction false} ParseRunConcat(p: Parse, a: seq<Tok>, b: seq<Tok>)
    ensures ParseRun(p, a + b) == ParseRun(ParseRun(p, a), b)
    decreases |a|
  {
    if a == [] {
      assert a + b == b;
    } else {
      assert (a + b)[1..] == a[1..] + b;
      ParseRunConcat(ParseStep(p, a[0]), a[1..], b);
    }
  }

  lemma {:induction false} NegateSnoc(nots: seq<Tok>, n: Tok, t: Term)
    ensures Negate(nots + [n], t) == Negate(nots, Neg(n, t))
    decreases |nots|
  {
    if nots != [] {
      assert (nots + [n])[1..] == nots[1..] + [n];
      NegateSnoc(nots[1..], n, t);
    } else {
      assert [n][1..] == [];
    }
  }

  lemma {:induction false} ParsesTerm(ctx: Ctx, left: Left, nots: seq<Tok>, t: Term)
    requires GoodTerm(t)
    ensures ParseRun(Want(ctx, left, nots), YieldTerm(t)) == Have(ctx, Attach(left, Negate(nots, t)))
    decreases t
  {
    var p := Want(ctx, left, nots);
    match t
    case Leaf(v) =>
      assert ParseRun(p, [v]) == ParseRun(ParseStep(p, v), []);
    case Neg(n, t1) =>
      assert YieldTerm(t)[1..] == YieldTerm(t1);
      ParsesTerm(ctx, left, nots + [n], t1);
      NegateSnoc(nots, n, t1);
    case Par(lp, e, rp) =>
      var inner := Under(ctx, left, nots, lp);
      assert YieldTerm(t)[1..] == Yield(e) + [rp];
      ParsesExpr(inner, e);
      ParseRunConcat(Want(inner, NoLeft, []), Yield(e), [rp]);
      assert ParseRun(Have(inner, e), [rp]) == ParseRun(ParseStep(Have(inner, e), rp), []);
  }

  lemma {:induction false} ParsesExpr(ctx: Ctx, e: Expr)
    requires GoodExpr(e)
    ensures ParseRun(Want(ctx, NoLeft, []), Yield(e)) == Have(ctx, e)
    decreases e
  {
    match e
    case One(t) => ParsesTerm(ctx, NoLeft, [], t);
    case Bin(l, op, r) =>
      var p := Want(ctx, NoLeft, []);
      ParsesExpr(ctx, l);
      assert Yield(e) == Yield(l) + ([op] + YieldTerm(r));
      ParseRunConcat(p, Yield(l), [op] + YieldTerm(r));
      assert ([op] + YieldTerm(r))[1..] == YieldTerm(r);
      ParsesTerm(ctx, LeftOf(l, op), [], r);
  }

  // ----- What the parser accepts is derivable -----

  function YieldLeft(left: Left): seq<Tok> {
    if left.NoLeft? then [] else Yield(left.e) + [left.op]
  }

  function YieldCtx(ctx: Ctx): seq<Tok> {
    if ctx.Top? then [] else YieldCtx(ctx.up) + YieldLeft(ctx.left) + ctx.nots + [ctx.lp]
  }

  function YieldParse(p: Parse): seq<Tok>
    requires !p.Fail?
  {
    if p.Want? then YieldCtx(p.ctx) + YieldLeft(p.left) + p.nots else YieldCtx(p.ctx) + Yield(p.e)
  }

  predicate GoodLeft(left: Left) {
    left.NoLeft? || (GoodExpr(left.e) && Binary(left.op.op))
  }

  predicate AllNots(nots: seq<Tok>) {
    forall i | 0 <= i < |nots| :: nots[i].op == Not
  }

  predicate GoodCtx(ctx: Ctx) {
    ctx.Top? || (GoodCtx(ctx.up) && GoodLeft(ctx.left) && AllNots(ctx.nots) && ctx.lp.op == LPar)
  }

  predicate GoodParse(p: Parse) {
    match p
    case Want(ctx, left, nots) => GoodCtx(ctx) && GoodLeft(left) && AllNots(nots)
    case Have(ctx, e) => GoodCtx(ctx) && GoodExpr(e)
    case Fail => true
  }

  lemma {:induction false} NegateYields(nots: seq<Tok>, t: Term)
    requires AllNots(nots) && GoodTerm(t)
    ensures GoodTerm(Negate(nots, t)) && YieldTerm(Negate(nots, t)) == nots + YieldTerm(t)
    decreases |nots|
  {
    if nots == [] {
      assert nots + YieldTerm(t) == YieldTerm(t);
    } else {
      NegateYields(nots[1..], t);
      assert nots + YieldTerm(t) == [nots[0]] + (nots[1..] + YieldTerm(t));
    }
  }

  lemma AttachYields(left: Left, nots: seq<Tok>, t: Term)
    requires GoodLeft(left) && AllNots(nots) && GoodTerm(t)
    ensures
      var e := Attach(left, Negate(nots, t));
      GoodExpr(e) && Yield(e) == YieldLeft(left) + nots + YieldTerm(t)
  {
    NegateYields(nots, t);
    assert YieldLeft(left) + nots + YieldTerm(t) == YieldLeft(left) + (nots + YieldTerm(t));
    if left.NoLeft? {
      assert [] + (nots + YieldTerm(t)) == nots + YieldTerm(t);
    }
  }

  lemma OpenYields(ctx: Ctx, left: Left, nots: seq<Tok>, lp: Tok)
    requires GoodCtx(ctx) && GoodLeft(left) && AllNots(nots) && lp.op == LPar
    ensures
      var p := Want(Under(ctx, left, nots, lp), NoLeft, []);
      GoodParse(p) && YieldParse(p) == YieldCtx(ctx) + YieldLeft(left) + nots + [lp]
  {
    var p := Want(Under(ctx, left, nots, lp), NoLeft, []);
    assert YieldCtx(p.ctx) + [] + [] == YieldCtx(p.ctx);
  }

  lemma WantStepYields(p: Parse, tok: Tok)
    requires p.Want? && GoodParse(p) && !ParseStep(p, tok).Fail?
    ensures GoodParse(ParseStep(p, tok)) && YieldParse(ParseStep(p, tok)) == YieldParse(p) + [tok]
  {
    var before := YieldCtx(p.ctx) + YieldLeft(p.left);
    match tok.op
    case Var =>
      AttachYields(p.left, p.nots, Leaf(tok));
      assert YieldTerm(Leaf(tok)) == [tok];
      hide YieldCtx, YieldLeft, Yield, YieldTerm, Attach, Negate, GoodExpr, GoodCtx, GoodLeft;
      assert YieldCtx(p.ctx) + (YieldLeft(p.left) + p.nots + [tok]) == before + p.nots + [tok];
    case Not =>
      hide YieldCtx, YieldLeft, GoodCtx, GoodLeft;
      assert before + (p.nots + [tok]) == before + p.nots + [tok];
    case LPar =>
      OpenYields(p.ctx, p.left, p.nots, tok);
      hide YieldCtx, YieldLeft, GoodCtx, GoodLeft;
  }

  lemma CloseYields(ctx: Ctx, e: Expr, rp: Tok)
    requires GoodCtx(ctx) && ctx.Under? && GoodExpr(e) && rp.op == RPar
    ensures
      var e' := Attach(ctx.left, Negate(ctx.nots, Par(ctx.lp, e, rp)));
      GoodExpr(e') && YieldCtx(ctx.up) + Yield(e') == YieldCtx(ctx) + Yield(e) + [rp]
  {
    AttachYields(ctx.left, ctx.nots, Par(ctx.lp, e, rp));
    var c, l, n, y := YieldCtx(ctx.up), YieldLeft(ctx.left), ctx.nots, Yield(e);
    assert c + (l + n + ([ctx.lp] + y + [rp])) == c + l + n + [ctx.lp] + y + [rp];
  }

  lemma HaveStepYields(p: Parse, tok: Tok)
    requires p.Have? && GoodParse(p) && !ParseStep(p, tok).Fail?
    ensures GoodParse(ParseStep(p, tok)) && YieldParse(ParseStep(p, tok)) == YieldParse(p) + [tok]
  {
    if tok.op == RPar {
      CloseYields(p.ctx, p.e, tok);
    } else {
      assert YieldCtx(p.ctx) + (Yield(p.e) + [tok]) + [] == YieldParse(p) + [tok];
    }
  }

  lemma StepYields(p: Parse, tok: Tok)
    requires GoodParse(p) && !ParseStep(p, tok).Fail?
    ensures !p.Fail? && GoodParse(ParseStep(p, tok)) && YieldParse(ParseStep(p, tok)) == YieldParse(p) + [tok]
  {
    if p.Want? { WantStepYields(p, tok); } else { HaveStepYields(p, tok); }
    hide YieldParse, GoodParse;
  }

  lemma {:induction false} ParseRunYields(p: Parse, toks: seq<Tok>)
    requires GoodParse(p) && !ParseRun(p, toks).Fail?
    ensures !p.Fail? && GoodParse(ParseRun(p, toks))
    ensures YieldParse(ParseRun(p, toks)) == YieldParse(p) + toks
    decreases |toks|
  {
    hide YieldParse, GoodParse, ParseStep;
    if toks == [] {
      assert YieldParse(p) + toks == YieldParse(p);
    } else {
      if ParseStep(p, toks[0]).Fail? {
        FailStays(toks[1..]);
      }
      StepYields(p, toks[0]);
      ParseRunYields(ParseStep(p, toks[0]), toks[1..]);
      assert YieldParse(p) + [toks[0]] + toks[1..] == YieldParse(p) + toks;
    }
  }

  lemma {:induction false} FailStays(toks: seq<Tok>)
    ensures ParseRun(Fail, toks).Fail?
    decreases |toks|
  {
    if toks != [] {
      FailStays(toks[1..]);
    }
  }

  /** The grammar is unambiguous, and the parser decides it. */
  lemma ParserIsExact(toks: seq<Tok>, e: Expr)
    ensures Derives(e, toks) <==> ParseRun(ParseStart(), toks) == Have(Top, e)
  {
    if Derives(e, toks) {
      ParsesExpr(Top, e);
    }
    if ParseRun(ParseStart(), toks) == Have(Top, e) {
      ParseRunYields(ParseStart(), toks);
      assert YieldCtx(Top) + Yield(e) == Yield(e);
      assert YieldParse(ParseStart()) + toks == toks;
    }
  }
}
