/**
 The shunting-yard pass is exact: it accepts precisely the token lists of the grammar, and its output is
 the post-order of the tree. The proof follows the tree-building parser step by step: the operator stack
 and the output are functions of the parser's state.
 */
module BoolExprExact {
  import opened Wrappers
  import opened BoolExpr

  // ----- The yard's state as a function of the parser's -----

  function StackLeft(left: Left): seq<Tok> {
    if left.NoLeft? then [] else [left.op]
  }

  function StackCtx(ctx: Ctx): seq<Tok> {
    if ctx.Top? then [] else StackCtx(ctx.up) + StackLeft(ctx.left) + ctx.nots + [ctx.lp]
  }

  /** The last binary operation of a level stays on the stack until the level ends or another one comes. */
  function Pending(e: Expr): seq<Tok> {
    if e.One? then [] else [e.op]
  }

  function StackOf(p: Parse): seq<Tok>
    requires !p.Fail?
  {
    if p.Want? then StackCtx(p.ctx) + StackLeft(p.left) + p.nots else StackCtx(p.ctx) + Pending(p.e)
  }

  function OutLeft(left: Left): seq<Tok> {
    if left.NoLeft? then [] else Post(left.e)
  }

  function OutCtx(ctx: Ctx): seq<Tok> {
    if ctx.Top? then [] else OutCtx(ctx.up) + OutLeft(ctx.left)
  }

  function OutOpen(e: Expr): seq<Tok> {
    if e.One? then PostTerm(e.t) else Post(e.l) + PostTerm(e.r)
  }

  function OutOf(p: Parse): seq<Tok>
    requires !p.Fail?
  {
    if p.Want? then OutCtx(p.ctx) + OutLeft(p.left) else OutCtx(p.ctx) + OutOpen(p.e)
  }

  ghost predicate Mirrors(y: Yard, p: Parse) {
    if p.Fail? then y.Bad?
    else
      && y.Yard? && GoodParse(p) && y.stack == StackOf(p) && y.out == OutOf(p)
      && (p.Want? ==> MayOpen(y.prev)) && (p.Have? ==> MayClose(y.prev))
  }

  // ----- Popping -----

  function Reversed(s: seq<Tok>): seq<Tok> {
    if s == [] then [] else Reversed(s[1..]) + [s[0]]
  }

  lemma {:induction false} PopNotsPops(base: seq<Tok>, nots: seq<Tok>, out: seq<Tok>)
    requires AllNots(nots) && PeekOp(base) != Some(Not)
    ensures PopNots(base + nots, out) == (base, out + Reversed(nots))
    decreases |nots|
  {
    if nots == [] {
      assert base + nots == base && out + Reversed(nots) == out;
    } else {
      var n, front := nots[|nots| - 1], nots[..|nots| - 1];
      assert (base + nots)[..|base + nots| - 1] == base + front;
      PopNotsPops(base, front, out + [n]);
      ReversedSnoc(front, n);
      assert nots == front + [n];
      assert out + [n] + Reversed(front) == out + ([n] + Reversed(front));
    }
  }

  lemma {:induction false} ReversedSnoc(s: seq<Tok>, x: Tok)
    ensures Reversed(s + [x]) == [x] + Reversed(s)
    decreases |s|
  {
    if s != [] {
      assert (s + [x])[1..] == s[1..] + [x];
      ReversedSnoc(s[1..], x);
    } else {
      assert [x][1..] == [] && s + [x] == [x];
    }
  }

  lemma {:induction false} NegatePosts(nots: seq<Tok>, t: Term)
    ensures PostTerm(Negate(nots, t)) == PostTerm(t) + Reversed(nots)
    decreases |nots|
  {
    if nots == [] {
      assert PostTerm(t) + [] == PostTerm(t);
    } else {
      NegatePosts(nots[1..], t);
    }
  }

  lemma PostIsOpenThenPending(e: Expr)
    ensures Post(e) == OutOpen(e) + Pending(e)
  {
  }

  lemma BaseHasNoNot(ctx: Ctx, left: Left)
    requires GoodCtx(ctx) && GoodLeft(left)
    ensures PeekOp(StackCtx(ctx) + StackLeft(left)) != Some(Not)
  {
    if left.NoLeft? {
      assert StackCtx(ctx) + StackLeft(left) == StackCtx(ctx);
    }
  }

  lemma AttachShape(left: Left, t: Term)
    ensures Pending(Attach(left, t)) == StackLeft(left)
    ensures OutOpen(Attach(left, t)) == OutLeft(left) + PostTerm(t)
  {
  }

  /** Once an operand is complete its negations follow it into the output. */
  lemma OperandMirrors(ctx: Ctx, left: Left, nots: seq<Tok>, t: Term, out: seq<Tok>)
    requires GoodCtx(ctx) && GoodLeft(left) && AllNots(nots)
    requires out == OutCtx(ctx) + OutLeft(left) + PostTerm(t)
    ensures
      var e := Attach(left, Negate(nots, t));
      PopNots(StackCtx(ctx) + StackLeft(left) + nots, out) == (StackCtx(ctx) + Pending(e), OutCtx(ctx) + OutOpen(e))
  {
    BaseHasNoNot(ctx, left);
    PopNotsPops(StackCtx(ctx) + StackLeft(left), nots, out);
    NegatePosts(nots, t);
    AttachShape(left, Negate(nots, t));
    Regroup(OutCtx(ctx), OutLeft(left), PostTerm(t), Reversed(nots));
  }

  lemma Regroup(a: seq<Tok>, b: seq<Tok>, c: seq<Tok>, d: seq<Tok>)
    ensures a + b + c + d == a + (b + (c + d))
  {
  }

  /** The pending operation of a level, if any, is on top and no parenthesis. */
  lemma PendingPops(base: seq<Tok>, before: seq<Tok>, e: Expr)
    requires GoodExpr(e)
    ensures PopToLPar(base + Pending(e), before + OutOpen(e)) == PopToLPar(base, before + Post(e))
    ensures PopRest(base + Pending(e), before + OutOpen(e)) == PopRest(base, before + Post(e))
  {
    PostIsOpenThenPending(e);
    var stack, out := base + Pending(e), before + OutOpen(e);
    if e.One? {
      assert stack == base && out == before + Post(e);
    } else {
      assert stack[..|stack| - 1] == base && stack[|stack| - 1] == e.op;
      assert out + [e.op] == before + (OutOpen(e) + Pending(e));
    }
  }

  /** A ) releases the pending operation and removes the matching (, or finds none at the outermost level. */
  lemma CloseMirrors(ctx: Ctx, e: Expr)
    requires GoodCtx(ctx) && GoodExpr(e)
    ensures
      PopToLPar(StackCtx(ctx) + Pending(e), OutCtx(ctx) + OutOpen(e)) ==
      if ctx.Top? then None
      else Some((StackCtx(ctx.up) + StackLeft(ctx.left) + ctx.nots, OutCtx(ctx) + Post(e)))
  {
    PendingPops(StackCtx(ctx), OutCtx(ctx), e);
    if ctx.Under? {
      LParPops(StackCtx(ctx.up) + StackLeft(ctx.left) + ctx.nots, ctx.lp, OutCtx(ctx) + Post(e));
    }
  }

  lemma LParPops(base: seq<Tok>, lp: Tok, out: seq<Tok>)
    requires lp.op == LPar
    ensures PopToLPar(base + [lp], out) == Some((base, out))
    ensures PopRest(base + [lp], out) == Bad(lp, MissingRPar)
  {
    assert (base + [lp])[..|base|] == base;
  }

  // ----- One step, a run, the end -----

  lemma WantStepMirrors(y: Yard, p: Parse, tok: Tok)
    requires p.Want? && Mirrors(y, p)
    ensures Mirrors(YardStep(y, tok), ParseStep(p, tok))
  {
    match tok.op
    case Var =>
      AttachYields(p.left, p.nots, Leaf(tok));
      OperandMirrors(p.ctx, p.left, p.nots, Leaf(tok), y.out + [tok]);
    case Not =>
      assert y.stack + [tok] == StackCtx(p.ctx) + StackLeft(p.left) + (p.nots + [tok]);
    case LPar =>
      var ctx' := Under(p.ctx, p.left, p.nots, tok);
      assert StackCtx(ctx') + [] + [] == y.stack + [tok];
      assert OutCtx(ctx') + [] == y.out;
    case _ =>
  }

  lemma BinaryStepMirrors(y: Yard, p: Parse, tok: Tok)
    requires p.Have? && Mirrors(y, p) && Binary(tok.op)
    ensures Mirrors(YardStep(y, tok), ParseStep(p, tok))
  {
    PostIsOpenThenPending(p.e);
    if p.e.One? {
      assert y.stack == StackCtx(p.ctx);
      assert y.stack + [tok] == StackCtx(p.ctx) + [tok] + [];
    } else {
      assert y.stack[..|y.stack| - 1] == StackCtx(p.ctx);
      assert StackCtx(p.ctx) + [tok] == StackCtx(p.ctx) + [tok] + [];
      assert y.out + [p.e.op] == OutCtx(p.ctx) + (OutOpen(p.e) + Pending(p.e));
    }
  }

  lemma ParPosts(ctx: Ctx, e: Expr, rp: Tok)
    requires ctx.Under?
    ensures PostTerm(Par(ctx.lp, e, rp)) == Post(e)
  {
  }

  lemma CloseStepMirrors(y: Yard, p: Parse, tok: Tok)
    requires p.Have? && Mirrors(y, p) && tok.op == RPar
    ensures Mirrors(YardStep(y, tok), ParseStep(p, tok))
  {
    hide Yield, Post, Attach, Negate, Pending, OutOpen, PopNots, PopToLPar;
    CloseMirrors(p.ctx, p.e);
    if p.ctx.Under? {
      ParPosts(p.ctx, p.e, tok);
      CloseYields(p.ctx, p.e, tok);
      OperandMirrors(p.ctx.up, p.ctx.left, p.ctx.nots, Par(p.ctx.lp, p.e, tok), OutCtx(p.ctx) + Post(p.e));
    }
  }

  lemma StepMirrors(y: Yard, p: Parse, tok: Tok)
    requires Mirrors(y, p)
    ensures Mirrors(YardStep(y, tok), ParseStep(p, tok))
  {
    if p.Want? {
      WantStepMirrors(y, p, tok);
    } else if p.Have? {
      if Binary(tok.op) {
        BinaryStepMirrors(y, p, tok);
      } else if tok.op == RPar {
        CloseStepMirrors(y, p, tok);
      }
    }
  }

  lemma {:induction false} RunMirrors(y: Yard, p: Parse, toks: seq<Tok>)
    requires Mirrors(y, p)
    ensures Mirrors(YardRun(y, toks), ParseRun(p, toks))
    decreases |toks|
  {
    if toks != [] {
      StepMirrors(y, p, toks[0]);
      RunMirrors(YardStep(y, toks[0]), ParseStep(p, toks[0]), toks[1..]);
    }
  }

  lemma {:induction false} RunRemembersLast(y: Yard, toks: seq<Tok>)
    requires toks != []
    ensures
      var y' := YardRun(y, toks);
      y'.Yard? ==> y'.prev == Some(toks[|toks| - 1].op)
    decreases |toks|
  {
    var y1 := YardStep(y, toks[0]);
    if |toks| > 1 {
      RunRemembersLast(y1, toks[1..]);
    }
  }

  lemma RestMirrors(ctx: Ctx, e: Expr)
    requires GoodCtx(ctx) && GoodExpr(e)
    ensures
      var end := PopRest(StackCtx(ctx) + Pending(e), OutCtx(ctx) + OutOpen(e));
      if ctx.Top? then end == Yard([], Post(e), None) else end == Bad(ctx.lp, MissingRPar)
  {
    PendingPops(StackCtx(ctx), OutCtx(ctx), e);
    if ctx.Top? {
      assert OutCtx(ctx) + Post(e) == Post(e);
    } else {
      LParPops(StackCtx(ctx.up) + StackLeft(ctx.left) + ctx.nots, ctx.lp, OutCtx(ctx) + Post(e));
    }
  }

  /** What the pass answers, in terms of the parser. */
  lemma YardFollowsParser(toks: seq<Tok>)
    requires toks != []
    ensures
      var p := ParseRun(ParseStart(), toks);
      if p.Have? && p.ctx.Top? then GoodExpr(p.e) && ShuntingYard(toks) == Accepted(Post(p.e))
      else ShuntingYard(toks).Rejected?
  {
    RunMirrors(YardStart(), ParseStart(), toks);
    RunRemembersLast(YardStart(), toks);
    var p := ParseRun(ParseStart(), toks);
    if p.Have? {
      RestMirrors(p.ctx, p.e);
    }
  }

  /**
   Exactness. The pass accepts a token list if and only if the grammar derives it, and what it then
   returns is the post-order of the (only) derivation.
   */
  lemma ShuntingYardIsExact(toks: seq<Tok>)
    requires toks != []
    ensures ShuntingYard(toks).Accepted? <==> exists e :: Derives(e, toks)
    ensures forall e :: Derives(e, toks) ==> ShuntingYard(toks) == Accepted(Post(e))
  {
    YardFollowsParser(toks);
    var p := ParseRun(ParseStart(), toks);
    forall e ensures Derives(e, toks) <==> p == Have(Top, e) {
      ParserIsExact(toks, e);
    }
    if p.Have? && p.ctx.Top? {
      assert Derives(p.e, toks);
    }
  }

  lemma Unambiguous(e: Expr, e': Expr)
    requires GoodExpr(e) && GoodExpr(e') && Yield(e) == Yield(e')
    ensures e == e'
  {
    ParserIsExact(Yield(e), e);
    ParserIsExact(Yield(e), e');
  }

  // ----- Every operand and operator exactly once -----

  predicate Paren(op: Op) {
    op == LPar || op == RPar
  }

  function NonParens(toks: seq<Tok>): seq<Tok> {
    if toks == [] then []
    else (if Paren(toks[0].op) then [] else [toks[0]]) + NonParens(toks[1..])
  }

  lemma {:induction false} NonParensConcat(a: seq<Tok>, b: seq<Tok>)
    ensures NonParens(a + b) == NonParens(a) + NonParens(b)
    decreases |a|
  {
    if a == [] {
      assert a + b == b && [] + NonParens(b) == NonParens(b);
    } else {
      assert (a + b)[1..] == a[1..] + b;
      NonParensConcat(a[1..], b);
    }
  }

  lemma NonParensOne(t: Tok)
    ensures NonParens([t]) == if Paren(t.op) then [] else [t]
  {
    assert [t][1..] == [];
  }

  lemma NonParensAfter(n: Tok, toks: seq<Tok>)
    requires !Paren(n.op)
    ensures multiset(NonParens([n] + toks)) == multiset{n} + multiset(NonParens(toks))
  {
    NonParensConcat([n], toks);
    NonParensOne(n);
  }

  lemma NonParensWithin(lp: Tok, toks: seq<Tok>, rp: Tok)
    requires Paren(lp.op) && Paren(rp.op)
    ensures NonParens([lp] + toks + [rp]) == NonParens(toks)
  {
    NonParensConcat([lp] + toks, [rp]);
    NonParensConcat([lp], toks);
    NonParensOne(lp);
    NonParensOne(rp);
  }

  /** The output is a rearrangement of the tokens other than parentheses. */
  lemma {:induction false} PostRearranges(e: Expr)
    requires GoodExpr(e)
    ensures multiset(Post(e)) == multiset(NonParens(Yield(e)))
    decreases e
  {
    match e
    case One(t) => PostTermRearranges(t);
    case Bin(l, op, r) =>
      PostRearranges(l);
      PostTermRearranges(r);
      NonParensConcat(Yield(l) + [op], YieldTerm(r));
      NonParensConcat(Yield(l), [op]);
      NonParensOne(op);
  }

  lemma {:induction false} PostTermRearranges(t: Term)
    requires GoodTerm(t)
    ensures multiset(PostTerm(t)) == multiset(NonParens(YieldTerm(t)))
    decreases t
  {
    match t
    case Leaf(v) => NonParensOne(v);
    case Neg(n, t1) =>
      hide NonParens;
      PostTermRearranges(t1);
      NonParensAfter(n, YieldTerm(t1));
      assert PostTerm(t) == PostTerm(t1) + [n];
    case Par(lp, e, rp) =>
      hide NonParens;
      PostRearranges(e);
      NonParensWithin(lp, Yield(e), rp);
  }
}
