/**
 The array-based passes of lib/tst_bool_expr.c: the shunting yard with its two bounded arrays, the links it
 writes into the token buffer, and the evaluator that walks those links.
 */
module BoolExprYard {
  import opened Wrappers
  import opened BoolExpr
  import opened BoolExprExact
  import opened BoolExprEval
  import opened BoolExprTokens

  /** A `struct tst_expr_tok *`. */
  datatype Ptr = Null | To(tok: Tok)

  /** The pointers stored in the first slots of an array. */
  ghost predicate Holds(slots: seq<Ptr>, toks: seq<Tok>) {
    |toks| <= |slots| && forall i | 0 <= i < |toks| :: slots[i] == To(toks[i])
  }

  /** Following `next` from `start` visits exactly `order`, then meets NULL. */
  ghost predicate Chain(next: seq<Ptr>, start: Ptr, order: seq<Tok>)
    decreases |order|
  {
    if order == [] then start == Null
    else start == To(order[0]) && order[0].pos < |next| && Chain(next, next[order[0].pos], order[1..])
  }

  /** The token buffer: every token knows its own place. */
  ghost predicate Placed(toks: seq<Tok>) {
    forall i | 0 <= i < |toks| :: toks[i].pos == i
  }

  // ----- Stack loops -----

  /** `while (stack_peek_op(...) == TST_OP_NOT)` */
  method MoveNots(opStack: array<Tok>, sp: nat, out: array<Ptr>, n: nat, ghost outs: seq<Tok>)
    returns (sp': nat, n': nat, ghost outs': seq<Tok>)
    requires sp <= opStack.Length && sp + n < out.Length
    requires |outs| == n && Holds(out[..], outs)
    modifies out
    ensures sp' <= sp && n' == |outs'| && sp' + n' == sp + n && Holds(out[..], outs')
    ensures PopNots(opStack[..sp], outs) == (opStack[..sp'], outs')
  {
    sp', n', outs' := sp, n, outs;
    while sp' > 0 && opStack[sp' - 1].op == Not
      invariant sp' <= sp && n' == |outs'| && sp' + n' == sp + n && Holds(out[..], outs')
      invariant PopNots(opStack[..sp], outs) == PopNots(opStack[..sp'], outs')
    {
      assert opStack[..sp'][..sp' - 1] == opStack[..sp' - 1];
      out[n'] := To(opStack[sp' - 1]);
      outs' := outs' + [opStack[sp' - 1]];
      sp', n' := sp' - 1, n' + 1;
    }
  }

  /** `for (;;)`: pop everything till ( */
  method MoveToLPar(opStack: array<Tok>, sp: nat, out: array<Ptr>, n: nat, ghost outs: seq<Tok>)
    returns (found: bool, sp': nat, n': nat, ghost outs': seq<Tok>)
    requires sp <= opStack.Length && sp + n < out.Length
    requires |outs| == n && Holds(out[..], outs)
    modifies out
    ensures sp' <= sp && n' == |outs'| && sp' + n' <= sp + n && Holds(out[..], outs')
    ensures PopToLPar(opStack[..sp], outs) == if found then Some((opStack[..sp'], outs')) else None
  {
    found, sp', n', outs' := false, sp, n, outs;
    while sp' > 0
      invariant sp' <= sp && n' == |outs'| && sp' + n' == sp + n && Holds(out[..], outs')
      invariant PopToLPar(opStack[..sp], outs) == PopToLPar(opStack[..sp'], outs')
    {
      assert opStack[..sp'][..sp' - 1] == opStack[..sp' - 1];
      var op := opStack[sp' - 1];
      sp' := sp' - 1;
      if op.op == LPar {
        found := true;
        return;
      }
      out[n'] := To(op);
      outs' := outs' + [op];
      n' := n' + 1;
    }
  }

  /** `while ((i = stack_pop(...)))`: pop remaining operations */
  method MoveRest(opStack: array<Tok>, sp: nat, out: array<Ptr>, n: nat, ghost outs: seq<Tok>)
    returns (unclosed: Ptr, n': nat, ghost outs': seq<Tok>)
    requires sp <= opStack.Length && sp + n < out.Length
    requires |outs| == n && Holds(out[..], outs)
    modifies out
    ensures n' == |outs'| <= sp + n && Holds(out[..], outs')
    ensures
      PopRest(opStack[..sp], outs) ==
      if unclosed.To? then Bad(unclosed.tok, MissingRPar) else Yard([], outs', None)
  {
    var sp': nat := sp;
    unclosed, n', outs' := Null, n, outs;
    while sp' > 0
      invariant sp' <= sp && n' == |outs'| && sp' + n' == sp + n && Holds(out[..], outs')
      invariant PopRest(opStack[..sp], outs) == PopRest(opStack[..sp'], outs')
    {
      assert opStack[..sp'][..sp' - 1] == opStack[..sp' - 1];
      var op := opStack[sp' - 1];
      sp' := sp' - 1;
      if op.op == LPar {
        unclosed := To(op);
        return;
      }
      out[n'] := To(op);
      outs' := outs' + [op];
      n' := n' + 1;
    }
  }

  // ----- One token -----

  /** stack_push on the operation stack */
  method Push(opStack: array<Tok>, sp: nat, tok: Tok) returns (sp': nat)
    requires sp < opStack.Length
    modifies opStack
    ensures sp' == sp + 1 && opStack[..sp'] == old(opStack[..sp]) + [tok]
  {
    opStack[sp] := tok;
    sp' := sp + 1;
  }

  /** stack_push on the output */
  method Put(out: array<Ptr>, n: nat, tok: Tok, ghost outs: seq<Tok>) returns (n': nat)
    requires n < out.Length && |outs| == n && Holds(out[..], outs)
    modifies out
    ensures n' == n + 1 && Holds(out[..], outs + [tok])
  {
    out[n] := To(tok);
    n' := n + 1;
  }

  /** The `switch` on the token's operation; `fault` is the error label's message, if it is reached. */
  method Shunt(tok: Tok, opStack: array<Tok>, sp: nat, out: array<Ptr>, n: nat, prev: Option<Op>, ghost outs: seq<Tok>)
    returns (fault: Option<Fault>, sp': nat, n': nat, ghost outs': seq<Tok>)
    requires opStack.Length + 1 == out.Length && sp + n < opStack.Length
    requires |outs| == n && Holds(out[..], outs)
    modifies opStack, out
    ensures sp' <= opStack.Length && n' == |outs'| && sp' + n' <= sp + n + 1 && Holds(out[..], outs')
    ensures
      YardStep(Yard(old(opStack[..sp]), outs, prev), tok) ==
      if fault.Some? then Bad(tok, fault.value) else Yard(opStack[..sp'], outs', Some(tok.op))
  {
    hide PopNots, PopToLPar, Holds;
    fault, sp', n', outs' := None, sp, n, outs;
    match tok.op {
      case Var =>
        if !MayOpen(prev) { fault := Some(ExpectedOperation); return; }
        n' := Put(out, n, tok, outs);
        sp', n', outs' := MoveNots(opStack, sp, out, n', outs + [tok]);
      case LPar =>
        if !MayOpen(prev) { fault := Some(ExpectedOperation); return; }
        sp' := Push(opStack, sp, tok);
      case RPar =>
        if !MayClose(prev) { fault := Some(ExpectedVarOrRPar); return; }
        var found;
        found, sp', n', outs' := MoveToLPar(opStack, sp, out, n, outs);
        if !found { fault := Some(MissingLPar); return; }
        sp', n', outs' := MoveNots(opStack, sp', out, n', outs');
      case Not =>
        if !MayOpen(prev) { fault := Some(ExpectedOperation); return; }
        sp' := Push(opStack, sp, tok);
      case _ =>
        if !MayClose(prev) { fault := Some(ExpectedVarOrLPar); return; }
        if sp > 0 && Binary(opStack[sp - 1].op) {
          outs' := outs + [opStack[sp - 1]];
          n' := Put(out, n, opStack[sp - 1], outs);
          assert opStack[..sp][..sp - 1] == opStack[..sp - 1];
          sp' := Push(opStack, sp - 1, tok);
        } else {
          sp' := Push(opStack, sp, tok);
        }
    }
  }

  // ----- The output holds no token twice, so the links do not collide -----

  ghost predicate Distinct(s: seq<Tok>) {
    forall i, j | 0 <= i < j < |s| :: s[i].pos != s[j].pos
  }

  lemma {:induction false} NonParensKeepsCounts(toks: seq<Tok>, x: Tok)
    ensures multiset(NonParens(toks))[x] <= multiset(toks)[x]
    decreases |toks|
  {
    if toks != [] {
      NonParensKeepsCounts(toks[1..], x);
      assert toks == [toks[0]] + toks[1..];
    }
  }

  lemma {:induction false} PlacedCountsOnce(toks: seq<Tok>, x: Tok)
    requires Placed(toks)
    ensures multiset(toks)[x] <= 1
    decreases |toks|
  {
    if toks != [] {
      var front, last := toks[..|toks| - 1], toks[|toks| - 1];
      PlacedCountsOnce(front, x);
      assert toks == front + [last];
      if x == last {
        assert x !in front;
      }
    }
  }

  lemma TwiceCounts(s: seq<Tok>, i: nat, j: nat)
    requires i < j < |s| && s[i] == s[j]
    ensures multiset(s)[s[i]] >= 2
  {
    assert s == s[..j] + [s[j]] + s[j + 1..];
    assert s[i] in s[..j];
  }

  lemma PostIsDistinct(e: Expr, toks: seq<Tok>)
    requires Derives(e, toks) && Placed(toks)
    ensures Distinct(Post(e)) && forall i | 0 <= i < |Post(e)| :: Post(e)[i].pos < |toks|
  {
    PostRearranges(e);
    var p := Post(e);
    hide Post, Yield, GoodExpr, NonParens;
    forall i | 0 <= i < |p| ensures p[i] in toks {
      InToks(p, toks, i);
    }
    forall i, j | 0 <= i < j < |p| ensures p[i].pos != p[j].pos {
      if p[i].pos == p[j].pos {
        assert p[i] == p[j];
        TwiceCounts(p, i, j);
        NonParensKeepsCounts(toks, p[i]);
        PlacedCountsOnce(toks, p[i]);
      }
    }
  }

  lemma InToks(p: seq<Tok>, toks: seq<Tok>, i: nat)
    requires multiset(p) == multiset(NonParens(toks)) && i < |p|
    ensures p[i] in toks
  {
    assert p[i] in multiset(p);
    NonParensKeepsCounts(toks, p[i]);
    assert p[i] in multiset(toks);
    hide NonParens;
  }

  /** What follows the i-th token of a list. */
  function Successor(order: seq<Tok>, i: nat): Ptr {
    if i + 1 < |order| then To(order[i + 1]) else Null
  }

  ghost predicate Linked(next: seq<Ptr>, order: seq<Tok>, upTo: nat) {
    && (forall i | 0 <= i < |order| :: order[i].pos < |next|)
    && forall i | 0 <= i < upTo && i < |order| :: next[order[i].pos] == Successor(order, i)
  }

  lemma NoLinks(next: seq<Ptr>, order: seq<Tok>)
    requires forall i | 0 <= i < |order| :: order[i].pos < |next|
    ensures Linked(next, order, 0)
  {
  }

  lemma LinkOne(next: seq<Ptr>, order: seq<Tok>, j: nat)
    requires j < |order| && Linked(next, order, j) && Distinct(order)
    ensures order[j].pos < |next| && Linked(next[order[j].pos := Successor(order, j)], order, j + 1)
  {
    hide Successor;
    var next' := next[order[j].pos := Successor(order, j)];
    forall i | 0 <= i < j + 1 && i < |order| ensures next'[order[i].pos] == Successor(order, i) {
      if i < j {
        assert order[i].pos != order[j].pos;
      }
    }
  }

  lemma {:induction false} LinkedIsChain(next: seq<Ptr>, order: seq<Tok>, k: nat)
    requires k <= |order| && Linked(next, order, |order|)
    ensures Chain(next, if k < |order| then To(order[k]) else Null, order[k..])
    decreases |order| - k
  {
    if k < |order| {
      LinkedIsChain(next, order, k + 1);
      assert order[k..][1..] == order[k + 1..];
    }
  }

  lemma {:induction false} YardRunConcat(y: Yard, a: seq<Tok>, b: seq<Tok>)
    ensures YardRun(y, a + b) == YardRun(YardRun(y, a), b)
    decreases |a|
  {
    if a == [] {
      assert a + b == b;
    } else {
      assert (a + b)[1..] == a[1..] + b;
      YardRunConcat(YardStep(y, a[0]), a[1..], b);
    }
  }

  lemma {:induction false} BadStays(y: Yard, toks: seq<Tok>)
    requires y.Bad?
    ensures YardRun(y, toks) == y
    decreases |toks|
  {
    if toks != [] {
      BadStays(y, toks[1..]);
    }
  }

  /** The `switch` of the evaluator; `ok` is false on the two early returns of -1. */
  method EvalTok(stack: array<int>, pos: int, tok: Tok, map_: Tok -> int) returns (ok: bool, pos': int)
    requires stack.Length == MAX_STACK && -1 <= pos < MAX_STACK
    requires !EvalStep(Machine(stack[..pos + 1]), tok, map_).Underflow?
    modifies stack
    ensures -1 <= pos' < MAX_STACK
    ensures EvalStep(Machine(old(stack[..pos + 1])), tok, map_) == if ok then Machine(stack[..pos' + 1]) else Abort
  {
    ok, pos' := true, pos;
    match tok.op {
      case Not =>
        stack[pos] := if stack[pos] == 0 then 1 else 0;
      case Or =>
        stack[pos - 1] := if stack[pos] != 0 || stack[pos - 1] != 0 then 1 else 0;
        pos' := pos - 1;
      case And =>
        stack[pos - 1] := if stack[pos] != 0 && stack[pos - 1] != 0 then 1 else 0;
        pos' := pos - 1;
      case Var =>
        if pos + 1 >= MAX_STACK {
          ok := false;
          return;
        }
        pos' := pos + 1;
        stack[pos'] := map_(tok);
        ok := stack[pos'] != -1;
      case _ =>
    }
  }

  /** A parsed expression: the token buffer, the `next` field of each token, and the head of the list. */
  class Expression {
    const buf: seq<Tok>
    const next: array<Ptr>
    var rpn: Ptr

    constructor (toks: seq<Tok>)
      ensures buf == toks && next.Length == |toks| && fresh(next)
    {
      buf := toks;
      next := new Ptr[|toks|](_ => Null);
      rpn := Null;
    }

    ghost predicate Valid() {
      Placed(buf) && next.Length == |buf|
    }

    /** Runs the yard over the buffer, up to the popping of the remaining operations. */
    method FillOutput(
        opStack: array<Tok>, out: array<Ptr>)
        returns (bad: Option<(Tok, Fault)>, n: nat, ghost outs: seq<Tok>)
      requires Valid() && buf != []
      requires opStack.Length == |buf| && out.Length == |buf| + 1
      modifies opStack, out
      ensures bad.Some? ==> ShuntingYard(buf) == Rejected(bad.value.0, bad.value.1)
      ensures bad.None? ==> ShuntingYard(buf) == Accepted(outs) && n == |outs| <= |buf| && Holds(out[..], outs)
    {
      var sp: nat, prev := 0, None;
      n, outs, bad := 0, [], None;
      for i := 0 to |buf|
        invariant sp + n <= i && n == |outs| && Holds(out[..], outs)
        invariant i > 0 ==> prev == Some(buf[i - 1].op)
        invariant YardRun(YardStart(), buf) == YardRun(Yard(opStack[..sp], outs, prev), buf[i..])
      {
        ghost var y := Yard(opStack[..sp], outs, prev);
        assert buf[i..][1..] == buf[i + 1..];
        var fault;
        fault, sp, n, outs := Shunt(buf[i], opStack, sp, out, n, prev, outs);
        if fault.Some? {
          bad := Some((buf[i], fault.value));
          BadStays(YardStep(y, buf[i]), buf[i + 1..]);
          return;
        }
        prev := Some(buf[i].op);
      }
      if !MayClose(Some(buf[|buf| - 1].op)) {
        bad := Some((buf[|buf| - 1], Unfinished));
        return;
      }
      var unclosed;
      unclosed, n, outs := MoveRest(opStack, sp, out, n, outs);
      if unclosed.To? {
        bad := Some((unclosed.tok, MissingRPar));
      }
    }

    /**
     shunting_yard: succeeds exactly on the token lists the grammar derives, within arrays of |buf| and
     |buf| + 1 slots, and then leaves in the buffer a list that visits the post-order of the derivation.
     */
    method ShuntingYardPass() returns (bad: Option<(Tok, Fault)>)
      requires Valid() && buf != []
      modifies this, next
      ensures Valid()
      ensures bad.None? <==> exists e :: Derives(e, buf)
      ensures forall e | Derives(e, buf) :: Chain(next[..], rpn, Post(e))
      ensures bad.Some? ==> ShuntingYard(buf) == Rejected(bad.value.0, bad.value.1) && rpn == old(rpn)
    {
      ShuntingYardIsExact(buf);
      var opStack := new Tok[|buf|](_ => buf[0]);
      var out := new Ptr[|buf| + 1](_ => Null);
      var n;
      ghost var outs;
      hide Derives, ShuntingYard, Post;
      bad, n, outs := FillOutput(opStack, out);
      if bad.Some? {
        return;
      }
      ghost var e :| Derives(e, buf);
      PostIsDistinct(e, buf);
      out[n] := Null;
      Link(out, n, outs);
      rpn := out[0];
    }

    /** The last loop of shunting_yard: the output array becomes a list through the buffer. */
    method Link(out: array<Ptr>, n: nat, ghost outs: seq<Tok>)
      requires |outs| == n < out.Length && Holds(out[..], outs) && out[n] == Null && out != next
      requires Distinct(outs) && forall i | 0 <= i < n :: outs[i].pos < next.Length
      modifies next
      ensures Chain(next[..], out[0], outs)
    {
      hide Linked, Distinct, Chain;
      NoLinks(next[..], outs);
      for j := 0 to n
        invariant Linked(next[..], outs, j)
      {
        ghost var linked := next[..][outs[j].pos := Successor(outs, j)];
        LinkOne(next[..], outs, j);
        assert out[j] == To(outs[j]) && out[j + 1] == Successor(outs, j) by {
          assert forall k | 0 <= k < out.Length :: out[k] == out[..][k];
        }
        next[out[j].tok.pos] := out[j + 1];
        assert next[..] == linked;
      }
      LinkedIsChain(next[..], outs, 0);
      assert outs[0..] == outs;
      assert out[0] == if 0 < n then To(outs[0]) else Null by {
        assert out[0] == out[..][0];
      }
    }

    /**
     tst_bool_expr_eval: 1 or 0, the value of the expression, or -1 exactly when a variable is undefined or
     the expression needs more than the 16 slots.
     */
    method Eval(map_: Tok -> int, ghost e: Expr) returns (r: int)
      requires Valid() && GoodExpr(e) && Chain(next[..], rpn, Post(e))
      ensures r == if Defined(e, map_) && Need(e) <= MAX_STACK then Value(e, map_) else -1
      ensures TruthMap(map_) ==> (r == -1 <==> !Defined(e, map_) || Need(e) > MAX_STACK)
    {
      EvaluationPreservesMeaning(e, map_);
      ValueIsBit(e, map_);
      var stack := new int[MAX_STACK](_ => 0);
      var pos := -1;
      var i := rpn;
      ghost var rest := Post(e);
      while i.To?
        invariant -1 <= pos < MAX_STACK
        invariant Chain(next[..], i, rest)
        invariant EvalRun(Machine([]), Post(e), map_) == EvalRun(Machine(stack[..pos + 1]), rest, map_)
        decreases |rest|
      {
        ghost var after := EvalStep(Machine(stack[..pos + 1]), i.tok, map_);
        if !after.Machine? {
          StuckStays(after, rest[1..], map_);
        }
        var ok;
        ok, pos := EvalTok(stack, pos, i.tok, map_);
        if !ok {
          return -1;
        }
        rest := rest[1..];
        i := next[i.tok.pos];
      }
      r := stack[0];
    }
  }

  lemma EmptyIsNotDerived(e: Expr)
    ensures Yield(e) != []
  {
    if e.One? {
      TermIsNotEmpty(e.t);
    }
  }

  lemma TermIsNotEmpty(t: Term)
    ensures YieldTerm(t) != []
  {
  }

  /**
   tst_bool_expr_parse: an expression is returned exactly for the strings whose token list the grammar
   derives, and its list visits the post-order of the derivation.
   */
  method Parse(expr: string) returns (r: Expression?)
    ensures r != null <==> exists e :: Derives(e, TokensOf(expr))
    ensures r != null ==> r.buf == TokensOf(expr) && r.Valid()
    ensures r != null ==> forall e | Derives(e, TokensOf(expr)) :: Chain(r.next[..], r.rpn, Post(e))
  {
    var n := Tokenize(expr, null);
    if n == 0 {
      forall e ensures !Derives(e, TokensOf(expr)) { EmptyIsNotDerived(e); }
      return null;
    }
    var buf := new Tok[n](_ => Tok(Var, "", 0));
    var _ := Tokenize(expr, buf);
    r := new Expression(buf[..]);
    assert buf[..] == TokensOf(expr);
    var bad := r.ShuntingYardPass();
    if bad.Some? {
      r := null;
    }
  }

  /**
   Parse, then evaluate: from the text of an expression to its value. There is a result exactly for the strings
   that the grammar derives, and it is the value of the derivation, or -1 when a variable is undefined or the
   expression needs more than the 16 slots.
   */
  method ValueOfText(expr: string, map_: Tok -> int) returns (r: Option<int>)
    ensures r.Some? <==> exists e :: Derives(e, TokensOf(expr))
    ensures
      forall e | Derives(e, TokensOf(expr)) ::
        r == Some(if Defined(e, map_) && Need(e) <= MAX_STACK then Value(e, map_) else -1)
  {
    var parsed := Parse(expr);
    if parsed == null {
      return None;
    }
    ghost var e :| Derives(e, TokensOf(expr));
    hide Need, Value, Defined, Yield, Post, Chain;
    var v := parsed.Eval(map_, e);
    forall e' | Derives(e', TokensOf(expr)) ensures e' == e {
      Unambiguous(e, e');
    }
    r := Some(v);
  }
}
