/**
 Evaluation of the postfix form: the 16-slot stack machine of tst_bool_expr_eval, on sequences. The
 machine's answer is related to the value of the source tree, and its stack use to parenthesis nesting.
 */
module BoolExprEval {
  import opened BoolExpr

  const MAX_STACK := 16

  /** What `map` may answer for a variable: its truth value, or -1 for an undefined one. */
  ghost predicate TruthMap(map_: Tok -> int) {
    forall v :: -1 <= map_(v) <= 1
  }

  // ----- Meaning of a tree -----

  function Bit(b: bool): int {
    if b then 1 else 0
  }

  function Value(e: Expr, map_: Tok -> int): int {
    match e
    case One(t) => ValueTerm(t, map_)
    case Bin(l, op, r) =>
      var x, y := Value(l, map_) != 0, ValueTerm(r, map_) != 0;
      Bit(if op.op == And then x && y else x || y)
  }

  function ValueTerm(t: Term, map_: Tok -> int): int {
    match t
    case Leaf(v) => map_(v)
    case Neg(_, t) => Bit(ValueTerm(t, map_) == 0)
    case Par(_, e, _) => Value(e, map_)
  }

  lemma {:induction false} ValueIsBit(e: Expr, map_: Tok -> int)
    ensures TruthMap(map_) && Defined(e, map_) ==> 0 <= Value(e, map_) <= 1
    decreases e
  {
    match e
    case One(t) => ValueTermIsBit(t, map_);
    case Bin(_, _, _) =>
  }

  lemma {:induction false} ValueTermIsBit(t: Term, map_: Tok -> int)
    ensures TruthMap(map_) && DefinedTerm(t, map_) ==> 0 <= ValueTerm(t, map_) <= 1
    decreases t
  {
    match t
    case Leaf(v) =>
    case Neg(_, _) =>
    case Par(_, e, _) => ValueIsBit(e, map_);
  }

  predicate Defined(e: Expr, map_: Tok -> int) {
    match e
    case One(t) => DefinedTerm(t, map_)
    case Bin(l, _, r) => Defined(l, map_) && DefinedTerm(r, map_)
  }

  predicate DefinedTerm(t: Term, map_: Tok -> int) {
    match t
    case Leaf(v) => map_(v) != -1
    case Neg(_, t) => DefinedTerm(t, map_)
    case Par(_, e, _) => Defined(e, map_)
  }

  // ----- The stack machine -----

  datatype Machine = Machine(stack: seq<int>) | Abort | Underflow

  function EvalStep(m: Machine, tok: Tok, map_: Tok -> int): Machine {
    if !m.Machine? then m
    else
      var pos := |m.stack| - 1;
      match tok.op
      case Not =>
        if pos < 0 then Underflow else Machine(m.stack[pos := Bit(m.stack[pos] == 0)])
      case Or =>
        if pos < 1 then Underflow
        else Machine(m.stack[..pos - 1] + [Bit(m.stack[pos] != 0 || m.stack[pos - 1] != 0)])
      case And =>
        if pos < 1 then Underflow
        else Machine(m.stack[..pos - 1] + [Bit(m.stack[pos] != 0 && m.stack[pos - 1] != 0)])
      case Var =>
        if pos + 1 >= MAX_STACK || map_(tok) == -1 then Abort else Machine(m.stack + [map_(tok)])
      case _ => m
  }

  function EvalRun(m: Machine, rpn: seq<Tok>, map_: Tok -> int): Machine
    decreases |rpn|
  {
    if rpn == [] then m else EvalRun(EvalStep(m, rpn[0], map_), rpn[1..], map_)
  }

  lemma {:induction false} EvalRunConcat(m: Machine, a: seq<Tok>, b: seq<Tok>, map_: Tok -> int)
    ensures EvalRun(m, a + b, map_) == EvalRun(EvalRun(m, a, map_), b, map_)
    decreases |a|
  {
    if a == [] {
      assert a + b == b;
    } else {
      assert (a + b)[1..] == a[1..] + b;
      EvalRunConcat(EvalStep(m, a[0], map_), a[1..], b, map_);
    }
  }

  lemma EvalRunOne(m: Machine, tok: Tok, map_: Tok -> int)
    ensures EvalRun(m, [tok], map_) == EvalStep(m, tok, map_)
  {
    assert [tok][1..] == [];
  }

  lemma {:induction false} StuckStays(m: Machine, rpn: seq<Tok>, map_: Tok -> int)
    requires !m.Machine?
    ensures EvalRun(m, rpn, map_) == m
    decreases |rpn|
  {
    if rpn != [] {
      StuckStays(m, rpn[1..], map_);
    }
  }

  // ----- Meaning is preserved -----

  function Max(x: nat, y: nat): nat {
    if x < y then y else x
  }

  /** Stack slots that evaluating a tree takes. */
  function Need(e: Expr): nat {
    match e
    case One(t) => NeedTerm(t)
    case Bin(l, _, r) => Max(Need(l), 1 + NeedTerm(r))
  }

  function NeedTerm(t: Term): nat {
    match t
    case Leaf(_) => 1
    case Neg(_, t) => NeedTerm(t)
    case Par(_, e, _) => Need(e)
  }

  function Expected(base: seq<int>, need: nat, defined: bool, value: int): Machine {
    if defined && |base| + need <= MAX_STACK then Machine(base + [value]) else Abort
  }

  lemma {:induction false} EvalsTerm(base: seq<int>, t: Term, map_: Tok -> int)
    requires GoodTerm(t) && |base| <= MAX_STACK
    ensures
      EvalRun(Machine(base), PostTerm(t), map_)
      == Expected(base, NeedTerm(t), DefinedTerm(t, map_), ValueTerm(t, map_))
    decreases t
  {
    match t
    case Leaf(v) => EvalRunOne(Machine(base), v, map_);
    case Neg(n, t1) =>
      EvalsTerm(base, t1, map_);
      EvalRunConcat(Machine(base), PostTerm(t1), [n], map_);
      EvalRunOne(EvalRun(Machine(base), PostTerm(t1), map_), n, map_);
      var x := ValueTerm(t1, map_);
      assert (base + [x])[|base| := Bit(x == 0)] == base + [Bit(x == 0)];
    case Par(_, e, _) => EvalsExpr(base, e, map_);
  }

  lemma {:induction false} EvalsExpr(base: seq<int>, e: Expr, map_: Tok -> int)
    requires GoodExpr(e) && |base| <= MAX_STACK
    ensures
      EvalRun(Machine(base), Post(e), map_)
      == Expected(base, Need(e), Defined(e, map_), Value(e, map_))
    decreases e
  {
    match e
    case One(t) => EvalsTerm(base, t, map_);
    case Bin(l, op, r) =>
      EvalsExpr(base, l, map_);
      var m1 := EvalRun(Machine(base), Post(l), map_);
      EvalRunConcat(Machine(base), Post(l) + PostTerm(r), [op], map_);
      EvalRunConcat(Machine(base), Post(l), PostTerm(r), map_);
      EvalRunOne(EvalRun(m1, PostTerm(r), map_), op, map_);
      if m1.Machine? {
        NeedIsPositive(l);
        EvalsTerm(m1.stack, r, map_);
        BinaryStep(base, Value(l, map_), ValueTerm(r, map_), op, map_);
      } else {
        StuckStays(m1, PostTerm(r), map_);
      }
  }

  lemma BinaryStep(base: seq<int>, x: int, y: int, op: Tok, map_: Tok -> int)
    requires Binary(op.op)
    ensures
      EvalStep(Machine(base + [x] + [y]), op, map_)
      == Machine(base + [Bit(if op.op == And then x != 0 && y != 0 else x != 0 || y != 0)])
  {
    var s := base + [x] + [y];
    assert s[..|s| - 2] == base;
  }

  lemma {:induction false} NeedIsPositive(e: Expr)
    ensures Need(e) >= 1
    decreases e
  {
    match e
    case One(t) => NeedTermIsPositive(t);
    case Bin(l, _, _) => NeedIsPositive(l);
  }

  lemma {:induction false} NeedTermIsPositive(t: Term)
    ensures NeedTerm(t) >= 1
    decreases t
  {
    match t
    case Leaf(_) =>
    case Neg(_, t1) => NeedTermIsPositive(t1);
    case Par(_, e, _) => NeedIsPositive(e);
  }

  /**
   Run on the postfix form of any tree, the machine never underflows. It ends with the tree's value as
   the only thing on its stack, and aborts exactly when a variable is undefined or the tree takes more
   than MAX_STACK slots.
   */
  lemma EvaluationPreservesMeaning(e: Expr, map_: Tok -> int)
    requires GoodExpr(e)
    ensures
      EvalRun(Machine([]), Post(e), map_)
      == if Defined(e, map_) && Need(e) <= MAX_STACK then Machine([Value(e, map_)]) else Abort
  {
    EvalsExpr([], e, map_);
  }

  lemma NoUnderflow(e: Expr, map_: Tok -> int, i: nat)
    requires GoodExpr(e) && i <= |Post(e)|
    ensures !EvalRun(Machine([]), Post(e)[..i], map_).Underflow?
  {
    EvaluationPreservesMeaning(e, map_);
    assert Post(e) == Post(e)[..i] + Post(e)[i..];
    EvalRunConcat(Machine([]), Post(e)[..i], Post(e)[i..], map_);
    if EvalRun(Machine([]), Post(e)[..i], map_).Underflow? {
      StuckStays(Underflow, Post(e)[i..], map_);
    }
  }

  // ----- Stack use and parenthesis nesting -----

  function Nesting(e: Expr): nat {
    match e
    case One(t) => NestingTerm(t)
    case Bin(l, _, r) => Max(Nesting(l), NestingTerm(r))
  }

  function NestingTerm(t: Term): nat {
    match t
    case Leaf(_) => 0
    case Neg(_, t) => NestingTerm(t)
    case Par(_, e, _) => 1 + Nesting(e)
  }

  lemma {:induction false} NeedIsBounded(e: Expr)
    ensures Need(e) <= Nesting(e) + 2
    decreases e
  {
    match e
    case One(t) => NeedTermIsBounded(t);
    case Bin(l, _, r) =>
      NeedIsBounded(l);
      NeedTermIsBounded(r);
  }

  lemma {:induction false} NeedTermIsBounded(t: Term)
    ensures NeedTerm(t) <= NestingTerm(t) + 1
    decreases t
  {
    match t
    case Leaf(_) =>
    case Neg(_, t1) => NeedTermIsBounded(t1);
    case Par(_, e, _) => NeedIsBounded(e);
  }

  /** Operands on the stack after a piece of postfix: each variable adds one, each binary operation takes one. */
  function Depth(rpn: seq<Tok>): int {
    if rpn == [] then 0
    else Depth(rpn[..|rpn| - 1]) + (match rpn[|rpn| - 1].op case Var => 1 case And => -1 case Or => -1 case _ => 0)
  }

  lemma {:induction false} DepthConcat(a: seq<Tok>, b: seq<Tok>)
    ensures Depth(a + b) == Depth(a) + Depth(b)
    decreases |b|
  {
    if b == [] {
      assert a + b == a;
    } else {
      assert (a + b)[..|a + b| - 1] == a + b[..|b| - 1];
      DepthConcat(a, b[..|b| - 1]);
    }
  }

  lemma DepthSnoc(a: seq<Tok>, x: Tok)
    ensures Depth(a + [x]) == Depth(a) + (match x.op case Var => 1 case And => -1 case Or => -1 case _ => 0)
  {
    assert (a + [x])[..|a|] == a;
  }

  lemma {:induction false} TermPrefixDepth(t: Term, i: nat)
    requires GoodTerm(t) && i <= |PostTerm(t)|
    ensures Depth(PostTerm(t)[..i]) <= NeedTerm(t)
    ensures i == |PostTerm(t)| ==> Depth(PostTerm(t)[..i]) == 1
    decreases t
  {
    NeedTermIsPositive(t);
    match t
    case Leaf(v) =>
      DepthSnoc([], v);
      assert [v][..i] == if i == 0 then [] else [] + [v];
    case Neg(n, t1) =>
      var p := PostTerm(t1);
      if i <= |p| {
        assert (p + [n])[..i] == p[..i];
        TermPrefixDepth(t1, i);
      } else {
        assert (p + [n])[..i] == p[..|p|] + [n];
        TermPrefixDepth(t1, |p|);
        DepthSnoc(p[..|p|], n);
      }
    case Par(_, e, _) => ExprPrefixDepth(e, i);
  }

  lemma {:induction false} ExprPrefixDepth(e: Expr, i: nat)
    requires GoodExpr(e) && i <= |Post(e)|
    ensures Depth(Post(e)[..i]) <= Need(e)
    ensures i == |Post(e)| ==> Depth(Post(e)[..i]) == 1
    decreases e
  {
    match e
    case One(t) => TermPrefixDepth(t, i);
    case Bin(l, op, r) =>
      var a, b := Post(l), PostTerm(r);
      ExprPrefixDepth(l, |a|);
      assert a[..|a|] == a;
      if i <= |a| {
        assert (a + b + [op])[..i] == a[..i];
        ExprPrefixDepth(l, i);
      } else if i <= |a| + |b| {
        assert (a + b + [op])[..i] == a + b[..i - |a|];
        TermPrefixDepth(r, i - |a|);
        DepthConcat(a, b[..i - |a|]);
      } else {
        assert (a + b + [op])[..i] == a + b + [op];
        TermPrefixDepth(r, |b|);
        assert b[..|b|] == b;
        DepthConcat(a, b);
        DepthSnoc(a + b, op);
        NeedIsPositive(l);
      }
  }

  /** At any point of the evaluation the operands on the stack number at most the nesting depth plus two. */
  lemma DepthBound(e: Expr, i: nat)
    requires GoodExpr(e) && i <= |Post(e)|
    ensures Depth(Post(e)[..i]) <= Nesting(e) + 2
  {
    ExprPrefixDepth(e, i);
    NeedIsBounded(e);
  }

  /** So an expression nested at most 14 deep never runs out of stack. */
  lemma ShallowNeverRunsOut(e: Expr, map_: Tok -> int)
    requires GoodExpr(e) && Nesting(e) <= MAX_STACK - 2 && Defined(e, map_)
    ensures EvalRun(Machine([]), Post(e), map_) == Machine([Value(e, map_)])
  {
    NeedIsBounded(e);
    EvaluationPreservesMeaning(e, map_);
  }

  /** v & (v & ( ... (v & v) ... )), nested d deep. */
  function Deep(d: nat): Expr {
    var v, amp := Tok(Var, "v", 0), Tok(And, "&", 0);
    if d == 0 then Bin(One(Leaf(v)), amp, Leaf(v))
    else Bin(One(Leaf(v)), amp, Par(Tok(LPar, "(", 0), Deep(d - 1), Tok(RPar, ")", 0)))
  }

  lemma {:induction false} DeepShape(d: nat, map_: Tok -> int)
    ensures GoodExpr(Deep(d)) && Nesting(Deep(d)) == d && Need(Deep(d)) == d + 2
    ensures map_(Tok(Var, "v", 0)) != -1 ==> Defined(Deep(d), map_)
  {
    if d > 0 {
      DeepShape(d - 1, map_);
    }
  }

  /** The bound is sharp: one more level of nesting and evaluation can fail with every variable defined. */
  lemma FifteenLevelsRunOut(map_: Tok -> int)
    requires map_(Tok(Var, "v", 0)) != -1
    ensures
      var e := Deep(15);
      GoodExpr(e) && Nesting(e) == 15 && Defined(e, map_) && EvalRun(Machine([]), Post(e), map_) == Abort
  {
    DeepShape(15, map_);
    EvaluationPreservesMeaning(Deep(15), map_);
  }
}
