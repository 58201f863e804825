/**
 The documented pair of loops built on the barrier:

   A: while (run_a) { ...; start_race_a; ...; end_race_a; }
   B: while (run_b) { ...; start_race_b; ...; end_race_b; }

 Each iteration makes the same number of waits in both threads: wait 0 belongs to run_a/run_b, wait
 `startAt` to start_race, wait `endAt` to end_race, and any others are further synchronisation points
 added with wait_a/wait_b.
 */
module RaceLoops {
  import opened Barrier

  datatype Config = Config(max: int, waits: nat, loops: nat)

  /** Where a thread is in its loop. `Wait(k)` with the barrier's pc Out is about to enter wait k. */
  datatype Loc =
    | Decide         // A only: before the store of `exit` in run_a
    | Wait(k: nat)   // at or in the k-th wait of the iteration
    | Check          // after wait 0, before the thread tests whether to exit
    | Body(k: nat)   // between wait k and the next wait
    | Done

  /** Iteration (from 1) and index of the last wait entered. */
  datatype Pos = Pos(iter: nat, k: nat)

  function Next(c: Config, p: Pos): Pos {
    if p.k + 1 < c.waits then Pos(p.iter, p.k + 1) else Pos(p.iter + 1, 0)
  }

  /**
   The loop of one thread. `log` holds, for A, the values it stored into `exit`, one per iteration, and
   for B the values it loaded; `pos` and `log` are history, `bodies` counts the loop bodies begun.
   */
  datatype Prog = Prog(loc: Loc, pos: Pos, log: seq<bool>, bodies: nat)

  datatype LState = LState(core: State, pa: Prog, pb: Prog, exit: bool, execLoop: nat)

  /** The environment's part of a step: load order in the barrier, and whether time is up in run_a. */
  datatype Choice = Choice(otherFirst: bool, timeUp: bool)

  function LInit(c: Config): LState
    requires c.waits > 0
  {
    LState(Init(), Prog(Decide, Pos(0, c.waits - 1), [], 0), Prog(Wait(0), Pos(0, c.waits - 1), [], 0), false, 0)
  }

  /** Where a thread goes after the barrier's step: on entry `pos` advances, on return the wait is over. */
  function AfterWaitStep(c: Config, p: Prog, before: Thread, after: Thread): Prog
    requires p.loc.Wait?
  {
    if before.pc.Out? then p.(pos := Next(c, p.pos))
    else if after.pc.Out? then p.(loc := if p.loc.k == 0 then Check else Body(p.loc.k))
    else p
  }

  function StepA(c: Config, s: LState, ch: Choice): LState {
    match s.pa.loc
    case Decide =>
      var exit := ch.timeUp || s.execLoop + 1 > c.loops;
      s.(execLoop := s.execLoop + 1, exit := exit, pa := s.pa.(loc := Wait(0), log := s.pa.log + [exit]))
    case Wait(_) =>
      var core' := Step(c.max, s.core, A, ch.otherFirst);
      s.(core := core', pa := AfterWaitStep(c, s.pa, s.core.a, core'.a))
    case Check =>
      // run_a tests its local copy of the value it stored in this iteration
      if |s.pa.log| > 0 && s.pa.log[|s.pa.log| - 1] then s.(pa := s.pa.(loc := Done))
      else s.(pa := s.pa.(loc := Body(0), bodies := s.pa.bodies + 1))
    case Body(k) => s.(pa := s.pa.(loc := if k + 1 < c.waits then Wait(k + 1) else Decide))
    case Done => s
  }

  function StepB(c: Config, s: LState, ch: Choice): LState {
    match s.pb.loc
    case Wait(_) =>
      var core' := Step(c.max, s.core, B, ch.otherFirst);
      s.(core := core', pb := AfterWaitStep(c, s.pb, s.core.b, core'.b))
    case Check =>
      var p := s.pb.(log := s.pb.log + [s.exit]);
      s.(pb := if s.exit then p.(loc := Done) else p.(loc := Body(0), bodies := p.bodies + 1))
    case Body(k) => s.(pb := s.pb.(loc := Wait(if k + 1 < c.waits then k + 1 else 0)))
    case Decide => s
    case Done => s
  }

  function LStep(c: Config, s: LState, t: Tid, ch: Choice): LState {
    if t == A then StepA(c, s, ch) else StepB(c, s, ch)
  }

  function LRun(c: Config, sched: seq<(Tid, Choice)>): LState
    requires c.waits > 0
  {
    if sched == [] then LInit(c)
    else
      var last := sched[|sched| - 1];
      LStep(c, LRun(c, sched[..|sched| - 1]), last.0, last.1)
  }

  // ----- The invariant -----

  predicate AllFalse(log: seq<bool>) {
    forall i | 0 <= i < |log| :: !log[i]
  }

  ghost predicate InvA(c: Config, th: Thread, p: Prog, exit: bool, execLoop: nat) {
    && execLoop == |p.log| <= c.loops + 1
    && (exit <==> |p.log| > 0 && p.log[|p.log| - 1])
    && (|p.log| == c.loops + 1 ==> exit)
    && (|p.log| > 0 ==> AllFalse(p.log[..|p.log| - 1]))
    && p.pos.k < c.waits
    && match p.loc
      case Decide => th.pc.Out? && p.pos.k == c.waits - 1 && |p.log| == p.pos.iter == p.bodies && !exit
      case Wait(k) =>
        && k < c.waits
        && var at := if th.pc.Out? then Next(c, p.pos) else p.pos;
        && at.k == k && |p.log| == at.iter
        && (if k == 0 then p.bodies + 1 == |p.log| else p.bodies == |p.log| && !exit)
      case Check => th.pc.Out? && p.pos.k == 0 && |p.log| == p.pos.iter == p.bodies + 1
      case Body(k) => th.pc.Out? && p.pos.k == k && |p.log| == p.pos.iter == p.bodies && !exit
      case Done => th.pc.Out? && p.pos.k == 0 && |p.log| == p.pos.iter == p.bodies + 1 && exit
  }

  ghost predicate InvB(c: Config, th: Thread, p: Prog) {
    && p.pos.k < c.waits
    && (if p.loc.Done? then |p.log| > 0 && p.log[|p.log| - 1] && AllFalse(p.log[..|p.log| - 1])
        else AllFalse(p.log))
    && match p.loc
      case Decide => false
      case Wait(k) =>
        && k < c.waits
        && var at := if th.pc.Out? then Next(c, p.pos) else p.pos;
        && at.k == k && p.bodies == |p.log| == (if k == 0 then at.iter - 1 else at.iter)
      case Check => th.pc.Out? && p.pos.k == 0 && p.bodies == |p.log| == p.pos.iter - 1
      case Body(k) => th.pc.Out? && p.pos.k == k && p.bodies == |p.log| == p.pos.iter
      case Done => th.pc.Out? && p.pos.k == 0 && p.bodies + 1 == |p.log| == p.pos.iter
  }

  ghost predicate LockStep(c: Config, s: LState) {
    && (s.core.a.entries == s.core.b.entries ==> s.pa.pos == s.pb.pos)
    && (s.core.a.entries == s.core.b.entries + 1 ==> s.pa.pos == Next(c, s.pb.pos))
    && (s.core.b.entries == s.core.a.entries + 1 ==> s.pb.pos == Next(c, s.pa.pos))
  }

  /** What the loops use of the barrier. */
  ghost predicate Close(core: State) {
    && core.a.entries <= core.b.entries + 1 && core.b.entries <= core.a.entries + 1
    && (core.a.pc.Out? ==> core.a.entries <= core.b.entries)
    && (core.b.pc.Out? ==> core.b.entries <= core.a.entries)
  }

  lemma BarrierIsClose(max: int, core: State)
    requires Inv(max, core)
    ensures Close(core)
  {
  }

  /** The loops' share of the invariant. */
  ghost predicate ProgInv(c: Config, s: LState) {
    && LockStep(c, s)
    && InvA(c, s.core.a, s.pa, s.exit, s.execLoop)
    && InvB(c, s.core.b, s.pb)
    && s.pb.log <= s.pa.log
  }

  /** A step of the barrier by one thread, seen from the loops. */
  ghost predicate Moved(before: Thread, after: Thread) {
    if before.pc.Out? then Inside(after) && after.entries == before.entries + 1
    else after.entries == before.entries
  }

  lemma StepMoves(max: int, s: State, t: Tid, otherFirst: bool)
    ensures
      var s' := Step(max, s, t, otherFirst);
      s'.Of(Peer(t)) == s.Of(Peer(t)) && Moved(s.Of(t), s'.Of(t))
  {
  }

  lemma WaitAKeepsProgInv(c: Config, s: LState, core': State)
    requires c.waits >= 2 && ProgInv(c, s) && Close(s.core) && Close(core') && s.pa.loc.Wait?
    requires core'.b == s.core.b && Moved(s.core.a, core'.a)
    ensures ProgInv(c, s.(core := core', pa := AfterWaitStep(c, s.pa, s.core.a, core'.a)))
  {
  }

  lemma WaitBKeepsProgInv(c: Config, s: LState, core': State)
    requires c.waits >= 2 && ProgInv(c, s) && Close(s.core) && Close(core') && s.pb.loc.Wait?
    requires core'.a == s.core.a && Moved(s.core.b, core'.b)
    ensures ProgInv(c, s.(core := core', pb := AfterWaitStep(c, s.pb, s.core.b, core'.b)))
  {
  }

  /**
   When B tests `exit` in its i-th iteration, A has stored the i-th value and, since its own iteration
   holds another wait, has not yet come round to the next store.
   */
  lemma ExitIsCurrent(c: Config, s: LState)
    requires c.waits >= 2 && ProgInv(c, s) && Close(s.core) && s.pb.loc.Check?
    ensures |s.pa.log| == |s.pb.log| + 1 && s.exit == s.pa.log[|s.pb.log|]
  {
  }

  lemma StoreKeepsInvA(c: Config, th: Thread, p: Prog, exit: bool, execLoop: nat, exit': bool)
    requires c.waits >= 2 && InvA(c, th, p, exit, execLoop) && p.loc.Decide? && (execLoop + 1 > c.loops ==> exit')
    ensures InvA(c, th, p.(loc := Wait(0), log := p.log + [exit']), exit', execLoop + 1)
  {
    assert (p.log + [exit'])[..|p.log|] == p.log;
    assert p.log == [] || p.log == p.log[..|p.log| - 1] + [false];
  }

  lemma LocalAKeepsProgInv(c: Config, s: LState, ch: Choice)
    requires c.waits >= 2 && ProgInv(c, s) && Close(s.core) && !s.pa.loc.Wait?
    ensures ProgInv(c, StepA(c, s, ch)) && StepA(c, s, ch).core == s.core
  {
    hide InvB, Close;
    if s.pa.loc.Decide? {
      var exit := ch.timeUp || s.execLoop + 1 > c.loops;
      StoreKeepsInvA(c, s.core.a, s.pa, s.exit, s.execLoop, exit);
      hide InvA;
      assert s.pb.log <= s.pa.log + [exit];
    }
  }

  lemma LocalBKeepsProgInv(c: Config, s: LState, ch: Choice)
    requires c.waits >= 2 && ProgInv(c, s) && Close(s.core) && !s.pb.loc.Wait?
    ensures ProgInv(c, StepB(c, s, ch)) && StepB(c, s, ch).core == s.core
  {
    var s' := StepB(c, s, ch);
    if s.pb.loc.Check? {
      ExitIsCurrent(c, s);
      assert s'.pb.log[..|s'.pb.log| - 1] == s.pb.log;
    }
  }

  ghost predicate LInv(c: Config, s: LState) {
    Inv(c.max, s.core) && FirstInv(s.core) && ProgInv(c, s)
  }

  lemma StepKeepsLInv(c: Config, s: LState, t: Tid, ch: Choice)
    requires c.max >= 2 && c.waits >= 2 && LInv(c, s)
    ensures LInv(c, LStep(c, s, t, ch))
  {
    var core' := Step(c.max, s.core, t, ch.otherFirst);
    BarrierIsClose(c.max, s.core);
    StepKeepsInv(c.max, s.core, t, ch.otherFirst);
    StepKeepsFirst(c.max, s.core, t, ch.otherFirst);
    BarrierIsClose(c.max, core');
    StepMoves(c.max, s.core, t, ch.otherFirst);
    if t == A {
      if s.pa.loc.Wait? { WaitAKeepsProgInv(c, s, core'); } else { LocalAKeepsProgInv(c, s, ch); }
    } else {
      if s.pb.loc.Wait? { WaitBKeepsProgInv(c, s, core'); } else { LocalBKeepsProgInv(c, s, ch); }
    }
  }

  lemma {:induction false} RunKeepsLInv(c: Config, sched: seq<(Tid, Choice)>)
    requires c.max >= 2 && c.waits >= 2
    ensures LInv(c, LRun(c, sched))
  {
    if sched != [] {
      var last := sched[|sched| - 1];
      RunKeepsLInv(c, sched[..|sched| - 1]);
      StepKeepsLInv(c, LRun(c, sched[..|sched| - 1]), last.0, last.1);
    }
  }

  // ----- Exit agreement -----

  /**
   When every iteration holds a wait besides the one in run_a/run_b: the i-th value B loads is the i-th
   value A stored, the two threads are never more than one body apart, a thread that has left saw the
   request to exit and finds the other on its way out, and two threads that have left ran the same number
   of bodies, at most `loops`.
   */
  lemma ExitAgreement(c: Config, sched: seq<(Tid, Choice)>)
    requires c.max >= 2 && c.waits >= 2
    ensures
      var s := LRun(c, sched);
      && s.pb.log <= s.pa.log
      && -1 <= s.pa.bodies - s.pb.bodies <= 1 && s.pa.bodies <= c.loops && s.pb.bodies <= c.loops
      && (s.pa.loc.Done? ==> s.exit && (s.pb.loc.Done? || s.pb.loc.Check? || s.pb.loc == Wait(0)))
      && (s.pb.loc.Done? ==> s.exit && (s.pa.loc.Done? || s.pa.loc.Check? || s.pa.loc == Wait(0)))
      && (s.pa.loc.Done? || s.pb.loc.Done? ==> s.pa.bodies == s.pb.bodies)
  {
    RunKeepsLInv(c, sched);
    var s := LRun(c, sched);
    BarrierIsClose(c.max, s.core);
  }

  lemma Extend(c: Config, sched: seq<(Tid, Choice)>, t: Tid, ch: Choice) returns (longer: seq<(Tid, Choice)>)
    requires c.waits > 0
    ensures LRun(c, longer) == LStep(c, LRun(c, sched), t, ch)
  {
    longer := sched + [(t, ch)];
    assert longer[..|sched|] == sched;
  }

  /**
   With no wait besides the one in run_a/run_b, agreement fails: both threads return from their first
   wait, A runs its body, finds the time up and stores the request to exit for its second iteration, and
   only then does B load `exit` for its first. B leaves with no body run, A has run one.
   */
  lemma SingleWaitDisagrees(c: Config) returns (sched: seq<(Tid, Choice)>)
    requires c.max >= 2 && c.waits == 1 && c.loops >= 1
    ensures
      var s := LRun(c, sched);
      && s.pa.log == [false, true] && s.pb.log == [true] && s.pb.loc.Done? && s.pa.bodies == 1 && s.pb.bodies == 0
      && s.pa.loc == Wait(0) && s.core.a.pc.Out? && s.core.b.pc.Out? && s.core.a.entries == s.core.b.entries == 1
  {
    var go, up := Choice(false, false), Choice(false, true);
    sched := BothMeet(c);
    StepMoves(c.max, LRun(c, sched).core, A, false);
    hide Step, LRun;
    sched := Extend(c, sched, A, go);  // A returns,
    sched := Extend(c, sched, A, go);  // goes on into its body,
    sched := Extend(c, sched, A, go);  // through it,
    sched := Extend(c, sched, A, up);  // and stores exit = true
    sched := Extend(c, sched, B, go);  // B loads exit
  }

  /** A stores exit = false and both come to the first wait; B has returned from it, A is about to. */
  lemma BothMeet(c: Config) returns (sched: seq<(Tid, Choice)>)
    requires c.max >= 2 && c.waits == 1 && c.loops >= 1
    ensures
      var s := LRun(c, sched);
      && s.pa.loc == Wait(0) && s.pa.log == [false] && s.pa.bodies == 0 && s.pb.log == [] && s.pb.bodies == 0
      && !s.core.a.pc.Out? && Step(c.max, s.core, A, false).a.pc.Out? && s.pb.loc.Check?
      && s.core.b.pc.Out? && s.core.a.entries == s.core.b.entries == 1
  {
    var go := Choice(false, false);
    sched := [];
    sched := Extend(c, sched, A, go);  // A stores exit = false
    sched := Extend(c, sched, A, go);  // and enters,
    sched := Extend(c, sched, B, go);  // B enters,
    sched := Extend(c, sched, B, go);
    sched := Extend(c, sched, B, go);  // and returns,
    sched := Extend(c, sched, A, go);
  }

  /** Agreement on every schedule holds exactly when the loop body holds a further wait. */
  lemma AgreementIff(c: Config)
    requires c.max >= 2 && c.waits >= 1 && c.loops >= 1
    ensures (forall sched :: LRun(c, sched).pb.log <= LRun(c, sched).pa.log) <==> c.waits >= 2
  {
    if c.waits >= 2 {
      forall sched ensures LRun(c, sched).pb.log <= LRun(c, sched).pa.log {
        ExitAgreement(c, sched);
      }
    } else {
      var sched := SingleWaitDisagrees(c);
      assert LRun(c, sched).pb.log[0] != LRun(c, sched).pa.log[0];
    }
  }

  // ----- Separation of the shared fields -----

  datatype Field = Delay | Spins | AStart | AEnd | BStart | BEnd

  /** The waits of start_race and end_race within an iteration. */
  datatype Race = Race(startAt: nat, endAt: nat)

  ghost predicate RaceIn(c: Config, r: Race) {
    0 < r.startAt < r.endAt < c.waits
  }

  /**
   Fields a thread may write while at `loc`. pair_update runs in A before the start wait, the time stamps
   follow the start wait and precede the end wait, and only the end wait is handed the spin counter.
   */
  function Writes(r: Race, t: Tid, loc: Loc, pc: Pc): set<Field> {
    match loc
    case Body(k) =>
      (if t == A && k + 1 == r.startAt then {Delay, Spins} else {}) +
      (if k == r.startAt then {if t == A then AStart else BStart} else {}) +
      (if k + 1 == r.endAt then {if t == A then AEnd else BEnd} else {})
    case Wait(k) => if k == r.endAt && Counting(pc) then {Spins} else {}
    case _ => {}
  }

  function Reads(r: Race, t: Tid, loc: Loc, pc: Pc): set<Field> {
    match loc
    case Body(k) =>
      (if t == A && k + 1 == r.startAt then {AStart, AEnd, BStart, BEnd, Spins, Delay} else {}) +
      (if k == r.startAt then {Delay} else {})
    case Wait(k) => if k == r.endAt && Counting(pc) then {Spins} else {}
    case _ => {}
  }

  /** No field is written by one thread while the other may read or write it. */
  ghost predicate Separated(r: Race, s: LState) {
    var wa, wb := Writes(r, A, s.pa.loc, s.core.a.pc), Writes(r, B, s.pb.loc, s.core.b.pc);
    && wa !! wb
    && wa !! Reads(r, B, s.pb.loc, s.core.b.pc)
    && wb !! Reads(r, A, s.pa.loc, s.core.a.pc)
  }

  lemma DataSeparation(c: Config, r: Race, sched: seq<(Tid, Choice)>)
    requires c.max >= 2 && RaceIn(c, r)
    ensures Separated(r, LRun(c, sched))
  {
    RunKeepsLInv(c, sched);
    var s := LRun(c, sched);
    BarrierIsClose(c.max, s.core);
    if s.core.a.entries == s.core.b.entries {
      OneSpinner(c.max, s.core);
    }
    InvSeparates(c, r, s);
  }

  lemma InvSeparates(c: Config, r: Race, s: LState)
    requires RaceIn(c, r) && ProgInv(c, s) && Close(s.core)
    requires s.core.a.entries == s.core.b.entries ==> !(Counting(s.core.a.pc) && Counting(s.core.b.pc))
    ensures Separated(r, s)
  {
  }

  // ----- Termination under fair schedules -----

  /** Waits that a thread at `p` has still to enter. */
  function Left(c: Config, p: Pos): int {
    (c.loops + 1 - p.iter) * c.waits + (c.waits - 1 - p.k)
  }

  lemma NextLeavesLess(c: Config, p: Pos)
    requires p.k < c.waits
    ensures Left(c, Next(c, p)) == Left(c, p) - 1
  {
  }

  lemma LeftIsNat(c: Config, p: Pos)
    requires p.k < c.waits && p.iter <= c.loops + 1
    ensures Left(c, p) >= 0
  {
    ProductIsNat(c.loops + 1 - p.iter, c.waits);
  }

  lemma ProductIsNat(x: nat, y: nat)
    ensures x * y >= 0
  {
  }

  function LocRank(loc: Loc, inside: bool): nat {
    match loc
    case Wait(_) => if inside then 4 else 0
    case Check => 3
    case Body(_) => 2
    case Decide => 1
    case Done => 0
  }

  /** A thread's remaining moves outside the barrier's loops. */
  function Rem(c: Config, th: Thread, p: Prog): int {
    5 * Left(c, p.pos) + LocRank(p.loc, Inside(th))
  }

  function Remaining(c: Config, s: LState): int {
    Rem(c, s.core.a, s.pa) + Rem(c, s.core.b, s.pb)
  }

  lemma RemIsNat(c: Config, s: LState)
    requires c.waits >= 2 && ProgInv(c, s) && Close(s.core)
    ensures Rem(c, s.core.a, s.pa) >= 0 && Rem(c, s.core.b, s.pb) >= 0
  {
    LeftIsNat(c, s.pa.pos);
    LeftIsNat(c, s.pb.pos);
  }

  /** A thread that is neither waiting in the barrier nor finished can always go on. */
  predicate Free(th: Thread, p: Prog) {
    !Inside(th) && !p.loc.Done?
  }

  function LMover(s: LState): Tid {
    if Free(s.core.a, s.pa) then A
    else if Free(s.core.b, s.pb) then B
    else if Inside(s.core.a) && s.core.a.entries <= s.core.b.entries then Mover(s.core, A)
    else B
  }

  predicate Finished(s: LState) {
    s.pa.loc.Done? && s.pb.loc.Done?
  }

  /** Lexicographic descent in the remaining moves and the barrier's work. */
  ghost predicate Descends(c: Config, s: LState, s': LState) {
    || Remaining(c, s') < Remaining(c, s)
    || (Remaining(c, s') == Remaining(c, s) && Work(c.max, s'.core) < Work(c.max, s.core))
  }

  ghost predicate Idles(c: Config, s: LState, s': LState) {
    && Remaining(c, s') == Remaining(c, s) && Work(c.max, s'.core) == Work(c.max, s.core)
    && LMover(s') == LMover(s)
  }

  /** A step of a free thread, or one that ends a wait, uses up a move. */
  lemma FreeStepDescends(c: Config, s: LState, t: Tid, ch: Choice)
    requires c.max >= 2 && c.waits >= 2 && LInv(c, s)
    requires if t == A then Free(s.core.a, s.pa) else Free(s.core.b, s.pb)
    ensures Remaining(c, LStep(c, s, t, ch)) < Remaining(c, s)
  {
    NextLeavesLess(c, s.pa.pos);
    NextLeavesLess(c, s.pb.pos);
    StepMoves(c.max, s.core, t, ch.otherFirst);
    hide Step, Inv, FirstInv;
  }

  /** If A has left and B is waiting, B is in the wait A came out of; and the other way round. */
  lemma WaitingForNobody(c: Config, s: LState)
    requires c.waits >= 2 && ProgInv(c, s) && Close(s.core)
    ensures s.pa.loc.Done? && Inside(s.core.b) ==> s.core.b.entries == s.core.a.entries
    ensures s.pb.loc.Done? && Inside(s.core.a) ==> s.core.a.entries == s.core.b.entries
  {
  }

  /** With nobody free, the thread LMover picks is met by its peer and not held up in the drain loop. */
  lemma MoverIsMet(c: Config, s: LState)
    requires c.max >= 2 && c.waits >= 2 && LInv(c, s) && !Finished(s)
    requires !Free(s.core.a, s.pa) && !Free(s.core.b, s.pb)
    ensures Met(s.core, A) || (Met(s.core, B) && Mover(s.core, B) == B)
    ensures Inside(s.core.Of(LMover(s)))
  {
    BarrierIsClose(c.max, s.core);
    WaitingForNobody(c, s);
  }

  /** A step within a wait leaves the loops alone, or ends the wait and uses up a move. */
  lemma InsideStep(c: Config, s: LState, t: Tid, ch: Choice)
    requires c.max >= 2 && c.waits >= 2 && LInv(c, s) && Inside(s.core.Of(t))
    ensures
      var s' := LStep(c, s, t, ch);
      && Inv(c.max, s.core) && s'.core == Step(c.max, s.core, t, ch.otherFirst)
      && (if Inside(s'.core.Of(t)) then s' == s.(core := s'.core) && Remaining(c, s') == Remaining(c, s)
          else Remaining(c, s') < Remaining(c, s))
  {
    StepMoves(c.max, s.core, t, ch.otherFirst);
    hide Step;
  }

  lemma InsideStepDescends(c: Config, s: LState, t: Tid, ch: Choice)
    requires c.max >= 2 && c.waits >= 2 && LInv(c, s) && !Finished(s)
    requires Inside(s.core.Of(t))
    ensures
      var s' := LStep(c, s, t, ch);
      Descends(c, s, s') || (Idles(c, s, s') && t != LMover(s))
  {
    var s' := LStep(c, s, t, ch);
    InsideStep(c, s, t, ch);
    hide Remaining, Step, StepThread, Inv, Work, LInv, LStep;
    if Inside(s'.core.Of(t)) {
      InsideStepAddsNoWork(c.max, s.core, t, ch.otherFirst);
      if Met(s.core, A) {
        StepAdvances(c.max, s.core, A, t, ch.otherFirst, s'.core);
      }
      if t == LMover(s) {
        MoverIsMet(c, s);
        if !Met(s.core, A) {
          MoverWorks(c.max, s.core, B, ch.otherFirst);
        }
      }
    }
  }

  lemma LStepDescends(c: Config, s: LState, t: Tid, ch: Choice)
    requires c.max >= 2 && c.waits >= 2 && LInv(c, s) && !Finished(s)
    ensures
      var s' := LStep(c, s, t, ch);
      Descends(c, s, s') || (Idles(c, s, s') && t != LMover(s))
  {
    var th, p := s.core.Of(t), if t == A then s.pa else s.pb;
    if Inside(th) {
      InsideStepDescends(c, s, t, ch);
    } else if Free(th, p) {
      FreeStepDescends(c, s, t, ch);
    } else {
      assert LStep(c, s, t, ch) == s;
      if !Free(s.core.a, s.pa) && !Free(s.core.b, s.pb) {
        MoverIsMet(c, s);
      }
    }
  }

  ghost predicate IsLRun(c: Config, run: nat -> LState, who: nat -> Tid, ch: nat -> Choice)
    requires c.waits > 0
  {
    && run(0) == LInit(c)
    && forall i: nat :: run(i + 1) == LStep(c, run(i), who(i), ch(i))
  }

  lemma {:induction false} EveryStateKeepsLInv(
    c: Config, run: nat -> LState, who: nat -> Tid, ch: nat -> Choice, i: nat)
    requires c.max >= 2 && c.waits >= 2 && IsLRun(c, run, who, ch)
    ensures LInv(c, run(i))
  {
    if i > 0 {
      EveryStateKeepsLInv(c, run, who, ch, i - 1);
      assert run((i - 1) + 1) == LStep(c, run(i - 1), who(i - 1), ch(i - 1));
      StepKeepsLInv(c, run(i - 1), who(i - 1), ch(i - 1));
    }
  }

  /**
   Every fair run of the two loops ends, whatever the clock says and however often the counters wrap:
   from any point on, a state is reached in which both threads have left, having run the same number of
   bodies.
   */
  lemma {:induction false} LoopsTerminate(
    c: Config, run: nat -> LState, who: nat -> Tid, ch: nat -> Choice, i: nat)
    returns (k: nat)
    requires c.max >= 2 && c.waits >= 2 && IsLRun(c, run, who, ch) && Fair(who)
    ensures i <= k && Finished(run(k)) && run(k).pa.bodies == run(k).pb.bodies <= c.loops
    decreases Remaining(c, run(i)), Work(c.max, run(i).core), 1, 0
  {
    if Finished(run(i)) {
      k := i;
      EndsEven(c, run, who, ch, i);
    } else {
      assert MovesFrom(who, LMover(run(i)), i);
      var j: nat :| i <= j && who(j) == LMover(run(i));
      k := LoopsTerminateBy(c, run, who, ch, i, j);
    }
  }

  /** A step of a run either descends, or idles because it is not the mover's. */
  lemma RunDescends(c: Config, run: nat -> LState, who: nat -> Tid, ch: nat -> Choice, i: nat)
    requires c.max >= 2 && c.waits >= 2 && IsLRun(c, run, who, ch) && !Finished(run(i))
    ensures Remaining(c, run(i)) >= 0 && Remaining(c, run(i + 1)) >= 0
    ensures Descends(c, run(i), run(i + 1)) || (Idles(c, run(i), run(i + 1)) && who(i) != LMover(run(i)))
  {
    EveryStateKeepsLInv(c, run, who, ch, i);
    EveryStateKeepsLInv(c, run, who, ch, i + 1);
    RemainingIsNat(c, run(i));
    RemainingIsNat(c, run(i + 1));
    LStepDescends(c, run(i), who(i), ch(i));
    hide Remaining, Work, LInv, LStep, LMover, Finished;
  }

  lemma {:induction false} LoopsTerminateBy(
    c: Config, run: nat -> LState, who: nat -> Tid, ch: nat -> Choice, i: nat, j: nat)
    returns (k: nat)
    requires c.max >= 2 && c.waits >= 2 && IsLRun(c, run, who, ch) && Fair(who)
    requires !Finished(run(i)) && i <= j && who(j) == LMover(run(i))
    ensures i <= k && Finished(run(k)) && run(k).pa.bodies == run(k).pb.bodies <= c.loops
    decreases Remaining(c, run(i)), Work(c.max, run(i).core), 0, j - i
  {
    hide Remaining, Work, LMover, IsLRun, Fair;
    RunDescends(c, run, who, ch, i);
    if Descends(c, run(i), run(i + 1)) {
      k := LoopsTerminate(c, run, who, ch, i + 1);
    } else if Finished(run(i + 1)) {
      k := i + 1;
      EndsEven(c, run, who, ch, i + 1);
    } else {
      k := LoopsTerminateBy(c, run, who, ch, i + 1, j);
    }
  }

  lemma EndsEven(c: Config, run: nat -> LState, who: nat -> Tid, ch: nat -> Choice, i: nat)
    requires c.max >= 2 && c.waits >= 2 && IsLRun(c, run, who, ch) && Finished(run(i))
    ensures run(i).pa.bodies == run(i).pb.bodies <= c.loops
  {
    EveryStateKeepsLInv(c, run, who, ch, i);
    BarrierIsClose(c.max, run(i).core);
  }

  lemma RemainingIsNat(c: Config, s: LState)
    requires c.waits >= 2 && LInv(c, s)
    ensures Remaining(c, s) >= 0
  {
    BarrierIsClose(c.max, s.core);
    RemIsNat(c, s);
  }
}
