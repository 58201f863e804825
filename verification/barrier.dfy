/**
 The two-thread spin barrier of fuzzy sync.

 Threads A and B meet in tst_fzsync_pair_wait. Each call increments the *peer's* counter, so every
 counter has a single writer: A increments and zeroes b_cntr, B increments and zeroes a_cntr. The model
 therefore keeps, with each thread, the counter that this thread writes (`mark`); "our counter" of a
 call is the peer's mark and "the other counter" is the caller's own mark.

 One step is one atomic access. The two loads of `our > 0 && our < INT_MAX` are separate steps, and so
 are the two loads of `our < other`, which the compiler may order either way. The parameter `max`
 stands for INT_MAX; everything below holds for every max >= 2.
 */
module Barrier {
  datatype Tid = A | B

  function Peer(t: Tid): Tid {
    if t == A then B else A
  }

  datatype Pc =
    | Out              // outside the barrier; the next step is the atomic increment of a new wait
    | Compare          // about to load the first operand of `our < other`
    | HaveOur(r: int)  // loaded our == r, about to load other and compare
    | HaveOther(r: int)// loaded other == r, about to load our and compare
    | Spin             // loop body of the ordinary wait
    | Reset1           // about to load our and test `our > 0`
    | Reset2           // about to load our and test `our < INT_MAX`
    | ResetSpin        // loop body of the first reset loop
    | Zero             // about to store 0 into the other counter
    | Drain            // about to load our and test `our > 1`

  /** `entries` counts the calls begun by this thread: it is a history variable. */
  datatype Thread = Thread(pc: Pc, mark: int, entries: nat)

  /** `first` is the thread that was first to enter the latest round: a history variable. */
  datatype State = State(a: Thread, b: Thread, first: Tid) {
    function Of(t: Tid): Thread {
      if t == A then a else b
    }
    function With(t: Tid, th: Thread): State {
      if t == A then this.(a := th) else this.(b := th)
    }
  }

  /** tst_fzsync_pair_reset: both counters zero, both threads outside. */
  function Init(): State {
    State(Thread(Out, 0, 0), Thread(Out, 0, 0), A)
  }

  /** One atomic step of tst_fzsync_pair_wait. Only the stepping thread changes. */
  function StepThread(max: int, me: Thread, peer: Thread, otherFirst: bool): Thread {
    match me.pc
    case Out =>
      Thread(if me.mark + 1 == max then Reset1 else Compare, me.mark + 1, me.entries + 1)
    case Compare => me.(pc := if otherFirst then HaveOther(me.mark) else HaveOur(peer.mark))
    case HaveOur(r) => me.(pc := if r < me.mark then Spin else Out)
    case HaveOther(r) => me.(pc := if peer.mark < r then Spin else Out)
    case Spin => me.(pc := Compare)
    case Reset1 => me.(pc := if peer.mark > 0 then Reset2 else Zero)
    case Reset2 => me.(pc := if peer.mark < max then ResetSpin else Zero)
    case ResetSpin => me.(pc := Reset1)
    case Zero => me.(mark := 0, pc := Drain)
    case Drain => me.(pc := if peer.mark > 1 then Drain else Out)
  }

  function Step(max: int, s: State, t: Tid, otherFirst: bool): State {
    var me, peer := s.Of(t), s.Of(Peer(t));
    var s' := s.With(t, StepThread(max, me, peer, otherFirst));
    if me.pc.Out? && me.entries == peer.entries then s'.(first := t) else s'
  }

  /** A finite schedule names, for each step, the thread that moves and its load order. */
  type Schedule = seq<(Tid, bool)>

  function Run(max: int, sched: Schedule): State {
    if sched == [] then Init()
    else
      var last := sched[|sched| - 1];
      Step(max, Run(max, sched[..|sched| - 1]), last.0, last.1)
  }

  // ----- The invariant -----

  /** Between the increment that reached the maximum and the store of zero. */
  predicate Resetting(pc: Pc) {
    pc.Reset1? || pc.Reset2? || pc.ResetSpin? || pc.Zero?
  }

  predicate Ordinary(pc: Pc) {
    pc.Compare? || pc.HaveOur? || pc.HaveOther? || pc.Spin?
  }

  predicate Inside(th: Thread) {
    !th.pc.Out?
  }

  /** The place of a counter on the cycle 0, 1, ..., max-1, 0, ... */
  function Place(max: int, th: Thread): int {
    if th.mark == max then 0 else th.mark
  }

  function NextPlace(max: int, p: int): int {
    if p + 1 == max then 0 else p + 1
  }

  ghost predicate ThreadInv(max: int, th: Thread) {
    && 0 <= th.mark <= max
    && (Resetting(th.pc) <==> th.mark == max)
    && (th.pc.Drain? ==> th.mark == 0)
    && (Ordinary(th.pc) ==> 1 <= th.mark < max)
    && (th.pc.HaveOther? ==> th.pc.r == th.mark)
    && (Inside(th) ==> th.entries > 0)
  }

  /** What holds of a thread that is one wait ahead: it has no way out yet. */
  ghost predicate AheadInv(max: int, me: Thread, peer: Thread) {
    && me.entries == peer.entries + 1
    && Place(max, me) == NextPlace(max, Place(max, peer))
    && Inside(me) && !me.pc.Zero? && !me.pc.Drain?
    && (me.pc.HaveOur? ==> me.pc.r < me.mark)
    && !Resetting(peer.pc)
  }

  ghost predicate LevelInv(max: int, s: State) {
    && s.a.entries == s.b.entries
    && Place(max, s.a) == Place(max, s.b)
    && (s.a.pc.Out? ==> !Resetting(s.b.pc))
    && (s.b.pc.Out? ==> !Resetting(s.a.pc))
  }

  ghost predicate Inv(max: int, s: State) {
    && ThreadInv(max, s.a) && ThreadInv(max, s.b)
    && (LevelInv(max, s) || AheadInv(max, s.a, s.b) || AheadInv(max, s.b, s.a))
  }

  lemma StepKeepsInv(max: int, s: State, t: Tid, otherFirst: bool)
    requires max >= 2 && Inv(max, s)
    ensures Inv(max, Step(max, s, t, otherFirst))
  {
    var me, peer := s.Of(t), s.Of(Peer(t));
    var me' := StepThread(max, me, peer, otherFirst);
    assert ThreadInv(max, me');
  }

  lemma {:induction false} RunKeepsInv(max: int, sched: Schedule)
    requires max >= 2
    ensures Inv(max, Run(max, sched))
  {
    if sched != [] {
      var last := sched[|sched| - 1];
      RunKeepsInv(max, sched[..|sched| - 1]);
      StepKeepsInv(max, Run(max, sched[..|sched| - 1]), last.0, last.1);
    }
  }

  // ----- Safety -----

  /** The calls this thread has returned from. */
  function Returned(th: Thread): int {
    if Inside(th) then th.entries - 1 else th.entries
  }

  /**
   Safety on every interleaving and through any number of wraps: no thread returns from its n-th wait
   before the other has entered its n-th wait, entry counts differ by at most one, and both counters
   stay within 0..max.
   */
  lemma BarrierSafety(max: int, sched: Schedule)
    requires max >= 2
    ensures
      var s := Run(max, sched);
      && Returned(s.a) <= s.b.entries && Returned(s.b) <= s.a.entries
      && s.a.entries <= s.b.entries + 1 && s.b.entries <= s.a.entries + 1
      && 0 <= s.a.mark <= max && 0 <= s.b.mark <= max
  {
    RunKeepsInv(max, sched);
  }

  // ----- Progress -----

  /** The condition under which the loop a thread is in goes round again, on the current counters. */
  predicate SpinsOn(max: int, me: Thread, peer: Thread) {
    if me.pc.Drain? then peer.mark > 1
    else if Ordinary(me.pc) then peer.mark < me.mark
    else Resetting(me.pc) && !me.pc.Zero? && 0 < peer.mark < max
  }

  /** In no reachable state do both threads spin: also in the middle of a reset one can move on. */
  lemma NoDeadlock(max: int, sched: Schedule)
    requires max >= 2
    ensures
      var s := Run(max, sched);
      !(SpinsOn(max, s.a, s.b) && SpinsOn(max, s.b, s.a))
  {
    RunKeepsInv(max, sched);
  }

  /**
   Steps left in the wait for a thread whose peer has arrived. A stale first load costs one more turn
   of the loop; storing zero costs the peer at most two, and is worth three.
   */
  function Rank(max: int, me: Thread, peer: Thread): nat {
    if me.entries > peer.entries then 0
    else match me.pc
      case Out => 0
      case Compare => 2
      case HaveOur(r) => if r < me.mark then 4 else 1
      case HaveOther(_) => 1
      case Spin => 3
      case Reset1 => if peer.mark == 0 then 5 else 6
      case Reset2 => if peer.mark == 0 then 7 else 5
      case ResetSpin => if peer.mark == 0 then 6 else 7
      case Zero => 4
      case Drain => 1
  }

  function Work(max: int, s: State): nat {
    Rank(max, s.a, s.b) + Rank(max, s.b, s.a)
  }

  /** The thread whose next step brings `t`, whose peer has arrived, nearer to the end of its wait. */
  function Mover(s: State, t: Tid): Tid {
    if s.Of(t).pc.Drain? && s.Of(Peer(t)).mark > 1 then Peer(t) else t
  }

  /** `t` is inside a wait that its peer has entered too. */
  ghost predicate Met(s: State, t: Tid) {
    Inside(s.Of(t)) && s.Of(t).entries <= s.Of(Peer(t)).entries
  }

  lemma MoverWorks(max: int, s: State, t: Tid, otherFirst: bool)
    requires max >= 2 && Inv(max, s) && Met(s, t)
    ensures Work(max, Step(max, s, Mover(s, t), otherFirst)) < Work(max, s)
  {
  }

  lemma StepKeepsMet(max: int, s: State, t: Tid, u: Tid, otherFirst: bool)
    requires max >= 2 && Inv(max, s) && Met(s, t)
    ensures
      var s' := Step(max, s, u, otherFirst);
      s'.Of(t).entries == s.Of(t).entries && (s'.Of(t).pc.Out? || Met(s', t))
  {
  }

  lemma StepAddsNoWork(max: int, s: State, t: Tid, u: Tid, otherFirst: bool)
    requires max >= 2 && Inv(max, s) && Met(s, t)
    ensures Work(max, Step(max, s, u, otherFirst)) <= Work(max, s)
  {
  }

  lemma MoverStays(max: int, s: State, t: Tid, u: Tid, otherFirst: bool)
    requires max >= 2 && Inv(max, s) && Met(s, t) && Work(max, Step(max, s, u, otherFirst)) == Work(max, s)
    ensures Mover(Step(max, s, u, otherFirst), t) == Mover(s, t)
  {
  }

  /**
   Any step keeps `t` in its wait or ends it, and never adds work; the mover's step removes work, and
   while no work is removed the mover stays the same thread.
   */
  lemma StepAdvances(max: int, s: State, t: Tid, u: Tid, otherFirst: bool, s': State)
    requires max >= 2 && Inv(max, s) && Met(s, t) && s' == Step(max, s, u, otherFirst)
    ensures s'.Of(t).entries == s.Of(t).entries && (s'.Of(t).pc.Out? || Met(s', t))
    ensures Work(max, s') <= Work(max, s)
    ensures u == Mover(s, t) ==> Work(max, s') < Work(max, s)
    ensures Work(max, s') == Work(max, s) ==> Mover(s', t) == Mover(s, t)
  {
    StepKeepsMet(max, s, t, u, otherFirst);
    StepAddsNoWork(max, s, t, u, otherFirst);
    MoverWorks(max, s, t, otherFirst);
    if Work(max, s') == Work(max, s) {
      MoverStays(max, s, t, u, otherFirst);
    }
    hide Inv, Work, Step, Met, Mover;
  }

  /** A thread that stays inside its wait never adds work. */
  lemma InsideStepAddsNoWork(max: int, s: State, u: Tid, otherFirst: bool)
    requires max >= 2 && Inv(max, s) && Inside(s.Of(u))
    ensures Work(max, Step(max, s, u, otherFirst)) <= Work(max, s)
  {
  }

  // ----- At most one thread counts spins -----

  /** A thread that found reason to spin was first to enter, or saw its peer already past the store. */
  ghost predicate SpinInv(me: Thread, peer: Thread, meFirst: bool) {
    && (me.entries == peer.entries + 1 ==> meFirst)
    && (me.entries == peer.entries && (me.pc.Spin? || (me.pc.HaveOur? && me.pc.r < me.mark)) ==> meFirst)
    && (me.entries == peer.entries && me.pc.ResetSpin? ==> meFirst || !Resetting(peer.pc))
  }

  ghost predicate FirstInv(s: State) {
    SpinInv(s.a, s.b, s.first == A) && SpinInv(s.b, s.a, s.first == B)
  }

  lemma StepKeepsFirst(max: int, s: State, t: Tid, otherFirst: bool)
    requires max >= 2 && Inv(max, s) && FirstInv(s)
    ensures FirstInv(Step(max, s, t, otherFirst))
  {
  }

  predicate Counting(pc: Pc) {
    pc.Spin? || pc.ResetSpin?
  }

  /** In one and the same round the two threads are never both in a spin-counting loop body. */
  lemma OneSpinner(max: int, s: State)
    requires max >= 2 && Inv(max, s) && FirstInv(s) && s.a.entries == s.b.entries
    ensures !(Counting(s.a.pc) && Counting(s.b.pc))
  {
  }

  // ----- Infinite fair runs -----

  ghost predicate IsRun(max: int, run: nat -> State, who: nat -> Tid, otherFirst: nat -> bool) {
    && run(0) == Init()
    && forall i: nat :: run(i + 1) == Step(max, run(i), who(i), otherFirst(i))
  }

  /** Neither thread is left unscheduled for ever. */
  ghost predicate Fair(who: nat -> Tid) {
    forall t: Tid, i: nat :: MovesFrom(who, t, i)
  }

  ghost predicate MovesFrom(who: nat -> Tid, t: Tid, i: nat) {
    exists j: nat :: i <= j && who(j) == t
  }

  lemma {:induction false} EveryStateKeepsInv(
    max: int, run: nat -> State, who: nat -> Tid, otherFirst: nat -> bool, i: nat)
    requires max >= 2 && IsRun(max, run, who, otherFirst)
    ensures Inv(max, run(i))
  {
    if i > 0 {
      EveryStateKeepsInv(max, run, who, otherFirst, i - 1);
      assert run((i - 1) + 1) == Step(max, run(i - 1), who(i - 1), otherFirst(i - 1));
      StepKeepsInv(max, run(i - 1), who(i - 1), otherFirst(i - 1));
    }
  }

  /**
   A wait that both threads have entered ends: under every fair schedule, from every reachable state,
   including the middle of a counter reset. With BarrierSafety, a wait ends exactly when the peer comes.
   */
  lemma {:induction false} WaitReturns(
    max: int, run: nat -> State, who: nat -> Tid, otherFirst: nat -> bool, t: Tid, i: nat)
    returns (k: nat)
    requires max >= 2 && IsRun(max, run, who, otherFirst) && Fair(who)
    requires Met(run(i), t)
    ensures i < k && run(k).Of(t).pc.Out? && run(k).Of(t).entries == run(i).Of(t).entries
    decreases Work(max, run(i)), 1, 0
  {
    assert MovesFrom(who, Mover(run(i), t), i);
    var j: nat :| i <= j && who(j) == Mover(run(i), t);
    k := WaitReturnsBy(max, run, who, otherFirst, t, i, j);
  }

  lemma {:induction false} WaitReturnsBy(
    max: int, run: nat -> State, who: nat -> Tid, otherFirst: nat -> bool, t: Tid, i: nat, j: nat)
    returns (k: nat)
    requires max >= 2 && IsRun(max, run, who, otherFirst) && Fair(who)
    requires Met(run(i), t) && i <= j && who(j) == Mover(run(i), t)
    ensures i < k && run(k).Of(t).pc.Out? && run(k).Of(t).entries == run(i).Of(t).entries
    decreases Work(max, run(i)), 0, j - i
  {
    EveryStateKeepsInv(max, run, who, otherFirst, i);
    StepAdvances(max, run(i), t, who(i), otherFirst(i), run(i + 1));
    if run(i + 1).Of(t).pc.Out? {
      k := i + 1;
    } else if Work(max, run(i + 1)) < Work(max, run(i)) {
      k := WaitReturns(max, run, who, otherFirst, t, i + 1);
    } else {
      k := WaitReturnsBy(max, run, who, otherFirst, t, i + 1, j);
    }
  }
}
