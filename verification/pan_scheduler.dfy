/**
 The main loop of pan/ltp-pan.c as it runs. Ghost fields record what was attempted, started and reaped; the
 invariant ties the counters to them through every round.
 */
module PanScheduler {
  import opened Wrappers
  import opened Pan

  // ----- The effect of one reported child -----

  /** The first slot of a process group, or the number of slots. */
  function SlotOf(slots: seq<Slot>, pid: nat): (i: nat)
    ensures i <= |slots| && (i < |slots| ==> slots[i].pgrp == pid)
    ensures forall j | 0 <= j < i :: slots[j].pgrp != pid
  {
    if slots == [] || slots[0].pgrp == pid then 0 else 1 + SlotOf(slots[1..], pid)
  }

  lemma SlotIs(slots: seq<Slot>, pid: nat, i: nat)
    requires i <= |slots| && (i < |slots| ==> slots[i].pgrp == pid) && forall j | 0 <= j < i :: slots[j].pgrp != pid
    ensures SlotOf(slots, pid) == i
  {
  }

  lemma FreeSlot(slots: seq<Slot>)
    ensures SlotOf(slots, 0) == |slots| <==> !Holds(slots, 0)
  {
    if SlotOf(slots, 0) < |slots| {
      assert slots[SlotOf(slots, 0)].pgrp == 0;
    }
  }

  /** The slots after a launch: a started child takes the first free one. */
  function Filled(slots: seq<Slot>, child: Option<nat>): seq<Slot> {
    var i := SlotOf(slots, 0);
    if child.None? || i == |slots| then slots else slots[i := Slot(child.value, false)]
  }

  /** The slots after wait reported something: the child's slot is free. */
  function Freed(slots: seq<Slot>, w: Wait): seq<Slot> {
    if w.NoChild? || SlotOf(slots, w.pid) == |slots| then slots
    else
      var i := SlotOf(slots, w.pid);
      slots[i := Slot(0, slots[i].stopping)]
  }

  /** A reported child has terminated if and only if it holds a slot. */
  predicate Honest(slots: seq<Slot>, w: Wait) {
    w.Child? ==> (Terminated(w) <==> Holds(slots, w.pid))
  }

  /** Does the report count as a failure? An expected signal, and exit 130 of a test told to stop, do not. */
  predicate Failed(slots: seq<Slot>, w: Wait) {
    w.Child? && FailedIn(if SlotOf(slots, w.pid) < |slots| then Some(slots[SlotOf(slots, w.pid)]) else None, w.status)
  }

  predicate FailedIn(slot: Option<Slot>, status: Status) {
    match status
    case Signaled(_) => slot.Some? && !slot.value.stopping
    case Exited(code) => code != 0 && code != TCONF && !(code == 130 && slot.Some? && slot.value.stopping)
    case Stopped(_) => true
    case Unknown => true
  }

  /** The return value of check_pids for a child, given the slot it was found in. */
  method Verdict(slot: Option<Slot>, status: Status) returns (err: bool)
    ensures err == FailedIn(slot, status)
  {
    var ret, code := 0, 0;
    match status {
      case Signaled(sig) => code := sig;
      case Exited(n) =>
        code := n;
        if code != 0 && code != TCONF {
          ret := ret + 1;
        }
      case Stopped(sig) => code, ret := sig, ret + 1;
      case Unknown => ret := ret + 1;
    }
    if slot.Some? {
      if code == 130 && slot.value.stopping && status.Exited? {
        ret := ret - 1;
      }
      if status.Signaled? && !slot.value.stopping {
        ret := ret + 1;
      }
    }
    err := ret != 0;
  }

  /** Freeing a slot takes one from the count exactly when the child held one. */
  lemma FreedCount(slots: seq<Slot>, w: Wait)
    requires w.Child? ==> w.pid > 0
    ensures Count(slots) == Count(Freed(slots, w)) + (if w.Child? && Holds(slots, w.pid) then 1 else 0)
  {
    if w.Child? {
      var i := SlotOf(slots, w.pid);
      if i < |slots| {
        assert Holds(slots, w.pid);
        CountUpdate(slots, i, Slot(0, slots[i].stopping));
      }
    }
  }

  /** The counter keeps matching the slots if and only if the report is honest. */
  lemma CounterFollowsSlots(slots: seq<Slot>, numActive: int, w: Wait)
    requires numActive == Count(slots) && (w.Child? ==> w.pid > 0)
    ensures numActive - (if Terminated(w) then 1 else 0) == Count(Freed(slots, w)) <==> Honest(slots, w)
  {
    FreedCount(slots, w);
  }

  class Scheduler {
    const keepActive: nat
    const sequential: bool
    const cnt: nat
    const hasBrakes: bool
    const trackExitStats: bool
    const running: array<Slot>

    var numActive: int
    var starts: int
    var c: nat
    var stop: nat
    var goIdle: nat
    var recSignal: nat
    var forkInRoad: bool
    var exitStat: nat

    /** The starts wanted at first. */
    ghost const initial: int
    /** The command of every attempt, in order. */
    ghost var attempts: seq<nat>
    ghost var launched: nat
    ghost var reaped: nat
    /** Every report of wait was honest. */
    ghost var honest: bool
    /** A signal came in, from outside or from the brakes. */
    ghost var interrupted: bool

    ghost predicate Shape()
      reads this, running
    {
      running.Length == keepActive && cnt > 0 && c < cnt && initial >= -1
    }

    /** The slot counter is exact and children are conserved, as long as wait is honest. */
    ghost predicate SlotsCounted()
      reads this, running
    {
      honest ==> numActive == Count(running[..]) && launched == reaped + numActive
    }

    /** Starts are conserved: in sequential mode every attempt uses one up, otherwise every launch. */
    ghost predicate StartsCounted()
      reads this
    {
      && launched <= |attempts|
      && (initial == -1 ==> starts == -1)
      && (initial >= 0 ==> 0 <= starts && starts + (if sequential then |attempts| else launched) == initial)
    }

    /** In sequential mode attempt k runs command k modulo the number of commands. */
    ghost predicate InOrder()
      reads this
      requires cnt > 0
    {
      sequential ==>
        c == Command(|attempts|, cnt) && forall k | 0 <= k < |attempts| :: attempts[k] == Command(k, cnt)
    }

    /** With a finite number of starts, only a signal stops pan early. */
    ghost predicate StopsForAReason()
      reads this
    {
      && (recSignal != 0 ==> interrupted)
      && (initial >= 0 && stop > 0 && !interrupted ==> starts == 0)
    }

    ghost predicate Inv()
      reads this, running
    {
      Shape() && SlotsCounted() && StartsCounted() && InOrder() && StopsForAReason()
    }

    constructor (
        keepActive: nat, sequential: bool, cnt: nat, timed: bool, wanted: int, forkInRoad: bool, hasBrakes: bool,
        trackExitStats: bool)
      requires cnt > 0
      ensures Inv() && fresh(running) && honest && !interrupted && attempts == [] && launched == 0
      ensures this.keepActive == keepActive && this.sequential == sequential && this.cnt == cnt
      ensures initial == starts == Starts(timed, wanted, sequential, cnt, keepActive)
      ensures numActive == 0 && stop == 0 && forall i | 0 <= i < keepActive :: running[i] == Slot(0, false)
    {
      this.keepActive, this.sequential, this.cnt := keepActive, sequential, cnt;
      this.hasBrakes, this.trackExitStats, this.forkInRoad := hasBrakes, trackExitStats, forkInRoad;
      running := new Slot[keepActive](_ => Slot(0, false));
      initial := Starts(timed, wanted, sequential, cnt, keepActive);
      starts := Starts(timed, wanted, sequential, cnt, keepActive);
      numActive, c, stop, goIdle, recSignal, exitStat := 0, 0, 0, 0, 0, 0;
      attempts, launched, reaped, honest, interrupted := [], 0, 0, true, false;
      new;
      CountOfNone(running[..]);
    }

    /** The effect of wait_handler on the scheduler. */
    method Signal(sig: nat)
      modifies this`recSignal, this`interrupted
      ensures sig == 0 ==> recSignal == old(recSignal) && interrupted == old(interrupted)
      ensures sig != 0 ==> recSignal == sig && interrupted
    {
      if sig != 0 {
        recSignal, interrupted := sig, true;
      }
    }

    /** The search for a process group among the slots. */
    method SearchSlot(pgrp: nat) returns (i: nat)
      requires running.Length == keepActive
      ensures i == SlotOf(running[..], pgrp) <= keepActive
    {
      i := 0;
      while i < keepActive && running[i].pgrp != pgrp
        invariant i <= keepActive && forall j | 0 <= j < i :: running[j].pgrp != pgrp
      {
        i := i + 1;
      }
      SlotIs(running[..], pgrp, i);
    }

    /** The search for a free slot. */
    method FindSlot() returns (i: nat)
      requires running.Length == keepActive
      ensures i == SlotOf(running[..], 0) <= keepActive
      ensures i == keepActive <==> !Holds(running[..], 0)
    {
      i := SearchSlot(0);
      FreeSlot(running[..]);
    }

    /** The effect of run_child on the slot: taken if the child was started. */
    method RunChild(i: nat, child: Option<nat>)
      requires i < running.Length && running[i].pgrp == 0 && (child.Some? ==> child.value > 0)
      modifies running
      ensures running[..] == if child.Some? then old(running[..])[i := Slot(child.value, false)] else old(running[..])
      ensures Count(running[..]) == Count(old(running[..])) + (if child.Some? then 1 else 0)
    {
      if child.Some? {
        CountUpdate(running[..], i, Slot(child.value, false));
        ghost var slots := running[..][i := Slot(child.value, false)];
        running[i] := Slot(child.value, false);
        assert running[..] == slots;
      }
    }

    /** The counters after an attempt at command `cmd`. */
    method Record(cmd: nat, child: Option<nat>)
      requires Shape() && StartsCounted() && InOrder() && StopsForAReason() && starts != 0 && stop == 0
      requires cmd < cnt && (sequential ==> cmd == c)
      requires
        honest ==> launched == reaped + numActive && numActive + (if child.Some? then 1 else 0) == Count(running[..])
      modifies this`numActive, this`starts, this`c, this`attempts, this`launched
      ensures Inv() && attempts == old(attempts) + [cmd]
      ensures numActive == old(numActive) + (if child.Some? then 1 else 0)
      ensures launched == old(launched) + (if child.Some? then 1 else 0)
      ensures starts == old(starts) - (if old(starts) > 0 && (child.Some? || sequential) then 1 else 0)
    {
      hide Count;
      c := cmd;
      attempts := attempts + [cmd];
      if child.Some? {
        numActive, launched := numActive + 1, launched + 1;
      }
      if (child.Some? || sequential) && starts > 0 {
        starts := starts - 1;
      }
      if sequential {
        c := if c + 1 >= cnt then 0 else c + 1;
      }
    }

    /** One pass of the filling loop. The abort for want of a slot is taken only after a dishonest report. */
    method Attempt(l: Launch) returns (aborted: bool)
      requires Inv() && numActive < keepActive && starts != 0 && stop == 0
      requires l.child.Some? ==> l.child.value > 0
      modifies this`numActive, this`starts, this`c, this`recSignal, this`exitStat
      modifies this`attempts, this`launched, this`interrupted, running
      ensures Inv() && (honest ==> !aborted)
      ensures aborted <==> !Holds(old(running[..]), 0)
      ensures
        aborted ==>
          && attempts == old(attempts) && numActive == old(numActive) && starts == old(starts)
          && running[..] == old(running[..]) && recSignal == SIGINT
      ensures
        !aborted ==>
          && attempts == old(attempts) + [if sequential then old(c) else l.pick % cnt]
          && numActive == old(numActive) + (if l.child.Some? then 1 else 0)
          && launched == old(launched) + (if l.child.Some? then 1 else 0)
          && starts == old(starts) - (if old(starts) > 0 && (l.child.Some? || sequential) then 1 else 0)
          && running[..] == Filled(old(running[..]), l.child) && recSignal == old(recSignal)
    {
      hide Count, Holds;
      aborted := false;
      var cmd := if sequential then c else l.pick % cnt;
      var i := FindSlot();
      CountIsFull(running[..]);
      if i == keepActive {
        c := cmd;
        Signal(SIGINT);
        exitStat := exitStat + 1;
        return true;
      }
      RunChild(i, l.child);
      Record(cmd, l.child);
    }

    /** The filling loop, for as many attempts as are given. */
    method Fill(launches: seq<Launch>)
      requires Inv() && forall l | l in launches :: l.child.Some? ==> l.child.value > 0
      modifies this`numActive, this`starts, this`c, this`recSignal, this`exitStat
      modifies this`attempts, this`launched, this`interrupted, running
      ensures Inv() && old(attempts) <= attempts
      ensures old(stop) > 0 || old(goIdle) > 0 || old(recSignal) > 0 ==> attempts == old(attempts)
    {
      hide Count, Command;
      var k := 0;
      while k < |launches| && numActive < keepActive && starts != 0
        invariant Inv() && k <= |launches| && old(attempts) <= attempts
        invariant k > 0 ==> stop == 0 && goIdle == 0 && old(recSignal) == 0
        invariant k == 0 ==> attempts == old(attempts) && recSignal == old(recSignal)
        decreases |launches| - k
      {
        Signal(launches[k].signal);
        if stop > 0 || recSignal > 0 || goIdle > 0 {
          break;
        }
        var aborted := Attempt(launches[k]);
        if aborted {
          break;
        }
        k := k + 1;
      }
    }

    /** propagate_signal: every occupied slot is marked as stopping. */
    method PropagateSignal()
      requires running.Length == keepActive
      modifies this`recSignal, running
      ensures recSignal == 0
      ensures
        forall i | 0 <= i < keepActive ::
          running[i] == (var s := old(running[i]); if s.pgrp == 0 then s else Slot(s.pgrp, true))
    {
      var i := 0;
      while i < keepActive
        invariant i <= keepActive
        invariant
          forall j | 0 <= j < i ::
            running[j] == (var s := old(running[j]); if s.pgrp == 0 then s else Slot(s.pgrp, true))
        invariant forall j | i <= j < keepActive :: running[j] == old(running[j])
      {
        if running[i].pgrp != 0 {
          running[i] := running[i].(stopping := true);
        }
        i := i + 1;
      }
      recSignal := 0;
    }

    /** The part of a round that answers a received signal. */
    method AnswerSignal()
      requires Inv()
      modifies this`recSignal, this`stop, this`goIdle, this`forkInRoad, running
      ensures Inv() && recSignal == 0 && stop >= old(stop)
      ensures old(recSignal) == 0 ==> stop == old(stop) && goIdle == old(goIdle) && running[..] == old(running[..])
      ensures old(recSignal) != 0 ==> if forkInRoad then goIdle == old(goIdle) + 1 else stop == old(stop) + 1
      ensures old(recSignal) != 0 ==> stop + goIdle == old(stop) + old(goIdle) + 1
      ensures forkInRoad == (old(forkInRoad) && old(recSignal) != SIGUSR1)
    {
      if recSignal != 0 {
        if recSignal == SIGUSR2 {
          recSignal := 0;
        } else {
          if recSignal == SIGUSR1 {
            forkInRoad := false;
          }
          PropagateSignal();
          CountOfSame(old(running[..]), running[..]);
        }
        if forkInRoad {
          goIdle := goIdle + 1;
        } else {
          stop := stop + 1;
        }
      }
    }

    /** The part of check_pids that finds the slot of a reported child, judges its end and frees the slot. */
    method Release(w: Wait) returns (err: bool)
      requires running.Length == keepActive && w.Child?
      modifies running
      ensures running[..] == Freed(old(running[..]), w) && err == Failed(old(running[..]), w)
    {
      hide FailedIn;
      ghost var slots := running[..];
      var i := SearchSlot(w.pid);
      err := Verdict(if i < keepActive then Some(running[i]) else None, w.status);
      if i < keepActive {
        running[i] := running[i].(pgrp := 0);
      }
      assert running[..] == Freed(slots, w);
    }

    /** check_pids: the slot and counter effects of one report of wait. */
    method CheckPids(w: Wait) returns (err: bool)
      requires Inv() && (w.Child? ==> w.pid > 0)
      modifies this`numActive, this`reaped, this`honest, running
      ensures Inv() && honest == (old(honest) && Honest(old(running[..]), w))
      ensures running[..] == Freed(old(running[..]), w) && err == Failed(old(running[..]), w)
      ensures numActive == old(numActive) - (if Terminated(w) then 1 else 0)
    {
      hide Count, Command, Holds, SlotOf, FailedIn;
      FreedCount(running[..], w);
      honest := honest && Honest(running[..], w);
      if w.NoChild? {
        return false;
      }
      if w.status.Signaled? || w.status.Exited? {
        numActive, reaped := numActive - 1, reaped + 1;
      }
      err := Release(w);
    }

    method CountStop(stopFile: bool)
      requires Inv()
      modifies this`stop
      ensures Inv() && stop == old(stop) + (if starts == 0 || (starts == -1 && stopFile) then 1 else 0)
    {
      if starts == 0 {
        stop := stop + 1;
      } else if starts == -1 {
        if stopFile {
          stop := stop + 1;
        }
      }
    }

    /** What a failure leads to. */
    method React(err: bool)
      requires Inv()
      modifies this`goIdle, this`exitStat, this`recSignal, this`interrupted
      ensures Inv() && (!err ==> recSignal == old(recSignal) && goIdle == old(goIdle))
      ensures err && hasBrakes ==> recSignal == SIGINT
    {
      if err {
        if forkInRoad {
          goIdle := goIdle + 1;
        }
        if trackExitStats {
          exitStat := exitStat + 1;
        }
        if hasBrakes {
          Signal(SIGINT);
        }
      }
    }

    /** The end of a round: leave, or resume scheduling once idle. */
    method Settle() returns (done: bool)
      requires Inv()
      modifies this`goIdle
      ensures Inv() && (done <==> stop > 0 && numActive == 0)
      ensures goIdle == if !done && numActive == 0 then 0 else old(goIdle)
    {
      done := stop > 0 && numActive == 0;
      if !done && goIdle > 0 && numActive == 0 {
        goIdle := 0;
      }
    }

    /** A signal that arrives before the round looks for one. */
    method Deliver(sig: nat)
      requires Inv()
      modifies this`recSignal, this`interrupted
      ensures Inv() && recSignal == if sig == 0 then old(recSignal) else sig
    {
      Signal(sig);
    }

    /** One round of the main loop; `done` when it is left. */
    method OneRound(r: Round) returns (done: bool)
      requires Inv() && GoodRound(r)
      modifies this, running
      ensures Inv() && old(attempts) <= attempts && (honest ==> old(honest))
      ensures done <==> stop > 0 && numActive == 0
    {
      Fill(r.launches) by {
        assert GoodRound(r);
      }
      hide Inv, Honest, Freed, Failed;
      CountStop(r.stopFile);
      Deliver(r.signal);
      AnswerSignal();
      var err := CheckPids(r.wait);
      React(err);
      done := Settle();
    }

    /**
     Any run, however the launches, signals and reports fall. When pan leaves its loop after honest reports, no
     slot is in use and every child started was reaped; when no signal came either, a finite number of starts
     was used up exactly.
     */
    method Run(rounds: seq<Round>) returns (done: bool)
      requires Inv() && forall r | r in rounds :: GoodRound(r)
      modifies this, running
      ensures Inv() && old(attempts) <= attempts
      ensures honest ==> numActive == Count(running[..]) <= keepActive
      ensures sequential ==> forall k | 0 <= k < |attempts| :: attempts[k] == k % cnt
      ensures done && honest ==> launched == reaped && forall i | 0 <= i < keepActive :: running[i].pgrp == 0
      ensures done && !interrupted && initial >= 0 ==> (if sequential then |attempts| else launched) == initial
    {
      var k := 0;
      done := false;
      while k < |rounds| && !done
        invariant Inv() && k <= |rounds| && old(attempts) <= attempts
        invariant done ==> stop > 0 && numActive == 0
        decreases |rounds| - k
      {
        assert GoodRound(rounds[k]);
        done := OneRound(rounds[k]);
        k := k + 1;
      }
      forall k | 0 <= k < |attempts| ensures Command(k, cnt) == k % cnt {
        CommandIsModulo(k, cnt);
      }
      CountIsFull(running[..]);
      if done && honest {
        CountIsZero(running[..]);
        assert forall i | 0 <= i < keepActive :: running[i] == running[..][i];
      }
    }
  }

  /**
   A dishonest report: wait tells of the end of a process that holds no slot, such as a child from before pan was
   executed in its place. The counter no longer matches the slots, and the next attempt aborts for want of one.
   */
  method DishonestReport() returns (pan: Scheduler, aborted: bool)
    ensures aborted && !pan.honest && pan.numActive == 0 && pan.running[..] == [Slot(7, false)]
  {
    pan := new Scheduler(1, true, 1, false, 2, false, false, false);
    var slots := pan.running[..];
    assert slots == [Slot(0, false)];
    aborted := pan.Attempt(Launch(0, 0, Some(7)));
    assert pan.running[..] == [Slot(7, false)];
    var err := pan.CheckPids(Child(9, Exited(0)));
    assert pan.running[..] == [Slot(7, false)];
    aborted := pan.Attempt(Launch(0, 0, Some(8)));
  }

  /** Process numbers are positive. */
  predicate GoodRound(r: Round) {
    && (r.wait.Child? ==> r.wait.pid > 0)
    && forall l | l in r.launches :: l.child.Some? ==> l.child.value > 0
  }
}
