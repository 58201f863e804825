/**
 When the two race loops end. With a further wait in the body every fair run ends; without one there is a fair run
 on which B has left and A waits for ever.
 */
module RaceTermination {
  import opened Barrier
  import opened RaceLoops

  // ----- The core of the loops is a run of the barrier, however many waits there are -----

  lemma {:induction false} RunKeepsCore(c: Config, sched: seq<(Tid, Choice)>)
    requires c.max >= 2 && c.waits > 0
    ensures Inv(c.max, LRun(c, sched).core)
    decreases |sched|
  {
    if sched != [] {
      var init, last := sched[..|sched| - 1], sched[|sched| - 1];
      RunKeepsCore(c, init);
      StepKeepsInv(c.max, LRun(c, init).core, last.0, last.1.otherFirst);
      hide Inv, Step;
    }
  }

  // ----- B has left and A waits -----

  /** A is about to enter its second wait or in it, and B has left after its first. */
  ghost predicate Stuck(s: LState) {
    && s.pb.loc.Done? && s.core.b.entries == 1 && s.pa.loc == Wait(0)
    && s.core.a.entries == if s.core.a.pc.Out? then 1 else 2
  }

  lemma StuckStays(c: Config, s: LState, t: Tid, ch: Choice)
    requires c.max >= 2 && Inv(c.max, s.core) && Stuck(s)
    ensures Stuck(LStep(c, s, t, ch))
  {
    if t == A {
      StepKeepsInv(c.max, s.core, A, ch.otherFirst);
      BarrierIsClose(c.max, Step(c.max, s.core, A, ch.otherFirst));
      StepMoves(c.max, s.core, A, ch.otherFirst);
      hide Inv, Step;
    }
  }

  // ----- An infinite fair run from a schedule -----

  /** The schedule, and then both threads in turn. */
  function Move(sched: seq<(Tid, Choice)>, i: nat): (Tid, Choice) {
    if i < |sched| then sched[i] else (if (i - |sched|) % 2 == 0 then A else B, Choice(false, false))
  }

  function Moves(sched: seq<(Tid, Choice)>, n: nat): (r: seq<(Tid, Choice)>)
    ensures |r| == n && forall i | 0 <= i < n :: r[i] == Move(sched, i)
  {
    if n == 0 then [] else Moves(sched, n - 1) + [Move(sched, n - 1)]
  }

  lemma MovesNext(c: Config, sched: seq<(Tid, Choice)>, i: nat)
    requires c.waits > 0
    ensures
      LRun(c, Moves(sched, i + 1)) == LStep(c, LRun(c, Moves(sched, i)), Move(sched, i).0, Move(sched, i).1)
  {
    var longer := Moves(sched, i + 1);
    assert longer[..|longer| - 1] == Moves(sched, i);
    hide LStep, Moves;
  }

  lemma {:induction false} StuckFromThere(c: Config, sched: seq<(Tid, Choice)>, i: nat)
    requires c.max >= 2 && c.waits == 1 && Stuck(LRun(c, sched)) && |sched| <= i
    ensures Stuck(LRun(c, Moves(sched, i)))
    decreases i
  {
    hide LRun, LStep, Moves, Stuck, Inv;
    if i == |sched| {
      assert Moves(sched, i) == sched;
    } else {
      StuckFromThere(c, sched, i - 1);
      RunKeepsCore(c, Moves(sched, i - 1));
      MovesNext(c, sched, i - 1);
      StuckStays(c, LRun(c, Moves(sched, i - 1)), Move(sched, i - 1).0, Move(sched, i - 1).1);
    }
  }

  lemma FinishedStays(c: Config, s: LState, t: Tid, ch: Choice)
    requires Finished(s)
    ensures LStep(c, s, t, ch) == s
  {
  }

  /** A run that has finished at i has finished at every later step, also where it would be stuck. */
  lemma {:induction false} NeverFinished(c: Config, sched: seq<(Tid, Choice)>, i: nat)
    requires c.max >= 2 && c.waits == 1 && Stuck(LRun(c, sched))
    ensures !Finished(LRun(c, Moves(sched, i)))
    decreases |sched| - i
  {
    if |sched| <= i {
      StuckFromThere(c, sched, i);
    } else {
      NeverFinished(c, sched, i + 1);
      MovesNext(c, sched, i);
      hide LRun, Moves, LStep, Stuck;
      if Finished(LRun(c, Moves(sched, i))) {
        FinishedStays(c, LRun(c, Moves(sched, i)), Move(sched, i).0, Move(sched, i).1);
      }
    }
  }

  lemma InTurnIsFair(sched: seq<(Tid, Choice)>, t: Tid, i: nat)
    ensures exists j: nat :: i <= j && Move(sched, j).0 == t
  {
    var j := |sched| + 2 * i + (if t == A then 0 else 1);
    assert (j - |sched|) % 2 == if t == A then 0 else 1;
    assert i <= j && Move(sched, j).0 == t;
  }

  /** With one wait there is a fair run that never ends. */
  lemma SingleWaitNeedNotEnd(c: Config) returns (run: nat -> LState, who: nat -> Tid, ch: nat -> Choice)
    requires c.max >= 2 && c.waits == 1 && c.loops >= 1
    ensures IsLRun(c, run, who, ch) && Fair(who) && forall k: nat :: !Finished(run(k))
  {
    var sched := SingleWaitDisagrees(c);
    hide LRun, LStep;
    run := (i: nat) => LRun(c, Moves(sched, i));
    who := (i: nat) => Move(sched, i).0;
    ch := (i: nat) => Move(sched, i).1;
    StartOfRun(c, sched);
    forall i: nat ensures run(i + 1) == LStep(c, run(i), who(i), ch(i)) {
      MovesNext(c, sched, i);
    }
    forall t: Tid, i: nat ensures MovesFrom(who, t, i) {
      InTurnIsFair(sched, t, i);
      var j: nat :| i <= j && Move(sched, j).0 == t;
      assert who(j) == t;
    }
    forall k: nat ensures !Finished(run(k)) {
      NeverFinished(c, sched, k);
    }
  }

  lemma StartOfRun(c: Config, sched: seq<(Tid, Choice)>)
    requires c.waits > 0
    ensures LRun(c, Moves(sched, 0)) == LInit(c)
  {
  }

  ghost predicate Ends(run: nat -> LState) {
    exists k: nat :: Finished(run(k))
  }

  /** Every fair run of the loops ends, if and only if the body holds a further wait. */
  lemma TerminationIff(c: Config)
    requires c.max >= 2 && c.waits >= 1 && c.loops >= 1
    ensures (forall run, who, ch | IsLRun(c, run, who, ch) && Fair(who) :: Ends(run)) <==> c.waits >= 2
  {
    if c.waits >= 2 {
      forall run, who, ch | IsLRun(c, run, who, ch) && Fair(who) ensures Ends(run) {
        var k := LoopsTerminate(c, run, who, ch, 0);
      }
    } else {
      var run, who, ch := SingleWaitNeedNotEnd(c);
      assert !Ends(run);
    }
  }
}
