/**
 The scheduler of pan/ltp-pan.c. Process slots are filled and freed round by round; whether a launch succeeds,
 which signals arrive and what wait reports come from outside and can be anything.
 */
module Pan {
  import opened Wrappers

  const SIGINT := 2
  const SIGUSR1 := 10
  const SIGUSR2 := 12
  const SIGALRM := 14
  const SIGTERM := 15
  const TCONF := 32

  // ----- What happens outside -----

  /** One launch attempt: a signal that arrives first (0 for none), the random choice, and the child if it starts. */
  datatype Launch = Launch(signal: nat, pick: nat, child: Option<nat>)

  datatype Status = Signaled(sig: nat) | Exited(code: nat) | Stopped(sig: nat) | Unknown

  /** What wait reports: nothing, or a child with its status. */
  datatype Wait = NoChild | Child(pid: nat, status: Status)

  /** One round of the main loop. */
  datatype Round = Round(launches: seq<Launch>, stopFile: bool, signal: nat, wait: Wait)

  predicate Terminated(w: Wait) {
    w.Child? && (w.status.Signaled? || w.status.Exited?)
  }

  // ----- Slots -----

  /** `pgrp` is 0 in a free slot. */
  datatype Slot = Slot(pgrp: nat, stopping: bool)

  function Count(slots: seq<Slot>): nat {
    if slots == [] then 0 else Count(slots[1..]) + (if slots[0].pgrp != 0 then 1 else 0)
  }

  predicate Holds(slots: seq<Slot>, pid: nat) {
    exists i | 0 <= i < |slots| :: slots[i].pgrp == pid
  }

  lemma {:induction false} CountUpdate(slots: seq<Slot>, i: nat, x: Slot)
    requires i < |slots|
    ensures
      Count(slots[i := x]) + (if slots[i].pgrp != 0 then 1 else 0) == Count(slots) + (if x.pgrp != 0 then 1 else 0)
  {
    if i == 0 {
      assert slots[i := x][1..] == slots[1..];
    } else {
      CountUpdate(slots[1..], i - 1, x);
      assert slots[i := x][1..] == slots[1..][i - 1 := x];
    }
  }

  /** The count is full exactly when no slot is free. */
  lemma {:induction false} CountIsFull(slots: seq<Slot>)
    ensures Count(slots) <= |slots|
    ensures Count(slots) == |slots| <==> !Holds(slots, 0)
  {
    if slots != [] {
      CountIsFull(slots[1..]);
      if Holds(slots, 0) {
        var i :| 0 <= i < |slots| && slots[i].pgrp == 0;
        assert i > 0 ==> slots[1..][i - 1].pgrp == 0;
      }
      if Holds(slots[1..], 0) {
        var i :| 0 <= i < |slots[1..]| && slots[1..][i].pgrp == 0;
        assert slots[i + 1].pgrp == 0;
      }
    }
  }

  lemma {:induction false} CountIsZero(slots: seq<Slot>)
    requires Count(slots) == 0
    ensures forall i | 0 <= i < |slots| :: slots[i].pgrp == 0
  {
    if slots != [] {
      CountIsZero(slots[1..]);
      assert forall i | 0 < i < |slots| :: slots[i] == slots[1..][i - 1];
    }
  }

  lemma {:induction false} CountOfNone(slots: seq<Slot>)
    requires forall i | 0 <= i < |slots| :: slots[i].pgrp == 0
    ensures Count(slots) == 0
  {
    if slots != [] {
      CountOfNone(slots[1..]);
    }
  }

  /** Marking slots as stopping frees none and fills none. */
  lemma {:induction false} CountOfSame(s: seq<Slot>, t: seq<Slot>)
    requires |s| == |t| && forall i | 0 <= i < |s| :: s[i].pgrp == t[i].pgrp
    ensures Count(s) == Count(t)
  {
    if s != [] {
      CountOfSame(s[1..], t[1..]);
    }
  }

  // ----- The order of the commands in sequential mode -----

  /** The command that attempt k runs. */
  function Command(k: nat, cnt: nat): (c: nat)
    requires cnt > 0
    ensures c < cnt
  {
    if k == 0 then 0 else var c := Command(k - 1, cnt); if c + 1 >= cnt then 0 else c + 1
  }

  lemma {:induction false} CommandIsModulo(k: nat, cnt: nat)
    requires cnt > 0
    ensures Command(k, cnt) == k % cnt
  {
    if k > 0 {
      CommandIsModulo(k - 1, cnt);
      StepModulo(k - 1, cnt);
    } else {
      assert 0 % cnt == 0;
    }
  }

  lemma StepModulo(k: nat, cnt: nat)
    requires cnt > 0
    ensures (k + 1) % cnt == if k % cnt + 1 >= cnt then 0 else k % cnt + 1
  {
    var q, r := k / cnt, k % cnt;
    assert k == q * cnt + r;
    if r + 1 == cnt {
      assert k + 1 == (q + 1) * cnt;
      ModuloIs(k + 1, cnt, q + 1, 0);
    } else {
      ModuloIs(k + 1, cnt, q, r + 1);
    }
  }

  lemma Multiple(d: int, cnt: nat)
    ensures d >= 1 ==> d * cnt >= cnt
    ensures d <= -1 ==> d * cnt + cnt <= 0
  {
    if d >= 1 {
      assert (d - 1) * cnt >= 0;
    } else if d <= -1 {
      assert (-1 - d) * cnt >= 0;
    }
  }

  lemma ModuloIs(n: nat, cnt: nat, q: nat, r: nat)
    requires r < cnt && n == q * cnt + r
    ensures n % cnt == r
  {
    var q', r' := n / cnt, n % cnt;
    assert n == q' * cnt + r' && 0 <= r' < cnt;
    assert (q - q') * cnt == q * cnt - q' * cnt == r' - r;
    Multiple(q - q', cnt);
  }

  // ----- Defaults -----

  /** How many starts are wanted; -1 is infinite. */
  function Starts(timed: bool, starts: int, sequential: bool, cnt: nat, keepActive: nat): (n: int)
    ensures n >= -1 && (n == -1 <==> starts == 0 || (timed && starts == -1))
    ensures starts > 0 ==> keepActive <= n && starts <= n && (n == starts || n == keepActive)
    ensures starts == -1 && !timed ==> n == if sequential then cnt else 1
  {
    if timed && starts == -1 then -1
    else if starts == -1 then if sequential then cnt else 1
    else if starts == 0 then -1
    else if starts < keepActive then keepActive
    else starts
  }
}
