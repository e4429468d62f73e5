/**
 The round-robin scheduler of kern/schedule/sched.c.
 */
module Scheduler {
  import opened Lists

  type Id = nat

  // PROC_UNINIT, PROC_SLEEPING, PROC_RUNNABLE and PROC_ZOMBIE
  datatype Phase = Uninit | Sleeping | Runnable | Zombie

  type Phases = map<Id, Phase>

  predicate Ready(phase: Phases, p: Id) { p in phase && phase[p] == Runnable }

  // proc_list is a ring of its processes and its head; positions below n are processes, position n is the head.
  function NextPos(n: nat, i: nat): nat { if i >= n then 0 else i + 1 }

  // How many list_next steps lead from one position to another, once round at most
  function Steps(n: nat, from: nat, to: nat): int { if to > from then to - from else to + n + 1 - from }

  // How many processes are looked at on the way, the last one included
  function Wait(n: nat, from: nat, to: nat): int {
    if from == n then to + 1 else if to > from then to - from else to + n - from
  }

  // Position i holds the first runnable process after position last, or from the start of the list on if there is none.
  ghost predicate Picks(list: seq<Id>, phase: Phases, last: nat, i: nat) {
    i < |list| && Ready(phase, list[i])
    && forall j :: 0 <= j < |list| && Ready(phase, list[j]) ==> if j > last then last < i <= j else i > last || i <= j
  }

  ghost predicate NoneReady(list: seq<Id>, phase: Phases) { forall j :: 0 <= j < |list| ==> !Ready(phase, list[j]) }

  // The position schedule starts from: the head for the idle process
  ghost predicate IsLast(list: seq<Id>, idle: Id, current: Id, last: nat) {
    if current == idle then last == |list| else last < |list| && list[last] == current
  }

  // What a call of schedule makes the current process
  ghost predicate Chooses(list: seq<Id>, phase: Phases, idle: Id, current: Id, next: Id) {
    if next == idle then NoneReady(list, phase)
    else exists last: nat, i: nat :: IsLast(list, idle, current, last) && Picks(list, phase, last, i) && next == list[i]
  }

  class Cpu {
    var list: seq<Id>
    var phase: Phases
    var runs: map<Id, nat>
    var needResched: map<Id, bool>
    var current: Id
    const idle: Id

    constructor (idle: Id)
      ensures Valid() && list == [] && current == idle == this.idle
    {
      this.idle, current := idle, idle;
      list, phase, runs, needResched := [], map[idle := Runnable], map[idle := 0], map[];
    }

    ghost predicate Valid()
      reads this
    {
      NoDup(list) && idle !in list && (current == idle || current in list)
      && idle in phase && idle in runs && (forall p :: p in list ==> p in phase && p in runs)
    }

    // wakeup_proc
    method WakeupProc(p: Id)
      requires Valid() && p in phase && phase[p] != Zombie && phase[p] != Runnable
      modifies this`phase
      ensures Valid() && phase == old(phase)[p := Runnable]
    {
      phase := phase[p := Runnable];
    }

    // &(current->list_link)
    method PosOf(p: Id) returns (i: nat)
      requires p in list
      ensures i < |list| && list[i] == p
    {
      i := 0;
      while list[i] != p
        invariant i < |list| && p !in list[..i]
        decreases |list| - i
      {
        assert p in list[i + 1..];
        i := i + 1;
      }
    }

    // The do-while loop of schedule
    method Scan(last: nat) returns (next: Id)
      requires Valid() && last <= |list|
      ensures next == idle ==> NoneReady(list, phase)
      ensures next != idle ==> exists i: nat :: Picks(list, phase, last, i) && next == list[i]
    {
      var n: nat, le: nat := |list|, last;
      ghost var d: nat := 0;
      while true
        invariant 0 <= d <= n && le <= n && (if d == 0 then le == last else Steps(n, last, le) == d)
        invariant forall j :: 0 <= j < n && Steps(n, last, j) <= d ==> !Ready(phase, list[j])
        decreases n + 1 - d
      {
        le := NextPos(n, le);
        d := d + 1;
        assert Steps(n, last, le) == d;
        if le < n && Ready(phase, list[le]) {
          assert Picks(list, phase, last, le);
          return list[le];
        }
        if le == last {
          assert d == n + 1;
          return idle;
        }
      }
    }

    // schedule
    method Schedule()
      requires Valid()
      modifies this`current, this`runs, this`needResched
      ensures Valid() && Chooses(list, phase, idle, old(current), current)
      ensures current in old(runs) && runs == old(runs)[current := old(runs)[current] + 1]
      ensures needResched == old(needResched)[old(current) := false]
    {
      needResched := needResched[current := false];
      var last := |list|;
      if current != idle {
        last := PosOf(current);
      }
      assert IsLast(list, idle, current, last);
      var next := Scan(last);
      runs := runs[next := runs[next] + 1];
      current := next;
    }
  }

  // ---------- bounded waiting ----------

  // Whatever is chosen before a runnable process leaves it with less to wait for.
  lemma WaitShrinks(list: seq<Id>, phase: Phases, last: nat, i: nat, j: nat)
    requires last <= |list| && Picks(list, phase, last, i) && j < |list| && Ready(phase, list[j])
    ensures i == j || 0 < Wait(|list|, i, j) < Wait(|list|, last, j)
  {
  }

  lemma ChoosesPosition(list: seq<Id>, phase: Phases, idle: Id, current: Id, next: Id, last: nat, j: nat) returns (i: nat)
    requires NoDup(list) && idle !in list && IsLast(list, idle, current, last) && Chooses(list, phase, idle, current, next)
    requires j < |list| && Ready(phase, list[j])
    ensures i < |list| && next == list[i] && Picks(list, phase, last, i)
  {
    var last0: nat, i0: nat :| IsLast(list, idle, current, last0) && Picks(list, phase, last0, i0) && next == list[i0];
    assert last0 == last;
    i := i0;
  }

  /** On a fixed list, whatever the other processes' phases do between the calls, a process that stays runnable is chosen
      within as many calls as there are processes from the current one round to it, and so within |list| calls. */
  lemma {:induction false} BoundedWaiting(list: seq<Id>, idle: Id, phases: seq<Phases>, run: seq<Id>, last: nat, j: nat)
    returns (k: nat)
    requires NoDup(list) && idle !in list && j < |list| && |phases| >= Wait(|list|, last, j) && |run| == |phases| + 1
    requires last <= |list| && IsLast(list, idle, run[0], last)
    requires forall t {:trigger phases[t]} :: 0 <= t < |phases| ==>
               Ready(phases[t], list[j]) && Chooses(list, phases[t], idle, run[t], run[t + 1])
    ensures 0 < k <= Wait(|list|, last, j) <= |list| && k < |run| && run[k] == list[j]
    decreases Wait(|list|, last, j)
  {
    var phase := phases[0];
    var i := ChoosesPosition(list, phase, idle, run[0], run[1], last, j);
    WaitShrinks(list, phase, last, i, j);
    k := 1;
    if i != j {
      var phases', run' := phases[1..], run[1..];
      forall t | 0 <= t < |phases'| ensures Ready(phases'[t], list[j]) && Chooses(list, phases'[t], idle, run'[t], run'[t + 1]) {
        assert phases'[t] == phases[t + 1];
      }
      var m := BoundedWaiting(list, idle, phases', run', i, j);
      k := m + 1;
    }
  }
}
