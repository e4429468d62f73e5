/**
 Process identifiers and the process table of kern/process/proc.c.
 */
module ProcessTable {
  import opened Options
  import opened Units

  type Id = nat

  const MAX_PROCESS: nat := 4096
  const MAX_PID: nat := 2 * MAX_PROCESS
  const HASH_LIST_SIZE: nat := 1024

  // hash32(pid, 10): the top ten bits of a 32-bit product
  function PidHash(pid: nat): (h: nat)
    ensures h < HASH_LIST_SIZE
  {
    (pid * 0x9e37_0001) % WORD / 0x40_0000
  }

  // ---------- pids ----------

  // The pid tried after p
  function NextPid(p: nat): nat { if p + 1 >= MAX_PID then 1 else p + 1 }

  function Iter(p: nat, n: nat): nat { if n == 0 then p else NextPid(Iter(p, n - 1)) }

  // pid is the first one after p that is not in use, n others having been passed over.
  ghost predicate FirstFree(used: set<nat>, p: nat, pid: nat, n: nat) {
    pid !in used && Passed(used, p, pid, n)
  }

  // The n pids between p and pid are in use.
  ghost predicate Passed(used: set<nat>, p: nat, pid: nat, n: nat) {
    pid == Iter(p, n + 1) && forall m {:trigger Iter(p, m)} :: 0 < m <= n ==> Iter(p, m) in used
  }

  // pid is the first after last that is not in use, or the first of all if there is none.
  ghost predicate LeastAfter(used: set<nat>, last: nat, pid: nat) {
    0 < pid < MAX_PID && pid !in used
    && forall q :: 0 < q < MAX_PID && q !in used ==> if q > last then last < pid <= q else pid > last || pid <= q
  }

  // The pids tried go up from p to the greatest,
  lemma {:induction false} GoingUp(p: nat, m: nat)
    requires p + m < MAX_PID
    ensures Iter(p, m) == p + m
    decreases m
  {
    if m > 0 {
      GoingUp(p, m - 1);
    }
  }

  // then from 1 on.
  lemma {:induction false} GoingRound(p: nat, m: nat)
    requires 0 < p <= MAX_PID && m > 0 && MAX_PID <= p + m && Rest(p, m) < MAX_PID
    ensures Iter(p, m) == Rest(p, m)
    decreases m
  {
    if m > 1 {
      if p + m == MAX_PID {
        GoingUp(p, m - 1);
      } else {
        GoingRound(p, m - 1);
      }
    }
  }

  function Rest(p: nat, m: nat): int { if p == MAX_PID then m else p + m - MAX_PID + 1 }

  // How many steps lead from p to q
  function StepsTo(p: nat, q: nat): int { if q > p then q - p else if p == MAX_PID then q else q - p + MAX_PID - 1 }

  lemma StepsReach(p: nat, q: nat)
    requires 0 < p <= MAX_PID && 0 < q < MAX_PID
    ensures 0 < StepsTo(p, q) && Iter(p, StepsTo(p, q)) == q
  {
    if q > p {
      GoingUp(p, q - p);
    } else {
      GoingRound(p, StepsTo(p, q));
    }
  }

  lemma FirstIsLeast(used: set<nat>, p: nat, pid: nat, n: nat)
    requires FirstFree(used, p, pid, n) && 0 < p <= MAX_PID && 0 < pid < MAX_PID
    ensures LeastAfter(used, p, pid)
  {
    forall q | 0 < q < MAX_PID && q !in used ensures n + 1 <= StepsTo(p, q) {
      StepsReach(p, q);
    }
    if p + n + 1 < MAX_PID {
      GoingUp(p, n + 1);
    } else {
      GoingRound(p, n + 1);
    }
  }

  lemma PassNext(used: set<nat>, p: nat, pid: nat, n: nat)
    requires Passed(used, p, pid, n) && pid in used
    ensures Passed(used, p, NextPid(pid), n + 1)
  {
  }

  lemma NearerTo(p: nat, q: nat)
    requires 0 < p < MAX_PID && 0 < q < MAX_PID && p != q
    ensures 0 <= Ahead(NextPid(p), q) < Ahead(p, q)
  {
  }

  // How far p is from q, going up and round
  function Ahead(p: nat, q: nat): int { if p <= q then q - p else q - p + MAX_PID - 1 }

  // The pids below n
  ghost function Below(n: nat): (s: set<nat>)
    ensures forall i: nat :: i in s <==> 0 < i < n
    ensures |s| == if n == 0 then 0 else n - 1
  {
    if n <= 1 then {} else Below(n - 1) + {n - 1}
  }

  // Fewer processes than pids leave a pid free.
  lemma SomeFree(used: set<nat>) returns (q: nat)
    requires |used| < MAX_PID - 1
    ensures 0 < q < MAX_PID && q !in used
  {
    if Below(MAX_PID) <= used {
      SubsetSize(Below(MAX_PID), used);
    }
    q :| q in Below(MAX_PID) && q !in used;
  }

  lemma {:induction false} SubsetSize(a: set<nat>, b: set<nat>)
    requires a <= b
    ensures |a| <= |b|
    decreases |a|
  {
    if a != {} {
      var x :| x in a;
      SubsetSize(a - {x}, b - {x});
    }
  }

  ghost function Pids(list: seq<Id>, pid: map<Id, nat>): set<nat> {
    set p | p in list && p in pid :: pid[p]
  }

  lemma {:induction false} PidsSize(list: seq<Id>, pid: map<Id, nat>)
    ensures |Pids(list, pid)| <= |list|
    decreases |list|
  {
    if list == [] {
      assert Pids(list, pid) == {};
    } else {
      PidsSize(list[1..], pid);
      assert list == [list[0]] + list[1..];
      if list[0] in pid {
        assert Pids(list, pid) == Pids(list[1..], pid) + {pid[list[0]]};
      } else {
        assert Pids(list, pid) == Pids(list[1..], pid);
      }
    }
  }

  // ---------- the table ----------

  ghost predicate DistinctPids(list: seq<Id>, pid: map<Id, nat>) {
    (forall i :: 0 <= i < |list| ==> list[i] in pid && 0 < pid[list[i]] < MAX_PID)
    && (forall i, j :: 0 <= i < j < |list| ==> list[i] in pid && list[j] in pid && pid[list[i]] != pid[list[j]])
  }

  // None of the first n processes has a pid from lo up to hi.
  ghost predicate Unused(list: seq<Id>, pid: map<Id, nat>, n: nat, lo: nat, hi: nat) {
    n <= |list| && forall i :: 0 <= i < n && list[i] in pid ==> !(lo <= pid[list[i]] < hi)
  }

  // A hash chain holds exactly the processes whose pid hashes to it.
  ghost predicate ChainOk(chain: seq<Id>, h: nat, list: seq<Id>, pid: map<Id, nat>) {
    forall p :: p in chain <==> p in list && p in pid && PidHash(pid[p]) == h
  }

  datatype Fork = Pid(pid: nat) | NoFreeProc | NoMemory

  class Table {
    var list: seq<Id>
    var pid: map<Id, nat>
    var hash: seq<seq<Id>>
    var nrProcess: nat
    var lastPid: nat
    var nextSafe: nat

    ghost predicate Valid()
      reads this
    {
      DistinctPids(list, pid) && nrProcess == |list| + 1 <= MAX_PROCESS
      && 0 < lastPid <= MAX_PID && nextSafe <= MAX_PID && Unused(list, pid, |list|, lastPid + 1, nextSafe)
      && |hash| == HASH_LIST_SIZE
      && (forall h {:trigger ChainOk(hash[h], h, list, pid)} :: 0 <= h < |hash| ==> ChainOk(hash[h], h, list, pid))
    }

    // proc_init, with the idle process outside the list
    constructor ()
      ensures Valid() && list == []
    {
      list, pid, nrProcess, lastPid, nextSafe := [], map[], 1, MAX_PID, MAX_PID;
      hash := seq(HASH_LIST_SIZE, _ => []);
    }

    // get_pid: the first pid after the last one that no listed process has
    method GetPid() returns (r: nat)
      requires Valid()
      modifies this`lastPid, this`nextSafe
      ensures Valid() && r == lastPid && LeastAfter(Pids(list, pid), old(lastPid), r)
    {
      ghost var n;
      n := 0;
      assert Iter(lastPid, 1) == NextPid(Iter(lastPid, 0));
      lastPid := lastPid + 1;
      if lastPid >= MAX_PID {
        lastPid := 1;
        n := ScanPids(old(lastPid));
      } else if lastPid >= nextSafe {
        n := ScanPids(old(lastPid));
      } else {
        NotUsed(list, pid, lastPid, nextSafe);
      }
      r := lastPid;
      FirstIsLeast(Pids(list, pid), old(lastPid), r, n);
    }

    // The labels inside and repeat of get_pid
    method ScanPids(ghost from: nat) returns (ghost n: nat)
      requires DistinctPids(list, pid) && |list| < MAX_PROCESS && 0 < lastPid < MAX_PID && lastPid == Iter(from, 1)
      modifies this`lastPid, this`nextSafe
      ensures 0 < lastPid < MAX_PID && nextSafe <= MAX_PID && Unused(list, pid, |list|, lastPid + 1, nextSafe)
      ensures FirstFree(Pids(list, pid), from, lastPid, n)
    {
      ghost var used := Pids(list, pid);
      PidsSize(list, pid);
      ghost var q := SomeFree(used);
      n := 0;
      nextSafe := MAX_PID;
      var i: nat := 0;
      while i < |list|
        invariant i <= |list| && 0 < lastPid < nextSafe <= MAX_PID
        invariant Unused(list, pid, i, lastPid, nextSafe)
        invariant Passed(used, from, lastPid, n)
        decreases Ahead(lastPid, q), |list| - i
      {
        var p := pid[list[i]];
        i := i + 1;
        if p == lastPid {
          assert p in used;
          PassNext(used, from, p, n);
          NearerTo(p, q);
          n := n + 1;
          lastPid := lastPid + 1;
          if lastPid >= nextSafe {
            if lastPid >= MAX_PID {
              lastPid := 1;
            }
            nextSafe := MAX_PID;
            i := 0;
          }
        } else if p > lastPid && nextSafe > p {
          nextSafe := p;
        }
      }
      NotUsed(list, pid, lastPid, nextSafe);
    }

    // The process-table part of do_fork; room says whether there is memory for proc and its kernel stack.
    method DoFork(proc: Id, room: bool) returns (ret: Fork)
      requires Valid() && proc !in list
      modifies this
      ensures Valid()
      ensures ret == NoFreeProc <==> |old(list)| + 1 >= MAX_PROCESS
      ensures ret == NoMemory <==> ret != NoFreeProc && !room
      ensures !ret.Pid? ==> list == old(list) && pid == old(pid) && lastPid == old(lastPid)
      ensures ret.Pid? ==> list == [proc] + old(list) && pid == old(pid)[proc := ret.pid]
                           && lastPid == ret.pid && LeastAfter(Pids(old(list), old(pid)), old(lastPid), ret.pid)
    {
      if nrProcess >= MAX_PROCESS {
        return NoFreeProc;
      }
      if !room {
        return NoMemory;
      }
      var r := GetPid();
      Enter(proc, r);
      ret := Pid(r);
    }

    // hash_proc, list_add and the count
    method Enter(proc: Id, r: nat)
      requires Valid() && proc !in list && nrProcess < MAX_PROCESS && 0 < r == lastPid < MAX_PID && r !in Pids(list, pid)
      modifies this`list, this`pid, this`hash, this`nrProcess
      ensures Valid() && list == [proc] + old(list) && pid == old(pid)[proc := r]
    {
      ghost var list0, pid0, hash0 := list, pid, hash;
      EnterKeeps(list, pid, proc, r);
      var h := PidHash(r);
      hash := hash[h := [proc] + hash[h]];
      pid := pid[proc := r];
      list := [proc] + list;
      nrProcess := nrProcess + 1;
      forall g | 0 <= g < |hash| ensures ChainOk(hash[g], g, list, pid) {
        assert ChainOk(hash0[g], g, list0, pid0);
      }
    }

    // find_proc: agrees with a scan of proc_list
    method FindProc(want: int) returns (r: Option<Id>)
      requires Valid()
      ensures r.Some? ==> r.value in list && r.value in pid && pid[r.value] == want
      ensures r.None? ==> forall p :: p in list && p in pid ==> pid[p] != want
    {
      r := None;
      if 0 < want < MAX_PID {
        var chain := hash[PidHash(want)];
        assert ChainOk(hash[PidHash(want)], PidHash(want), list, pid);
        var i := 0;
        while i < |chain|
          invariant i <= |chain| && forall j :: 0 <= j < i ==> chain[j] in pid && pid[chain[j]] != want
        {
          if pid[chain[i]] == want {
            return Some(chain[i]);
          }
          i := i + 1;
        }
      }
    }
  }

  lemma NotUsed(list: seq<Id>, pid: map<Id, nat>, lo: nat, hi: nat)
    requires Unused(list, pid, |list|, lo, hi) && lo < hi
    ensures lo !in Pids(list, pid)
  {
  }

  lemma EnterKeeps(list: seq<Id>, pid: map<Id, nat>, proc: Id, r: nat)
    requires DistinctPids(list, pid) && proc !in list && 0 < r < MAX_PID && r !in Pids(list, pid)
    ensures DistinctPids([proc] + list, pid[proc := r])
  {
    forall i | 0 <= i < |list| ensures pid[list[i]] != r {
      assert pid[list[i]] in Pids(list, pid);
    }
  }
}
