/** kernel/sched.c and the tick of kernel/timer.c: process ids, the runqueue and the choice of the
    next task. */
module Sched {

  import opened DList

  const MAX_PID := 32767
  const RT_PRIORITY := 100
  const INIT_PID := 1

  datatype Status = Running | Sleeping | Stopped | Interruptible | Uninterruptible | Zombie
  datatype Policy = Other | Fifo | RoundRobin

  // ---------------------------------------------------------------- process ids

  /** The id after this one. The counter is a short, and is set to 1 when it turns negative. */
  function NextPid(pid: int): int {
    if pid + 1 > MAX_PID then 1 else pid + 1
  }

  /** The candidate `k` places after `start`. */
  function Candidate(start: int, k: nat): int {
    (start - 1 + k) % MAX_PID + 1
  }

  lemma CandidateStep(start: int, k: nat)
    requires 1 <= start <= MAX_PID
    ensures Candidate(start, 0) == start && Candidate(start, k + 1) == NextPid(Candidate(start, k))
    ensures 1 <= Candidate(start, k) <= MAX_PID
    ensures 0 < k < MAX_PID ==> Candidate(start, k) != start
    ensures Candidate(start, MAX_PID) == start
  {
    var n := start - 1 + k;
    assert (n + 1) % MAX_PID == if n % MAX_PID == MAX_PID - 1 then 0 else n % MAX_PID + 1;
  }

  /** Every id is a candidate within one round. */
  lemma EveryPid(start: int, pid: int) returns (k: nat)
    requires 1 <= start <= MAX_PID && 1 <= pid <= MAX_PID
    ensures k < MAX_PID && Candidate(start, k) == pid
  {
    k := if pid >= start then pid - start else pid + MAX_PID - start;
    if pid < start { assert (pid - 1 + MAX_PID) % MAX_PID == pid - 1; }
  }

  /** An id that comes before another one in the search: it is above the last id, or the search has
      started again at 1. */
  lemma Earlier(lastPid: int, k: nat, j: nat)
    requires 0 <= lastPid <= MAX_PID && k < MAX_PID && j < MAX_PID
    requires var p, q := Candidate(NextPid(lastPid), k), Candidate(NextPid(lastPid), j);
      if p > lastPid then lastPid < q < p else q > lastPid || q < p
    ensures j < k
  {
    var start := NextPid(lastPid);
    assert start - 1 + k < 2 * MAX_PID && start - 1 + j < 2 * MAX_PID;
    Round(start - 1 + k);
    Round(start - 1 + j);
  }

  lemma Round(n: nat)
    requires n < 2 * MAX_PID
    ensures n % MAX_PID == if n < MAX_PID then n else n - MAX_PID
  {
  }

  /** get_pid: the first id after the last one that no task uses, -1 exactly when all are used. */
  method GetPid(lastPid: int, pids: seq<int>) returns (pid: int, newLast: int)
    requires 0 <= lastPid <= 32767
    ensures pid == -1 <==> forall p :: 1 <= p <= 32767 ==> p in pids
    ensures pid != -1 ==> 1 <= pid <= 32767 && pid !in pids && newLast == pid
    ensures pid != -1 ==>
      exists k: nat :: k < MAX_PID && pid == Candidate(NextPid(lastPid), k) && forall j: nat :: j < k ==>
        Candidate(NextPid(lastPid), j) in pids
    ensures 1 <= newLast <= MAX_PID
    ensures pid == -1 ==> newLast == if lastPid == 32767 then 1 else lastPid + 1
    ensures pid > lastPid ==> forall p :: lastPid < p < pid ==> p in pids
    ensures 1 <= pid <= lastPid ==>
      (forall p :: lastPid < p <= 32767 ==> p in pids) && forall p :: 1 <= p < pid ==> p in pids
  {
    newLast := NextPid(lastPid);
    var oldPid := newLast;
    ghost var k := 0;
    CandidateStep(oldPid, 0);
    while true
      invariant 0 <= k < MAX_PID && newLast == Candidate(oldPid, k) && 1 <= newLast <= MAX_PID
      invariant forall j: nat :: j < k ==> Candidate(oldPid, j) in pids
      decreases MAX_PID - k
    {
      var used := InUse(pids, newLast);
      if !used {
        forall p | 1 <= p <= MAX_PID && if newLast > lastPid then lastPid < p < newLast else p > lastPid || p < newLast
          ensures p in pids {
          var j := EveryPid(oldPid, p);
          Earlier(lastPid, k, j);
        }
        return newLast, newLast;
      }
      CandidateStep(oldPid, k);
      CandidateStep(oldPid, k + 1);
      newLast := NextPid(newLast);
      k := k + 1;
      if newLast == oldPid {
        break;
      }
    }
    forall p | 1 <= p <= MAX_PID ensures p in pids {
      var j := EveryPid(oldPid, p);
    }
    pid := -1;
  }

  /** The scan of the task list for an id. */
  method InUse(pids: seq<int>, pid: int) returns (used: bool)
    ensures used <==> pid in pids
  {
    for i := 0 to |pids|
      invariant pid !in pids[..i]
    {
      if pids[i] == pid {
        return true;
      }
    }
    used := false;
  }

  // ---------------------------------------------------------------- tasks

  const DEFAULT_PRIORITY := 9

  class Task {
    const pid: int
    var status: Status
    var counter: int
    var priority: int
    var policy: Policy
    var timeout: nat
    var reapMe: bool        // exit_status == REAP_ME
    var needResched: bool

    constructor (pid: int, priority: int, reapMe: bool, needResched: bool, counter: int)
      ensures this.pid == pid && this.priority == priority && this.reapMe == reapMe && this.needResched == needResched
      ensures status == Running && this.counter == counter && policy == Other && timeout == 0
    {
      this.pid, this.priority, this.reapMe, this.needResched := pid, priority, reapMe, needResched;
      status, this.counter, policy, timeout := Running, counter, Other, 0;
    }

    predicate RealTime()
      reads this`policy
    {
      policy != Other
    }

    /** preemption_goodness. */
    function Goodness(): int
      reads this`policy, this`counter
    {
      if RealTime() then RT_PRIORITY else counter
    }

    /** The kernel's only priority, and 0 <= counter <= 2 * priority. */
    predicate Counted()
      reads this`priority, this`counter
    {
      priority == DEFAULT_PRIORITY && 0 <= counter <= 2 * priority
    }
  }

  predicate Ready(s: Status) {
    s == Running || s == Sleeping
  }

  /** The queue holds, apart from `x`, exactly the running and sleeping tasks. */
  ghost predicate Queued(init: Task, queue: seq<Task>, tasks: seq<Task>, x: Task?)
    reads tasks`status
  {
    && Distinct(queue) && Distinct(tasks) && init in queue
    && (forall t :: t in queue ==> t in tasks)
    && (forall t :: t in tasks && t != x ==> (t in queue <==> Ready(t.status)))
  }

  /** Off the queue and out of the ready states. */
  lemma Dequeued(init: Task, queue: seq<Task>, tasks: seq<Task>, x: Task)
    requires Queued(init, queue, tasks, x) && !Ready(x.status) && x != init
    ensures Queued(init, Without(queue, x), tasks, null)
  {
    WithoutMembers(queue, x);
    forall t | t in Without(queue, x) ensures t in queue && t != x { InWithout(queue, x, t); }
    forall t | t in tasks ensures t in Without(queue, x) <==> t in queue && t != x { InWithout(queue, x, t); }
    InWithout(queue, x, init);
  }

  /** Off both lists. */
  lemma Departed(init: Task, queue: seq<Task>, tasks: seq<Task>, x: Task)
    requires Queued(init, queue, tasks, x) && x != init
    ensures Queued(init, Without(queue, x), Without(tasks, x), null)
    ensures forall t :: t in Without(tasks, x) ==> t in tasks
  {
    WithoutMembers(queue, x);
    WithoutMembers(tasks, x);
    forall t | t in Without(queue, x) ensures t in queue && t != x { InWithout(queue, x, t); }
    forall t | t in Without(tasks, x) ensures t in tasks && t != x && (t in Without(queue, x) <==> t in queue) {
      InWithout(tasks, x, t);
      InWithout(queue, x, t);
    }
    forall t | t in Without(queue, x) ensures t in Without(tasks, x) { InWithout(tasks, x, t); }
    InWithout(queue, x, init);
  }

  /** add_runqueue of a task that is not on the queue. */
  lemma Enqueued(init: Task, queue: seq<Task>, tasks: seq<Task>, x: Task)
    requires Queued(init, queue, tasks, x) && x !in queue && x in tasks && Ready(x.status)
    ensures Queued(init, queue + [x], tasks, null)
  {
    AppendNew(queue, x);
  }

  /** The first of the queued tasks with the greatest goodness. */
  ghost predicate Best(queue: seq<Task>, x: Task)
    reads queue`policy, queue`counter, x`policy, x`counter
  {
    && x in queue && (forall t :: t in queue ==> t.Goodness() <= x.Goodness())
    && exists k :: 0 <= k < |queue| && x == queue[k] && forall j :: 0 <= j < k ==> queue[j].Goodness() < x.Goodness()
  }

  /** The queue with one more task, at its end unless it is there already. */
  function Joined(queue: seq<Task>, t: Task): seq<Task> {
    if t in queue then queue else queue + [t]
  }

  /** The queue after the late ones of these tasks have joined it, in their order. */
  function Woken(queue: seq<Task>, tasks: seq<Task>, late: set<Task>): seq<Task> {
    if tasks == [] then queue
    else
      var n := |tasks| - 1;
      var r := Woken(queue, tasks[..n], late);
      if tasks[n] in late then Joined(r, tasks[n]) else r
  }

  /** What was queued comes first, and nothing but the late tasks has been added. */
  lemma {:induction false} WokenMember(queue: seq<Task>, tasks: seq<Task>, late: set<Task>, t: Task)
    ensures t in Woken(queue, tasks, late) <==> t in queue || (t in tasks && t in late)
    ensures queue <= Woken(queue, tasks, late)
    decreases |tasks|
  {
    if tasks != [] {
      WokenMember(queue, tasks[..|tasks| - 1], late, t);
      assert t in tasks <==> t in tasks[..|tasks| - 1] || t == tasks[|tasks| - 1];
    }
  }

  /** The late tasks that have joined stand behind the queue in the order of the task list. */
  lemma {:induction false} WokenOrder(queue: seq<Task>, tasks: seq<Task>, late: set<Task>, a: nat, b: nat)
    returns (i: nat, j: nat)
    requires |queue| <= a < b < |Woken(queue, tasks, late)|
    ensures i < j < |tasks| && Woken(queue, tasks, late)[a] == tasks[i] && Woken(queue, tasks, late)[b] == tasks[j]
    decreases |tasks|
  {
    var n := |tasks| - 1;
    if b < |Woken(queue, tasks[..n], late)| {
      i, j := WokenOrder(queue, tasks[..n], late, a, b);
    } else {
      i := WokenAt(queue, tasks[..n], late, a);
      j := n;
    }
  }

  lemma {:induction false} WokenAt(queue: seq<Task>, tasks: seq<Task>, late: set<Task>, a: nat) returns (i: nat)
    requires |queue| <= a < |Woken(queue, tasks, late)|
    ensures i < |tasks| && Woken(queue, tasks, late)[a] == tasks[i]
    decreases |tasks|
  {
    var n := |tasks| - 1;
    if a < |Woken(queue, tasks[..n], late)| {
      i := WokenAt(queue, tasks[..n], late, a);
    } else {
      i := n;
    }
  }

  lemma WokenStep(queue: seq<Task>, tasks: seq<Task>, late: set<Task>, i: nat)
    requires i < |tasks| && Distinct(tasks)
    ensures var r := Woken(queue, tasks[..i], late);
      Woken(queue, tasks[..i + 1], late) == (if tasks[i] in late then Joined(r, tasks[i]) else r)
      && (tasks[i] in r <==> tasks[i] in queue)
  {
    assert tasks[..i + 1][..i] == tasks[..i];
    WokenMember(queue, tasks[..i], late, tasks[i]);
  }

  class Scheduler {
    const init: Task
    var current: Task
    var runqueue: seq<Task>
    var tasks: seq<Task>
    var lastPid: int

    ghost predicate Fair()
      reads this`tasks, tasks`priority, tasks`counter
    {
      forall t :: t in tasks ==> t.Counted()
    }

    /** Process ids are in range and no two tasks share one. */
    ghost predicate Pids()
      reads this`tasks, this`lastPid
    {
      && 1 <= lastPid <= MAX_PID
      && (forall t :: t in tasks ==> 1 <= t.pid <= MAX_PID)
      && (forall s, t :: s in tasks && t in tasks && s != t ==> s.pid != t.pid)
    }

    /** Holds whenever no scheduler function is under way. */
    ghost predicate Valid()
      reads this, tasks, init
    {
      && Queued(init, runqueue, tasks, current) && Fair() && Pids()
      && current in runqueue && current.status != Sleeping && (current == init ==> current.status == Running)
      && init.pid == INIT_PID && !init.reapMe
    }

    /** The first part of initialise_init. */
    constructor ()
      ensures Valid() && current == init && runqueue == [init] && tasks == [init] && fresh(init)
      ensures init.status == Running && !init.RealTime() && init.counter == 0
    {
      var t := new Task(INIT_PID, DEFAULT_PRIORITY, false, false, 0);
      init, current, runqueue, tasks, lastPid := t, t, [t], [t], INIT_PID;
    }

    /** add_runqueue. */
    method AddRunqueue(next: Task)
      requires Queued(init, runqueue, tasks, null) && next in tasks
      modifies this`runqueue, next`status
      ensures Queued(init, runqueue, tasks, null)
      ensures runqueue == if next in old(runqueue) then old(runqueue) else old(runqueue) + [next]
      ensures next.status == if next in old(runqueue) then old(next.status) else Running
    {
      if next !in runqueue {
        assert Queued(init, runqueue, tasks, next);
        next.status := Running;
        Enqueued(init, runqueue, tasks, next);
        runqueue := runqueue + [next];
      }
    }

    /** The current task leaves for good: it is to be reaped and has exited, or is a zombie already. */
    predicate Gone(exited: bool)
      reads this`current, current`reapMe, current`status
    {
      if current.reapMe then exited else current.status == Zombie
    }

    /** The current task goes on running, also when its exit did not go through. */
    predicate Runs(exited: bool)
      reads this`current, current`reapMe, current`status
    {
      if current.reapMe then !exited else current.status == Running
    }

    /** What the current task leaves behind. */
    function LeftTasks(exited: bool): seq<Task>
      reads this`tasks, this`current, current`reapMe, current`status
    {
      if Gone(exited) then Without(tasks, current) else tasks
    }

    function LeftQueue(exited: bool): seq<Task>
      reads this`runqueue, this`current, current`reapMe, current`status
    {
      if Runs(exited) then runqueue else Without(runqueue, current)
    }

    function LeftStatus(exited: bool): Status
      reads this`current, current`reapMe, current`status
    {
      if Runs(exited) then Running else if current.reapMe then Zombie else current.status
    }

    /** What becomes of the current task: it goes on, it leaves the queue, or it leaves both lists. */
    lemma Leaving(exited: bool)
      requires Valid()
      ensures (if current.reapMe then !exited else current.status == Running) ==>
        LeftTasks(exited) == tasks && LeftQueue(exited) == runqueue && LeftStatus(exited) == Running
      ensures (if current.reapMe then exited else current.status == Zombie) ==>
        LeftTasks(exited) == Without(tasks, current) && LeftQueue(exited) == Without(runqueue, current)
        && LeftStatus(exited) == Zombie
      ensures !current.reapMe && current.status != Running && current.status != Zombie ==>
        LeftTasks(exited) == tasks && LeftQueue(exited) == Without(runqueue, current)
        && LeftStatus(exited) == current.status
    {
    }

    /** The first part of schedule: a current task that has stopped running leaves the runqueue, one
        that has exited leaves the task list as well. */
    method Retire(exited: bool)
      requires Valid()
      modifies this`runqueue, this`tasks, current`needResched, current`status, current`reapMe, current`policy
      ensures Queued(init, runqueue, tasks, null) && Fair() && Pids() && init.pid == INIT_PID && !init.reapMe
      ensures forall k :: 0 <= k < |tasks| ==> tasks[k] in old(tasks)
      ensures tasks == old(LeftTasks(exited)) && runqueue == old(LeftQueue(exited))
      ensures current.status == old(LeftStatus(exited))
      ensures forall k :: 0 <= k < |tasks| && tasks[k] != current ==>
        Statuses(tasks)[k] == old(Statuses(LeftTasks(exited)))[k]
      ensures !current.needResched
      ensures if old(current.reapMe) && !exited then !current.reapMe && current.policy == Other
              else current.reapMe == old(current.reapMe) && current.policy == old(current.policy)
    {
      hide Statuses, Without, Fair, Pids;
      current.needResched := false;
      if current.reapMe {
        current.status := Zombie;
      }
      if current.status == Zombie {
        if current.reapMe && !exited {
          current.status := Running;
          current.reapMe := false;
          current.policy := Other;
          assert Queued(init, runqueue, tasks, null);
        } else {
          Depart();
        }
      } else if current.status != Running {
        Dequeued(init, runqueue, tasks, current);
        runqueue := Without(runqueue, current);
      }
    }

    /** The current task is taken off both lists. */
    method Depart()
      requires Queued(init, runqueue, tasks, current) && Fair() && Pids() && current != init
      modifies this`runqueue, this`tasks
      ensures Queued(init, runqueue, tasks, null) && Fair() && Pids()
      ensures tasks == Without(old(tasks), current) && runqueue == Without(old(runqueue), current)
      ensures forall k :: 0 <= k < |tasks| ==> tasks[k] in old(tasks)
    {
      Departed(init, runqueue, tasks, current);
      tasks := Without(tasks, current);
      runqueue := Without(runqueue, current);
    }

    /** The second part: tasks whose timeout has expired are put on the runqueue. */
    method Expire(jiffies: nat)
      requires Queued(init, runqueue, tasks, null)
      modifies this`runqueue, tasks`status, tasks`timeout
      ensures Queued(init, runqueue, tasks, null) && runqueue == Woken(old(runqueue), tasks, old(Late(tasks, jiffies)))
      ensures Timeouts(tasks) == Cleared(old(Timeouts(tasks)), jiffies)
      ensures Risen(tasks, old(runqueue), old(Timeouts(tasks)), jiffies, old(Statuses(tasks)), Statuses(tasks), {})
    {
      hide Queued, Woken, Turned, Timeouts, Statuses, Late, Risen, Cleared;
      ghost var late, status, timeout := Late(tasks, jiffies), Statuses(tasks), Timeouts(tasks);
      NoneWoken(runqueue, tasks, late);
      assert Turned(tasks, 0, runqueue, late, jiffies, status, timeout) by { NoneTurned(tasks, runqueue, jiffies); }
      for i := 0 to |tasks|
        invariant Queued(init, runqueue, tasks, null) && runqueue == Woken(old(runqueue), tasks[..i], late)
        invariant Turned(tasks, i, old(runqueue), late, jiffies, status, timeout)
      {
        ExpireNext(i, jiffies, old(runqueue), late, status, timeout);
      }
      assert tasks[..|tasks|] == tasks;
      AllTurned(tasks, old(runqueue), late, jiffies, status, timeout);
    }

    /** The timeouts with those cleared that have expired. */
    static function Cleared(timeout: seq<nat>, jiffies: nat): (r: seq<nat>)
      ensures |r| == |timeout|
      ensures forall k :: 0 <= k < |r| ==> r[k] == if 0 < timeout[k] <= jiffies then 0 else timeout[k]
    {
      if timeout == [] then []
      else [if 0 < timeout[0] <= jiffies then 0 else timeout[0]] + Cleared(timeout[1..], jiffies)
    }

    /** A task outside the queue is set running if its timeout has expired; apart from those in `but` no
        other status has changed. */
    static ghost predicate Risen(tasks: seq<Task>, queue: seq<Task>, timeout: seq<nat>, jiffies: nat, was: seq<Status>,
        now: seq<Status>, but: set<Task>) {
      && |tasks| == |timeout| == |was| == |now|
      && forall k :: 0 <= k < |tasks| && tasks[k] !in but ==>
        now[k] == if 0 < timeout[k] <= jiffies && tasks[k] !in queue then Running else was[k]
    }

    static lemma RisenAt(tasks: seq<Task>, queue: seq<Task>, timeout: seq<nat>, jiffies: nat, was: seq<Status>,
        now: seq<Status>, but: set<Task>, k: nat)
      requires Risen(tasks, queue, timeout, jiffies, was, now, but) && k < |tasks| && tasks[k] !in but
      ensures |timeout| == |was| == |now| == |tasks|
      ensures 0 < timeout[k] <= jiffies && tasks[k] !in queue ==> now[k] == Running
      ensures timeout[k] == 0 || timeout[k] > jiffies || tasks[k] in queue ==> now[k] == was[k]
    {
    }

    /** The same with other changes before or after. */
    static lemma StillRisen(tasks: seq<Task>, queue: seq<Task>, timeout: seq<nat>, jiffies: nat, was: seq<Status>,
        now: seq<Status>, but: set<Task>, was': seq<Status>, now': seq<Status>, but': set<Task>)
      requires Risen(tasks, queue, timeout, jiffies, was, now, but) && but <= but' && |was'| == |now'| == |tasks|
      requires forall k :: 0 <= k < |tasks| && tasks[k] !in but' ==> was[k] == was'[k] && now[k] == now'[k]
      ensures Risen(tasks, queue, timeout, jiffies, was', now', but')
    {
    }

    static lemma NoneWoken(queue: seq<Task>, tasks: seq<Task>, late: set<Task>)
      ensures Woken(queue, tasks[..0], late) == queue
    {
    }

    static function Statuses(tasks: seq<Task>): (s: seq<Status>)
      reads tasks`status
      ensures |s| == |tasks| && forall j :: 0 <= j < |s| ==> s[j] == tasks[j].status
    {
      if tasks == [] then [] else [tasks[0].status] + Statuses(tasks[1..])
    }

    static function Timeouts(tasks: seq<Task>): (s: seq<nat>)
      reads tasks`timeout
      ensures |s| == |tasks| && forall j :: 0 <= j < |s| ==> s[j] == tasks[j].timeout
    {
      if tasks == [] then [] else [tasks[0].timeout] + Timeouts(tasks[1..])
    }

    /** The first `i` tasks have had their turn, and the others have not. */
    static ghost predicate Turned(tasks: seq<Task>, i: nat, queue: seq<Task>, late: set<Task>, jiffies: nat,
        status: seq<Status>, timeout: seq<nat>)
      reads tasks`status, tasks`timeout
    {
      && i <= |tasks| == |status| == |timeout|
      && (forall j :: 0 <= j < i ==> Expired(tasks[j], queue, late, status[j], timeout[j]))
      && forall j :: i <= j < |tasks| ==> Pending(tasks[j], late, jiffies, status[j], timeout[j])
    }

    static lemma NoneTurned(tasks: seq<Task>, queue: seq<Task>, jiffies: nat)
      ensures Turned(tasks, 0, queue, Late(tasks, jiffies), jiffies, Statuses(tasks), Timeouts(tasks))
    {
    }

    static lemma AllTurned(tasks: seq<Task>, queue: seq<Task>, late: set<Task>, jiffies: nat, status: seq<Status>,
        timeout: seq<nat>)
      requires Turned(tasks, |tasks|, queue, late, jiffies, status, timeout)
      requires forall k :: 0 <= k < |tasks| ==> (tasks[k] in late <==> 0 < timeout[k] <= jiffies)
      ensures Timeouts(tasks) == Cleared(timeout, jiffies)
      ensures Risen(tasks, queue, timeout, jiffies, status, Statuses(tasks), {})
    {
      hide Timeouts, Statuses, Cleared;
    }

    /** One round of the traversal. */
    method ExpireNext(i: nat, jiffies: nat, ghost queue: seq<Task>, ghost late: set<Task>, ghost status: seq<Status>,
        ghost timeout: seq<nat>)
      requires Queued(init, runqueue, tasks, null) && i < |tasks| && runqueue == Woken(queue, tasks[..i], late)
      requires Turned(tasks, i, queue, late, jiffies, status, timeout)
      modifies this`runqueue, tasks`status, tasks`timeout
      ensures Queued(init, runqueue, tasks, null) && runqueue == Woken(queue, tasks[..i + 1], late)
      ensures Turned(tasks, i + 1, queue, late, jiffies, status, timeout)
    {
      QueueInTasks();
      WokenStep(queue, tasks, late, i);
      DistinctAt(tasks, i);
      hide Queued, InTasks, Woken, Joined, Distinct, Late, Expired, Pending;
      ExpireOne(tasks[i], jiffies, queue, late);
    }

    /** The tasks whose timeout has expired. */
    static ghost function Late(tasks: seq<Task>, jiffies: nat): (late: set<Task>)
      reads tasks`timeout
      ensures forall k :: 0 <= k < |tasks| ==> (tasks[k] in late <==> 0 < tasks[k].timeout <= jiffies)
    {
      set t | t in tasks && 0 < t.timeout <= jiffies
    }

    /** A task before its turn. */
    static ghost predicate Pending(task: Task, late: set<Task>, jiffies: nat, status: Status, timeout: nat)
      reads task`status, task`timeout
    {
      task.status == status && task.timeout == timeout && (task in late <==> 0 < timeout <= jiffies)
    }

    /** A task after its turn: its timeout has been cleared if it had expired, and it is running if
        it has joined the queue. */
    static ghost predicate Expired(task: Task, queue: seq<Task>, late: set<Task>, status: Status, timeout: nat)
      reads task`status, task`timeout
    {
      task.timeout == (if task in late then 0 else timeout)
      && task.status == if Roused(task, queue, late) then Running else status
    }

    /** The task joins the queue. */
    static ghost predicate Roused(task: Task, queue: seq<Task>, late: set<Task>) {
      task in late && task !in queue
    }

    /** One round: a task whose timeout has expired. */
    method ExpireOne(task: Task, jiffies: nat, ghost queue: seq<Task>, ghost late: set<Task>)
      requires Queued(init, runqueue, tasks, null) && task in tasks
      requires Pending(task, late, jiffies, task.status, task.timeout) && (task in runqueue <==> task in queue)
      modifies this`runqueue, task`status, task`timeout
      ensures Queued(init, runqueue, tasks, null)
      ensures runqueue == (if task in late then Joined(old(runqueue), task) else old(runqueue))
      ensures Expired(task, queue, late, old(task.status), old(task.timeout))
    {
      if task.timeout != 0 && task.timeout <= jiffies {
        task.timeout := 0;
        AddRunqueue(task);
      }
    }

    lemma DistinctAt(tasks: seq<Task>, i: nat)
      requires Distinct(tasks) && i < |tasks|
      ensures forall j :: 0 <= j < |tasks| && j != i ==> tasks[j] != tasks[i]
    {
    }

    ghost predicate InTasks(s: seq<Task>)
      reads this`tasks
    {
      forall t :: t in s ==> t in tasks
    }

    lemma QueueInTasks()
      requires Queued(init, runqueue, tasks, null)
      ensures InTasks(runqueue) && Distinct(tasks) && runqueue != []
    {
    }

    /** One scan of the runqueue: the first task of the greatest goodness, and the goodness seen last. */
    method Scan() returns (next: Task, counter: int)
      requires runqueue != [] && InTasks(runqueue) && Fair()
      ensures Best(runqueue, next)
      ensures counter == runqueue[|runqueue| - 1].Goodness()
    {
      var max := -1;
      counter, next := 0, init;
      ghost var k := -1;
      for i := 0 to |runqueue|
        invariant i > 0 ==> counter == runqueue[i - 1].Goodness()
        invariant if i == 0 then max == -1 && k == -1 else 0 <= k < i && next == runqueue[k] && max == next.Goodness()
        invariant forall j :: 0 <= j < i ==> runqueue[j].Goodness() <= max
        invariant forall j :: 0 <= j < k ==> runqueue[j].Goodness() < max
      {
        var task := runqueue[i];
        assert task in runqueue && task.Counted();
        counter := task.Goodness();
        if counter > max {
          max, next, k := counter, task, i;
        }
      }
    }

    /** The recalculation: half of what is left, and the priority. */
    method Recalculate()
      requires Fair() && Distinct(tasks)
      modifies tasks`counter
      ensures Fair() && forall t :: t in tasks ==> t.counter == old(t.counter) / 2 + t.priority
      ensures forall t :: t in tasks ==> t.Goodness() > 0
      ensures Counters(tasks) == Sliced(old(Counters(tasks)), 1)
    {
      ghost var slices := Counters(tasks);
      hide Counters, Distinct;
      for i := 0 to |tasks|
        invariant forall j :: 0 <= j < i ==> tasks[j].counter == slices[j] / 2 + DEFAULT_PRIORITY
        invariant forall j :: i <= j < |tasks| ==> tasks[j].counter == slices[j]
      {
        DistinctAt(tasks, i);
        assert tasks[i] in tasks;
        tasks[i].counter := tasks[i].counter / 2 + tasks[i].priority;
      }
    }

    /** The third part: scans until the last goodness is not 0. It recalculates at most once, exactly
        when the task at the end of the queue has used up its slice. */
    method Pick() returns (next: Task, ghost rounds: nat)
      requires runqueue != [] && InTasks(runqueue) && Distinct(tasks) && Fair()
      modifies tasks`counter
      ensures Fair() && Best(runqueue, next) && next in runqueue && next.Goodness() > 0
      ensures rounds == if old(runqueue[|runqueue| - 1].Goodness()) == 0 then 1 else 0
      ensures forall t :: t in tasks ==>
        t.counter == if rounds == 0 then old(t.counter) else old(t.counter) / 2 + t.priority
      ensures Counters(tasks) == Sliced(old(Counters(tasks)), rounds)
      ensures rounds == if UsedUp(tasks, runqueue, old(Counters(tasks))) then 1 else 0
    {
      LastSlice();
      hide Best, Fair, InTasks, Distinct, Counters, Find, UsedUp, Sliced;
      rounds := 0;
      assert Sliced(Counters(tasks), 0) == Counters(tasks) by { Unsliced(Counters(tasks)); }
      var counter;
      next, counter := Scan();
      if counter == 0 {
        next, counter := Rescan();
        rounds := 1;
      }
      Positive(next);
    }

    static lemma Unsliced(slices: seq<int>)
      ensures Sliced(slices, 0) == slices
    {
    }

    /** What is left of the tasks' slices. */
    static function Counters(tasks: seq<Task>): (s: seq<int>)
      reads tasks`counter
      ensures |s| == |tasks| && forall k :: 0 <= k < |s| ==> s[k] == tasks[k].counter
    {
      if tasks == [] then [] else [tasks[0].counter] + Counters(tasks[1..])
    }

    /** The slices after a recalculation. */
    static function Sliced(slices: seq<int>, rounds: nat): seq<int> {
      if rounds == 0 then slices else seq(|slices|, k requires 0 <= k < |slices| => slices[k] / 2 + DEFAULT_PRIORITY)
    }

    /** The task at the end of the queue is an ordinary one whose slice was used up. */
    static ghost predicate UsedUp(tasks: seq<Task>, queue: seq<Task>, slices: seq<int>)
      reads queue`policy
    {
      && queue != []
      && var last := queue[|queue| - 1];
        var k := Find(tasks, last);
        k < |slices| && !last.RealTime() && slices[k] == 0
    }

    lemma LastSlice()
      requires runqueue != [] && InTasks(runqueue)
      ensures runqueue[|runqueue| - 1].Goodness() == 0 <==> UsedUp(tasks, runqueue, Counters(tasks))
    {
      assert runqueue[|runqueue| - 1] in runqueue;
    }

    /** The recalculation and the scan after it, which does not recalculate again. */
    method Rescan() returns (next: Task, counter: int)
      requires runqueue != [] && InTasks(runqueue) && Distinct(tasks) && Fair()
      modifies tasks`counter
      ensures Fair() && Best(runqueue, next) && counter == runqueue[|runqueue| - 1].Goodness() && counter != 0
      ensures forall t :: t in tasks ==> t.counter == old(t.counter) / 2 + t.priority
      ensures Counters(tasks) == Sliced(old(Counters(tasks)), 1)
    {
      hide Best, Distinct;
      assert runqueue[|runqueue| - 1] in runqueue;
      Recalculate();
      next, counter := Scan();
    }

    lemma Positive(next: Task)
      requires Best(runqueue, next) && Fair() && runqueue != [] && InTasks(runqueue)
      requires runqueue[|runqueue| - 1].Goodness() != 0
      ensures next.Goodness() > 0 && next in runqueue
    {
      assert runqueue[|runqueue| - 1] in runqueue && runqueue[|runqueue| - 1].Counted();
    }

    /** What comes before the choice: `queue` is what the current task leaves queued, and `late` the
        tasks whose timeout has expired. */
    method Prepare(exited: bool, jiffies: nat) returns (ghost queue: seq<Task>, ghost late: set<Task>)
      requires Valid()
      modifies this`runqueue, this`tasks, tasks`status, tasks`timeout, current`needResched, current`status
      modifies current`reapMe, current`policy
      ensures Queued(init, runqueue, tasks, null) && Fair() && Pids() && init.pid == INIT_PID && !init.reapMe
      ensures runqueue != [] && InTasks(runqueue) && Distinct(tasks)
      ensures tasks == old(LeftTasks(exited)) && queue == old(LeftQueue(exited))
      ensures late == old(Late(LeftTasks(exited), jiffies))
      ensures runqueue == Woken(queue, tasks, late)
      ensures forall k :: 0 <= k < |tasks| ==> tasks[k] in old(tasks)
      ensures Timeouts(tasks) == Cleared(old(Timeouts(LeftTasks(exited))), jiffies)
      ensures Risen(tasks, queue, old(Timeouts(LeftTasks(exited))), jiffies, old(Statuses(LeftTasks(exited))),
          Statuses(tasks), {current})
      ensures current.status == if Roused(current, queue, late) then Running else old(LeftStatus(exited))
      ensures !current.needResched
      ensures if old(current.reapMe) && !exited then !current.reapMe && current.policy == Other
              else current.reapMe == old(current.reapMe) && current.policy == old(current.policy)
    {
      queue, late := LeftQueue(exited), Late(LeftTasks(exited), jiffies);
      hide Queued, Fair, Pids, Distinct, InTasks, Woken, LeftTasks, LeftQueue, LeftStatus, Gone, Runs;
      hide Timeouts, Statuses, Cleared, Risen, Roused, Late, Find;
      ghost var timeout, was := Timeouts(LeftTasks(exited)), Statuses(LeftTasks(exited));
      Retire(exited);
      ghost var left := Statuses(tasks);
      Rouse(jiffies, current);
      StillRisen(tasks, queue, timeout, jiffies, left, Statuses(tasks), {}, was, Statuses(tasks), {current});
    }

    /** The second part, and what it does to one task. */
    method Rouse(jiffies: nat, ghost x: Task)
      requires Queued(init, runqueue, tasks, null)
      modifies this`runqueue, tasks`status, tasks`timeout
      ensures Queued(init, runqueue, tasks, null) && runqueue == Woken(old(runqueue), tasks, old(Late(tasks, jiffies)))
      ensures runqueue != [] && InTasks(runqueue) && Distinct(tasks)
      ensures Timeouts(tasks) == Cleared(old(Timeouts(tasks)), jiffies)
      ensures Risen(tasks, old(runqueue), old(Timeouts(tasks)), jiffies, old(Statuses(tasks)), Statuses(tasks), {})
      ensures x.status == if Roused(x, old(runqueue), old(Late(tasks, jiffies))) then Running else old(x.status)
    {
      hide Queued, Distinct, InTasks, Woken, Timeouts, Statuses, Cleared, Risen;
      ghost var there, timeout, was := Find(tasks, x), Timeouts(tasks), Statuses(tasks);
      Expire(jiffies);
      if there < |tasks| {
        RisenAt(tasks, old(runqueue), timeout, jiffies, was, Statuses(tasks), {}, there);
      }
      QueueInTasks();
    }

    /** Where a task is in a list; past its end if it is not. */
    static ghost function Find(tasks: seq<Task>, t: Task): (k: nat)
      ensures if t in tasks then k < |tasks| && tasks[k] == t else k == |tasks|
    {
      if tasks == [] then 0 else if tasks[0] == t then 0 else 1 + Find(tasks[1..], t)
    }

    /** schedule: the next task is a queued one of the greatest goodness, after at most one
        recalculation, and every scheduler invariant holds again. */
    method Schedule(exited: bool, jiffies: nat)
      returns (ghost rounds: nat, ghost queue: seq<Task>, ghost late: set<Task>, ghost slices: seq<int>)
      requires Valid()
      modifies this`current, this`runqueue, this`tasks, tasks`status, tasks`timeout, tasks`counter, current`needResched
      modifies current`status, current`reapMe, current`policy
      ensures Valid() && current.status == Running
      ensures Best(runqueue, current) && current.Goodness() > 0 && !old(current).needResched
      ensures exists k ::
        && 0 <= k < |runqueue| && current == runqueue[k]
        && (current.policy != Other ==> forall j :: 0 <= j < k ==> runqueue[j].policy == Other)
        && (current.policy == Other ==> forall j :: 0 <= j < |runqueue| ==>
              runqueue[j].policy == Other && runqueue[j].counter <= current.counter
              && (j < k ==> runqueue[j].counter < current.counter))
      ensures tasks == old(LeftTasks(exited)) && queue == old(LeftQueue(exited))
      ensures late == old(Late(LeftTasks(exited), jiffies))
      ensures runqueue == Woken(queue, tasks, late)
      ensures forall k :: 0 <= k < |tasks| ==> tasks[k] in old(tasks)
      ensures Timeouts(tasks) == Cleared(old(Timeouts(LeftTasks(exited))), jiffies)
      ensures Risen(tasks, queue, old(Timeouts(LeftTasks(exited))), jiffies, old(Statuses(LeftTasks(exited))),
          Statuses(tasks), {old(current), current})
      ensures current != old(current) ==>
        old(current).status == if old(LeftStatus(exited)) == Running || Roused(old(current), queue, late) then Sleeping
          else old(LeftStatus(exited))
      ensures slices == old(Counters(LeftTasks(exited))) && Counters(tasks) == Sliced(slices, rounds)
      ensures rounds == if UsedUp(tasks, runqueue, slices) then 1 else 0
      ensures if old(current.reapMe) && !exited then !old(current).reapMe && old(current).policy == Other
              else old(current).reapMe == old(current.reapMe) && old(current).policy == old(current.policy)
    {
      slices := Counters(LeftTasks(exited));
      hide Counters, Sliced, UsedUp, Timeouts, Statuses, Cleared, Risen;
      ghost var timeout, was := Timeouts(LeftTasks(exited)), Statuses(LeftTasks(exited));
      hide Queued, Fair, Pids, Best, Woken, LeftTasks, LeftQueue, LeftStatus, Gone, Runs, Roused, Late;
      assert current in tasks by { Members(); }
      var prev := current;
      queue, late := Prepare(exited, jiffies);
      ghost var now := Statuses(tasks);
      rounds := Dispatch(prev);
      StillRisen(tasks, queue, timeout, jiffies, was, now, {prev}, was, Statuses(tasks), {prev, current});
    }

    /** The third part, and the switch to the task chosen. */
    method Dispatch(prev: Task) returns (ghost rounds: nat)
      requires Queued(init, runqueue, tasks, null) && Fair() && Pids() && init.pid == INIT_PID && !init.reapMe
      requires runqueue != [] && InTasks(runqueue) && Distinct(tasks)
      modifies this`current, tasks`counter, tasks`status, prev`status
      ensures Valid() && current.status == Running && Best(runqueue, current) && current.Goodness() > 0
      ensures exists k ::
        && 0 <= k < |runqueue| && current == runqueue[k]
        && (current.policy != Other ==> forall j :: 0 <= j < k ==> runqueue[j].policy == Other)
        && (current.policy == Other ==> forall j :: 0 <= j < |runqueue| ==>
              runqueue[j].policy == Other && runqueue[j].counter <= current.counter
              && (j < k ==> runqueue[j].counter < current.counter))
      ensures prev != current ==> prev.status == if old(prev.status) == Running then Sleeping else old(prev.status)
      ensures |Statuses(tasks)| == |tasks|
      ensures forall k :: 0 <= k < |tasks| && tasks[k] != prev && tasks[k] != current ==>
        Statuses(tasks)[k] == old(Statuses(tasks))[k]
      ensures Counters(tasks) == Sliced(old(Counters(tasks)), rounds)
      ensures rounds == if UsedUp(tasks, runqueue, old(Counters(tasks))) then 1 else 0
    {
      hide Counters, Sliced, UsedUp, Statuses, Queued, Fair, Pids, Best;
      var next;
      next, rounds := Pick();
      assert next in tasks;
      Switch(prev, next);
      FirstChosen();
    }

    lemma Members()
      requires Valid()
      ensures current in tasks && init in tasks
    {
    }

    /** The switch itself: the previous task, if still running, is set to sleeping. */
    method Switch(prev: Task, next: Task)
      requires Queued(init, runqueue, tasks, null) && Fair() && Pids() && init.pid == INIT_PID && !init.reapMe
      requires next in runqueue
      modifies this`current, prev`status, next`status
      ensures Valid() && current == next && next.status == Running
      ensures forall k :: 0 <= k < |tasks| && tasks[k] != prev && tasks[k] != next ==>
        Statuses(tasks)[k] == old(Statuses(tasks))[k]
      ensures prev != next ==> prev.status == if old(prev.status) == Running then Sleeping else old(prev.status)
    {
      current := next;
      if prev.status == Running {
        prev.status := Sleeping;
      }
      current.status := Running;
    }

    /** The choice is the first real-time task that is queued; if there is none, it is the first task with
        the most ticks left. */
    lemma FirstChosen()
      requires Valid() && Best(runqueue, current)
      ensures exists k ::
        && 0 <= k < |runqueue| && current == runqueue[k]
        && (current.policy != Other ==> forall j :: 0 <= j < k ==> runqueue[j].policy == Other)
        && (current.policy == Other ==> forall j :: 0 <= j < |runqueue| ==>
              runqueue[j].policy == Other && runqueue[j].counter <= current.counter
              && (j < k ==> runqueue[j].counter < current.counter))
    {
      var k :| 0 <= k < |runqueue| && current == runqueue[k]
        && forall j :: 0 <= j < k ==> runqueue[j].Goodness() < current.Goodness();
      forall j | 0 <= j < |runqueue| ensures runqueue[j].Goodness() <= current.Goodness() && runqueue[j].Counted() {
        assert runqueue[j] in runqueue;
      }
    }

    /** wake_up_process. */
    method WakeUp(task: Task)
      requires Valid() && task in tasks
      modifies this`runqueue, task`status
      ensures Valid() && runqueue == if task in old(runqueue) then old(runqueue) else old(runqueue) + [task]
      ensures task.status == if task in old(runqueue) then old(task.status) else Running
    {
      if task !in runqueue {
        task.status := Running;
        AppendNew(runqueue, task);
        runqueue := runqueue + [task];
      }
    }

    /** The current task gives up the processor, up to its call of schedule. */
    method Sleep(status: Status, timeout: nat)
      requires Valid() && current != init && !Ready(status)
      modifies current`status, current`timeout
      ensures Valid() && current.status == status && current.timeout == timeout
    {
      current.status := status;
      current.timeout := timeout;
    }

    /** do_timer: a tick of the clock. */
    method Tick()
      requires Valid()
      modifies current`counter, current`needResched
      ensures Valid() && current.counter == (if old(current.counter) > 0 then old(current.counter) - 1 else 0)
      ensures current.needResched == (old(current.needResched) || current.counter == 0)
    {
      assert current in tasks && current.Counted();
      current.counter := current.counter - 1;
      if current.counter <= 0 {
        current.counter := 0;
        current.needResched := true;
      }
    }

    /** Some ticks of the clock. */
    method Ticks(n: nat)
      requires Valid()
      modifies current`counter, current`needResched
      ensures Valid() && current.counter == if old(current.counter) > n then old(current.counter) - n else 0
      ensures current.needResched <==> old(current.needResched) || (n > 0 && old(current.counter) <= n)
    {
      assert current in tasks && current.Counted();
      for i := 0 to n
        invariant Valid() && current.counter == if old(current.counter) > i then old(current.counter) - i else 0
        invariant current.needResched <==> old(current.needResched) || (i > 0 && old(current.counter) <= i)
      {
        Tick();
      }
    }

    /** schedule and the ticks after it: a task that has called schedule and goes on is asked to call it
        again exactly when its slice has run out since. */
    method Stint(exited: bool, jiffies: nat, n: nat) returns (slice: int)
      requires Valid()
      modifies this`current, this`runqueue, this`tasks, tasks`status, tasks`timeout, tasks`counter, tasks`needResched
      modifies current`reapMe, current`policy
      ensures Valid() && (current == old(current) ==> (current.needResched <==> n > 0 && slice <= n))
      ensures current != old(current) ==> !old(current).needResched
    {
      hide Valid, Best, Risen, Cleared, Timeouts, Statuses, Counters, Sliced, UsedUp, Late, Woken;
      hide LeftTasks, LeftQueue, LeftStatus, Roused, Find;
      Members();
      ghost var rounds, queue, late, slices;
      rounds, queue, late, slices := Schedule(exited, jiffies);
      slice := current.counter;
      Members();
      ghost var there := Find(tasks, current);
      assert tasks[there] in old(tasks);
      Ticks(n);
    }

    /** lookup_pid. */
    method LookupPid(pid: int) returns (task: Task?)
      ensures task != null ==> task in tasks && task.pid == pid
      ensures task == null ==> forall t :: t in tasks ==> t.pid != pid
    {
      for i := 0 to |tasks|
        invariant forall j :: 0 <= j < i ==> tasks[j].pid != pid
      {
        if tasks[i].pid == pid {
          return tasks[i];
        }
      }
      task := null;
    }

    /** kill_task by process id: the task becomes real-time and queued, so that it runs and is reaped.
        The first task cannot be killed. */
    method KillTask(pid: int) returns (err: int)
      requires Valid()
      modifies this`runqueue, tasks`policy, tasks`reapMe, tasks`status
      ensures Valid()
      ensures err == 0 <==> exists t :: t in tasks && t.pid == pid && pid != INIT_PID
      ensures err == 0 || err == -1
      ensures forall k :: 0 <= k < |tasks| && err == 0 && tasks[k].pid == pid ==>
        tasks[k].policy == Fifo && tasks[k].reapMe && tasks[k].status == Running
        && runqueue == if tasks[k] in old(runqueue) then old(runqueue) else old(runqueue) + [tasks[k]]
      ensures forall k :: 0 <= k < |tasks| && (err != 0 || tasks[k].pid != pid) ==>
        tasks[k].policy == old(tasks[k].policy) && tasks[k].reapMe == old(tasks[k].reapMe)
        && tasks[k].status == old(tasks[k].status)
      ensures err != 0 ==> runqueue == old(runqueue)
    {
      var task := LookupPid(pid);
      if task == null || task.pid == INIT_PID {
        return -1;
      }
      Doom(task);
      err := 0;
    }

    /** First come, first served, to be reaped, and running. */
    predicate Doomed(task: Task)
      reads task`policy, task`reapMe, task`status
    {
      task.policy == Fifo && task.reapMe && task.status == Running
    }

    method Doom(task: Task)
      requires Valid() && task in tasks && task != init
      modifies this`runqueue, task`policy, task`reapMe, task`status
      ensures Valid() && Doomed(task) && runqueue == Joined(old(runqueue), task)
    {
      task.policy := Fifo;
      task.reapMe := true;
      if task.status != Running {
        task.status := Running;
        if task !in runqueue {
          AppendNew(runqueue, task);
          runqueue := runqueue + [task];
        }
      }
    }

    ghost predicate PidTaken(p: int)
      reads this`tasks
    {
      exists k :: 0 <= k < |tasks| && tasks[k].pid == p
    }

    /** create_task_name: the child starts with one slice, at the end of the runqueue. It is refused
        exactly when every process id is taken. */
    method CreateTask() returns (err: int, child: Task?)
      requires Valid()
      modifies this`runqueue, this`tasks, this`lastPid
      ensures Valid()
      ensures err == 0 <==> child != null
      ensures child != null ==> fresh(child) && runqueue == old(runqueue) + [child] && tasks == old(tasks) + [child]
      ensures child != null ==> child.reapMe == current.reapMe && child.needResched == current.needResched
      ensures child != null ==> child.status == Running && child.timeout == 0 && child.priority == current.priority
      ensures child != null ==> child.counter == 1 && !child.RealTime() && child.pid == lastPid
      ensures child != null ==> forall t :: t in old(tasks) ==> t.pid != child.pid
      ensures child == null ==> tasks == old(tasks) && runqueue == old(runqueue)
      ensures child == null ==> lastPid == if old(lastPid) == 32767 then 1 else old(lastPid) + 1
      ensures child == null ==> forall p :: 1 <= p <= 32767 ==> PidTaken(p)
    {
      var pids := seq(|tasks|, i requires 0 <= i < |tasks| reads this, tasks => tasks[i].pid);
      var pid;
      pid, lastPid := GetPid(lastPid, pids);
      assert forall k :: 0 <= k < |tasks| ==> pids[k] == tasks[k].pid;
      if pid < 0 {
        forall p | 1 <= p <= MAX_PID ensures PidTaken(p) {
          assert p in pids;
        }
        return -1, null;
      }
      var next := new Task(pid, current.priority, current.reapMe, current.needResched, 1);
      Adopt(next);
      return 0, next;
    }

    /** set_links and add_runqueue of a new task. */
    method Adopt(next: Task)
      requires Valid() && next !in tasks && next.status == Running && next.Counted() && 1 <= next.pid <= MAX_PID
      requires forall t :: t in tasks ==> t.pid != next.pid
      modifies this`runqueue, this`tasks
      ensures Valid() && runqueue == old(runqueue) + [next] && tasks == old(tasks) + [next]
    {
      AppendNew(runqueue, next);
      AppendNew(tasks, next);
      tasks := tasks + [next];
      runqueue := runqueue + [next];
    }
  }

  /** Two ordinary tasks, both queued, the second at the end, with `x` and `y` ticks left. */
  ghost predicate Two(s: Scheduler, t: Task, x: int, y: int)
    reads s, s.tasks, s.runqueue, s.init, t
  {
    && s.Valid() && s.tasks == [s.init, t] == s.runqueue && s.init.counter == x && t.counter == y
    && !s.init.RealTime() && !t.RealTime() && !t.reapMe && s.current.status == Running
  }

  lemma TwoTasks(s: Scheduler, t: Task, x: int, y: int)
    requires Two(s, t, x, y)
    ensures s.init != t && s.init in s.tasks && t in s.tasks && (s.current == s.init || s.current == t)
    ensures s.LeftTasks(false) == s.tasks && s.LeftQueue(false) == s.runqueue && Scheduler.Late(s.tasks, 0) == {}
    ensures Woken(s.runqueue, s.tasks, {}) == s.runqueue
    ensures Scheduler.Counters(s.tasks) == [x, y] && x >= 0 && y >= 0
    ensures Scheduler.UsedUp(s.tasks, s.runqueue, [x, y]) <==> y == 0
  {
    assert [s.init, t][0] == s.init && [s.init, t][1] == t;
    assert s.tasks[..1] == [s.init] && s.tasks[1..] == [t];
    assert s.init.Counted() && t.Counted();
    assert s.current in s.tasks;
    assert Woken(s.runqueue, s.tasks[..1], {}) == s.runqueue;
  }

  /** A call of schedule between the two: the slices are recalculated when the second has none left. */
  method Turn(s: Scheduler, t: Task, ghost x: int, ghost y: int) returns (ghost rounds: nat, ghost u: int, ghost v: int)
    requires Two(s, t, x, y)
    modifies s, s.tasks
    ensures Two(s, t, u, v) && rounds == if y == 0 then 1 else 0
    ensures u == (if y == 0 then x / 2 + DEFAULT_PRIORITY else x) && v == if y == 0 then DEFAULT_PRIORITY else y
    ensures s.current == if u >= v then s.init else t
  {
    hide Scheduler.Risen, Scheduler.Cleared, Scheduler.Timeouts, Scheduler.Statuses, Scheduler.UsedUp, Scheduler.Late;
    hide Scheduler.Valid, Scheduler.LeftTasks, Scheduler.LeftQueue, Scheduler.LeftStatus, Woken, Best;
    TwoTasks(s, t, x, y);
    ghost var queue, late, slices;
    rounds, queue, late, slices := s.Schedule(false, 0);
    u, v := s.init.counter, t.counter;
  }

  /** The current task uses up its slice. */
  method RunDown(s: Scheduler, t: Task, ghost x: int, ghost y: int)
    requires Two(s, t, x, y)
    modifies s.current`counter, s.current`needResched
    ensures s.current == s.init ==> Two(s, t, 0, y)
    ensures s.current == t ==> Two(s, t, x, 0)
  {
    TwoTasks(s, t, x, y);
    while s.current.counter > 0
      invariant Two(s, t, s.init.counter, t.counter)
      invariant s.current == s.init ==> t.counter == y
      invariant s.current == t ==> s.init.counter == x
      decreases s.current.counter
    {
      s.Tick();
    }
  }

  /** The first task, which has no slice at the start, creates another. */
  method Spawn() returns (s: Scheduler, t: Task)
    ensures fresh(s) && fresh(s.init) && fresh(t) && Two(s, t, 0, 1) && s.current == s.init
  {
    s := new Scheduler();
    var err, child := s.CreateTask();
    assert s.PidTaken(2) ==> |s.tasks| != 1;
    t := child;
  }

  /** A new task runs out its slice and the first task loses one of its own. Then the new task, at the
      end of the queue, runs out again: every slice is recalculated, although the first task has 8
      ticks left. */
  method EarlyRecalculation() returns (s: Scheduler, left: int, ghost rounds: nat)
    ensures fresh(s) && s.current == s.init && left == 8 && rounds == 1 && s.init.counter == left / 2 + DEFAULT_PRIORITY
  {
    var t;
    s, t := Spawn();
    ghost var u, v;
    rounds, u, v := Turn(s, t, 0, 1);
    RunDown(s, t, 0, 1);
    rounds, u, v := Turn(s, t, 0, 0);
    s.Tick();
    rounds, u, v := Turn(s, t, 8, 9);
    RunDown(s, t, 8, 9);
    left := s.init.counter;
    rounds, u, v := Turn(s, t, 8, 0);
  }
}
