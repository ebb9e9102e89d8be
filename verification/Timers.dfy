/** kernel/timer.c: timers sorted by timeout, ties in order of arrival, each fired once. */
module Timers {

  import opened DList

  const MAX_TIMEOUT := 0x7FFF_FFFF

  class Timer {
    const timeout: nat

    constructor (timeout: nat)
      ensures this.timeout == timeout
    {
      this.timeout := timeout;
    }
  }

  /** timer_compare. */
  function Compare(a: Timer, b: Timer): int {
    a.timeout - b.timeout
  }

  ghost predicate Sorted(s: seq<Timer>) {
    forall i, j :: 0 <= i < j < |s| ==> s[i].timeout <= s[j].timeout
  }

  /** Where list_sort_add puts a timer: before the first element that is greater. */
  function Place(s: seq<Timer>, t: Timer): (k: nat)
    ensures k <= |s| && (k > 0 ==> s[k - 1].timeout <= t.timeout) && (k < |s| ==> t.timeout < s[k].timeout)
    ensures forall i :: 0 <= i < k ==> Compare(t, s[i]) >= 0
  {
    if s == [] || Compare(t, s[0]) < 0 then 0 else 1 + Place(s[1..], t)
  }

  function Insert(s: seq<Timer>, t: Timer): seq<Timer> {
    s[..Place(s, t)] + [t] + s[Place(s, t)..]
  }

  /** The timers that have expired, and the others, in their order. */
  function Due(s: seq<Timer>, jiffies: nat): seq<Timer> {
    if s == [] then [] else (if jiffies >= s[0].timeout then [s[0]] else []) + Due(s[1..], jiffies)
  }

  function Waiting(s: seq<Timer>, jiffies: nat): seq<Timer> {
    if s == [] then [] else (if jiffies >= s[0].timeout then [] else [s[0]]) + Waiting(s[1..], jiffies)
  }

  /** Nothing before the new timer expires later than it, and everything after it does. */
  lemma InsertSorted(s: seq<Timer>, t: Timer)
    requires Sorted(s) && Distinct(s) && t !in s
    ensures Sorted(Insert(s, t)) && Distinct(Insert(s, t))
    ensures var k := Place(s, t);
      (forall i :: 0 <= i < k ==> s[i].timeout <= t.timeout) && (forall i :: k <= i < |s| ==> t.timeout < s[i].timeout)
  {
    PlaceBounds(s, t);
    hide Sorted, Distinct, Place;
    Joined(s, Place(s, t), t);
  }

  lemma PlaceBounds(s: seq<Timer>, t: Timer)
    requires Sorted(s)
    ensures var k := Place(s, t);
      (forall i :: 0 <= i < k ==> s[i].timeout <= t.timeout) && (forall i :: k <= i < |s| ==> t.timeout < s[i].timeout)
  {
  }

  lemma Joined(s: seq<Timer>, k: nat, t: Timer)
    requires Sorted(s) && Distinct(s) && t !in s && k <= |s|
    requires (forall i :: 0 <= i < k ==> s[i].timeout <= t.timeout)
    requires (forall i :: k <= i < |s| ==> t.timeout < s[i].timeout)
    ensures Sorted(s[..k] + [t] + s[k..]) && Distinct(s[..k] + [t] + s[k..])
  {
    var r := s[..k] + [t] + s[k..];
    forall i, j | 0 <= i < j < |r| ensures r[i].timeout <= r[j].timeout && r[i] != r[j] {
      assert r[i] == if i < k then s[i] else if i == k then t else s[i - 1];
      assert r[j] == if j < k then s[j] else if j == k then t else s[j - 1];
    }
  }

  lemma {:induction false} NoneDue(s: seq<Timer>, jiffies: nat)
    requires forall x :: x in s ==> jiffies < x.timeout
    ensures Due(s, jiffies) == [] && Waiting(s, jiffies) == s
    decreases |s|
  {
    if s != [] { NoneDue(s[1..], jiffies); }
  }

  /** On a sorted list the timers that have expired come before the others. */
  lemma {:induction false} DuePrefix(s: seq<Timer>, jiffies: nat)
    requires Sorted(s)
    ensures Due(s, jiffies) + Waiting(s, jiffies) == s
    decreases |s|
  {
    if s != [] {
      TailSorted(s);
      hide Sorted;
      if jiffies >= s[0].timeout {
        DuePrefix(s[1..], jiffies);
        Regroup(s[0], Due(s[1..], jiffies), Waiting(s[1..], jiffies), s);
      } else {
        NoneDue(s, jiffies);
      }
    }
  }

  lemma TailSorted(s: seq<Timer>)
    requires Sorted(s) && s != []
    ensures Sorted(s[1..]) && forall x :: x in s ==> s[0].timeout <= x.timeout
  {
  }

  lemma Regroup(x: Timer, a: seq<Timer>, b: seq<Timer>, s: seq<Timer>)
    requires s != [] && s[0] == x && a + b == s[1..]
    ensures [x] + a + b == s
  {
    assert [x] + (a + b) == s;
  }

  lemma {:induction false} Split(s: seq<Timer>, jiffies: nat, x: Timer)
    ensures x in Due(s, jiffies) <==> x in s && x.timeout <= jiffies
    ensures x in Waiting(s, jiffies) <==> x in s && jiffies < x.timeout
    decreases |s|
  {
    if s != [] { Split(s[1..], jiffies, x); }
  }

  lemma WaitingSuffix(s: seq<Timer>, jiffies: nat)
    requires Sorted(s) && Distinct(s) && Due(s, jiffies) + Waiting(s, jiffies) == s
    ensures Sorted(Waiting(s, jiffies)) && Distinct(Waiting(s, jiffies))
    ensures forall k :: 0 <= k < |Waiting(s, jiffies)| ==> Waiting(s, jiffies)[k] in s
  {
    var d, w := Due(s, jiffies), Waiting(s, jiffies);
    forall i, j | 0 <= i < j < |w| ensures w[i].timeout <= w[j].timeout && w[i] != w[j] {
      assert w[i] == s[|d| + i] && w[j] == s[|d| + j];
    }
    assert forall k :: 0 <= k < |w| ==> w[k] == s[|d| + k];
  }

  /** The next timer of the traversal, deleted or passed over. */
  lemma NextTimer(all: seq<Timer>, k: nat, s: seq<Timer>, p: nat)
    requires k <= |all| && p < |s| && s[p..] == all[k..] && Distinct(s)
    ensures k < |all| && all[k] == s[p] && all[k..][1..] == all[k + 1..]
    ensures var r := Without(s, s[p]); |r| == |s| - 1 && r[..p] == s[..p] && r[p..] == all[k + 1..] && Distinct(r)
    ensures s[..p + 1] == s[..p] + [s[p]] && s[p + 1..] == all[k + 1..]
  {
    WithoutAt(s, p);
    WithoutMembers(s, s[p]);
    assert s[p..][1..] == s[p + 1..] && all[k..][0] == all[k];
  }

  class TimerList {
    var timers: seq<Timer>
    var fired: seq<(Timer, nat)>    // the handlers called so far, with the time of the call

    function Model(): State
      reads this
    {
      State(timers, fired)
    }

    ghost predicate Valid()
      reads this
    {
      Sorted(timers) && Distinct(timers) && forall k :: 0 <= k < |timers| ==> timers[k].timeout <= MAX_TIMEOUT
    }

    constructor ()
      ensures Valid() && timers == [] && fired == []
    {
      timers, fired := [], [];
    }

    /** __add_timer. */
    method Add(timer: Timer) returns (err: int)
      requires Valid() && timer !in timers
      modifies this`timers
      ensures Valid() && err == (if timer.timeout > 0x7FFF_FFFF then -1 else 0)
      ensures Model() == Next(old(Model()), AddOp(timer))
      ensures err != 0 ==> timers == old(timers)
      ensures err == 0 ==> exists k ::
        && 0 <= k <= |old(timers)| && timers == old(timers)[..k] + [timer] + old(timers)[k..]
        && (forall i :: 0 <= i < k ==> old(timers)[i].timeout <= timer.timeout)
        && forall i :: k <= i < |old(timers)| ==> timer.timeout < old(timers)[i].timeout
    {
      if timer.timeout > MAX_TIMEOUT {
        return -1;
      }
      InsertSorted(timers, timer);
      var i := FindPlace(timer);
      timers := timers[..i] + [timer] + timers[i..];
      err := 0;
    }

    /** The traversal of list_sort_add. */
    method FindPlace(timer: Timer) returns (i: nat)
      ensures i == Place(timers, timer)
    {
      i := 0;
      while i < |timers|
        invariant i <= Place(timers, timer)
      {
        if Compare(timer, timers[i]) < 0 {
          break;
        }
        i := i + 1;
      }
    }

    /** __del_timer. */
    method Del(timer: Timer)
      requires Valid() && timer in timers
      modifies this`timers
      ensures Valid() && Model() == Next(old(Model()), DelOp(timer))
    {
      NextSound(Model(), DelOp(timer));
      forall k | 0 <= k < |Without(timers, timer)| ensures Without(timers, timer)[k] in timers {
        InWithout(timers, timer, Without(timers, timer)[k]);
      }
      hide Without, Sorted, Distinct;
      timers := Without(timers, timer);
    }

    /** run_timer: fires exactly the timers that have expired, in the list's order, and keeps the
        others. */
    method Run(jiffies: nat)
      requires Valid()
      modifies this
      ensures Valid() && Model() == Next(old(Model()), RunOp(jiffies))
    {
      ghost var all := timers;
      ghost var k, done := 0, [];  // how much of the old list has been visited, and fired
      var traverse := 0;           // position of the next timer in the list
      hide Visited, Sorted, Distinct, Due, Waiting;
      Start(all, jiffies);
      while traverse < |timers|
        invariant Visited(all, k, timers, traverse, done, jiffies) && traverse <= |timers|
        invariant fired == old(fired) + Stamp(done, jiffies)
        decreases |timers| - traverse
      {
        var timer := timers[traverse];
        Step(all, k, timers, traverse, done, jiffies);
        if jiffies >= timer.timeout {
          timers := Without(timers, timer);
          fired := fired + [(timer, jiffies)];
          StampLast(done, timer, jiffies);
          done := done + [timer];
        } else {
          traverse := traverse + 1;
        }
        k := k + 1;
      }
      Finish(all, k, timers, traverse, done, jiffies);
      DuePrefix(all, jiffies);
      WaitingSuffix(all, jiffies);
    }
  }

  /** The traversal after `k` timers of the old list, at position `p` of what is left. */
  ghost predicate Visited(all: seq<Timer>, k: nat, s: seq<Timer>, p: nat, fired: seq<Timer>, jiffies: nat) {
    && k <= |all| && p <= |s| && Distinct(s) && s[p..] == all[k..]
    && s[..p] + Waiting(all[k..], jiffies) == Waiting(all, jiffies)
    && fired + Due(all[k..], jiffies) == Due(all, jiffies)
  }

  lemma Start(all: seq<Timer>, jiffies: nat)
    requires Distinct(all)
    ensures Visited(all, 0, all, 0, [], jiffies)
  {
    assert all[0..] == all && all[..0] + Waiting(all, jiffies) == Waiting(all, jiffies);
  }

  lemma Step(all: seq<Timer>, k: nat, s: seq<Timer>, p: nat, fired: seq<Timer>, jiffies: nat)
    requires Visited(all, k, s, p, fired, jiffies) && p < |s|
    ensures jiffies >= s[p].timeout ==> Visited(all, k + 1, Without(s, s[p]), p, fired + [s[p]], jiffies)
    ensures jiffies < s[p].timeout ==> Visited(all, k + 1, s, p + 1, fired, jiffies)
    ensures |Without(s, s[p])| == |s| - 1
  {
    hide Distinct, Without;
    NextTimer(all, k, s, p);
    assert all[k..][0] == s[p];
    var rest := all[k + 1..];
    if jiffies >= s[p].timeout {
      assert fired + ([s[p]] + Due(rest, jiffies)) == fired + [s[p]] + Due(rest, jiffies);
    } else {
      assert s[..p] + ([s[p]] + Waiting(rest, jiffies)) == s[..p + 1] + Waiting(rest, jiffies);
      assert [] + Due(rest, jiffies) == Due(rest, jiffies);
    }
  }

  lemma Finish(all: seq<Timer>, k: nat, s: seq<Timer>, p: nat, fired: seq<Timer>, jiffies: nat)
    requires Visited(all, k, s, p, fired, jiffies) && p == |s|
    ensures s == Waiting(all, jiffies) && fired == Due(all, jiffies)
  {
    assert all[k..] == [] && s[..p] + [] == s && fired + [] == fired;
  }

  // ---------------------------------------------------------------- whole runs

  datatype Op = AddOp(timer: Timer) | DelOp(timer: Timer) | RunOp(jiffies: nat)

  /** The list and the handlers called, each with the time of the call. */
  datatype State = State(timers: seq<Timer>, fired: seq<(Timer, nat)>)

  function Stamp(s: seq<Timer>, jiffies: nat): seq<(Timer, nat)> {
    if s == [] then [] else [(s[0], jiffies)] + Stamp(s[1..], jiffies)
  }

  lemma {:induction false} StampLast(s: seq<Timer>, t: Timer, jiffies: nat)
    ensures Stamp(s + [t], jiffies) == Stamp(s, jiffies) + [(t, jiffies)]
    decreases |s|
  {
    if s != [] {
      StampLast(s[1..], t, jiffies);
      assert (s + [t])[1..] == s[1..] + [t];
    }
  }

  lemma {:induction false} StampIs(s: seq<Timer>, jiffies: nat)
    ensures |Stamp(s, jiffies)| == |s| && forall k :: 0 <= k < |s| ==> Stamp(s, jiffies)[k] == (s[k], jiffies)
  {
    if s != [] { StampIs(s[1..], jiffies); }
  }

  lemma DueBounds(s: seq<Timer>, jiffies: nat)
    requires Due(s, jiffies) + Waiting(s, jiffies) == s
    ensures var n := |Due(s, jiffies)|;
      && n <= |s| && Due(s, jiffies) == s[..n] && Waiting(s, jiffies) == s[n..]
      && (forall k :: 0 <= k < n ==> s[k].timeout <= jiffies) && forall k :: n <= k < |s| ==> jiffies < s[k].timeout
  {
    var d, w := Due(s, jiffies), Waiting(s, jiffies);
    forall x: Timer ensures (x in d ==> x.timeout <= jiffies) && (x in w ==> jiffies < x.timeout) {
      Split(s, jiffies, x);
    }
    assert forall k :: 0 <= k < |d| ==> s[k] == d[k] && d[k] in d;
    assert forall k :: |d| <= k < |s| ==> s[k] == w[k - |d|] && w[k - |d|] in w;
  }

  function Next(s: State, op: Op): State {
    match op
    case AddOp(t) => if t.timeout > MAX_TIMEOUT || t in s.timers then s else s.(timers := Insert(s.timers, t))
    case DelOp(t) => s.(timers := Without(s.timers, t))
    case RunOp(j) => State(Waiting(s.timers, j), s.fired + Stamp(Due(s.timers, j), j))
  }

  function Play(s: State, ops: seq<Op>): State
    decreases |ops|
  {
    if ops == [] then s else Play(Next(s, ops[0]), ops[1..])
  }

  /** A run takes the timers that have expired off the front of the list and calls their handlers in that
      order, at that time. */
  lemma RunFires(s: State, jiffies: nat) returns (n: nat)
    requires Sound(s)
    ensures var t := Next(s, RunOp(jiffies));
      && n <= |s.timers| && t.timers == s.timers[n..] && |t.fired| == |s.fired| + n && s.fired <= t.fired
      && (forall k :: 0 <= k < n ==>
            s.timers[k].timeout <= jiffies && t.fired[|s.fired| + k] == (s.timers[k], jiffies))
      && forall k :: n <= k < |s.timers| ==> jiffies < s.timers[k].timeout
  {
    n := |Due(s.timers, jiffies)|;
    DuePrefix(s.timers, jiffies);
    DueBounds(s.timers, jiffies);
    StampIs(Due(s.timers, jiffies), jiffies);
    hide Due, Waiting, Stamp, Sorted, Distinct;
  }

  /** The operation concerns the timer by name. */
  predicate Names(op: Op, t: Timer) {
    (op.AddOp? || op.DelOp?) && op.timer == t
  }

  /** How often a timer's handler was called. */
  function Calls(fired: seq<(Timer, nat)>, t: Timer): nat {
    if fired == [] then 0 else (if fired[0].0 == t then 1 else 0) + Calls(fired[1..], t)
  }

  lemma {:induction false} CallsAdd(a: seq<(Timer, nat)>, b: seq<(Timer, nat)>, t: Timer)
    ensures Calls(a + b, t) == Calls(a, t) + Calls(b, t)
    decreases |a|
  {
    if a == [] {
      assert a + b == b;
    } else {
      assert (a + b)[1..] == a[1..] + b;
      CallsAdd(a[1..], b, t);
    }
  }

  lemma {:induction false} StampOnce(s: seq<Timer>, jiffies: nat, t: Timer)
    requires Distinct(s)
    ensures Calls(Stamp(s, jiffies), t) == if t in s then 1 else 0
    ensures t in s ==> (t, jiffies) in Stamp(s, jiffies)
    decreases |s|
  {
    if s != [] {
      StampOnce(s[1..], jiffies, t);
      assert Stamp(s, jiffies)[1..] == Stamp(s[1..], jiffies);
      assert s[0] !in s[1..];
      if t in s[1..] { assert (t, jiffies) in Stamp(s, jiffies)[1..]; }
      if t == s[0] { assert Stamp(s, jiffies)[0] == (t, jiffies); }
    }
  }

  /** The time of the first run that reaches a timeout, or none. */
  function FirstDue(ops: seq<Op>, timeout: nat): (r: int)
    ensures r == -1 || r >= timeout
  {
    if ops == [] then -1 else if ops[0].RunOp? && ops[0].jiffies >= timeout then ops[0].jiffies
      else FirstDue(ops[1..], timeout)
  }

  ghost predicate Sound(s: State) {
    Sorted(s.timers) && Distinct(s.timers)
  }

  lemma DuePart(s: seq<Timer>, jiffies: nat)
    requires Sorted(s) && Distinct(s)
    ensures Distinct(Due(s, jiffies))
  {
    DuePrefix(s, jiffies);
    var d := Due(s, jiffies);
    assert forall i :: 0 <= i < |d| ==> d[i] == s[i];
  }

  lemma NextSound(s: State, op: Op)
    requires Sound(s)
    ensures Sound(Next(s, op))
  {
    match op
    case AddOp(t) => if t !in s.timers { InsertSorted(s.timers, t); }
    case DelOp(t) =>
      if t in s.timers {
        var p :| 0 <= p < |s.timers| && s.timers[p] == t;
        WithoutAt(s.timers, p);
        WithoutMembers(s.timers, t);
      } else {
        WithoutAbsent(s.timers, t);
      }
    case RunOp(j) => DuePrefix(s.timers, j); WaitingSuffix(s.timers, j);
  }

  /** A step that does not name a timer leaves its membership alone, unless it is a run that reaches
      its timeout; and calls its handler only then, once. */
  lemma NextTimerOp(s: State, op: Op, t: Timer)
    requires Sound(s) && !Names(op, t)
    ensures t in Next(s, op).timers <==> t in s.timers && !(op.RunOp? && op.jiffies >= t.timeout)
    ensures Calls(Next(s, op).fired, t)
      == Calls(s.fired, t) + (if t in s.timers && op.RunOp? && op.jiffies >= t.timeout then 1 else 0)
    ensures t in s.timers && op.RunOp? && op.jiffies >= t.timeout ==> (t, op.jiffies) in Next(s, op).fired
    ensures s.fired <= Next(s, op).fired
  {
    match op
    case AddOp(x) => assert t in Insert(s.timers, x) <==> t in s.timers by { InsertMember(s.timers, x, t); }
    case DelOp(x) => InWithout(s.timers, x, t);
    case RunOp(j) =>
      Split(s.timers, j, t);
      DuePart(s.timers, j);
      StampOnce(Due(s.timers, j), j, t);
      CallsAdd(s.fired, Stamp(Due(s.timers, j), j), t);
  }

  lemma InsertMember(s: seq<Timer>, x: Timer, t: Timer)
    ensures t in Insert(s, x) <==> t in s || t == x
  {
    var k := Place(s, x);
    assert s == s[..k] + s[k..];
  }

  /** Over any run that does not name it again, a timer on the list fires exactly once, at the first
      run that reaches its timeout, and stays on the list, unfired, if there is none; a timer that is
      not on the list does not fire. */
  lemma {:induction false} FiresOnce(s: State, ops: seq<Op>, t: Timer)
    requires Sound(s) && forall k :: 0 <= k < |ops| ==> !Names(ops[k], t)
    ensures var due := FirstDue(ops, t.timeout);
      && Calls(Play(s, ops).fired, t) == Calls(s.fired, t) + (if t in s.timers && due != -1 then 1 else 0)
      && (t in s.timers && due != -1 ==> (t, due) in Play(s, ops).fired)
      && (t in Play(s, ops).timers <==> t in s.timers && due == -1)
      && s.fired <= Play(s, ops).fired
    decreases |ops|
  {
    if ops != [] {
      NextTimerOp(s, ops[0], t);
      NextSound(s, ops[0]);
      FiresOnce(Next(s, ops[0]), ops[1..], t);
    }
  }
}
