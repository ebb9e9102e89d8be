/** ipc/sem.c: semaphore operations on value arrays, all or nothing, with undo accounting. */
module Sem {

  const MAX_SEM_VAL := 0x7fff
  const MAX_SEM_UNDO_VAL := 0x7fff

  /** `struct sembuf`: semaphore number, adjustment, SEM_UNDO and IPC_NOWAIT. */
  datatype SemBuf = SemBuf(num: nat, op: int, undo: bool, nowait: bool)

  /** Storing into an `int` and into a `short`. */
  function W32(x: int): (r: int)
    ensures Int32(r) && (Int32(x) ==> r == x)
  {
    (x + 0x8000_0000) % 0x1_0000_0000 - 0x8000_0000
  }

  function W16(x: int): (r: int)
    ensures Int16(r) && (Int16(x) ==> r == x)
  {
    (x + 0x8000) % 0x1_0000 - 0x8000
  }

  predicate Int32(x: int) { -0x8000_0000 <= x < 0x8000_0000 }

  predicate Int16(x: int) { -0x8000 <= x < 0x8000 }

  lemma W32Back(x: int, d: int)
    requires Int32(x)
    ensures W32(W32(x + d) - d) == x
  {
  }

  lemma W16Back(x: int, d: int)
    requires Int16(x)
    ensures W16(W16(x - d) + d) == x
  {
  }

  ghost predicate Words(v: seq<int>, u: seq<int>) {
    (forall i :: 0 <= i < |v| ==> Int32(v[i])) && (forall i :: 0 <= i < |u| ==> Int16(u[i]))
  }

  /** The checks of semop_lock on the operation list; undo entries exist when one is needed. */
  ghost predicate InBounds(v: seq<int>, u: seq<int>, sop: seq<SemBuf>) {
    forall i :: 0 <= i < |sop| ==> Fits(|v|, |u|, sop[i])
  }

  predicate Fits(nv: nat, nu: nat, b: SemBuf) {
    b.num < nv && (b.undo ==> b.num < nu) && -MAX_SEM_VAL - 1 <= b.op <= MAX_SEM_VAL
  }

  // ---------------------------------------------------------------- what a list of operations means

  datatype Outcome = Done(val: seq<int>, undo: seq<int>) | Block | Fail

  function Refuse(b: SemBuf): Outcome {
    if b.nowait then Fail else Block
  }

  function StepVal(v: seq<int>, b: SemBuf): seq<int>
    requires b.num < |v|
  {
    v[b.num := W32(v[b.num] + b.op)]
  }

  function StepUndo(u: seq<int>, b: SemBuf): (r: seq<int>)
    requires b.undo ==> b.num < |u|
    ensures |r| == |u|
  {
    if b.undo then u[b.num := W16(u[b.num] - b.op)] else u
  }

  predicate UndoFull(u: seq<int>, b: SemBuf)
    requires b.undo ==> b.num < |u|
  {
    b.undo && (u[b.num] < -MAX_SEM_UNDO_VAL - 1 || u[b.num] >= MAX_SEM_UNDO_VAL)
  }

  /** The operations in order, up to the first one that has to wait or is refused. */
  function Perform(v: seq<int>, u: seq<int>, sop: seq<SemBuf>): Outcome
    requires InBounds(v, u, sop)
    decreases |sop|
  {
    if sop == [] then Done(v, u)
    else
      var b := sop[0];
      if b.op == 0 && v[b.num] != 0 then Refuse(b)
      else
        var v', u' := StepVal(v, b), StepUndo(u, b);
        if UndoFull(u', b) then Fail
        else if v'[b.num] < 0 then Refuse(b)
        else Perform(v', u', sop[1..])
  }

  /** All operations applied without any check. */
  function Raw(v: seq<int>, u: seq<int>, sop: seq<SemBuf>): (r: (seq<int>, seq<int>))
    requires InBounds(v, u, sop)
    ensures |r.0| == |v| && |r.1| == |u|
    decreases |sop|
  {
    if sop == [] then (v, u)
    else
      var k := |sop| - 1;
      var r := Raw(v, u, sop[..k]);
      (StepVal(r.0, sop[k]), StepUndo(r.1, sop[k]))
  }

  /** The sum of the adjustments of semaphore `n`, and of those that are to be undone on exit. */
  function Sum(sop: seq<SemBuf>, n: nat): int {
    if sop == [] then 0 else (if sop[0].num == n then sop[0].op else 0) + Sum(sop[1..], n)
  }

  function SumUndo(sop: seq<SemBuf>, n: nat): int {
    if sop == [] then 0 else (if sop[0].num == n && sop[0].undo then sop[0].op else 0) + SumUndo(sop[1..], n)
  }

  /** The least value from which no single operation wraps around. SETVAL can store less. */
  const LOWEST := -0x8000_0000 + MAX_SEM_VAL + 1

  ghost predicate Tame(v: seq<int>) {
    forall i :: 0 <= i < |v| ==> LOWEST <= v[i]
  }

  /** A completed list adds exactly the sum of its adjustments to every semaphore, repeated ones
      included, without ever wrapping; the undo entries take the opposite, as shorts. */
  lemma {:induction false} DoneSums(v: seq<int>, u: seq<int>, sop: seq<SemBuf>, n: nat)
    requires InBounds(v, u, sop) && Words(v, u) && Tame(v) && Perform(v, u, sop).Done?
    ensures var r := Perform(v, u, sop); |r.val| == |v| && |r.undo| == |u| && Words(r.val, r.undo) && Tame(r.val)
    ensures n < |v| ==> Perform(v, u, sop).val[n] == v[n] + Sum(sop, n)
    ensures n < |u| ==> Perform(v, u, sop).undo[n] == W16(u[n] - SumUndo(sop, n))
    decreases |sop|
  {
    if sop != [] {
      var b := sop[0];
      var v', u' := StepVal(v, b), StepUndo(u, b);
      assert v'[b.num] == v[b.num] + b.op;
      DoneSums(v', u', sop[1..], n);
      if n < |u| && b.undo && b.num == n { W16Shift(u[n], b.op, SumUndo(sop[1..], n)); }
    }
  }

  lemma W16Shift(x: int, a: int, b: int)
    ensures W16(W16(x - a) - b) == W16(x - (a + b))
  {
  }

  predicate Touches(sop: seq<SemBuf>, n: nat) {
    sop != [] && (sop[0].num == n || Touches(sop[1..], n))
  }

  /** On the way of a completed list every value that has been operated on is non-negative. */
  lemma {:induction false} DonePrefix(v: seq<int>, u: seq<int>, sop: seq<SemBuf>, k: nat)
    requires InBounds(v, u, sop) && k <= |sop| && Perform(v, u, sop).Done?
    ensures InBounds(v, u, sop[..k]) && Perform(v, u, sop[..k]).Done?
    ensures var p := Perform(v, u, sop[..k]);
      |p.val| == |v| && forall i :: 0 <= i < |v| ==> p.val[i] >= 0 || (p.val[i] == v[i] && !Touches(sop[..k], i))
    decreases |sop|
  {
    if k > 0 {
      var b := sop[0];
      var v', u' := StepVal(v, b), StepUndo(u, b);
      DonePrefix(v', u', sop[1..], k - 1);
      assert sop[..k][1..] == sop[1..][..k - 1];
    }
  }

  /** After a beginning that goes through, the rest is performed on what it leaves. */
  lemma {:induction false} PerformRest(v: seq<int>, u: seq<int>, sop: seq<SemBuf>, k: nat)
    requires InBounds(v, u, sop) && Words(v, u) && k <= |sop| && Perform(v, u, sop[..k]).Done?
    ensures var p := Perform(v, u, sop[..k]);
      && |p.val| == |v| && |p.undo| == |u| && Words(p.val, p.undo)
      && Perform(v, u, sop) == Perform(p.val, p.undo, sop[k..])
    decreases |sop|
  {
    if k == 0 {
      assert sop[0..] == sop;
    } else {
      assert sop[..k][1..] == sop[1..][..k - 1] && sop[1..][k - 1..] == sop[k..];
      PerformRest(StepVal(v, sop[0]), StepUndo(u, sop[0]), sop[1..], k - 1);
    }
  }

  /** What decides at each operation, from the value and the undo entry that the ones before have left.
      A value that is not zero for a zero operation, or would become negative, makes a list wait, or
      fail with IPC_NOWAIT; an entry at its limit makes it fail in any case. */
  lemma Decided(v: seq<int>, u: seq<int>, sop: seq<SemBuf>, k: nat)
    requires InBounds(v, u, sop) && Words(v, u) && k < |sop| && Perform(v, u, sop[..k]).Done?
    ensures |Perform(v, u, sop[..k]).val| == |v| && |Perform(v, u, sop[..k]).undo| == |u|
    ensures var p, b := Perform(v, u, sop[..k]), sop[k];
      var x, full := p.val[b.num], b.undo && W16(p.undo[b.num] - b.op) == 0x7fff;
      if (b.op == 0 && x != 0) || (W32(x + b.op) < 0 && !full)
      then Perform(v, u, sop) == if b.nowait then Fail else Block
      else if full then Perform(v, u, sop) == Fail
      else Perform(v, u, sop[..k + 1]).Done?
  {
    hide W32, W16;
    PerformRest(v, u, sop, k);
    assert sop[..k + 1][..k] == sop[..k] && sop[..k + 1][k..] == [sop[k]] && sop[k..][0] == sop[k];
    PerformRest(v, u, sop[..k + 1], k);
    assert [sop[k]][1..] == [];
  }

  /** A list that does not go through has a first operation that stops it. */
  lemma {:induction false} StopsSomewhere(v: seq<int>, u: seq<int>, sop: seq<SemBuf>) returns (k: nat)
    requires InBounds(v, u, sop) && Words(v, u) && !Perform(v, u, sop).Done?
    ensures k < |sop| && Perform(v, u, sop[..k]).Done? && !Perform(v, u, sop[..k + 1]).Done?
  {
    k := 0;
    while Perform(v, u, sop[..k + 1]).Done?
      invariant k < |sop| && Perform(v, u, sop[..k]).Done?
      decreases |sop| - k
    {
      k := k + 1;
      assert sop[..|sop|] == sop;
    }
  }

  /** With IPC_NOWAIT throughout a list never waits. With it nowhere a list fails only on an undo entry
      at its limit. */
  lemma WaitOrFail(v: seq<int>, u: seq<int>, sop: seq<SemBuf>)
    requires InBounds(v, u, sop) && Words(v, u)
    ensures (forall k :: 0 <= k < |sop| ==> sop[k].nowait) ==> !Perform(v, u, sop).Block?
    ensures Perform(v, u, sop).Fail? && (forall k :: 0 <= k < |sop| ==> !sop[k].nowait) ==>
      exists k :: 0 <= k < |sop| && FullAt(v, u, sop, k)
  {
    if !Perform(v, u, sop).Done? {
      var k := StopsSomewhere(v, u, sop);
      Decided(v, u, sop, k);
      assert Perform(v, u, sop).Fail? && !sop[k].nowait ==> FullAt(v, u, sop, k);
    }
  }

  /** The list gets to this operation, which takes its undo entry to the limit. */
  ghost predicate FullAt(v: seq<int>, u: seq<int>, sop: seq<SemBuf>, k: nat)
    requires InBounds(v, u, sop) && k < |sop|
  {
    var p, b := Perform(v, u, sop[..k]), sop[k];
    p.Done? && b.undo && b.num < |p.undo| && W16(p.undo[b.num] - b.op) == 0x7fff
  }

  /** The lock of the kernel, one down and one up, waits on a taken one and takes a free one. */
  lemma LockWaits()
    ensures var lock := [SemBuf(0, 0, true, false), SemBuf(0, 1, true, false)];
      Perform([1], [0], lock) == Block && Perform([0], [0], lock) == Done([1], [-1])
  {
    hide W32, W16;
    var lock := [SemBuf(0, 0, true, false), SemBuf(0, 1, true, false)];
    assert lock[1..] == [SemBuf(0, 1, true, false)] && lock[1..][1..] == [];
    ZeroStep([0], [0], lock[0]);
    assert StepVal([0], lock[1]) == [1] && StepUndo([0], lock[1]) == [-1];
    PerformEmpty([1], [-1]);
  }

  // ---------------------------------------------------------------- perform_semop

  ghost function Entries(undo: array?<int>): seq<int>
    reads undo
  {
    if undo == null then [] else undo[..]
  }

  lemma RawStep(v: seq<int>, u: seq<int>, sop: seq<SemBuf>, k: nat)
    requires InBounds(v, u, sop) && k < |sop|
    ensures Raw(v, u, sop[..k + 1]) == (StepVal(Raw(v, u, sop[..k]).0, sop[k]), StepUndo(Raw(v, u, sop[..k]).1, sop[k]))
  {
    assert sop[..k + 1][..k] == sop[..k];
  }

  lemma {:induction false} RawWords(v: seq<int>, u: seq<int>, sop: seq<SemBuf>)
    requires InBounds(v, u, sop) && Words(v, u)
    ensures Words(Raw(v, u, sop).0, Raw(v, u, sop).1)
    decreases |sop|
  {
    if sop != [] { RawWords(v, u, sop[..|sop| - 1]); }
  }

  /** One forward step of the source on the arrays. */
  method Adjust(val: array<int>, b: SemBuf, undo: array?<int>, sign: int)
    requires undo != val && Fits(val.Length, |Entries(undo)|, b) && (sign == 1 || sign == -1)
    modifies val, undo
    ensures val[..] == old(val[..])[b.num := W32(old(val[b.num]) + sign * b.op)]
    ensures Entries(undo) == if b.undo then old(Entries(undo))[b.num := W16(old(Entries(undo))[b.num] - sign * b.op)]
      else old(Entries(undo))
  {
    val[b.num] := W32(val[b.num] + sign * b.op);
    if b.undo {
      undo[b.num] := W16(undo[b.num] - sign * b.op);
    }
  }

  /** The do_undo loop: takes the first `n` operations back, last one first. */
  method Rollback(val: array<int>, sop: seq<SemBuf>, n: nat, undo: array?<int>, ghost v: seq<int>, ghost u: seq<int>)
    requires undo != val && n <= |sop| && InBounds(v, u, sop) && Words(v, u)
    requires (val[..], Entries(undo)) == Raw(v, u, sop[..n])
    modifies val, undo
    ensures val[..] == v && Entries(undo) == u
  {
    hide Raw;
    assert Raw(v, u, sop[..0]) == (v, u) by { RawEmpty(v, u, sop); }
    var k := n;
    while k > 0
      invariant 0 <= k <= n && (val[..], Entries(undo)) == Raw(v, u, sop[..k])
    {
      k := k - 1;
      ghost var r, b := Raw(v, u, sop[..k]), sop[k];
      RawStep(v, u, sop, k);
      RawWords(v, u, sop[..k]);
      W32Back(r.0[b.num], b.op);
      if b.undo { W16Back(r.1[b.num], b.op); }
      Adjust(val, sop[k], undo, -1);
      assert val[..] == r.0 && Entries(undo) == r.1;
    }
  }

  method PerformSemop(val: array<int>, sop: seq<SemBuf>, undo: array?<int>, trial: bool) returns (err: int)
    requires undo != val && InBounds(val[..], Entries(undo), sop) && Words(val[..], Entries(undo))
    modifies val, undo
    ensures var r := Perform(old(val[..]), old(Entries(undo)), sop);
      && err == (match r case Done(_, _) => 0 case Block => 1 case Fail => -1)
      && val[..] == (if r.Done? && !trial then r.val else old(val[..]))
      && Entries(undo) == (if r.Done? && !trial then r.undo else old(Entries(undo)))
  {
    hide Raw, Perform;
    ghost var v, u := val[..], Entries(undo);
    err := -1;
    var i := 0;
    RawEmpty(v, u, sop);
    assert sop[0..] == sop;
    while i < |sop|
      invariant i <= |sop| && err == -1
      invariant Reached(val[..], Entries(undo), sop, i, v, u)
    {
      var b := sop[i];
      PerformStep(val[..], Entries(undo), sop, i, v, u);
      if b.op == 0 && val[b.num] != 0 {
        if !b.nowait { err := 1; }
        Rollback(val, sop, i + 1, undo, v, u);
        return;
      }
      Adjust(val, b, undo, 1);
      i := i + 1;
      if b.undo && (undo[b.num] < -MAX_SEM_UNDO_VAL - 1 || undo[b.num] >= MAX_SEM_UNDO_VAL) {
        Rollback(val, sop, i, undo, v, u);
        return;
      }
      if val[b.num] < 0 {
        if !b.nowait { err := 1; }
        Rollback(val, sop, i, undo, v, u);
        return;
      }
    }
    assert sop[..|sop|] == sop && sop[|sop|..] == [];
    PerformEmpty(val[..], Entries(undo));
    err := 0;
    if trial {
      Rollback(val, sop, |sop|, undo, v, u);
    }
  }

  lemma RawEmpty(v: seq<int>, u: seq<int>, sop: seq<SemBuf>)
    requires InBounds(v, u, sop)
    ensures Raw(v, u, sop[..0]) == (v, u)
  {
  }

  lemma PerformEmpty(v: seq<int>, u: seq<int>)
    ensures Perform(v, u, []) == Done(v, u)
  {
  }

  /** The arrays stand where `i` unchecked operations lead, and no check failed on the way. */
  ghost predicate Reached(v': seq<int>, u': seq<int>, sop: seq<SemBuf>, i: nat, v: seq<int>, u: seq<int>)
    requires i <= |sop| && InBounds(v, u, sop)
  {
    && (v', u') == Raw(v, u, sop[..i])
    && Perform(v, u, sop) == Perform(v', u', sop[i..])
  }

  lemma PerformStep(v': seq<int>, u': seq<int>, sop: seq<SemBuf>, i: nat, v: seq<int>, u: seq<int>)
    requires i < |sop| && InBounds(v, u, sop) && Words(v, u) && Reached(v', u', sop, i, v, u)
    ensures |v'| == |v| && |u'| == |u|
    ensures var b := sop[i];
      if b.op == 0 && v'[b.num] != 0 then Perform(v, u, sop) == Refuse(b) && (v', u') == Raw(v, u, sop[..i + 1])
      else
        var v2, u2 := StepVal(v', b), StepUndo(u', b);
        && (v2, u2) == Raw(v, u, sop[..i + 1])
        && (UndoFull(u2, b) ==> Perform(v, u, sop) == Fail)
        && (!UndoFull(u2, b) && v2[b.num] < 0 ==> Perform(v, u, sop) == Refuse(b))
        && (!UndoFull(u2, b) && v2[b.num] >= 0 ==> Reached(v2, u2, sop, i + 1, v, u))
  {
    var b := sop[i];
    RawStep(v, u, sop, i);
    RawWords(v, u, sop[..i]);
    assert sop[i..][0] == b && sop[i..][1..] == sop[i + 1..];
    if b.op == 0 { ZeroStep(v', u', b); }
  }

  lemma ZeroStep(v: seq<int>, u: seq<int>, b: SemBuf)
    requires Fits(|v|, |u|, b) && b.op == 0 && Words(v, u)
    ensures StepVal(v, b) == v && StepUndo(u, b) == u
  {
  }

  // ---------------------------------------------------------------- one semaphore array over time

  /** The values, and per process the undo entries it still owns. */
  datatype State = State(val: seq<int>, undo: map<nat, seq<int>>)

  datatype Event = Op(pid: nat, sop: seq<SemBuf>) | SetVal(n: nat, v: int) | Exit(pid: nat)

  predicate Accepted(n: nat, sop: seq<SemBuf>) {
    forall i :: 0 <= i < |sop| ==> Fits(n, n, sop[i])
  }

  predicate NeedsUndo(sop: seq<SemBuf>) {
    exists i :: 0 <= i < |sop| && sop[i].undo
  }

  function Zeros(n: nat): (z: seq<int>)
    ensures |z| == n && forall i :: 0 <= i < n ==> z[i] == 0
  {
    seq(n, i => 0)
  }

  ghost predicate Sound(s: State) {
    && (forall i :: 0 <= i < |s.val| ==> Int32(s.val[i]))
    && (forall p :: p in s.undo ==> |s.undo[p]| == |s.val| && forall i :: 0 <= i < |s.val| ==> Int16(s.undo[p][i]))
  }

  /** The undo entries an operation list works on. */
  function Own(s: State, pid: nat, sop: seq<SemBuf>): seq<int> {
    if !NeedsUndo(sop) then [] else if pid in s.undo then s.undo[pid] else Zeros(|s.val|)
  }

  ghost function Result(s: State, pid: nat, sop: seq<SemBuf>): Outcome
    requires Sound(s) && Accepted(|s.val|, sop)
  {
    assert InBounds(s.val, Own(s, pid, sop), sop);
    Perform(s.val, Own(s, pid, sop), sop)
  }

  function Clamp(x: int): int {
    if x < 0 then 0 else x
  }

  ghost function Step(s: State, ev: Event): State
    requires Sound(s)
  {
    match ev
    case Op(pid, sop) =>
      if !Accepted(|s.val|, sop) then s
      else
        var r, own := Result(s, pid, sop), Own(s, pid, sop);
        State(if r.Done? then r.val else s.val,
              if NeedsUndo(sop) then s.undo[pid := if r.Done? then r.undo else own] else s.undo)
    case SetVal(n, v) =>
      if n >= |s.val| || v > MAX_SEM_VAL || !Int32(v) then s else s.(val := s.val[n := v])
    case Exit(pid) =>
      if pid !in s.undo then s
      else State(seq(|s.val|, i requires 0 <= i < |s.val| => Clamp(W32(s.val[i] + s.undo[pid][i]))), s.undo - {pid})
  }

  lemma {:induction false} DoneWords(v: seq<int>, u: seq<int>, sop: seq<SemBuf>)
    requires InBounds(v, u, sop) && Words(v, u) && Perform(v, u, sop).Done?
    ensures var r := Perform(v, u, sop); |r.val| == |v| && |r.undo| == |u| && Words(r.val, r.undo)
    decreases |sop|
  {
    if sop != [] { DoneWords(StepVal(v, sop[0]), StepUndo(u, sop[0]), sop[1..]); }
  }

  lemma StepSound(s: State, ev: Event)
    requires Sound(s)
    ensures Sound(Step(s, ev)) && |Step(s, ev).val| == |s.val|
  {
    if ev.Op? && Accepted(|s.val|, ev.sop) && Result(s, ev.pid, ev.sop).Done? {
      DoneWords(s.val, Own(s, ev.pid, ev.sop), ev.sop);
    }
  }

  /** No event but a SETVAL takes a value below the range. */
  lemma StepTame(s: State, ev: Event)
    requires Sound(s) && Tame(s.val) && (ev.SetVal? ==> ev.v >= LOWEST)
    ensures Tame(Step(s, ev).val)
  {
    if ev.Op? && Accepted(|s.val|, ev.sop) && Result(s, ev.pid, ev.sop).Done? {
      DoneSums(s.val, Own(s, ev.pid, ev.sop), ev.sop, 0);
    }
  }

  /** An exit gives the process's adjustments back, at the least 0, and drops its entries alone. */
  lemma ExitGivesBack(s: State, pid: nat, i: nat)
    requires Sound(s) && pid in s.undo && i < |s.val|
    ensures var x, t := s.val[i] + s.undo[pid][i], Step(s, Exit(pid));
      && i < |t.val| && t.undo == s.undo - {pid}
      && (-0x8000_0000 <= x <= 0 ==> t.val[i] == 0) && (0 <= x < 0x8000_0000 ==> t.val[i] == x)
  {
  }

  // ---------------------------------------------------------------- conservation

  /** The sum of all live undo entries of semaphore `i`. */
  ghost function Owed(undo: map<nat, seq<int>>, i: nat): int
    requires forall p :: p in undo ==> i < |undo[p]|
    decreases |undo|
  {
    if undo == map[] then 0
    else
      var p :| p in undo;
      Smaller(undo, p);
      undo[p][i] + Owed(undo - {p}, i)
  }

  lemma {:induction false} OwedRemove(undo: map<nat, seq<int>>, p: nat, i: nat)
    requires p in undo && forall q :: q in undo ==> i < |undo[q]|
    ensures Owed(undo, i) == undo[p][i] + Owed(undo - {p}, i)
    decreases |undo|
  {
    var q :| q in undo && Owed(undo, i) == undo[q][i] + Owed(undo - {q}, i);
    if q != p {
      Smaller(undo, p);
      Smaller(undo, q);
      OwedRemove(undo - {q}, p, i);
      OwedRemove(undo - {p}, q, i);
      assert undo - {q} - {p} == undo - {p} - {q};
    }
  }

  lemma Smaller(undo: map<nat, seq<int>>, p: nat)
    requires p in undo
    ensures |undo - {p}| < |undo|
  {
    assert (undo - {p}).Keys == undo.Keys - {p};
    assert |undo.Keys| == |undo| && |(undo - {p}).Keys| == |undo - {p}|;
  }

  lemma OwedUpdate(undo: map<nat, seq<int>>, p: nat, u: seq<int>, i: nat)
    requires i < |u| && forall q :: q in undo ==> i < |undo[q]|
    ensures Owed(undo[p := u], i) == Owed(undo, i) + u[i] - if p in undo then undo[p][i] else 0
  {
    OwedRemove(undo[p := u], p, i);
    assert undo[p := u] - {p} == undo - {p};
    if p in undo {
      OwedRemove(undo, p, i);
    } else {
      assert undo - {p} == undo;
    }
  }

  /** A semaphore's value together with what exits would give back to it. */
  ghost function Total(s: State, i: nat): int
    requires Sound(s) && i < |s.val|
  {
    s.val[i] + Owed(s.undo, i)
  }

  /** What an event is meant to change in the total: the operations without SEM_UNDO, if they
      all go through, and the difference a SETVAL makes. */
  ghost function Delta(s: State, ev: Event, i: nat): int
    requires Sound(s) && i < |s.val|
  {
    match ev
    case Op(pid, sop) =>
      if Accepted(|s.val|, sop) && Result(s, pid, sop).Done? then Sum(sop, i) - SumUndo(sop, i) else 0
    case SetVal(n, v) => Step(s, ev).val[i] - s.val[i]
    case Exit(_) => 0
  }

  /** Nothing overflows at semaphore `i`. For operations what the caller has to see to is that the
      new undo entry fits a short; the rest says only that there is a new entry, for lists that go
      through and use SEM_UNDO. An exit must find a value that takes the entry without the clamp. */
  ghost predicate Clean(s: State, ev: Event, i: nat)
    requires Sound(s) && i < |s.val|
  {
    match ev
    case Op(pid, sop) =>
      Accepted(|s.val|, sop) && Result(s, pid, sop).Done? && NeedsUndo(sop) ==>
        Int16(Own(s, pid, sop)[i] - SumUndo(sop, i))
    case SetVal(_, _) => true
    case Exit(pid) => pid in s.undo ==> 0 <= s.val[i] + s.undo[pid][i] < 0x8000_0000
  }

  lemma {:induction false} NoUndoNoSum(sop: seq<SemBuf>, i: nat)
    requires !NeedsUndo(sop)
    ensures SumUndo(sop, i) == 0
    decreases |sop|
  {
    if sop != [] {
      assert !sop[0].undo;
      forall k | 0 <= k < |sop[1..]| ensures !sop[1..][k].undo {
        assert !sop[k + 1].undo;
      }
      NoUndoNoSum(sop[1..], i);
    }
  }

  /** One event changes the total as it is meant to exactly when nothing overflows. */
  lemma StepLaw(s: State, ev: Event, i: nat)
    requires Sound(s) && Tame(s.val) && i < |s.val| && (ev.SetVal? ==> ev.v >= LOWEST)
    ensures Sound(Step(s, ev)) && |Step(s, ev).val| == |s.val|
    ensures Total(Step(s, ev), i) == Total(s, i) + Delta(s, ev, i) <==> Clean(s, ev, i)
  {
    StepSound(s, ev);
    match ev
    case Op(pid, sop) =>
      if Accepted(|s.val|, sop) { OpLaw(s, pid, sop, i); }
    case SetVal(n, v) =>
    case Exit(pid) =>
      if pid in s.undo { OwedRemove(s.undo, pid, i); }
  }

  lemma OpLaw(s: State, pid: nat, sop: seq<SemBuf>, i: nat)
    requires Sound(s) && Tame(s.val) && i < |s.val| && Accepted(|s.val|, sop) && Sound(Step(s, Op(pid, sop)))
    requires |Step(s, Op(pid, sop)).val| == |s.val|
    ensures Total(Step(s, Op(pid, sop)), i) == Total(s, i) + Delta(s, Op(pid, sop), i) <==> Clean(s, Op(pid, sop), i)
  {
    var r, own := Result(s, pid, sop), Own(s, pid, sop);
    if r.Done? {
      DoneSums(s.val, own, sop, i);
    }
    if NeedsUndo(sop) {
      OwedUpdate(s.undo, pid, if r.Done? then r.undo else own, i);
    } else {
      NoUndoNoSum(sop, i);
    }
  }

  ghost function Run(s: State, evs: seq<Event>): State
    requires Sound(s) && Tame(s.val) && forall k :: 0 <= k < |evs| && evs[k].SetVal? ==> evs[k].v >= LOWEST
    ensures Sound(Run(s, evs)) && Tame(Run(s, evs).val) && |Run(s, evs).val| == |s.val|
    decreases |evs|
  {
    if evs == [] then s
    else
      StepSound(s, evs[0]);
      StepTame(s, evs[0]);
      Run(Step(s, evs[0]), evs[1..])
  }

  ghost function Drift(s: State, evs: seq<Event>, i: nat): int
    requires Sound(s) && Tame(s.val) && i < |s.val|
    requires forall k :: 0 <= k < |evs| && evs[k].SetVal? ==> evs[k].v >= LOWEST
    decreases |evs|
  {
    if evs == [] then 0
    else
      StepSound(s, evs[0]);
      StepTame(s, evs[0]);
      Delta(s, evs[0], i) + Drift(Step(s, evs[0]), evs[1..], i)
  }

  /** Over any run without overflow the value plus the live undo entries moves only by
      operations without SEM_UNDO and by SETVAL; blocked and refused lists and process exits
      leave it alone. */
  lemma {:induction false} RunLaw(s: State, evs: seq<Event>, i: nat)
    requires Sound(s) && Tame(s.val) && i < |s.val|
    requires forall k :: 0 <= k < |evs| && evs[k].SetVal? ==> evs[k].v >= LOWEST
    requires forall k :: 0 <= k < |evs| ==> Clean(Run(s, evs[..k]), evs[k], i)
    ensures Total(Run(s, evs), i) == Total(s, i) + Drift(s, evs, i)
    decreases |evs|
  {
    if evs != [] {
      StepSound(s, evs[0]);
      StepTame(s, evs[0]);
      assert evs[..0] == [] && Clean(Run(s, evs[..0]), evs[0], i);
      StepLaw(s, evs[0], i);
      forall k | 0 <= k < |evs| - 1 ensures Clean(Run(Step(s, evs[0]), evs[1..][..k]), evs[1..][k], i) {
        assert evs[..k + 1][1..] == evs[1..][..k] && evs[..k + 1][0] == evs[0];
        assert Clean(Run(s, evs[..k + 1]), evs[k + 1], i);
      }
      RunLaw(Step(s, evs[0]), evs[1..], i);
    }
  }

  /** Two releases of 20000 under SEM_UNDO by one process: the entry wraps past -32768, passes
      the range test, and the total is off by 65536. */
  lemma UndoWraps()
    ensures var b := SemBuf(0, 20000, true, false); var s := State([20000], map[1 := [-20000]]);
      Sound(s) && Step(s, Op(1, [b])) == State([40000], map[1 := [25536]])
      && Total(s, 0) == 0 && Total(Step(s, Op(1, [b])), 0) == 65536
  {
    var b := SemBuf(0, 20000, true, false);
    var s := State([20000], map[1 := [-20000]]);
    assert [b][0].undo;
    var t := Step(s, Op(1, [b]));
    assert W16(-40000) == 25536;
    assert [b][1..] == [];
    assert StepVal([20000], b) == [40000] && StepUndo([-20000], b) == [25536];
    PerformEmpty([40000], [25536]);
    assert Own(s, 1, [b]) == [-20000] && !UndoFull([25536], b);
    assert Result(s, 1, [b]) == Done([40000], [25536]);
    assert t.undo == map[1 := [25536]];
    OwedRemove(s.undo, 1, 0);
    OwedRemove(t.undo, 1, 0);
    assert s.undo - {1} == map[] && t.undo - {1} == map[];
  }

  /** Below that range an operation by -32768 wraps around to a large value and goes through. */
  lemma BelowRange(v: int)
    requires -0x8000_0000 <= v < LOWEST
    ensures var ev, s := Op(1, [SemBuf(0, -MAX_SEM_VAL - 1, false, false)]), State([v], map[]);
      Sound(s) && Step(s, ev).val == [v - MAX_SEM_VAL - 1 + 0x1_0000_0000] && Step(s, ev).undo == map[]
      && Delta(s, ev, 0) == -MAX_SEM_VAL - 1
  {
    var b := SemBuf(0, -MAX_SEM_VAL - 1, false, false);
    var s := State([v], map[]);
    assert [b][1..] == [] && !NeedsUndo([b]);
    assert StepVal([v], b) == [v - MAX_SEM_VAL - 1 + 0x1_0000_0000] && StepUndo([], b) == [];
    PerformEmpty(StepVal([v], b), []);
    assert Own(s, 1, [b]) == [];
    assert Result(s, 1, [b]) == Done(StepVal([v], b), []);
    assert Sum([b], 0) == b.op + Sum([], 0) && SumUndo([b], 0) == SumUndo([], 0);
  }

  // ---------------------------------------------------------------- the kernel's objects

  /** `struct sem_array` with the undo structures that point to it, by process. */
  class SemArray {
    var val: array<int>
    var undo: map<nat, array<int>>

    /** Every structure has its own array of one entry per semaphore. */
    ghost predicate Wired()
      reads this, undo.Values
    {
      && (forall p :: p in undo ==> undo[p] != val && undo[p].Length == val.Length)
      && (forall p, q :: p in undo && q in undo && p != q ==> undo[p] != undo[q])
    }

    ghost predicate Valid()
      reads this, val, undo.Values
    {
      Wired() && Sound(Abs())
    }

    ghost function Abs(): State
      reads this, val, undo.Values
    {
      State(val[..], map p | p in undo :: undo[p][..])
    }

    ghost function Repr(): set<object>
      reads this
    {
      {this, val} + set a | a in undo.Values
    }

    constructor (nsems: nat)
      ensures Valid() && fresh(Repr()) && Abs() == State(Zeros(nsems), map[])
    {
      val := new int[nsems](_ => 0);
      undo := map[];
      new;
      assert val[..] == Zeros(nsems);
    }

    /** semctl SETVAL, without the poll of the waiting queue. */
    method SetVal(n: int, v: int) returns (err: int)
      requires Valid() && 0 <= n && Int32(v)
      modifies val
      ensures Valid() && Abs() == Step(old(Abs()), Event.SetVal(n, v))
      ensures err == if n < val.Length && v <= MAX_SEM_VAL then 0 else -1
      ensures val[..] == if err == 0 then old(val[..])[n := v] else old(val[..])
    {
      if n >= val.Length {
        return -1;
      }
      if v > MAX_SEM_VAL {
        return -1;
      }
      val[n] := v;
      ghost var s := old(Abs());
      assert Abs().undo == s.undo;
      return 0;
    }

    /** semop up to the point where it returns or goes to sleep (1). */
    method Semop(pid: nat, sop: seq<SemBuf>) returns (err: int)
      requires Valid()
      modifies Repr()
      ensures Valid() && Abs() == Step(old(Abs()), Op(pid, sop)) && fresh(Repr() - old(Repr()))
      ensures Accepted(|old(Abs()).val|, sop) <==>
        forall i :: 0 <= i < |sop| ==> sop[i].num < |old(Abs()).val| && -0x8000 <= sop[i].op <= 0x7fff
      ensures err == if !Accepted(|old(Abs()).val|, sop) then -1
        else match Result(old(Abs()), pid, sop) case Done(_, _) => 0 case Block => 1 case Fail => -1
    {
      var ok, needsUndo := Check(sop);
      if !ok {
        return -1;
      }
      ghost var s := Abs();
      if !needsUndo {
        err := PerformSemop(val, sop, null, false);
        assert Abs().undo == s.undo;
      } else {
        err := SemopUndo(pid, sop);
      }
      StepSound(s, Op(pid, sop));
    }

    /** The sanity checks, which also find out whether an undo structure is needed. */
    method Check(sop: seq<SemBuf>) returns (ok: bool, needsUndo: bool)
      ensures ok <==> Accepted(val.Length, sop)
      ensures ok ==> (needsUndo <==> NeedsUndo(sop))
    {
      ok, needsUndo := true, false;
      for i := 0 to |sop|
        invariant forall k :: 0 <= k < i ==> Fits(val.Length, val.Length, sop[k])
        invariant needsUndo <==> exists k :: 0 <= k < i && sop[k].undo
      {
        if sop[i].num >= val.Length || sop[i].op > MAX_SEM_VAL || sop[i].op < -MAX_SEM_VAL - 1 {
          return false, false;
        }
        if sop[i].undo { needsUndo := true; }
      }
    }

    /** Finds or allocates the process's undo structure and performs the operations. */
    method SemopUndo(pid: nat, sop: seq<SemBuf>) returns (err: int)
      requires Valid() && Accepted(val.Length, sop) && NeedsUndo(sop)
      modifies Repr()
      ensures val == old(val) && fresh(undo.Values - old(undo.Values)) && Wired()
      ensures Abs() == Step(old(Abs()), Op(pid, sop))
      ensures err == match Result(old(Abs()), pid, sop) case Done(_, _) => 0 case Block => 1 case Fail => -1
    {
      hide Perform, Raw;
      ghost var s := Abs();
      FindUndo(pid);
      assert Abs().undo[pid] == Own(s, pid, sop);
      err := PerformOn(pid, sop);
    }

    /** The operations on the array and the process's entries, in place. */
    method PerformOn(pid: nat, sop: seq<SemBuf>) returns (err: int)
      requires Valid() && Accepted(val.Length, sop) && pid in undo
      modifies val, undo[pid]
      ensures Wired()
      ensures var s, r := old(Abs()), Perform(old(val[..]), old(undo[pid][..]), sop);
        && err == (match r case Done(_, _) => 0 case Block => 1 case Fail => -1)
        && Abs() == State(if r.Done? then r.val else s.val, s.undo[pid := if r.Done? then r.undo else s.undo[pid]])
    {
      hide Perform, Raw;
      ghost var s := Abs();
      assert s.undo[pid] == undo[pid][..];
      err := PerformSemop(val, sop, undo[pid], false);
      assert Abs().undo == s.undo[pid := undo[pid][..]];
    }

    /** The process's undo structure, with zero entries if it had none. */
    method FindUndo(pid: nat)
      requires Valid()
      modifies this`undo
      ensures pid in undo && fresh(undo.Values - old(undo.Values)) && Valid()
      ensures
        var was := old(Abs()).undo;
        Abs() == old(Abs()).(undo := was[pid := if pid in was then was[pid] else Zeros(val.Length)])
    {
      ghost var s := Abs();
      if pid !in undo {
        var entries := new int[val.Length](_ => 0);
        undo := undo[pid := entries];
        assert entries[..] == Zeros(val.Length);
      }
      assert Abs().undo == s.undo[pid := if pid in s.undo then s.undo[pid] else Zeros(val.Length)];
    }

    /** sem_exit for this array: gives the process's adjustments back and drops its structure. */
    method SemExit(pid: nat)
      requires Valid()
      modifies this`undo, val
      ensures Valid() && Abs() == Step(old(Abs()), Exit(pid))
    {
      if pid in undo {
        ghost var s := Abs();
        var u := undo[pid];
        undo := undo - {pid};
        ghost var v := val[..];
        for i := 0 to val.Length
          invariant undo == old(undo) - {pid}
          invariant u[..] == s.undo[pid] && |v| == val.Length
          invariant forall k :: 0 <= k < val.Length ==> val[k] == if k < i then Clamp(W32(v[k] + u[k])) else v[k]
        {
          val[i] := W32(val[i] + u[i]);
          if val[i] < 0 {
            val[i] := 0;
          }
        }
        assert Abs().undo == s.undo - {pid};
        assert val[..] == Step(s, Exit(pid)).val;
      }
    }
  }
}
