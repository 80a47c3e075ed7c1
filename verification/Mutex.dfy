/** The blocking mutex. A section between `interrupt_disable` and `interrupt_restore` is one atomic
    step; a process that has to wait runs its retry section once each time it is scheduled. */
module Mutex {
  import opened Words
  import opened Sequences
  import opened WaiterQueue

  datatype Value = Value(locked: u32, owner: Option<Pid>, waiters: seq<Pid>)

  datatype Entry = Acquired | AlreadyOwner | Queued

  /** The compare-and-swap helper and the owner it records. */
  function TryAcquire(m: Value, p: Pid): Value {
    if m.locked == 0 then m.(locked := 1, owner := Some(p)) else m
  }

  /** `mutex_lock` up to its first yield. */
  function LockEntry(m: Value, p: Pid): (Value, Entry) {
    if m.locked == 0 then (TryAcquire(m, p), Acquired)
    else if m.owner == Some(p) then (m, AlreadyOwner)
    else (m.(waiters := m.waiters + [p]), Queued)
  }

  /** One more pass of the wait loop, unlinking the waiter when the lock is won. */
  function LockRetry(m: Value, p: Pid): (Value, bool) {
    if m.locked == 0 then (TryAcquire(m, p).(waiters := Without<Pid>(m.waiters, p)), true) else (m, false)
  }

  function Unlock(m: Value, p: Pid): Value {
    if m.owner == Some(p) then m.(locked := 0, owner := None) else m
  }

  /** The process a successful unlock wakes. */
  function Woken(m: Value, p: Pid): Option<Pid> {
    if m.owner == Some(p) && m.waiters != [] then Some(m.waiters[0]) else None
  }

  // ----- every interleaving

  /** `depth` counts the lock calls a process believes it holds; `waiting` is who is in the loop. */
  datatype System = System(m: Value, depth: map<Pid, nat>, waiting: set<Pid>)

  datatype Step = Lock(p: Pid) | Retry(p: Pid) | TryLock(p: Pid) | Release(p: Pid)

  function Depth(s: System, p: Pid): nat {
    if p in s.depth then s.depth[p] else 0
  }

  function Enter(s: System, m: Value, p: Pid): System {
    System(m, s.depth[p := Depth(s, p) + 1], s.waiting - {p})
  }

  /** A step its process is in no position to take leaves the system alone. */
  function Apply(s: System, a: Step): System {
    match a
    case Lock(p) =>
      var (m, entry) := LockEntry(s.m, p);
      if p in s.waiting then s
      else if entry == Queued then System(m, s.depth, s.waiting + {p})
      else Enter(s, m, p)
    case Retry(p) =>
      var (m, won) := LockRetry(s.m, p);
      if p in s.waiting && won then Enter(s, m, p) else s
    case TryLock(p) =>
      if p in s.waiting || s.m.locked != 0 then s else Enter(s, TryAcquire(s.m, p), p)
    case Release(p) =>
      if p in s.waiting then s
      else if Depth(s, p) == 0 then s.(m := Unlock(s.m, p))
      else System(Unlock(s.m, p), s.depth[p := Depth(s, p) - 1], s.waiting)
  }

  const Start := System(Value(0, None, []), map[], {})

  function Exec(steps: seq<Step>): System {
    if steps == [] then Start else Apply(Exec(steps[..|steps| - 1]), steps[|steps| - 1])
  }

  /** What holds however the mutex is used. */
  ghost predicate Sound(s: System) {
    && (s.m.locked == if s.m.owner.Some? then 1 else 0)
    && Distinct(s.m.waiters)
    && (forall p :: p in s.m.waiters <==> p in s.waiting)
    && (s.m.owner.Some? ==> Depth(s, s.m.owner.value) >= 1 && s.m.owner.value !in s.waiting)
  }

  /** At most one process believes it is inside. */
  ghost predicate Exclusive(s: System) {
    forall p: Pid, q: Pid :: Depth(s, p) >= 1 && Depth(s, q) >= 1 ==> p == q
  }

  /** What holds when no process locks a mutex it is inside of. */
  ghost predicate Owned(s: System) {
    forall p: Pid :: Depth(s, p) == if s.m.owner == Some(p) then 1 else 0
  }

  ghost predicate Recursive(s: System, a: Step) {
    a.Lock? && Depth(s, a.p) >= 1
  }

  ghost predicate Disciplined(steps: seq<Step>) {
    steps == [] ||
    (Disciplined(steps[..|steps| - 1]) && !Recursive(Exec(steps[..|steps| - 1]), steps[|steps| - 1]))
  }

  lemma WithoutCuts(s: seq<Pid>, n: int)
    requires Distinct(s) && 0 <= n < |s|
    ensures Without<Pid>(s, s[n]) == s[..n] + s[n + 1..]
  {
    var before: seq<Pid>, rest: seq<Pid> := s[..n], s[n..];
    assert s[n] !in before by { OthersDiffer<Pid>(s, n); }
    WithoutFirst<Pid>(before, s[n], rest);
    assert before + rest == s;
    assert rest[1..] == s[n + 1..];
  }

  lemma WithoutRemoves(s: seq<Pid>, p: Pid)
    requires Distinct(s) && p in s
    ensures Distinct(Without<Pid>(s, p))
    ensures forall q :: q in Without<Pid>(s, p) <==> q in s && q != p
  {
    var n :| 0 <= n < |s| && s[n] == p;
    WithoutCuts(s, n);
    RemoveKeepsDistinct<Pid>(s, n);
    assert s == s[..n] + [p] + s[n + 1..];
  }

  lemma StepKeepsSound(s: System, a: Step)
    requires Sound(s)
    ensures Sound(Apply(s, a))
    ensures Owned(s) && !Recursive(s, a) ==> Owned(Apply(s, a))
  {
    match a
    case Lock(p) =>
      if p !in s.waiting && s.m.locked != 0 && s.m.owner != Some(p) { AppendKeepsDistinct<Pid>(s.m.waiters, p); }
    case Retry(p) =>
      if p in s.waiting { WithoutRemoves(s.m.waiters, p); }
    case TryLock(p) =>
    case Release(p) =>
  }

  /** In every interleaving, however the mutex is used: the lock word is 1 exactly when there is an
      owner, and the waiter list holds each process in the wait loop exactly once, so the walk that
      unlinks a winner finds it. */
  lemma {:induction false} EveryRunIsSound(steps: seq<Step>)
    ensures Sound(Exec(steps))
  {
    if steps != [] {
      EveryRunIsSound(steps[..|steps| - 1]);
      StepKeepsSound(Exec(steps[..|steps| - 1]), steps[|steps| - 1]);
    }
  }

  /** Without recursive locking, exactly the owner is inside, so no two processes ever are. */
  lemma {:induction false} DisciplinedRunsExclude(steps: seq<Step>)
    requires Disciplined(steps)
    ensures Owned(Exec(steps)) && Exclusive(Exec(steps))
  {
    if steps != [] {
      var before := steps[..|steps| - 1];
      DisciplinedRunsExclude(before);
      EveryRunIsSound(before);
      StepKeepsSound(Exec(before), steps[|steps| - 1]);
    }
  }

  ghost predicate AlwaysOwned(steps: seq<Step>) {
    Owned(Exec(steps)) && (steps == [] || AlwaysOwned(steps[..|steps| - 1]))
  }

  /** Over a whole run, being inside means owning the lock throughout exactly when no process locks a
      mutex it is inside of. */
  lemma {:induction false} OwnershipOverRuns(steps: seq<Step>)
    ensures AlwaysOwned(steps) <==> Disciplined(steps)
  {
    if steps != [] {
      var before, last := steps[..|steps| - 1], steps[|steps| - 1];
      OwnershipOverRuns(before);
      EveryRunIsSound(before);
      if Disciplined(before) {
        StepKeepsSound(Exec(before), last);
        if Recursive(Exec(before), last) { assert Depth(Exec(steps), last.p) == 2; }
      }
    }
  }

  /** Discipline is needed at every single call: a recursive lock returns like any other, the first
      release then frees the mutex for q while p still believes it is inside. */
  lemma RecursionBreaksExclusion(steps: seq<Step>, p: Pid, q: Pid)
    requires Disciplined(steps) && Recursive(Exec(steps), Lock(p))
    requires p != q && q !in Exec(steps).waiting
    ensures !Exclusive(Apply(Apply(Apply(Exec(steps), Lock(p)), Release(p)), Lock(q)))
  {
    var s := Exec(steps);
    DisciplinedRunsExclude(steps);
    EveryRunIsSound(steps);
    assert Depth(s, p) == 1 && s.m.owner == Some(p);
    var s1 := Apply(s, Lock(p));
    var s2 := Apply(s1, Release(p));
    var s3 := Apply(s2, Lock(q));
    assert Depth(s2, p) == 1 && s2.m.locked == 0;
    assert Depth(s3, p) == 1 && Depth(s3, q) >= 1;
  }

  // ----- the code's own form

  class KernelMutex {
    var locked: u32
    var owner: Option<Pid>
    const waiters: Waiters

    ghost predicate Valid()
      reads this, waiters, waiters.nodes
    {
      waiters.Valid()
    }

    ghost function Abs(): Value
      reads this, waiters
    {
      Value(locked, owner, waiters.pids)
    }

    constructor ()
      ensures Valid() && Abs() == Start.m
    {
      locked := 0;
      owner := None;
      waiters := new Waiters();
    }

    method Try(current: Pid) returns (won: bool)
      modifies this
      ensures Abs() == TryAcquire(old(Abs()), current)
      ensures won == (old(locked) == 0)
    {
      var oldValue := locked;
      if locked == 0 { locked := 1; }
      if oldValue == 0 {
        owner := Some(current);
        return true;
      }
      return false;
    }

    method LockFirst(current: Pid) returns (entry: Entry, waiter: Waiter?)
      requires Valid()
      modifies this, waiters, waiters.nodes
      ensures Valid()
      ensures (Abs(), entry) == LockEntry(old(Abs()), current)
      ensures entry == Queued ==> waiter != null && waiters.nodes == old(waiters.nodes) + [waiter]
    {
      waiter := null;
      var won := Try(current);
      if won { return Acquired, null; }
      if owner == Some(current) { return AlreadyOwner, null; }
      waiter := waiters.Append(current);
      won := Try(current);
      assert !won;
      entry := Queued;
    }

    method LockAgain(current: Pid, waiter: Waiter, ghost n: int) returns (won: bool)
      requires Valid() && Distinct(waiters.pids)
      requires 0 <= n < |waiters.nodes| && waiters.nodes[n] == waiter && waiter.process == current
      modifies this, waiters, waiters.nodes
      ensures Valid()
      ensures (Abs(), won) == LockRetry(old(Abs()), current)
    {
      assert waiters.pids[n] == current;
      WithoutCuts(waiters.pids, n);
      won := Try(current);
      if won { waiters.Unlink(waiter, n); }
    }

    method UnlockSection(current: Pid) returns (woken: Option<Pid>)
      requires Valid()
      modifies this
      ensures Valid()
      ensures Abs() == Unlock(old(Abs()), current) && woken == Woken(old(Abs()), current)
    {
      if owner != Some(current) { return None; }
      owner := None;
      locked := 0;
      if waiters.head == null { return None; }
      assert waiters.head.process == waiters.pids[0];
      return Some(waiters.head.process);
    }
  }
}
