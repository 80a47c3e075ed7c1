/** The spinlock at the grain of single memory operations, for any number of CPUs. Every read, the
    test-and-set, and every write of the lock is a step of its own that any other CPU's steps may
    precede or follow. */
module Spinlock {
  import opened Words

  type Cpu = nat

  /** Where a CPU is. `inside` marks calls made by a CPU that already holds the lock. */
  datatype Pc =
    | Outside
    | Inside
    | ReadLocked(inside: bool, trying: bool)  // recursion test, first operand
    | ReadCpu(inside: bool, trying: bool)     // recursion test, second operand, after reading locked as 1
    | Swap(inside: bool, trying: bool)        // the test-and-set
    | Spin(inside: bool)                      // the inner read loop
    | SetCpu                                  // won, about to record the CPU
    | Misfired                                // left acquire by the recursion test without holding the lock
    | Verify(inside: bool)                    // release: owner test
    | ClearCpu                                // release: about to write -1
    | Drop                                    // release: about to write locked = 0

  datatype State = State(locked: u32, cpu: int, pc: map<Cpu, Pc>)

  datatype Step = Acquire(c: Cpu) | TryAcquire(c: Cpu) | Release(c: Cpu) | Go(c: Cpu)

  function At(s: State, c: Cpu): Pc {
    if c in s.pc then s.pc[c] else Outside
  }

  function Home(inside: bool): Pc {
    if inside then Inside else Outside
  }

  function Apply(s: State, a: Step): State {
    var c := a.c;
    var pc := At(s, c);
    var calling := pc == Outside || pc == Inside;
    match a
    case Acquire(_) => if calling then s.(pc := s.pc[c := ReadLocked(pc == Inside, false)]) else s
    case TryAcquire(_) => if calling then s.(pc := s.pc[c := ReadLocked(pc == Inside, true)]) else s
    case Release(_) => if calling then s.(pc := s.pc[c := Verify(pc == Inside)]) else s
    case Go(_) =>
      match pc
      case Outside => s
      case Inside => s
      case Misfired => s
      case ReadLocked(inside, trying) =>
        s.(pc := s.pc[c := if s.locked != 0 then ReadCpu(inside, trying) else Swap(inside, trying)])
      case ReadCpu(inside, trying) =>
        s.(pc := s.pc[c := if s.cpu != c then Swap(inside, trying) else if inside || trying then Home(inside) else Misfired])
      case Swap(inside, trying) =>
        if s.locked == 0 then s.(locked := 1, pc := s.pc[c := SetCpu])
        else s.(locked := 1, pc := s.pc[c := if trying then Home(inside) else Spin(inside)])
      case Spin(inside) =>
        if s.locked != 0 then s else s.(pc := s.pc[c := Swap(inside, false)])
      case SetCpu => s.(cpu := c, pc := s.pc[c := Inside])
      case Verify(inside) =>
        s.(pc := s.pc[c := if s.cpu != c then Home(inside) else ClearCpu])
      case ClearCpu => s.(cpu := -1, pc := s.pc[c := Drop])
      case Drop => s.(locked := 0, pc := s.pc[c := Outside])
  }

  const Start := State(0, -1, map[])

  function Exec(steps: seq<Step>): State {
    if steps == [] then Start else Apply(Exec(steps[..|steps| - 1]), steps[|steps| - 1])
  }

  /** Between winning the test-and-set and giving the lock back. */
  predicate Holds(pc: Pc) {
    match pc
    case Inside => true
    case SetCpu => true
    case ClearCpu => true
    case Drop => true
    case ReadLocked(inside, _) => inside
    case ReadCpu(inside, _) => inside
    case Swap(inside, _) => inside
    case Spin(inside) => inside
    case Verify(inside) => inside
    case Outside => false
    case Misfired => false
  }

  /** Held, and the owner field already set and not yet cleared. */
  predicate Marked(pc: Pc) {
    Holds(pc) && pc != SetCpu && pc != Drop
  }

  /** The recursion test has gone wrong: it let a holder through to the test-and-set, where it
      would spin for itself, or it turned away a CPU that does not hold the lock. */
  predicate Astray(pc: Pc) {
    pc == Misfired || (pc.Swap? && pc.inside) || (pc.Spin? && pc.inside)
  }

  ghost predicate Held(s: State, holder: Option<Cpu>) {
    && (s.locked == if holder.Some? then 1 else 0)
    && (forall c: Cpu :: Holds(At(s, c)) <==> holder == Some(c))
    && (s.cpu == if holder.Some? && Marked(At(s, holder.value)) then holder.value else -1)
    && (forall c: Cpu :: !Astray(At(s, c)))
  }

  lemma StepKeepsHeld(s: State, a: Step, holder: Option<Cpu>) returns (next: Option<Cpu>)
    requires Held(s, holder)
    ensures Held(Apply(s, a), next)
  {
    var pc := At(s, a.c);
    next := if a.Go? && pc.Swap? && s.locked == 0 then Some(a.c) else if a.Go? && pc.Drop? then None else holder;
    assert forall c: Cpu :: c != a.c ==> At(Apply(s, a), c) == At(s, c);
  }

  lemma {:induction false} EveryRunIsHeld(steps: seq<Step>) returns (holder: Option<Cpu>)
    ensures Held(Exec(steps), holder)
  {
    if steps == [] {
      holder := None;
    } else {
      var before := EveryRunIsHeld(steps[..|steps| - 1]);
      holder := StepKeepsHeld(Exec(steps[..|steps| - 1]), steps[|steps| - 1], before);
    }
  }

  /** Mutual exclusion at every instant of every interleaving. */
  lemma AtMostOneHolder(steps: seq<Step>, c: Cpu, d: Cpu)
    requires Holds(At(Exec(steps), c)) && Holds(At(Exec(steps), d))
    ensures c == d && Exec(steps).locked == 1
  {
    var _ := EveryRunIsHeld(steps);
  }

  /** The owner field names c only while c is inside, so the recursion test, whose two operands are
      read at different times, turns away exactly the CPU that already holds the lock. */
  lemma RecursionTestIsExact(steps: seq<Step>, c: Cpu)
    ensures Exec(steps).cpu == c <==> Marked(At(Exec(steps), c))
    ensures At(Exec(steps), c).ReadCpu? ==>
              var pc := At(Exec(steps), c);
              At(Apply(Exec(steps), Go(c)), c) == if pc.inside then Inside else Swap(false, pc.trying)
    ensures At(Exec(steps), c).ReadLocked? && At(Exec(steps), c).inside ==> Exec(steps).locked == 1
    ensures !Astray(At(Exec(steps), c))
  {
    var _ := EveryRunIsHeld(steps);
  }

  /** A release by a CPU that does not hold the lock changes nothing, whatever it overlaps with. */
  lemma StrayReleaseIsHarmless(steps: seq<Step>, c: Cpu)
    requires At(Exec(steps), c) == Verify(false)
    ensures var s := Apply(Exec(steps), Go(c));
            s.locked == Exec(steps).locked && s.cpu == Exec(steps).cpu && At(s, c) == Outside
  {
    var _ := EveryRunIsHeld(steps);
  }
}
