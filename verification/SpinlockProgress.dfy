/** Who gets the spinlock and how it is given back, in every interleaving. */
module SpinlockProgress {
  import opened Words
  import opened Spinlock

  lemma ExecSnoc(steps: seq<Step>, a: Step)
    ensures Exec(steps + [a]) == Apply(Exec(steps), a)
  {
    assert (steps + [a])[..|steps|] == steps;
  }

  ghost predicate Free(s: State) {
    forall d: Cpu :: !Holds(At(s, d))
  }

  /** The lock word says whether somebody holds the lock. */
  lemma FreeIffUnlocked(steps: seq<Step>)
    ensures Free(Exec(steps)) <==> Exec(steps).locked == 0
  {
    var holder := EveryRunIsHeld(steps);
    if holder.Some? { assert Holds(At(Exec(steps), holder.value)); }
  }

  // ----- the steps of a CPU that does not hold the lock

  /** The test-and-set takes the lock exactly when nobody holds it; otherwise a try returns without it
      and an acquire spins. */
  lemma SwapInRun(steps: seq<Step>, c: Cpu, trying: bool)
    requires At(Exec(steps), c) == Swap(false, trying)
    ensures var t := Exec(steps + [Go(c)]);
            && t.locked == 1 && t.cpu == Exec(steps).cpu
            && (if Free(Exec(steps)) then Holds(At(t, c)) && At(t, c) == SetCpu
                else At(t, c) == if trying then Outside else Spin(false))
  {
    FreeIffUnlocked(steps);
    ExecSnoc(steps, Go(c));
  }

  /** A spinning CPU goes back to the test-and-set exactly when nobody holds the lock. */
  lemma SpinInRun(steps: seq<Step>, c: Cpu)
    requires At(Exec(steps), c) == Spin(false)
    ensures At(Exec(steps + [Go(c)]), c) == if Free(Exec(steps)) then Swap(false, false) else Spin(false)
    ensures Exec(steps + [Go(c)]).locked == Exec(steps).locked && Exec(steps + [Go(c)]).cpu == Exec(steps).cpu
  {
    FreeIffUnlocked(steps);
    ExecSnoc(steps, Go(c));
  }

  // ----- own steps among those of others

  /** The steps of CPU c among these. */
  function Own(more: seq<Step>, c: Cpu): seq<Step> {
    if more == [] then []
    else Own(more[..|more| - 1], c) + if more[|more| - 1].c == c then [more[|more| - 1]] else []
  }

  /** A run that goes on, without its last step and with it. */
  lemma OneMore(steps: seq<Step>, more: seq<Step>, c: Cpu)
    requires more != []
    ensures var init, a := more[..|more| - 1], more[|more| - 1];
            && Exec(steps + more) == Apply(Exec(steps + init), a)
            && Own(more, c) == Own(init, c) + (if a.c == c then [a] else [])
            && (a.c != c ==> At(Exec(steps + more), c) == At(Exec(steps + init), c))
  {
    var init, a := more[..|more| - 1], more[|more| - 1];
    assert steps + more == (steps + init) + [a];
    ExecSnoc(steps + init, a);
  }

  function Releasing(c: Cpu): seq<Step> {
    [Release(c), Go(c), Go(c), Go(c)]
  }

  /** Where a releasing CPU is after so many of its own steps. */
  function ReleasePoint(k: nat): Pc {
    if k == 0 then Inside else if k == 1 then Verify(true) else if k == 2 then ClearCpu else if k == 3 then Drop else Outside
  }

  lemma {:induction false} ReleaseGoesOn(steps: seq<Step>, more: seq<Step>, c: Cpu, k: nat)
    requires At(Exec(steps), c) == Inside && k <= 4 && Own(more, c) == Releasing(c)[..k]
    ensures At(Exec(steps + more), c) == ReleasePoint(k)
    ensures k == 4 && more[|more| - 1].c == c ==> Exec(steps + more).locked == 0 && Exec(steps + more).cpu == -1
    decreases |more|
  {
    if more == [] {
      assert steps + more == steps;
      assert |Own(more, c)| == k;
    } else {
      var init, a := more[..|more| - 1], more[|more| - 1];
      OneMore(steps, more, c);
      assert |Releasing(c)[..k]| == k;
      if a.c == c {
        assert k > 0 && Own(init, c) == Releasing(c)[..k][..k - 1] == Releasing(c)[..k - 1] && a == Releasing(c)[k - 1];
        ReleaseGoesOn(steps, init, c, k - 1);
        var holder := EveryRunIsHeld(steps + init);
        assert Holds(At(Exec(steps + init), c));
      } else {
        ReleaseGoesOn(steps, init, c, k);
      }
    }
  }

  /** A holder that calls release has freed the lock with its third step, whatever other CPUs do in
      between. */
  lemma ReleaseFrees(steps: seq<Step>, more: seq<Step>, c: Cpu)
    requires At(Exec(steps), c) == Inside && Own(more, c) == Releasing(c)
    ensures At(Exec(steps + more), c) == Outside
    ensures more[|more| - 1].c == c ==> Free(Exec(steps + more)) && Exec(steps + more).cpu == -1
  {
    assert Releasing(c)[..4] == Releasing(c);
    ReleaseGoesOn(steps, more, c, 4);
    FreeIffUnlocked(steps + more);
  }

  // ----- entering without contention

  /** A CPU that calls acquire, or tries, while the lock is free and nobody else moves is inside after
      three steps. */
  lemma UncontendedEnters(steps: seq<Step>, c: Cpu, trying: bool)
    requires Free(Exec(steps)) && At(Exec(steps), c) == Outside
    ensures var call := if trying then TryAcquire(c) else Acquire(c);
            var t := Exec(steps + [call] + [Go(c)] + [Go(c)] + [Go(c)]);
            At(t, c) == Inside && t.locked == 1 && t.cpu == c
  {
    var call := if trying then TryAcquire(c) else Acquire(c);
    FreeIffUnlocked(steps);
    ExecSnoc(steps, call);
    ExecSnoc(steps + [call], Go(c));
    ExecSnoc(steps + [call] + [Go(c)], Go(c));
    ExecSnoc(steps + [call] + [Go(c)] + [Go(c)], Go(c));
  }

  /** A try while another CPU holds the lock returns without it, and leaves the lock to its holder. */
  lemma TryIsTurnedAway(steps: seq<Step>, c: Cpu)
    requires !Free(Exec(steps)) && At(Exec(steps), c) == Outside
    ensures var s, t := Exec(steps), Exec(steps + [TryAcquire(c)] + [Go(c)] + [Go(c)] + [Go(c)]);
            At(t, c) == Outside && t.locked == 1 && t.cpu == s.cpu && forall d: Cpu :: d != c ==> At(t, d) == At(s, d)
  {
    var holder := EveryRunIsHeld(steps);
    FreeIffUnlocked(steps);
    ExecSnoc(steps, TryAcquire(c));
    ExecSnoc(steps + [TryAcquire(c)], Go(c));
    ExecSnoc(steps + [TryAcquire(c)] + [Go(c)], Go(c));
    ExecSnoc(steps + [TryAcquire(c)] + [Go(c)] + [Go(c)], Go(c));
  }
}
