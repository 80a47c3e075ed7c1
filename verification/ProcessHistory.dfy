/** The process table as its history alone determines it. */
module ProcessHistory {
  import opened Words
  import opened Sequences
  import opened ProcessTable

  /** How many records have been allocated: one for each creation that found fewer than 256 processes. */
  function Records(steps: seq<Step>): nat {
    if steps == [] then 0
    else
      var before, last := steps[..|steps| - 1], steps[|steps| - 1];
      Records(before) + if last.DoCreate? && |Alive(before)| < 256 then 1 else 0
  }

  /** The processes created with a stack while there was room and not destroyed since, oldest first. */
  function Alive(steps: seq<Step>): seq<Id> {
    if steps == [] then []
    else
      var before, last := steps[..|steps| - 1], steps[|steps| - 1];
      match last
      case DoCreate(stack) => Alive(before) + if stack && |Alive(before)| < 256 then [Records(before)] else []
      case DoDestroy(p) => Without<Id>(Alive(before), p)
      case DoSchedule => Alive(before)
  }

  /** The table lists exactly the processes that are alive, oldest first, each with its place as its pid. */
  lemma {:induction false} TableIsAlive(steps: seq<Step>)
    ensures Exec(steps).list == Alive(steps) && |Exec(steps).pids| == Records(steps)
    ensures forall i :: 0 <= i < |Alive(steps)| ==> Alive(steps)[i] < Records(steps) && Exec(steps).pids[Alive(steps)[i]] == i
  {
    if steps != [] {
      var before, last := steps[..|steps| - 1], steps[|steps| - 1];
      TableIsAlive(before);
      match last
      case DoCreate(stack) => assert Exec(before).list + [] == Exec(before).list;
      case DoDestroy(p) => DestroyRemoves(Exec(before), p);
      case DoSchedule =>
    }
    assert forall i :: 0 <= i < |Alive(steps)| ==> Exec(steps).list[i] == Alive(steps)[i];
  }

  /** What a creation returns: the new process if it has a stack and there is room, and nothing otherwise. */
  lemma CreationReturns(steps: seq<Step>, stack: bool)
    ensures Create(Exec(steps), stack).1 == if stack && |Alive(steps)| < 256 then Some(Records(steps)) else None
  {
    TableIsAlive(steps);
  }

  /** In every run, `process_count` schedules in a row select every process that is alive exactly once. */
  lemma EveryoneAliveIsSelected(steps: seq<Step>)
    requires Alive(steps) != []
    ensures Exec(steps).list != [] && multiset(Selected(Exec(steps), |Alive(steps)|)) == multiset(Alive(steps))
  {
    TableIsAlive(steps);
    RoundIsFair(Exec(steps));
  }
}
