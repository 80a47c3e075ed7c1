/** The process table: creation, destruction with renumbering, and round-robin scheduling. */
module ProcessTable {
  import opened Words
  import opened Arithmetic
  import opened Sequences

  const MAX_PROCESSES := 256

  /** A process record, named by the order of allocation. */
  type Id = nat

  /** `pids` holds the pid field of every record; `list` is the table. */
  datatype Table = Table(pids: seq<nat>, list: seq<Id>, current: Option<Id>)

  const Empty := Table([], [], None)

  /** `process_create`; `stack` tells whether the stack could be allocated. */
  function Create(s: Table, stack: bool): (Table, Option<Id>) {
    if |s.list| >= MAX_PROCESSES then (s, None)
    else if !stack then (s.(pids := s.pids + [|s.list|]), None)
    else (Table(s.pids + [|s.list|], s.list + [|s.pids|], s.current), Some(|s.pids|))
  }

  function IndexOf(list: seq<Id>, p: Id): (k: nat)
    ensures k <= |list| && p !in list[..k] && (k < |list| ==> list[k] == p)
  {
    if list == [] || list[0] == p then 0
    else
      var k := IndexOf(list[1..], p) + 1;
      assert list[..k] == [list[0]] + list[1..][..k - 1];
      k
  }

  /** The records from place k on get their places as pids. */
  function Renumber(pids: seq<nat>, list: seq<Id>, k: nat): (r: seq<nat>)
    requires forall i :: 0 <= i < |list| ==> list[i] < |pids|
    ensures |r| == |pids|
    decreases |list| - k
  {
    if k >= |list| then pids else Renumber(pids[list[k] := k], list, k + 1)
  }

  /** `process_destroy`. */
  function Destroy(s: Table, p: Id): Table
    requires forall i :: 0 <= i < |s.list| ==> s.list[i] < |s.pids|
  {
    var k := IndexOf(s.list, p);
    var current := if s.current == Some(p) then None else s.current;
    if k == |s.list| then s.(current := current)
    else
      var list: seq<Id> := s.list[..k] + s.list[k + 1..];
      Table(Renumber(s.pids, list, k), list, current)
  }

  /** The record has the place in the table that its pid says. */
  predicate Listed(s: Table, p: Id) {
    p < |s.pids| && s.pids[p] < |s.list| && s.list[s.pids[p]] == p
  }

  ghost predicate Numbered(pids: seq<nat>, list: seq<Id>) {
    forall i {:trigger list[i]} :: 0 <= i < |list| ==> list[i] < |pids| && pids[list[i]] == i
  }

  ghost predicate Sound(s: Table) {
    && Distinct(s.list) && |s.list| <= MAX_PROCESSES
    && Numbered(s.pids, s.list)
    && (s.current.Some? ==> Listed(s, s.current.value))
  }

  /** The place after the one of this pid, around the table. */
  function After(pid: nat, count: nat): (k: nat)
    requires count > 0
    ensures k < count && (pid < count ==> k == if pid + 1 == count then 0 else pid + 1)
  {
    Split(pid + 1, count);
    Mod(pid + 1, count)
  }

  /** `process_schedule`. */
  function Schedule(s: Table): Table
    requires Sound(s)
  {
    if s.list == [] then s
    else if s.current.None? then s.(current := Some(s.list[0]))
    else s.(current := Some(s.list[After(s.pids[s.current.value], |s.list|)]))
  }

  // ----- every run

  datatype Step = DoCreate(stack: bool) | DoDestroy(p: Id) | DoSchedule

  function Apply(s: Table, a: Step): Table
    requires Sound(s)
  {
    match a
    case DoCreate(stack) => Create(s, stack).0
    case DoDestroy(p) => Destroy(s, p)
    case DoSchedule => Schedule(s)
  }

  lemma {:induction false} RenumberNumbers(pids: seq<nat>, list: seq<Id>, k: nat)
    requires Distinct(list) && k <= |list|
    requires forall i :: 0 <= i < |list| ==> list[i] < |pids|
    requires forall i :: 0 <= i < k ==> pids[list[i]] == i
    ensures forall i :: 0 <= i < |list| ==> Renumber(pids, list, k)[list[i]] == i
    decreases |list| - k
  {
    if k < |list| {
      OthersDiffer<Id>(list, k);
      RenumberNumbers(pids[list[k] := k], list, k + 1);
    }
  }

  lemma RemovalRenumbers(pids: seq<nat>, list: seq<Id>, k: nat)
    requires Distinct(list) && Numbered(pids, list) && k < |list|
    ensures var rest: seq<Id> := list[..k] + list[k + 1..];
            && Distinct(rest) && list[k] !in rest
            && (forall i :: 0 <= i < |rest| ==> rest[i] < |pids|)
            && Numbered(Renumber(pids, rest, k), rest)
  {
    RemoveKeepsDistinct<Id>(list, k);
    var rest: seq<Id> := list[..k] + list[k + 1..];
    assert forall i {:trigger rest[i]} :: 0 <= i < |rest| ==> rest[i] == list[if i < k then i else i + 1];
    RenumberNumbers(pids, rest, k);
  }

  lemma RemovalIsWithout(list: seq<Id>, p: Id)
    ensures var k := IndexOf(list, p);
            Without<Id>(list, p) == if k == |list| then list else list[..k] + list[k + 1..]
  {
    var k := IndexOf(list, p);
    var before: seq<Id>, rest: seq<Id> := list[..k], list[k..];
    WithoutFirst<Id>(before, p, rest);
    assert before + rest == list;
    if k < |list| { assert rest[1..] == list[k + 1..]; } else { assert before == list; }
  }

  /** Exactly the process destroyed leaves the table, the others keep their order; one that is not
      listed leaves table and pids as they were. */
  lemma DestroyRemoves(s: Table, p: Id)
    requires Numbered(s.pids, s.list)
    ensures Destroy(s, p).list == Without<Id>(s.list, p)
    ensures p !in s.list ==> Destroy(s, p).list == s.list && Destroy(s, p).pids == s.pids
    ensures Destroy(s, p).current == if s.current == Some(p) then None else s.current
  {
    RemovalIsWithout(s.list, p);
  }

  lemma DestroyKeepsSound(s: Table, p: Id)
    requires Sound(s)
    ensures Sound(Destroy(s, p))
    ensures p !in Destroy(s, p).list && Destroy(s, p).current != Some(p)
  {
    var k, t := IndexOf(s.list, p), Destroy(s, p);
    if k < |s.list| {
      RemovalRenumbers(s.pids, s.list, k);
      if t.current.Some? {
        var i := s.pids[t.current.value];
        assert t.list[if i < k then i else i - 1] == t.current.value;
      }
    } else {
      assert s.list[..k] == s.list;
    }
  }

  lemma StepKeepsSound(s: Table, a: Step)
    requires Sound(s)
    ensures Sound(Apply(s, a))
  {
    match a
    case DoCreate(stack) =>
      InsertKeepsDistinct<Id>(s.list, |s.list|, |s.pids|);
      assert s.list[..|s.list|] + [|s.pids|] + s.list[|s.list|..] == s.list + [|s.pids|];
    case DoDestroy(p) => DestroyKeepsSound(s, p);
    case DoSchedule =>
  }

  /** In every run the table has no record twice, every pid is its record's place, and the current
      process is none or a listed one. */
  function Exec(steps: seq<Step>): (s: Table)
    ensures Sound(s)
  {
    if steps == [] then Empty
    else
      var before, last := Exec(steps[..|steps| - 1]), steps[|steps| - 1];
      StepKeepsSound(before, last);
      Apply(before, last)
  }

  // ----- fairness

  /** The processes that n schedules in a row select. */
  function Selected(s: Table, n: nat): seq<Id>
    requires Sound(s) && s.list != []
    decreases n
  {
    if n == 0 then [] else [Schedule(s).current.value] + Selected(Schedule(s), n - 1)
  }

  /** Where the next turn is. */
  function Turn(s: Table): (k: nat)
    requires Sound(s) && s.list != []
    ensures k < |s.list|
  {
    if s.current.None? then 0 else After(s.pids[s.current.value], |s.list|)
  }

  /** The place i turns further around the table. */
  function Ahead(list: seq<Id>, k: nat, i: nat): Id
    requires k < |list| && i <= |list|
  {
    list[if k + i < |list| then k + i else k + i - |list|]
  }

  lemma TurnMoves(s: Table)
    requires Sound(s) && s.list != []
    ensures var t := Schedule(s);
            t.list == s.list && t.current == Some(s.list[Turn(s)]) && Turn(t) == After(Turn(s), |s.list|)
  {
  }

  lemma {:induction false} SelectedInOrder(s: Table, n: nat)
    requires Sound(s) && s.list != [] && n <= |s.list|
    ensures |Selected(s, n)| == n && forall i :: 0 <= i < n ==> Selected(s, n)[i] == Ahead(s.list, Turn(s), i)
    decreases n
  {
    if n > 0 {
      TurnMoves(s);
      SelectedInOrder(Schedule(s), n - 1);
      var rest := Selected(Schedule(s), n - 1);
      assert forall i :: 0 < i < n ==> Selected(s, n)[i] == rest[i - 1];
    }
  }

  /** From any table that a run leads to, any `process_count` schedules in a row select every process
      exactly once: they go once around the table. */
  lemma RoundIsFair(s: Table)
    requires Sound(s) && s.list != []
    ensures var round := Selected(s, |s.list|);
            multiset(round) == multiset(s.list) && Distinct(round)
  {
    SelectedInOrder(s, |s.list|);
    RotationIsDistinct(s.list, Turn(s), Selected(s, |s.list|));
    RotationHasAll(s.list, Turn(s), Selected(s, |s.list|));
  }

  lemma RotationIsDistinct(list: seq<Id>, k: nat, r: seq<Id>)
    requires Distinct(list) && k < |list| == |r| && forall i :: 0 <= i < |r| ==> r[i] == Ahead(list, k, i)
    ensures Distinct(r)
  {
    DistinctMeans<Id>(list);
    DistinctMeans<Id>(r);
  }

  lemma RotationHasAll(list: seq<Id>, k: nat, r: seq<Id>)
    requires k < |list| == |r| && forall i :: 0 <= i < |r| ==> r[i] == Ahead(list, k, i)
    ensures multiset(r) == multiset(list)
  {
    assert r == list[k..] + list[..k];
    assert list == list[..k] + list[k..];
  }

  /** Destroying a process that is neither running nor next takes nobody's turn. */
  lemma DestroyKeepsTurn(s: Table, p: Id)
    requires Sound(s) && s.current.Some? && s.current != Some(p) && Schedule(s).current != Some(p)
    ensures Sound(Destroy(s, p)) && Schedule(Destroy(s, p)).current == Schedule(s).current
  {
    DestroyKeepsSound(s, p);
    var j := IndexOf(s.list, p);
    if j < |s.list| {
      DistinctMeans<Id>(s.list);
      var t, c := Destroy(s, p), s.current.value;
      var i := s.pids[c];
      assert s.list[i] == c;
      assert t.list[if i < j then i else i - 1] == c;
    }
  }
}
