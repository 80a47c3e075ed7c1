/** How far each pipe call gets: when it moves bytes, when it returns, and that on an open pipe whole
    requests are met. */
module PipeProgress {
  import opened Arithmetic
  import opened Words
  import opened WaiterQueue
  import opened Pipe

  lemma ExecSnoc(steps: seq<Step>, a: Step)
    ensures Exec(steps + [a]) == Apply(Exec(steps), a)
  {
    assert (steps + [a])[..|steps|] == steps;
  }

  // ----- single steps

  /** Process p, and nothing else, is now here. */
  ghost predicate OnlyMoves(s: System, t: System, p: Pid, pc: Pc) {
    t == s.(pc := t.pc) && At(t, p) == pc && forall x: Pid :: x != p ==> At(t, x) == At(s, x)
  }

  /** Calls are taken up with something to move, on an open pipe. */
  lemma CallsInRun(steps: seq<Step>, p: Pid, data: seq<u8>, size: nat)
    requires At(Exec(steps), p) == Idle
    ensures var s := Exec(steps);
            && OnlyMoves(s, Exec(steps + [CallWrite(p, data)]), p, if |data| > 0 && !s.closed then Writing(data, 0, AtWait) else Idle)
            && OnlyMoves(s, Exec(steps + [CallRead(p, size)]), p, if size > 0 && !s.closed then Reading(size, [], AtWait) else Idle)
            && Exec(steps + [Close(p)]) == s.(closed := true)
  {
    ExecSnoc(steps, CallWrite(p, data));
    ExecSnoc(steps, CallRead(p, size));
    ExecSnoc(steps, Close(p));
  }

  /** A writer in its section puts in the next bytes of its data until they are all there or the ring is
      full. */
  lemma WriterMoves(steps: seq<Step>, p: Pid)
    requires At(Exec(steps), p).Writing? && At(Exec(steps), p).at == AtSection
    ensures var s, t := Exec(steps), Exec(steps + [Go(p)]);
            var data, done := At(s, p).data, At(s, p).done;
            && At(t, p).Writing? && At(t, p).data == data && At(t, p).at == AtCheck && done <= At(t, p).done <= |data|
            && t.contents == s.contents + data[done..At(t, p).done]
            && (At(t, p).done == |data| || |t.contents| == 4096)
            && forall x: Pid :: x != p ==> At(t, x) == At(s, x)
  {
    EveryRunConserves(steps);
    assert Ordered(Exec(steps), p);
    ExecSnoc(steps, Go(p));
  }

  /** A reader in its section takes the first bytes of the ring until it has all it wants or the ring is
      empty. */
  lemma ReaderMoves(steps: seq<Step>, p: Pid)
    requires At(Exec(steps), p).Reading? && At(Exec(steps), p).at == AtSection
    ensures var s, t := Exec(steps), Exec(steps + [Go(p)]);
            var size, got := At(s, p).size, At(s, p).got;
            && At(t, p).Reading? && At(t, p).size == size && At(t, p).at == AtCheck && |got| <= |At(t, p).got| <= size
            && got <= At(t, p).got && s.contents == At(t, p).got[|got|..] + t.contents
            && (|At(t, p).got| == size || t.contents == [])
            && forall x: Pid :: x != p ==> At(t, x) == At(s, x)
  {
    var s := Exec(steps);
    EveryRunConserves(steps);
    assert Ordered(s, p);
    ExecSnoc(steps, Go(p));
    var n := Min(At(s, p).size - |At(s, p).got|, |s.contents|);
    assert s.contents == s.contents[..n] + s.contents[n..];
    assert (At(s, p).got + s.contents[..n])[|At(s, p).got|..] == s.contents[..n];
  }

  /** Nothing left to move in this call. */
  predicate Finished(pc: Pc) {
    (pc.Writing? && pc.done == |pc.data|) || (pc.Reading? && |pc.got| == pc.size)
  }

  /** Between sections a call returns exactly when the pipe is closed, or it has moved everything and
      looks at what is left; otherwise it goes on to its next section. */
  lemma CallGoesOn(steps: seq<Step>, p: Pid)
    requires !At(Exec(steps), p).Idle? && At(Exec(steps), p).at != AtSection
    ensures var s, t := Exec(steps), Exec(steps + [Go(p)]);
            && t.contents == s.contents && t.closed == s.closed && t.written == s.written && t.read == s.read
            && (if s.closed || (At(s, p).at == AtCheck && Finished(At(s, p))) then At(t, p) == Idle
                else At(t, p) == At(s, p).(at := if At(s, p).at == AtWait then AtSection else AtWait))
            && forall x: Pid :: x != p ==> At(t, x) == At(s, x)
  {
    EveryRunConserves(steps);
    assert Ordered(Exec(steps), p);
    ExecSnoc(steps, Go(p));
  }

  // ----- whole requests

  /** Everything process p has asked to write, in calls that were taken up. */
  function AskedToWrite(steps: seq<Step>, p: Pid): seq<u8> {
    if steps == [] then []
    else
      var before, last := steps[..|steps| - 1], steps[|steps| - 1];
      AskedToWrite(before, p)
      + if last.CallWrite? && last.p == p && At(Exec(before), p) == Idle && !Exec(before).closed then last.data else []
  }

  /** How many bytes it has asked to read. */
  function AskedToRead(steps: seq<Step>, p: Pid): nat {
    if steps == [] then 0
    else
      var before, last := steps[..|steps| - 1], steps[|steps| - 1];
      AskedToRead(before, p)
      + if last.CallRead? && last.p == p && At(Exec(before), p) == Idle && !Exec(before).closed then last.size else 0
  }

  /** What the current call of a writer still has to put in, and of a reader to get. */
  function LeftToWrite(pc: Pc): seq<u8> {
    if pc.Writing? && pc.done <= |pc.data| then pc.data[pc.done..] else []
  }

  function LeftToRead(pc: Pc): int {
    if pc.Reading? then pc.size - |pc.got| else 0
  }

  /** The two sides of the accounts of process p. */
  ghost predicate Met(s: System, p: Pid, asked: seq<u8>, wanted: nat) {
    By(s.written, p) + LeftToWrite(At(s, p)) == asked && |By(s.read, p)| + LeftToRead(At(s, p)) == wanted
  }

  lemma MovesKeepMet(s: System, p: Pid, asked: seq<u8>, wanted: nat)
    requires Conserved(s) && Ordered(s, p) && Ordered(Proceed(s, p), p) && InSection(At(s, p)) && Met(s, p, asked, wanted)
    ensures Met(Proceed(s, p), p, asked, wanted)
  {
    var t := Proceed(s, p);
    if At(s, p).Writing? {
      var data, done, after := At(s, p).data, At(s, p).done, At(t, p).done;
      ByTagged(s.written, p, data[done..after], p);
      JoinAgain(By(s.written, p), data, done, after);
    } else {
      var n := Min(At(s, p).size - |At(s, p).got|, |s.contents|);
      ByTagged(s.read, p, s.contents[..n], p);
    }
  }

  lemma JoinAgain(a: seq<u8>, data: seq<u8>, i: nat, j: nat)
    requires i <= j <= |data|
    ensures (a + data[i..j]) + data[j..] == a + data[i..]
  {
  }

  /** What the accounts of p depend on. */
  ghost predicate SameFor(s: System, t: System, p: Pid) {
    At(t, p) == At(s, p) && By(t.written, p) == By(s.written, p) && By(t.read, p) == By(s.read, p)
  }

  lemma OtherWriterKeeps(s: System, q: Pid, p: Pid)
    requires Conserved(s) && Ordered(s, q) && q != p && At(s, q).Writing? && InSection(At(s, q))
    ensures SameFor(s, Proceed(s, q), p)
  {
    ByTagged(s.written, q, At(s, q).data[At(s, q).done..At(Proceed(s, q), q).done], p);
  }

  lemma OtherReaderKeeps(s: System, q: Pid, p: Pid)
    requires Conserved(s) && Ordered(s, q) && q != p && At(s, q).Reading? && InSection(At(s, q))
    ensures SameFor(s, Proceed(s, q), p)
  {
    ByTagged(s.read, q, s.contents[..Min(At(s, q).size - |At(s, q).got|, |s.contents|)], p);
  }

  lemma OtherQuietKeeps(s: System, a: Step, p: Pid)
    requires a.p != p && (a.Go? ==> !InSection(At(s, a.p)))
    ensures SameFor(s, Apply(s, a), p)
  {
  }

  lemma OthersKeepMet(s: System, a: Step, p: Pid, asked: seq<u8>, wanted: nat)
    requires Conserved(s) && Ordered(s, a.p) && a.p != p && Met(s, p, asked, wanted)
    ensures Met(Apply(s, a), p, asked, wanted)
  {
    if a.Go? && InSection(At(s, a.p)) {
      if At(s, a.p).Writing? { OtherWriterKeeps(s, a.p, p); } else { OtherReaderKeeps(s, a.p, p); }
    } else {
      OtherQuietKeeps(s, a, p);
    }
  }

  lemma CallKeepsMet(s: System, a: Step, asked: seq<u8>, wanted: nat)
    requires !s.closed && Met(s, a.p, asked, wanted) && !a.Go? && !a.Close?
    ensures var idle := At(s, a.p) == Idle;
            Met(Apply(s, a), a.p, asked + (if a.CallWrite? && idle then a.data else []),
                wanted + if a.CallRead? && idle then a.size else 0)
  {
    assert asked + [] == asked && By(s.written, a.p) + [] == By(s.written, a.p);
  }

  lemma GoKeepsMet(s: System, p: Pid, asked: seq<u8>, wanted: nat)
    requires !s.closed && Ordered(s, p) && Met(s, p, asked, wanted) && !InSection(At(s, p))
    ensures Met(Proceed(s, p), p, asked, wanted)
  {
    assert By(s.written, p) + [] == By(s.written, p);
  }

  /** On a pipe that is still open, the bytes of process p that went in, followed by those its current
      call still has to put in, are exactly those it asked to write; and it got exactly as many bytes as
      it asked to read, less those its current call is waiting for. So a call returns only when it is
      finished. */
  lemma {:induction false} WholeRequestsAreMet(steps: seq<Step>, p: Pid)
    requires !Exec(steps).closed
    ensures Met(Exec(steps), p, AskedToWrite(steps, p), AskedToRead(steps, p))
  {
    if steps != [] {
      var before, a := steps[..|steps| - 1], steps[|steps| - 1];
      var s := Exec(before);
      assert !s.closed;
      WholeRequestsAreMet(before, p);
      EveryRunConserves(before);
      EveryRunConserves(steps);
      assert Ordered(s, p) && Ordered(s, a.p) && Ordered(Exec(steps), p);
      OwnStepIsMet(s, a, p, AskedToWrite(before, p), AskedToRead(before, p));
    }
  }

  lemma OwnStepIsMet(s: System, a: Step, p: Pid, asked: seq<u8>, wanted: nat)
    requires Conserved(s) && Ordered(s, p) && Ordered(s, a.p) && Ordered(Apply(s, a), p)
    requires !s.closed && !Apply(s, a).closed && Met(s, p, asked, wanted)
    ensures var idle := At(s, p) == Idle && a.p == p && !s.closed;
            Met(Apply(s, a), p, asked + (if a.CallWrite? && idle then a.data else []),
                wanted + if a.CallRead? && idle then a.size else 0)
  {
    assert asked + [] == asked;
    if a.p != p {
      OthersKeepMet(s, a, p, asked, wanted);
    } else if a.Go? {
      if InSection(At(s, p)) { MovesKeepMet(s, p, asked, wanted); } else { GoKeepsMet(s, p, asked, wanted); }
    } else if !a.Close? {
      CallKeepsMet(s, a, asked, wanted);
    }
  }

  /** An idle process on an open pipe has written all it ever asked to, and read as much as it ever asked. */
  lemma IdleIsDone(steps: seq<Step>, p: Pid)
    requires !Exec(steps).closed && At(Exec(steps), p) == Idle
    ensures By(Exec(steps).written, p) == AskedToWrite(steps, p)
    ensures |By(Exec(steps).read, p)| == AskedToRead(steps, p)
  {
    WholeRequestsAreMet(steps, p);
  }
}
