/** The pipe: a 4096-byte ring that readers and writers share.

    `semaphore_wait` may return at any time for all this module assumes. The section between
    `mutex_lock` and `mutex_unlock` is one step, and so is each unlocked look at `closed`. */
module Pipe {
  import opened Arithmetic
  import opened Words
  import opened WaiterQueue
  import Bytes

  const CAPACITY := 4096

  // ----- the ring

  class Ring {
    const buffer: array<u8>
    var readPos: nat
    var writePos: nat
    var count: nat
    ghost var contents: seq<u8>

    ghost predicate Valid()
      reads this, buffer
    {
      && buffer.Length == CAPACITY
      && readPos < CAPACITY
      && count == |contents| <= CAPACITY
      && writePos == Slot(readPos, count)
      && (forall i :: 0 <= i < count ==> buffer[Slot(readPos, i)] == contents[i])
    }

    constructor ()
      ensures Valid() && contents == [] && fresh(buffer)
    {
      buffer := new u8[CAPACITY];
      readPos, writePos, count := 0, 0, 0;
      contents := [];
    }

    method Put(b: u8)
      requires Valid() && count < CAPACITY
      modifies this, buffer
      ensures Valid() && contents == old(contents) + [b]
    {
      buffer[writePos] := b;
      writePos := (writePos + 1) % CAPACITY;
      count := count + 1;
      contents := contents + [b];
    }

    method Take() returns (b: u8)
      requires Valid() && count > 0
      modifies this
      ensures Valid() && b == old(contents)[0] && contents == old(contents)[1..]
    {
      b := buffer[readPos];
      assert Slot(readPos, 0) == readPos;
      assert forall i :: 0 <= i < count - 1 ==> Slot(Slot(readPos, 1), i) == Slot(readPos, i + 1);
      readPos := (readPos + 1) % CAPACITY;
      count := count - 1;
      contents := contents[1..];
    }

    /** The locked part of a write: as many of the remaining bytes as the ring has room for. */
    method WriteSection(data: array<u8>, done: nat, size: nat) returns (after: nat)
      requires Valid() && done <= size <= data.Length && data != buffer
      modifies this, buffer
      ensures Valid() && after == done + Min(size - done, CAPACITY - old(|contents|))
      ensures contents == old(contents) + data[done..after]
    {
      var room := CAPACITY - count;
      var n := size - done;
      if n > room { n := room; }
      after := done;
      var i := 0;
      while i < n
        invariant 0 <= i <= n && after == done + i && Valid()
        invariant contents == old(contents) + data[done..after]
      {
        Put(data[after]);
        after := after + 1;
        i := i + 1;
      }
    }

    /** The locked part of a read: as many bytes as are wanted and there. */
    method ReadSection(data: array<u8>, done: nat, size: nat) returns (after: nat)
      requires Valid() && done <= size <= data.Length && data != buffer
      modifies this, data
      ensures Valid() && after == done + Min(size - done, old(|contents|))
      ensures data[..] == old(data[..done]) + old(contents)[..after - done] + old(data[after..])
      ensures contents == old(contents)[after - done..]
    {
      var n := size - done;
      if n > count { n := count; }
      after := done;
      ghost var was, all := data[..], contents;
      var i := 0;
      while i < n
        invariant 0 <= i <= n && after == done + i
        invariant Valid() && contents == all[i..]
        invariant data[..] == was[..done] + all[..i] + was[after..]
      {
        var b := Take();
        assert b == all[i];
        data[after] := b;
        after := after + 1;
        i := i + 1;
      }
    }
  }

  function Slot(start: nat, i: nat): (k: nat)
    ensures k < CAPACITY
  {
    (start + i) % CAPACITY
  }

  // ----- every interleaving

  /** A byte and the process that put it into the pipe, or took it out. */
  datatype Moved = Moved(who: Pid, byte: u8)

  datatype Point = AtWait | AtSection | AtCheck

  datatype Pc = Idle | Writing(data: seq<u8>, done: nat, at: Point) | Reading(size: nat, got: seq<u8>, at: Point)

  /** `written` and `read` record every byte that went in and came out; `past` what each process
      moved in calls that have ended. */
  datatype System = System(contents: seq<u8>, closed: bool, pc: map<Pid, Pc>, written: seq<Moved>, read: seq<Moved>,
                           pastWrites: map<Pid, seq<u8>>, pastReads: map<Pid, seq<u8>>)

  datatype Step = CallWrite(p: Pid, data: seq<u8>) | CallRead(p: Pid, size: nat) | Close(p: Pid) | Go(p: Pid)

  function At(s: System, p: Pid): Pc {
    if p in s.pc then s.pc[p] else Idle
  }

  function Past(m: map<Pid, seq<u8>>, p: Pid): seq<u8> {
    if p in m then m[p] else []
  }

  function Tag(p: Pid, bytes: seq<u8>): (r: seq<Moved>)
    ensures |r| == |bytes| && forall i :: 0 <= i < |r| ==> r[i] == Moved(p, bytes[i])
  {
    seq(|bytes|, i requires 0 <= i < |bytes| => Moved(p, bytes[i]))
  }

  function Return(s: System, p: Pid): System {
    match At(s, p)
    case Idle => s
    case Writing(data, done, _) =>
      if done > |data| then s
      else s.(pc := s.pc[p := Idle], pastWrites := s.pastWrites[p := Past(s.pastWrites, p) + data[..done]])
    case Reading(_, got, _) => s.(pc := s.pc[p := Idle], pastReads := s.pastReads[p := Past(s.pastReads, p) + got])
  }

  /** The step a process inside a call takes next. */
  function Proceed(s: System, p: Pid): System {
    match At(s, p)
    case Idle => s
    case Writing(data, done, AtWait) =>
      if s.closed then Return(s, p) else s.(pc := s.pc[p := Writing(data, done, AtSection)])
    case Writing(data, done, AtSection) =>
      if done > |data| || |s.contents| > CAPACITY then s
      else
        var after := done + Min(|data| - done, CAPACITY - |s.contents|);
        s.(contents := s.contents + data[done..after], written := s.written + Tag(p, data[done..after]),
           pc := s.pc[p := Writing(data, after, AtCheck)])
    case Writing(data, done, AtCheck) =>
      if done == |data| || s.closed then Return(s, p) else s.(pc := s.pc[p := Writing(data, done, AtWait)])
    case Reading(size, got, AtWait) =>
      if s.closed then Return(s, p) else s.(pc := s.pc[p := Reading(size, got, AtSection)])
    case Reading(size, got, AtSection) =>
      if |got| > size then s
      else
        var n := Min(size - |got|, |s.contents|);
        s.(contents := s.contents[n..], read := s.read + Tag(p, s.contents[..n]),
           pc := s.pc[p := Reading(size, got + s.contents[..n], AtCheck)])
    case Reading(size, got, AtCheck) =>
      if |got| == size || s.closed then Return(s, p) else s.(pc := s.pc[p := Reading(size, got, AtWait)])
  }

  function Apply(s: System, a: Step): System {
    match a
    case CallWrite(p, data) =>
      if At(s, p) == Idle && data != [] && !s.closed then s.(pc := s.pc[p := Writing(data, 0, AtWait)]) else s
    case CallRead(p, size) =>
      if At(s, p) == Idle && size > 0 && !s.closed then s.(pc := s.pc[p := Reading(size, [], AtWait)]) else s
    case Close(p) => if At(s, p) == Idle then s.(closed := true) else s
    case Go(p) => Proceed(s, p)
  }

  const Start := System([], false, map[], [], [], map[], map[])

  function Exec(steps: seq<Step>): System {
    if steps == [] then Start else Apply(Exec(steps[..|steps| - 1]), steps[|steps| - 1])
  }

  function BytesOf(log: seq<Moved>): (r: seq<u8>)
    ensures |r| == |log| && forall i :: 0 <= i < |r| ==> r[i] == log[i].byte
  {
    seq(|log|, i requires 0 <= i < |log| => log[i].byte)
  }

  /** The bytes of a log that p moved, in order. */
  function By(log: seq<Moved>, p: Pid): seq<u8> {
    if log == [] then []
    else
      var m := log[|log| - 1];
      By(log[..|log| - 1], p) + if m.who == p then [m.byte] else []
  }

  lemma {:induction false} ByTagged(log: seq<Moved>, p: Pid, bytes: seq<u8>, q: Pid)
    ensures By(log + Tag(p, bytes), q) == By(log, q) + if p == q then bytes else []
  {
    var t := log + Tag(p, bytes);
    if bytes == [] {
      assert t == log;
    } else {
      var n := |bytes| - 1;
      ByTagged(log, p, bytes[..n], q);
      assert t[..|t| - 1] == log + Tag(p, bytes[..n]);
      assert t[|t| - 1] == Moved(p, bytes[n]);
      assert bytes == bytes[..n] + [bytes[n]];
    }
  }

  ghost predicate Conserved(s: System) {
    BytesOf(s.written) == BytesOf(s.read) + s.contents && |s.contents| <= CAPACITY
  }

  /** Process p's bytes are in the logs in the order it wrote, or received, them. */
  ghost predicate Ordered(s: System, p: Pid) {
    var pc := At(s, p);
    && (pc.Writing? ==> pc.done <= |pc.data|)
    && (pc.Reading? ==> |pc.got| <= pc.size)
    && By(s.written, p) == Past(s.pastWrites, p) + (if pc.Writing? then pc.data[..pc.done] else [])
    && By(s.read, p) == Past(s.pastReads, p) + (if pc.Reading? then pc.got else [])
  }

  predicate InSection(pc: Pc) {
    !pc.Idle? && pc.at == AtSection
  }

  lemma WriteKeepsConserved(s: System, p: Pid)
    requires Conserved(s) && Ordered(s, p) && At(s, p).Writing? && InSection(At(s, p))
    ensures Conserved(Proceed(s, p))
  {
    var pc := At(s, p);
    var bytes := pc.data[pc.done..pc.done + Min(|pc.data| - pc.done, CAPACITY - |s.contents|)];
    assert BytesOf(s.written + Tag(p, bytes)) == BytesOf(s.written) + bytes;
  }

  lemma WriteKeepsOwnOrder(s: System, p: Pid)
    requires Ordered(s, p) && At(s, p).Writing? && InSection(At(s, p))
    ensures Ordered(Proceed(s, p), p)
  {
    var pc := At(s, p);
    if |s.contents| <= CAPACITY {
      var after := pc.done + Min(|pc.data| - pc.done, CAPACITY - |s.contents|);
      var bytes := pc.data[pc.done..after];
      ByTagged(s.written, p, bytes, p);
      assert pc.data[..after] == pc.data[..pc.done] + bytes;
      Bytes.Associates(Past(s.pastWrites, p), pc.data[..pc.done], bytes);
    }
  }

  lemma WriteKeepsOrdered(s: System, p: Pid, q: Pid)
    requires Ordered(s, p) && Ordered(s, q) && At(s, p).Writing? && InSection(At(s, p))
    ensures Ordered(Proceed(s, p), q)
  {
    var pc := At(s, p);
    if p == q {
      WriteKeepsOwnOrder(s, p);
    } else if |s.contents| <= CAPACITY {
      var after := pc.done + Min(|pc.data| - pc.done, CAPACITY - |s.contents|);
      ByTagged(s.written, p, pc.data[pc.done..after], q);
    }
  }

  lemma ReadKeepsConserved(s: System, p: Pid)
    requires Conserved(s) && Ordered(s, p) && At(s, p).Reading? && InSection(At(s, p))
    ensures Conserved(Proceed(s, p))
  {
    var n := Min(At(s, p).size - |At(s, p).got|, |s.contents|);
    var bytes := s.contents[..n];
    assert BytesOf(s.read + Tag(p, bytes)) == BytesOf(s.read) + bytes;
    assert BytesOf(s.read) + s.contents == (BytesOf(s.read) + bytes) + s.contents[n..];
  }

  lemma ReadKeepsOwnOrder(s: System, p: Pid)
    requires Ordered(s, p) && At(s, p).Reading? && InSection(At(s, p))
    ensures Ordered(Proceed(s, p), p)
  {
    var bytes := s.contents[..Min(At(s, p).size - |At(s, p).got|, |s.contents|)];
    ByTagged(s.read, p, bytes, p);
    Bytes.Associates(Past(s.pastReads, p), At(s, p).got, bytes);
  }

  lemma ReadKeepsOrdered(s: System, p: Pid, q: Pid)
    requires Ordered(s, p) && Ordered(s, q) && At(s, p).Reading? && InSection(At(s, p))
    ensures Ordered(Proceed(s, p), q)
  {
    if p == q {
      ReadKeepsOwnOrder(s, p);
    } else {
      ByTagged(s.read, p, s.contents[..Min(At(s, p).size - |At(s, p).got|, |s.contents|)], q);
    }
  }

  lemma ReturnKeeps(s: System, p: Pid, q: Pid)
    requires Conserved(s) && Ordered(s, q) && Ordered(s, p)
    ensures Conserved(Return(s, p)) && Ordered(Return(s, p), q)
  {
  }

  lemma MovePointKeeps(s: System, p: Pid, pc: Pc, q: Pid)
    requires Conserved(s) && Ordered(s, q)
    requires match At(s, p)
             case Idle => (pc.Writing? ==> pc.done == 0) && (pc.Reading? ==> pc.got == [])
             case Writing(data, done, _) => pc.Writing? && pc.data == data && pc.done == done
             case Reading(size, got, _) => pc.Reading? && pc.size == size && pc.got == got
    ensures Conserved(s.(pc := s.pc[p := pc])) && Ordered(s.(pc := s.pc[p := pc]), q)
  {
  }

  lemma QuietKeeps(s: System, a: Step, q: Pid)
    requires Conserved(s) && Ordered(s, q) && Ordered(s, a.p)
    requires a.Go? ==> !InSection(At(s, a.p))
    ensures Conserved(Apply(s, a)) && Ordered(Apply(s, a), q)
  {
    ReturnKeeps(s, a.p, q);
    match a
    case CallWrite(p, data) => if At(s, p) == Idle { MovePointKeeps(s, p, Writing(data, 0, AtWait), q); }
    case CallRead(p, size) => if At(s, p) == Idle { MovePointKeeps(s, p, Reading(size, [], AtWait), q); }
    case Close(p) =>
    case Go(p) =>
      match At(s, p)
      case Idle =>
      case Writing(data, done, at) => MovePointKeeps(s, p, Writing(data, done, if at == AtWait then AtSection else AtWait), q);
      case Reading(size, got, at) => MovePointKeeps(s, p, Reading(size, got, if at == AtWait then AtSection else AtWait), q);
  }

  lemma StepKeeps(s: System, a: Step, q: Pid)
    requires Conserved(s) && Ordered(s, q) && Ordered(s, a.p)
    ensures Conserved(Apply(s, a)) && Ordered(Apply(s, a), q)
  {
    if a.Go? && InSection(At(s, a.p)) {
      if At(s, a.p).Writing? {
        WriteKeepsConserved(s, a.p);
        WriteKeepsOrdered(s, a.p, q);
      } else {
        ReadKeepsConserved(s, a.p);
        ReadKeepsOrdered(s, a.p, q);
      }
    } else {
      QuietKeeps(s, a, q);
    }
  }

  /** The pipe is a byte stream in every interleaving of many readers and writers: what was written
      is what was read followed by what is in the ring, and nobody's bytes are lost, repeated or
      reordered. */
  lemma {:induction false} EveryRunConserves(steps: seq<Step>)
    ensures Conserved(Exec(steps)) && forall p: Pid :: Ordered(Exec(steps), p)
  {
    if steps == [] {
      assert BytesOf(Start.written) == BytesOf(Start.read) + Start.contents;
    } else {
      var s, a := Exec(steps[..|steps| - 1]), steps[|steps| - 1];
      EveryRunConserves(steps[..|steps| - 1]);
      forall p: Pid
        ensures Conserved(Apply(s, a)) && Ordered(Apply(s, a), p)
      {
        StepKeeps(s, a, p);
      }
      StepKeeps(s, a, a.p);
    }
  }
}
