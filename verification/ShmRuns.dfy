/**
 Runs of `SHMVector` under any number of threads, and the invariant every step keeps: at most one
 thread in a critical section, no slot used outside its lifetime, and a memory that represents
 the result of the logged sequence of whole operations.
 */
module ShmRuns {
  import opened Wrappers
  import opened ShmSpec
  import opened ShmVector
  import opened ShmThreads

  /** Where a thread is: between operations, at the unlocked test of `reserve`, spinning, inside. */
  datatype Pc<T> =
    | Resting
    | Peeking(count: nat)
    | Spinning(op: Op<T>)
    | Holding(stage: Stage<T>)

  /** A whole operation of a thread and its result. */
  datatype Entry<T> = Entry(thread: nat, op: Op<T>, res: Res<T>)

  /**
   The system. `owner` is the thread inside, `log` the operations in the order they take effect,
   `returned` those that have returned; none of the three is read by a step.
   */
  datatype Sys<T> = Sys(
    mem: Mem<T>,
    locked: bool,
    threads: map<nat, Pc<T>>,
    fault: bool,
    owner: Option<nat>,
    log: seq<Entry<T>>,
    returned: seq<Entry<T>>)

  /** A thread takes a step; one between operations starts `op`. */
  datatype Event<T> = Event(thread: nat, op: Op<T>)

  function PcOf<T>(s: Sys<T>, t: nat): Pc<T>
  {
    if t in s.threads then s.threads[t] else Resting
  }

  function Empty<T>(segment: nat, total: nat): Vec<T>
  {
    Vec(segment, total, 0, [])
  }

  function Initial<T>(segment: nat, total: nat): Sys<T>
    requires segment > 0
  {
    Sys(Mem(segment, total, 0, 0, Layout([], total / segment)), false, map[], false, None, [], [])
  }

  /** The result with which a move ends its operation. */
  function ResultOf<T>(stage: Stage<T>, mv: Move<T>): Res<T>
  {
    if stage.Leave? then stage.res else if mv.effect.Some? then mv.effect.value else Done
  }

  function StepInside<T>(s: Sys<T>, t: nat, stage: Stage<T>): Sys<T>
  {
    var mv := Advance(s.mem, stage);
    var op := OpOf(stage);
    s.(mem := mv.mem,
       locked := s.locked && !stage.Leave?,
       threads := s.threads[t := if mv.stage.Some? then Holding(mv.stage.value) else Resting],
       fault := s.fault || mv.fault,
       owner := if mv.stage.Some? then s.owner else None,
       log := if mv.effect.Some? then s.log + [Entry(t, op, mv.effect.value)] else s.log,
       returned := if mv.stage.None? then s.returned + [Entry(t, op, ResultOf(stage, mv))] else s.returned)
  }

  function Step<T>(s: Sys<T>, e: Event<T>): Sys<T>
  {
    var t := e.thread;
    match PcOf(s, t)
    case Resting =>
      s.(threads := s.threads[t := if e.op.Reserve? then Peeking(e.op.count) else Spinning(e.op)])
    case Peeking(n) =>
      if n <= s.mem.capacity then
        var entry := Entry(t, Reserve(n), Done);
        s.(threads := s.threads[t := Resting], log := s.log + [entry], returned := s.returned + [entry])
      else s.(threads := s.threads[t := Spinning(Reserve(n))])
    case Spinning(op) =>
      if s.locked then s
      else s.(locked := true, owner := Some(t), threads := s.threads[t := Holding(Enter(op))])
    case Holding(stage) => StepInside(s, t, stage)
  }

  function Run<T>(s: Sys<T>, events: seq<Event<T>>): Sys<T>
    decreases |events|
  {
    if events == [] then s else Run(Step(s, events[0]), events[1..])
  }

  // ---------------------------------------------------------------- the log as a sequential run

  function Ops<T>(log: seq<Entry<T>>): (ops: seq<Op<T>>)
    ensures |ops| == |log|
  {
    seq(|log|, i requires 0 <= i < |log| => log[i].op)
  }

  /** Run one after the other from `v`, the logged operations have the logged results. */
  predicate Legal<T(==)>(v: Vec<T>, log: seq<Entry<T>>)
    decreases |log|
  {
    log == [] || (log[0].res == Apply(v, log[0].op).1 && Legal(Apply(v, log[0].op).0, log[1..]))
  }

  lemma {:induction false} LogMore<T>(v: Vec<T>, log: seq<Entry<T>>, e: Entry<T>)
    requires Legal(v, log) && e.res == Apply(Replay(v, Ops(log)), e.op).1
    ensures Legal(v, log + [e])
    ensures Replay(v, Ops(log + [e])) == Apply(Replay(v, Ops(log)), e.op).0
    decreases |log|
  {
    hide Apply;
    var more := log + [e];
    if log == [] {
      assert more[1..] == [] && Ops(more)[1..] == [];
    } else {
      assert more[1..] == log[1..] + [e];
      assert Ops(more)[1..] == Ops(log[1..] + [e]) && Ops(log)[1..] == Ops(log[1..]);
      LogMore(Apply(v, log[0].op).0, log[1..], e);
    }
  }

  // ---------------------------------------------------------------- the invariant

  function StageOf<T>(s: Sys<T>): Option<Stage<T>>
  {
    if s.owner.Some? && PcOf(s, s.owner.value).Holding? then Some(PcOf(s, s.owner.value).stage) else None
  }

  /** The operation a thread inside has performed but not yet returned from. */
  function PendingOf<T>(t: nat, stage: Option<Stage<T>>): Option<Entry<T>>
  {
    match stage
    case Some(Spot(x)) => Some(Entry(t, Push(x), Done))
    case Some(Place(x, k)) => Some(Entry(t, Push(x), Done))
    case Some(Tally(op, k, res)) => if op.Push? then Some(Entry(t, op, res)) else None
    case Some(Store(op, k, n, res)) => if op.Push? then Some(Entry(t, op, res)) else None
    case Some(Leave(op, res)) => Some(Entry(t, op, res))
    case _ => None
  }

  function Pending<T>(s: Sys<T>): Option<Entry<T>>
  {
    if s.owner.Some? then PendingOf(s.owner.value, StageOf(s)) else None
  }

  ghost function Bag<T>(o: Option<T>): multiset<T>
  {
    if o.Some? then multiset{o.value} else multiset{}
  }

  predicate PcFits<T>(segment: nat, pc: Pc<T>)
  {
    match pc
    case Resting => true
    case Peeking(n) => n * segment < SIZE_RANGE
    case Spinning(op) => OpFits(segment, op)
    case Holding(stage) => OpFits(segment, OpOf(stage))
  }

  /** An erase out of range has taken effect. */
  ghost predicate EraseFailed<T>(log: seq<Entry<T>>)
  {
    exists i :: 0 <= i < |log| && log[i].op.Erase? && log[i].res == OutOfRange
  }

  ghost predicate Exclusive<T>(s: Sys<T>)
  {
    && (forall t: nat :: PcOf(s, t).Holding? <==> s.owner == Some(t))
    && (s.owner.Some? ==> s.locked)
    && (s.locked && s.owner.None? <==> EraseFailed(s.log))
  }

  ghost predicate Sequential<T>(s: Sys<T>, v0: Vec<T>)
  {
    && Legal(v0, s.log)
    && Represents(s.mem, StageOf(s), Replay(v0, Ops(s.log)))
    && multiset(s.log) == multiset(s.returned) + Bag(Pending(s))
  }

  ghost predicate Invariant<T>(s: Sys<T>, v0: Vec<T>)
  {
    !s.fault && Exclusive(s) && AllFit(s) && Sequential(s, v0)
  }

  lemma InitiallySound<T>(segment: nat, total: nat)
    requires 0 < segment < SIZE_RANGE && total <= PTRDIFF_MAX
    ensures Invariant(Initial(segment, total), Empty<T>(segment, total))
  {
    var s := Initial<T>(segment, total);
    assert Ops(s.log) == [];
  }

  lemma EraseFailedMore<T>(log: seq<Entry<T>>, e: Entry<T>)
    ensures EraseFailed(log + [e]) <==> EraseFailed(log) || (e.op.Erase? && e.res == OutOfRange)
  {
    var more := log + [e];
    if EraseFailed(log) {
      var i :| 0 <= i < |log| && log[i].op.Erase? && log[i].res == OutOfRange;
      assert more[i] == log[i];
    }
    if e.op.Erase? && e.res == OutOfRange {
      assert more[|log|] == e;
    }
    if EraseFailed(more) {
      var i :| 0 <= i < |more| && more[i].op.Erase? && more[i].res == OutOfRange;
      assert i < |log| ==> more[i] == log[i];
    }
  }

  ghost predicate AllFit<T>(s: Sys<T>)
  {
    forall t: nat :: PcFits(s.mem.segment, PcOf(s, t))
  }

  /** A thread moves without entering or leaving the critical section. */
  lemma OtherThread<T>(s: Sys<T>, t: nat, pc: Pc<T>)
    requires Exclusive(s) && AllFit(s) && !PcOf(s, t).Holding? && !pc.Holding? && PcFits(s.mem.segment, pc)
    ensures var s' := s.(threads := s.threads[t := pc]);
            Exclusive(s') && AllFit(s') && StageOf(s') == StageOf(s) && Pending(s') == Pending(s)
  {
    var s' := s.(threads := s.threads[t := pc]);
    assert forall u: nat :: PcOf(s', u) == if u == t then pc else PcOf(s, u);
  }

  lemma PeekKeeps<T>(s: Sys<T>, t: nat, v0: Vec<T>)
    requires Invariant(s, v0) && PcOf(s, t).Peeking? && PcOf(s, t).count <= s.mem.capacity
    ensures Invariant(Step(s, Event(t, Size)), v0)
  {
    hide Represents;
    hide Apply;
    hide Legal;
    hide Replay;
    var n := PcOf(s, t).count;
    var entry := Entry(t, Reserve(n), Done);
    PeekIsLegal(s.mem, StageOf(s), Replay(v0, Ops(s.log)), n);
    LogMore(v0, s.log, entry);
    EraseFailedMore(s.log, entry);
    OtherThread(s, t, Resting);
    var s1 := s.(threads := s.threads[t := Resting]);
    var s' := Step(s, Event(t, Size));
    assert s' == s1.(log := s.log + [entry], returned := s.returned + [entry]);
    assert forall u: nat :: PcOf(s', u) == PcOf(s1, u);
    assert StageOf(s') == StageOf(s1) && Pending(s') == Pending(s1);
  }

  lemma AcquireKeeps<T>(s: Sys<T>, t: nat, v0: Vec<T>)
    requires Invariant(s, v0) && PcOf(s, t).Spinning? && !s.locked
    ensures Invariant(Step(s, Event(t, Size)), v0)
  {
    hide Represents;
    hide Legal;
    hide Replay;
    var op := PcOf(s, t).op;
    var s' := Step(s, Event(t, Size));
    assert s.owner.None? && StageOf(s) == None;
    assert forall u: nat :: PcOf(s', u) == if u == t then Holding(Enter(op)) else PcOf(s, u);
    EnterIsMatch(s.mem, op, Replay(v0, Ops(s.log)));
    assert Pending(s') == None == Pending(s);
  }

  /** A step outside the critical section. */
  lemma OutsideKeeps<T>(s: Sys<T>, e: Event<T>, v0: Vec<T>)
    requires Invariant(s, v0) && !PcOf(s, e.thread).Holding? && OpFits(s.mem.segment, e.op)
    ensures Invariant(Step(s, e), v0)
  {
    hide Sequential;
    var t := e.thread;
    match PcOf(s, t)
    case Resting =>
      var pc := if e.op.Reserve? then Peeking(e.op.count) else Spinning(e.op);
      OtherThread(s, t, pc);
      SameHistory(s, s.(threads := s.threads[t := pc]), v0);
    case Peeking(n) =>
      if n <= s.mem.capacity {
        PeekKeeps(s, t, v0);
      } else {
        OtherThread(s, t, Spinning(Reserve(n)));
        SameHistory(s, s.(threads := s.threads[t := Spinning(Reserve(n))]), v0);
      }
    case Spinning(op) =>
      if !s.locked {
        AcquireKeeps(s, t, v0);
      }
  }

  lemma SameHistory<T>(s: Sys<T>, s': Sys<T>, v0: Vec<T>)
    requires Sequential(s, v0) && s'.log == s.log && s'.returned == s.returned && s'.mem == s.mem
    requires StageOf(s') == StageOf(s) && Pending(s') == Pending(s)
    ensures Sequential(s', v0)
  {
  }

  /** The unlocked early return of `reserve` is a whole `reserve`, whoever is inside. */
  lemma PeekIsLegal<T>(m: Mem<T>, stage: Option<Stage<T>>, v: Vec<T>, n: nat)
    requires Represents(m, stage, v) && n <= m.capacity
    ensures Apply(v, Reserve(n)) == (v, Done)
  {
  }

  lemma EnterIsMatch<T>(m: Mem<T>, op: Op<T>, v: Vec<T>)
    requires Represents(m, None, v)
    ensures Represents(m, Some(Enter(op)), v)
  {
  }

  /** A move keeps its operation and its segment size, and ends by clearing the flag or in a failed erase. */
  lemma MoveShape<T>(m: Mem<T>, stage: Stage<T>)
    requires !Advance(m, stage).fault
    ensures var mv := Advance(m, stage);
            && mv.mem.segment == m.segment && mv.mem.total == m.total
            && (mv.stage.Some? ==> OpOf(mv.stage.value) == OpOf(stage) && !stage.Leave?)
            && (mv.stage.None? && !stage.Leave? <==>
                  mv.effect == Some(OutOfRange) && stage.Enter? && stage.op.Erase?)
  {
  }

  function EffectOf<T>(t: nat, op: Op<T>, mv: Move<T>): Option<Entry<T>>
  {
    if mv.effect.Some? then Some(Entry(t, op, mv.effect.value)) else None
  }

  function EndOf<T>(t: nat, stage: Stage<T>, mv: Move<T>): Option<Entry<T>>
  {
    if mv.stage.None? then Some(Entry(t, OpOf(stage), ResultOf(stage, mv))) else None
  }

  /** `a` and `b` hold, between them, at most one value, and the same as `c` and `d`. */
  predicate Passed<T(==)>(a: Option<T>, b: Option<T>, c: Option<T>, d: Option<T>)
  {
    && (a.None? || b.None?) && (c.None? || d.None?)
    && (if a.Some? then a else b) == (if c.Some? then c else d)
  }

  lemma PassedOn<T>(log: multiset<T>, returned: multiset<T>, a: Option<T>, b: Option<T>, c: Option<T>, d: Option<T>)
    requires Passed(a, b, c, d) && log == returned + Bag(a)
    ensures log + Bag(b) == returned + Bag(d) + Bag(c)
  {
  }

  /** What takes effect, or is pending before, is pending after or returned. */
  lemma PendingMoves<T>(m: Mem<T>, stage: Stage<T>, t: nat, v: Vec<T>)
    requires Represents(m, Some(stage), v) && !Advance(m, stage).fault
    ensures var mv := Advance(m, stage);
            Passed(PendingOf(t, Some(stage)), EffectOf(t, OpOf(stage), mv), PendingOf(t, mv.stage), EndOf(t, stage, mv))
  {
    hide Layout;
    hide Shifted;
    hide Apply;
  }

  /** An effect of a failed erase is that of an erase that found its index out of range. */
  lemma FailedErase<T>(m: Mem<T>, stage: Stage<T>, v: Vec<T>)
    requires Represents(m, Some(stage), v) && !Advance(m, stage).fault
    ensures var mv := Advance(m, stage);
            OpOf(stage).Erase? && mv.effect == Some(OutOfRange) ==> mv.stage.None? && stage.Enter?
  {
  }

  lemma MultisetMore<T>(xs: seq<T>, x: T)
    ensures multiset(xs + [x]) == multiset(xs) + multiset{x}
  {
  }

  lemma HistoryMoves<T>(s: Sys<T>, t: nat, stage: Stage<T>, v: Vec<T>)
    requires Represents(s.mem, Some(stage), v) && s.owner == Some(t) && StageOf(s) == Some(stage) && !Advance(s.mem, stage).fault
    requires multiset(s.log) == multiset(s.returned) + Bag(Pending(s))
    ensures var s' := StepInside(s, t, stage);
            StageOf(s') == Advance(s.mem, stage).stage && multiset(s'.log) == multiset(s'.returned) + Bag(Pending(s'))
  {
    hide Advance;
    hide PendingOf;
    hide Represents;
    var mv, op := Advance(s.mem, stage), OpOf(stage);
    var s' := StepInside(s, t, stage);
    PendingMoves(s.mem, stage, t, v);
    assert StageOf(s') == mv.stage;
    assert Pending(s') == PendingOf(t, mv.stage) by { NothingPending<T>(t); }
    if mv.effect.Some? {
      MultisetMore(s.log, Entry(t, op, mv.effect.value));
    }
    if mv.stage.None? {
      MultisetMore(s.returned, Entry(t, op, ResultOf(stage, mv)));
    }
    PassedOn(multiset(s.log), multiset(s.returned), Pending(s), EffectOf(t, op, mv), Pending(s'), EndOf(t, stage, mv));
  }

  lemma NothingPending<T>(t: nat)
    ensures PendingOf<T>(t, None) == None
  {
  }

  lemma ExclusiveInside<T>(s: Sys<T>, t: nat, stage: Stage<T>, v: Vec<T>)
    requires Exclusive(s) && AllFit(s) && PcOf(s, t) == Holding(stage)
    requires Represents(s.mem, Some(stage), v) && !Advance(s.mem, stage).fault
    ensures Exclusive(StepInside(s, t, stage)) && AllFit(StepInside(s, t, stage))
  {
    hide Represents;
    hide Advance;
    var mv, s' := Advance(s.mem, stage), StepInside(s, t, stage);
    MoveShape(s.mem, stage);
    FailedErase(s.mem, stage, v);
    if mv.effect.Some? {
      EraseFailedMore(s.log, Entry(t, OpOf(stage), mv.effect.value));
    }
    var pc := if mv.stage.Some? then Holding(mv.stage.value) else Resting;
    assert forall u: nat :: PcOf(s', u) == if u == t then pc else PcOf(s, u);
  }

  lemma SequentialInside<T>(s: Sys<T>, t: nat, stage: Stage<T>, v0: Vec<T>)
    requires Sequential(s, v0) && s.owner == Some(t) && StageOf(s) == Some(stage)
    requires OpFits(s.mem.segment, OpOf(stage))
    ensures !Advance(s.mem, stage).fault && Sequential(StepInside(s, t, stage), v0)
  {
    hide Advance;
    hide Legal;
    hide Replay;
    hide Apply;
    hide Matches;
    var v := Replay(v0, Ops(s.log));
    HolderRefines(s.mem, stage, v);
    HistoryMoves(s, t, stage, v);
    var mv := Advance(s.mem, stage);
    if mv.effect.Some? {
      LogMore(v0, s.log, Entry(t, OpOf(stage), mv.effect.value));
    }
  }

  /** A step of the lock holder. */
  lemma InsideKeeps<T>(s: Sys<T>, t: nat, stage: Stage<T>, v0: Vec<T>)
    requires Invariant(s, v0) && PcOf(s, t) == Holding(stage)
    ensures Invariant(StepInside(s, t, stage), v0)
  {
    hide Advance;
    hide Represents;
    assert PcFits(s.mem.segment, PcOf(s, t));
    SequentialInside(s, t, stage, v0);
    ExclusiveInside(s, t, stage, Replay(v0, Ops(s.log)));
  }

  /** Every step of every thread keeps the invariant. */
  lemma StepKeeps<T>(s: Sys<T>, e: Event<T>, v0: Vec<T>)
    requires Invariant(s, v0) && OpFits(s.mem.segment, e.op)
    ensures Invariant(Step(s, e), v0)
    ensures Step(s, e).mem.segment == s.mem.segment && Step(s, e).mem.total == s.mem.total
  {
    hide Invariant;
    if PcOf(s, e.thread).Holding? {
      assert !Advance(s.mem, PcOf(s, e.thread).stage).fault by { NoFault(s, e.thread, v0); }
      InsideKeeps(s, e.thread, PcOf(s, e.thread).stage, v0);
      MoveShape(s.mem, PcOf(s, e.thread).stage);
    } else {
      OutsideKeeps(s, e, v0);
    }
  }

  lemma NoFault<T>(s: Sys<T>, t: nat, v0: Vec<T>)
    requires Invariant(s, v0) && PcOf(s, t).Holding?
    ensures !Advance(s.mem, PcOf(s, t).stage).fault
  {
    assert PcFits(s.mem.segment, PcOf(s, t));
    SequentialInside(s, t, PcOf(s, t).stage, v0);
  }

  /** Every run of any threads keeps the invariant. */
  lemma {:induction false} RunKeeps<T>(s: Sys<T>, events: seq<Event<T>>, v0: Vec<T>)
    requires Invariant(s, v0) && forall i :: 0 <= i < |events| ==> OpFits(s.mem.segment, events[i].op)
    ensures Invariant(Run(s, events), v0)
    decreases |events|
  {
    hide Invariant;
    hide Step;
    if events != [] {
      StepKeeps(s, events[0], v0);
      RunKeeps(Step(s, events[0]), events[1..], v0);
    }
  }
}
