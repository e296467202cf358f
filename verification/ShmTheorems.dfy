/**
 What holds of `SHMVector` in every run of any number of threads, from its construction on, as
 long as no `reserve` asks for a product beyond `size_t`.
 */
module ShmTheorems {
  import opened Wrappers
  import opened ShmSpec
  import opened ShmVector
  import opened ShmThreads
  import opened ShmRuns

  predicate Sizes(segment: nat, total: nat)
  {
    0 < segment < SIZE_RANGE && total <= PTRDIFF_MAX
  }

  predicate AllOpsFit<T>(segment: nat, events: seq<Event<T>>)
  {
    forall i :: 0 <= i < |events| ==> OpFits(segment, events[i].op)
  }

  lemma ReachableIsSound<T>(segment: nat, total: nat, events: seq<Event<T>>)
    requires Sizes(segment, total) && AllOpsFit(segment, events)
    ensures Invariant(Run(Initial(segment, total), events), Empty(segment, total))
  {
    InitiallySound<T>(segment, total);
    RunKeeps(Initial(segment, total), events, Empty(segment, total));
  }

  /** At most one thread is in a critical section, and no slot is used outside its lifetime. */
  lemma MutualExclusion<T>(segment: nat, total: nat, events: seq<Event<T>>, t: nat, u: nat)
    requires Sizes(segment, total) && AllOpsFit(segment, events)
    ensures var s := Run(Initial(segment, total), events);
            !s.fault && (PcOf(s, t).Holding? && PcOf(s, u).Holding? ==> t == u && s.locked)
  {
    ReachableIsSound(segment, total, events);
  }

  /**
   Every run is equivalent to a sequential one: the logged operations, run one at a time, have the
   logged results; what has returned is in the log; and while the lock is free, everything logged
   has returned and the live slots hold the sequential result.
   */
  lemma Linearizable<T>(segment: nat, total: nat, events: seq<Event<T>>)
    requires Sizes(segment, total) && AllOpsFit(segment, events)
    ensures var s, v0 := Run(Initial(segment, total), events), Empty(segment, total);
            && Legal(v0, s.log) && multiset(s.returned) <= multiset(s.log)
            && (!s.locked ==>
                  && multiset(s.returned) == multiset(s.log)
                  && LiveBelow(s.mem.slots, s.mem.size)
                  && Values(s.mem.slots, s.mem.size) == Replay(v0, Ops(s.log)).elems)
  {
    ReachableIsSound(segment, total, events);
    var s := Run(Initial(segment, total), events);
    if !s.locked {
      LayoutLive(Replay(Empty(segment, total), Ops(s.log)).elems, |s.mem.slots|);
    }
  }

  lemma {:induction false} LogGrows<T>(s: Sys<T>, events: seq<Event<T>>)
    ensures s.log <= Run(s, events).log
    decreases |events|
  {
    hide Advance;
    if events != [] {
      assert s.log <= Step(s, events[0]).log;
      LogGrows(Step(s, events[0]), events[1..]);
    }
  }

  lemma {:induction false} RunConcat<T>(s: Sys<T>, a: seq<Event<T>>, b: seq<Event<T>>)
    ensures Run(s, a + b) == Run(Run(s, a), b)
    decreases |a|
  {
    hide Step;
    if a == [] {
      assert a + b == b;
    } else {
      assert (a + b)[1..] == a[1..] + b;
      RunConcat(Step(s, a[0]), a[1..], b);
    }
  }

  /** Real time is respected: what has returned at some point is logged before all that comes later. */
  lemma RealTimeOrder<T>(segment: nat, total: nat, a: seq<Event<T>>, b: seq<Event<T>>)
    requires Sizes(segment, total) && AllOpsFit(segment, a)
    ensures var s, s' := Run(Initial(segment, total), a), Run(Initial(segment, total), a + b);
            multiset(s.returned) <= multiset(s.log) && s.log <= s'.log
  {
    var s0 := Initial<T>(segment, total);
    Linearizable(segment, total, a);
    RunConcat(s0, a, b);
    LogGrows(Run(s0, a), b);
  }

  // ---------------------------------------------------------------- first in, first out

  /** The elements of the successful pushes and pops of a log. */
  function PushesIn<T>(log: seq<Entry<T>>): seq<T>
    decreases |log|
  {
    if log == [] then []
    else (if log[0].op.Push? && log[0].res.Done? then [log[0].op.x] else []) + PushesIn(log[1..])
  }

  function PopsIn<T>(log: seq<Entry<T>>): seq<T>
    decreases |log|
  {
    if log == [] then []
    else (if log[0].op.Pop? && log[0].res.Item? then [log[0].res.value] else []) + PopsIn(log[1..])
  }

  lemma {:induction false} LegalHistory<T>(v: Vec<T>, log: seq<Entry<T>>)
    requires Legal(v, log)
    ensures PushesIn(log) == Pushed(v, Ops(log)) && PopsIn(log) == Popped(v, Ops(log))
    decreases |log|
  {
    if log != [] {
      assert Ops(log)[1..] == Ops(log[1..]);
      LegalHistory(Apply(v, log[0].op).0, log[1..]);
    }
  }

  /**
   Conservation over all interleavings: whenever the lock is free, the elements popped followed
   by the elements present are the elements pushed, in order, and the missing ones are, with
   multiplicity, those the erases removed; with no erasure they are exactly the elements pushed.
   */
  lemma FifoConservation<T>(segment: nat, total: nat, events: seq<Event<T>>)
    requires Sizes(segment, total) && AllOpsFit(segment, events)
    requires !Run(Initial(segment, total), events).locked
    ensures var s := Run(Initial(segment, total), events);
            var erased := Erased(Empty(segment, total), Ops(s.log));
            && LiveBelow(s.mem.slots, s.mem.size)
            && Subsequence(PopsIn(s.log) + Values(s.mem.slots, s.mem.size), PushesIn(s.log))
            && multiset(PushesIn(s.log))
               == multiset(PopsIn(s.log)) + multiset(Values(s.mem.slots, s.mem.size)) + multiset(erased)
            && |PopsIn(s.log)| + s.mem.size + |erased| == |PushesIn(s.log)|
            && (erased == [] ==> PushesIn(s.log) == PopsIn(s.log) + Values(s.mem.slots, s.mem.size))
  {
    hide Run;
    hide Subsequence;
    hide Popped;
    hide Pushed;
    hide Erased;
    Linearizable(segment, total, events);
    var s, v0 := Run(Initial(segment, total), events), Empty(segment, total);
    LegalHistory(v0, s.log);
    OrderIsKept(v0, Ops(s.log));
    assert v0.elems + Pushed(v0, Ops(s.log)) == Pushed(v0, Ops(s.log));
    SubsequenceShorter(PopsIn(s.log) + Values(s.mem.slots, s.mem.size), PushesIn(s.log));
  }

  // ---------------------------------------------------------------- reserve

  lemma StepGrows<T>(s: Sys<T>, e: Event<T>, v0: Vec<T>)
    requires Invariant(s, v0) && OpFits(s.mem.segment, e.op)
    ensures Step(s, e).mem.capacity >= s.mem.capacity
  {
    if PcOf(s, e.thread).Holding? {
      var stage, v := PcOf(s, e.thread).stage, Replay(v0, Ops(s.log));
      assert PcFits(s.mem.segment, PcOf(s, e.thread));
      HolderGrows(s.mem, stage, v);
    }
  }

  lemma HolderGrows<T>(m: Mem<T>, stage: Stage<T>, v: Vec<T>)
    requires Represents(m, Some(stage), v) && OpFits(v.segment, OpOf(stage))
    ensures Advance(m, stage).mem.capacity >= m.capacity
  {
    DoublingIsExact(v);
  }

  /** The capacity never decreases, however a run goes on. */
  lemma {:induction false} CapacityGrows<T>(s: Sys<T>, events: seq<Event<T>>, v0: Vec<T>)
    requires Invariant(s, v0) && AllOpsFit(s.mem.segment, events)
    ensures Run(s, events).mem.capacity >= s.mem.capacity
    decreases |events|
  {
    hide Invariant;
    hide Step;
    if events != [] {
      StepGrows(s, events[0], v0);
      StepKeeps(s, events[0], v0);
      CapacityGrows(Step(s, events[0]), events[1..], v0);
    }
  }

  /** Every `reserve` that took effect normally is covered by the capacity. */
  predicate Honoured<T>(s: Sys<T>)
  {
    forall i :: 0 <= i < |s.log| && s.log[i].op.Reserve? && s.log[i].res.Done? ==>
      s.log[i].op.count <= s.mem.capacity
  }

  lemma StepHonours<T>(s: Sys<T>, e: Event<T>, v0: Vec<T>)
    requires Invariant(s, v0) && OpFits(s.mem.segment, e.op) && Honoured(s)
    ensures Honoured(Step(s, e))
  {
    StepGrows(s, e, v0);
    var pc, s' := PcOf(s, e.thread), Step(s, e);
    if pc.Holding? {
      ReserveEffect(s.mem, pc.stage, Replay(v0, Ops(s.log)));
    }
    assert forall i :: 0 <= i < |s'.log| ==> i < |s.log| ==> s'.log[i] == s.log[i];
  }

  lemma ReserveEffect<T>(m: Mem<T>, stage: Stage<T>, v: Vec<T>)
    requires Represents(m, Some(stage), v)
    ensures var mv := Advance(m, stage);
            OpOf(stage).Reserve? && mv.effect == Some(Done) ==> OpOf(stage).count <= mv.mem.capacity
  {
  }

  lemma {:induction false} RunHonours<T>(s: Sys<T>, events: seq<Event<T>>, v0: Vec<T>)
    requires Invariant(s, v0) && AllOpsFit(s.mem.segment, events) && Honoured(s)
    ensures Honoured(Run(s, events))
    decreases |events|
  {
    hide Invariant;
    hide Step;
    hide Honoured;
    if events != [] {
      StepHonours(s, events[0], v0);
      StepKeeps(s, events[0], v0);
      RunHonours(Step(s, events[0]), events[1..], v0);
    }
  }

  /** Every logged operation has the result it has after the ones logged before it. */
  lemma {:induction false} LoggedResult<T>(v: Vec<T>, log: seq<Entry<T>>, k: nat)
    requires Legal(v, log) && k < |log|
    ensures Legal(v, log[..k])
    ensures log[k].res == Apply(Replay(v, Ops(log[..k])), log[k].op).1
    decreases k
  {
    hide Apply;
    if k == 0 {
      assert log[..0] == [] && Ops(log[..0]) == [];
    } else {
      LoggedResult(Apply(v, log[0].op).0, log[1..], k - 1);
      assert log[..k][1..] == log[1..][..k - 1] && log[..k][0] == log[0];
      assert Ops(log[..k])[1..] == Ops(log[1..][..k - 1]);
    }
  }

  lemma {:induction false} ReplayKeepsSizes<T>(v: Vec<T>, ops: seq<Op<T>>)
    ensures Replay(v, ops).segment == v.segment && Replay(v, ops).total == v.total
    decreases |ops|
  {
    if ops != [] {
      assert Apply(v, ops[0]).0.segment == v.segment && Apply(v, ops[0]).0.total == v.total;
      hide Apply;
      ReplayKeepsSizes(Apply(v, ops[0]).0, ops[1..]);
    }
  }

  /** A `reserve` is refused only when the memory does not hold that many segments. */
  lemma RefusedIsTooMuch<T>(segment: nat, total: nat, log: seq<Entry<T>>, k: nat)
    requires Legal(Empty(segment, total), log) && k < |log| && log[k].op.Reserve?
    ensures log[k].res == Done || (log[k].res == BadAlloc && log[k].op.count * segment > total)
  {
    var v := Empty(segment, total);
    LoggedResult(v, log, k);
    ReplayKeepsSizes(v, Ops(log[..k]));
    ProductAtLeast(log[k].op.count, segment);
  }

  lemma ProductAtLeast(n: nat, segment: nat)
    ensures Bytes(n, segment) <= n * segment
  {
  }

  /**
   Double-checked `reserve` is sound and complete: in every state of every run, each `reserve(n)`
   that has returned, through the unlocked early return or not, did so normally exactly if n
   segments fit the memory, and has n within the capacity from then on; and the size is within the
   capacity and the capacity within the memory at every step.
   */
  lemma ReserveIsSound<T>(segment: nat, total: nat, events: seq<Event<T>>, i: nat)
    requires Sizes(segment, total) && AllOpsFit(segment, events)
    ensures var s := Run(Initial(segment, total), events);
            && s.mem.size <= s.mem.capacity && s.mem.capacity * segment <= total
            && (i < |s.returned| && s.returned[i].op.Reserve? ==>
                  && (s.returned[i].res == if s.returned[i].op.count * segment <= total then Done else BadAlloc)
                  && (s.returned[i].res.Done? ==> s.returned[i].op.count <= s.mem.capacity))
  {
    hide Represents;
    hide Legal;
    var s0, v0 := Initial<T>(segment, total), Empty<T>(segment, total);
    ReachableIsSound(segment, total, events);
    InitiallySound<T>(segment, total);
    RunHonours(s0, events, v0);
    var s := Run(s0, events);
    SizeWithinCapacity(s.mem, StageOf(s), Replay(v0, Ops(s.log)));
    RunKeepsSizes(s0, events, v0);
    hide Run;
    if i < |s.returned| && s.returned[i].op.Reserve? {
      var k := ReturnedIsLogged(s, v0, i);
      RefusedIsTooMuch(segment, total, s.log, k);
      if s.returned[i].op.count <= s.mem.capacity {
        MulGrows(s.returned[i].op.count, s.mem.capacity, segment);
      }
    }
  }

  lemma ReturnedIsLogged<T>(s: Sys<T>, v0: Vec<T>, i: nat) returns (k: nat)
    requires Invariant(s, v0) && i < |s.returned|
    ensures k < |s.log| && s.log[k] == s.returned[i]
  {
    assert s.returned[i] in multiset(s.returned);
    assert s.returned[i] in multiset(s.log);
    k :| k < |s.log| && s.log[k] == s.returned[i];
  }

  // ---------------------------------------------------------------- the answers

  /**
   What every operation answers, told from the log alone: `pushed`, `popped` and `erased` are the
   elements pushed, popped and erased before it. While nothing is erased, the element answered is
   the one pushed that many places after those popped.
   */
  predicate Answers<T(==)>(e: Entry<T>, pushed: seq<T>, popped: seq<T>, erased: seq<T>)
    requires |popped| + |erased| <= |pushed|
  {
    var n := |pushed| - |popped| - |erased|;
    match e.op
    case Push(x) => e.res == Done || e.res == BadAlloc
    case Reserve(k) => e.res == Done || e.res == BadAlloc
    case Size => e.res == Count(n)
    case Erase(i) => e.res == if i < n then Done else OutOfRange
    case Pop =>
      && (e.res == OutOfRange <==> n == 0) && (n > 0 ==> e.res.Item?)
      && (n > 0 && erased == [] ==> e.res == Item(pushed[|popped|]))
    case At(i) =>
      && (e.res == OutOfRange <==> i >= n) && (i < n ==> e.res.Item?)
      && (i < n && erased == [] ==> e.res == Item(pushed[|popped| + i]))
  }

  /** Every operation of every run answers what the operations before it call for. */
  lemma EveryAnswer<T>(segment: nat, total: nat, events: seq<Event<T>>, k: nat)
    requires Sizes(segment, total) && AllOpsFit(segment, events) && k < |Run(Initial(segment, total), events).log|
    ensures var log := Run(Initial(segment, total), events).log;
            var (pushed, popped) := (PushesIn(log[..k]), PopsIn(log[..k]));
            var erased := Erased(Empty(segment, total), Ops(log[..k]));
            |popped| + |erased| <= |pushed| && Answers(log[k], pushed, popped, erased)
  {
    hide Run;
    Linearizable(segment, total, events);
    LegalAnswer(segment, total, Run(Initial(segment, total), events).log, k);
  }

  lemma AnswerOf<T>(v: Vec<T>, e: Entry<T>, pushed: seq<T>, popped: seq<T>, erased: seq<T>)
    requires |popped| + |erased| + |v.elems| == |pushed| && e.res == Apply(v, e.op).1
    requires erased == [] ==> pushed == popped + v.elems
    ensures Answers(e, pushed, popped, erased)
  {
    assert forall i :: 0 <= i < |v.elems| ==> (popped + v.elems)[|popped| + i] == v.elems[i];
  }

  lemma LegalAnswer<T>(segment: nat, total: nat, log: seq<Entry<T>>, k: nat)
    requires Legal(Empty(segment, total), log) && k < |log|
    ensures var (pushed, popped) := (PushesIn(log[..k]), PopsIn(log[..k]));
            var erased := Erased(Empty(segment, total), Ops(log[..k]));
            |popped| + |erased| <= |pushed| && Answers(log[k], pushed, popped, erased)
  {
    hide Legal;
    hide Replay;
    hide Pushed;
    hide Popped;
    hide Erased;
    hide Subsequence;
    hide Apply;
    hide Answers;
    hide PushesIn;
    hide PopsIn;
    var v0, past := Empty<T>(segment, total), log[..k];
    LoggedResult(v0, log, k);
    LegalHistory(v0, past);
    OrderIsKept(v0, Ops(past));
    if Erased(v0, Ops(past)) == [] {
      FirstInFirstOut(v0, Ops(past));
      assert v0.elems + Pushed(v0, Ops(past)) == Pushed(v0, Ops(past));
    }
    AnswerOf(Replay(v0, Ops(past)), log[k], PushesIn(past), PopsIn(past), Erased(v0, Ops(past)));
  }

  lemma SizeWithinCapacity<T>(m: Mem<T>, stage: Option<Stage<T>>, v: Vec<T>)
    requires Represents(m, stage, v)
    ensures m.size <= m.capacity && m.capacity * m.segment <= m.total
  {
  }

  lemma {:induction false} RunKeepsSizes<T>(s: Sys<T>, events: seq<Event<T>>, v0: Vec<T>)
    requires Invariant(s, v0) && AllOpsFit(s.mem.segment, events)
    ensures Run(s, events).mem.segment == s.mem.segment && Run(s, events).mem.total == s.mem.total
    decreases |events|
  {
    hide Invariant;
    hide Step;
    if events != [] {
      StepKeeps(s, events[0], v0);
      RunKeepsSizes(Step(s, events[0]), events[1..], v0);
    }
  }

  // ---------------------------------------------------------------- the lock

  /** The flag is set and no thread is inside to clear it. */
  predicate Leaked<T>(s: Sys<T>)
  {
    s.locked && s.owner.None?
  }

  lemma LeakedStep<T>(s: Sys<T>, e: Event<T>, v0: Vec<T>)
    requires Invariant(s, v0) && Leaked(s)
    ensures var s' := Step(s, e);
            && Leaked(s') && s'.mem == s.mem
            && (s'.returned == s.returned ||
                (PcOf(s, e.thread).Peeking? && |s'.returned| == |s.returned| + 1
                 && s'.returned == s.returned + [s'.returned[|s.returned|]]
                 && s'.returned[|s.returned|].op.Reserve?))
  {
    assert !PcOf(s, e.thread).Holding?;
  }

  /** `b` is `a` followed by `reserve` calls only. */
  predicate OnlyReservesAfter<T(==)>(a: seq<Entry<T>>, b: seq<Entry<T>>)
  {
    && |a| <= |b| && b[..|a|] == a
    && forall i :: |a| <= i < |b| ==> b[i].op.Reserve?
  }

  lemma OneMoreReserve<T>(a: seq<Entry<T>>, e: Entry<T>, b: seq<Entry<T>>)
    requires e.op.Reserve? && OnlyReservesAfter(a + [e], b)
    ensures OnlyReservesAfter(a, b)
  {
    assert b[..|a|] == b[..|a| + 1][..|a|] == a;
    assert b[|a|] == b[..|a| + 1][|a|] == e;
  }

  lemma LeakIsFailedErase<T>(s: Sys<T>, v0: Vec<T>)
    requires Invariant(s, v0)
    ensures Leaked(s) <==> EraseFailed(s.log)
  {
  }

  /**
   The lock is lost exactly by an erase out of range, and then for good: no run from there on
   changes the vector, and the only calls that still return are `reserve` calls that need no lock.
   */
  lemma {:induction false} LockLeak<T>(s: Sys<T>, events: seq<Event<T>>, v0: Vec<T>)
    requires Invariant(s, v0) && AllOpsFit(s.mem.segment, events)
    ensures Leaked(s) <==> EraseFailed(s.log)
    ensures Leaked(s) ==>
              var s' := Run(s, events);
              Leaked(s') && s'.mem == s.mem && OnlyReservesAfter(s.returned, s'.returned)
    decreases |events|
  {
    hide Invariant;
    hide Step;
    hide EraseFailed;
    LeakIsFailedErase(s, v0);
    if Leaked(s) && events != [] {
      LeakedStep(s, events[0], v0);
      StepKeeps(s, events[0], v0);
      var s1 := Step(s, events[0]);
      LockLeak(s1, events[1..], v0);
      if s1.returned != s.returned {
        OneMoreReserve(s.returned, s1.returned[|s.returned|], Run(s1, events[1..]).returned);
      }
    }
  }

  /** Three steps of a thread that erases from an empty vector lose the lock. */
  lemma EraseLosesLock(segment: nat, total: nat)
    requires Sizes(segment, total)
    ensures Leaked(Run(Initial<int>(segment, total), Repeat(Event(0, Erase(0)), 3)))
  {
    var s0, e := Initial<int>(segment, total), Event(0, Erase(0));
    var s1 := Step(s0, e);
    var s2 := Step(s1, e);
    assert PcOf(s1, 0) == Spinning(Erase(0)) && PcOf(s2, 0) == Holding(Enter(Erase(0)));
    assert Leaked(Step(s2, e));
    assert Repeat(e, 3) == [e, e, e] && [e, e, e][1..] == [e, e] && [e, e][1..] == [e] && [e][1..] == [];
    assert Run(s0, [e, e, e]) == Run(s1, [e, e]) == Run(s2, [e]) == Run(Step(s2, e), []);
  }

  /** The steps the thread inside has left, at most. */
  function Work<T>(stage: Stage<T>, size: nat): nat
  {
    match stage
    case Enter(op) => 4 * size + 9
    case Fetch(op, k) => 4 * size + 7
    case Check(op, k, res) => 4 * size + 6
    case Kill(op, k, res) => 4 * size + 5
    case Loop(op, k, i, res) => if i <= size then 4 * (size - i) + 4 else 0
    case Take(op, k, i, res) => if i <= size then 4 * (size - i) + 3 else 0
    case Copy(op, k, i, x, res) => if i <= size then 4 * (size - i) + 2 else 0
    case Drop(op, k, i, res) => if i <= size then 4 * (size - i) + 1 else 0
    case Judge(x, n) => 8
    case Double(x) => 7
    case Widen(op, c) => 6
    case Spot(x) => 5
    case Place(x, k) => 4
    case Tally(op, k, res) => 3
    case Store(op, k, n, res) => 2
    case Leave(op, res) => 1
  }

  lemma HolderProgresses<T>(m: Mem<T>, stage: Stage<T>, v: Vec<T>)
    requires Represents(m, Some(stage), v)
    ensures var mv := Advance(m, stage);
            mv.stage.Some? ==> Work(mv.stage.value, mv.mem.size) < Work(stage, m.size)
  {
    hide Layout;
    hide Shifted;
    hide Apply;
    hide Doubled;
    hide Bytes;
  }

  function Repeat<T>(e: Event<T>, n: nat): (es: seq<Event<T>>)
    ensures |es| == n
  {
    seq(n, _ => e)
  }

  /**
   No operation holds the lock for ever: the thread inside, left alone, comes out in finitely many
   steps, and the lock is free then unless an erase out of range has lost it.
   */
  lemma {:induction false} HolderComesOut<T>(s: Sys<T>, t: nat, v0: Vec<T>) returns (n: nat)
    requires Invariant(s, v0) && s.owner == Some(t)
    ensures var s' := Run(s, Repeat(Event(t, Size), n));
            s'.owner.None? && (s'.locked <==> EraseFailed(s'.log))
    decreases if StageOf(s).Some? then Work(StageOf(s).value, s.mem.size) else 0
  {
    hide Advance;
    hide Sequential;
    var e := Event(t, Size);
    var stage, s1 := PcOf(s, t).stage, Step(s, e);
    StepKeeps(s, e, v0);
    InsideProgress(s, t, v0);
    if s1.owner.None? {
      n := 1;
      assert Repeat(e, 1)[1..] == [];
    } else {
      var rest := HolderComesOut(s1, t, v0);
      n := rest + 1;
      assert Repeat(e, n)[1..] == Repeat(e, rest);
    }
  }

  lemma InsideProgress<T>(s: Sys<T>, t: nat, v0: Vec<T>)
    requires Invariant(s, v0) && s.owner == Some(t)
    ensures StageOf(s).Some?
    ensures var s1 := Step(s, Event(t, Size));
            && (s1.owner.Some? ==> s1.owner == Some(t) && StageOf(s1).Some?)
            && (s1.owner.Some? ==> Work(StageOf(s1).value, s1.mem.size) < Work(StageOf(s).value, s.mem.size))
  {
    assert PcOf(s, t).Holding? && PcFits(s.mem.segment, PcOf(s, t));
    HolderProgresses(s.mem, PcOf(s, t).stage, Replay(v0, Ops(s.log)));
  }
}
