/**
 `SHMVector` under any number of threads. Every step of a thread touches at most one shared
 field or slot, once; local tests go with the read before them. A run is any sequence of steps of any
 threads. The lock is an atomic test-and-set flag.
 */
module ShmThreads {
  import opened Wrappers
  import opened ShmSpec
  import opened ShmVector

  /** The fields of the vector that threads share, without the lock. */
  datatype Mem<T> = Mem(segment: nat, total: nat, capacity: nat, size: nat, slots: seq<Slot<T>>)

  /** Where a thread that holds the lock is in its operation. */
  datatype Stage<T> =
    | Enter(op: Op<T>)                                    // read the first field the operation tests
    | Judge(x: T, n: nat)                                 // push_back: read capacity_, size_ was n
    | Double(x: T)                                        // push_back: read capacity_ to double it
    | Widen(op: Op<T>, c: nat)                            // capacity_ = c
    | Spot(x: T)                                          // push_back: read size_ for the position
    | Place(x: T, k: nat)                                 // push_back: construct slot k
    | Fetch(op: Op<T>, k: nat)                            // read slot k
    | Check(op: Op<T>, k: nat, res: Res<T>)               // getNextElement: read size_ for the index test
    | Kill(op: Op<T>, k: nat, res: Res<T>)                // erase: destroy slot k
    | Loop(op: Op<T>, k: nat, i: nat, res: Res<T>)        // erase: read size_ for the loop test
    | Take(op: Op<T>, k: nat, i: nat, res: Res<T>)        // erase: read slot i + 1
    | Copy(op: Op<T>, k: nat, i: nat, x: T, res: Res<T>)  // erase: construct slot i
    | Drop(op: Op<T>, k: nat, i: nat, res: Res<T>)        // erase: destroy slot i + 1
    | Tally(op: Op<T>, k: nat, res: Res<T>)               // read size_ to count up or down
    | Store(op: Op<T>, k: nat, n: nat, res: Res<T>)       // size_ = n
    | Leave(op: Op<T>, res: Res<T>)                       // clear the flag and return

  /** What one step of the lock holder does. An effect is the result the operation will have. */
  datatype Move<T> = Move(mem: Mem<T>, stage: Option<Stage<T>>, effect: Option<Res<T>>, fault: bool)

  function OpOf<T>(stage: Stage<T>): Op<T>
  {
    match stage
    case Judge(x, n) => Push(x)
    case Double(x) => Push(x)
    case Spot(x) => Push(x)
    case Place(x, k) => Push(x)
    case _ => stage.op
  }

  predicate LiveAt<T>(m: Mem<T>, k: nat)
  {
    k < |m.slots| && m.slots[k].Live?
  }

  predicate DeadAt<T>(m: Mem<T>, k: nat)
  {
    k < |m.slots| && m.slots[k].Dead?
  }

  function Next<T>(m: Mem<T>, stage: Stage<T>): Move<T>
  {
    Move(m, Some(stage), None, false)
  }

  /** The step with which the operation takes effect. */
  function Effect<T>(m: Mem<T>, stage: Stage<T>, res: Res<T>): Move<T>
  {
    Move(m, Some(stage), Some(res), false)
  }

  /** A step outside the lifetime of a slot, or a test that can only fail in a broken vector. */
  function Fault<T>(m: Mem<T>): Move<T>
  {
    Move(m, None, None, true)
  }

  /** The first test of an operation, once the lock is held. */
  function EnterMove<T>(m: Mem<T>, op: Op<T>): Move<T>
  {
    match op
    case Push(x) => Next(m, Judge(x, m.size))
    case Pop => if m.size == 0 then Effect(m, Leave(op, OutOfRange), OutOfRange) else Next(m, Fetch(op, 0))
    case Erase(i) => if i >= m.size then Move(m, None, Some(OutOfRange), false) else Next(m, Kill(op, i, Done))
    case Reserve(n) =>
      if n <= m.capacity then Effect(m, Leave(op, Done), Done)
      else if Bytes(n, m.segment) > m.total then Effect(m, Leave(op, BadAlloc), BadAlloc)
      else Next(m, Widen(op, n))
    case At(i) => if i >= m.size then Effect(m, Leave(op, OutOfRange), OutOfRange) else Next(m, Fetch(op, i))
    case Size => Effect(m, Leave(op, Count(m.size)), Count(m.size))
  }

  /** The steps that make room and add an element. */
  function GrowMove<T>(m: Mem<T>, stage: Stage<T>): Move<T>
    requires stage.Judge? || stage.Double? || stage.Widen? || stage.Spot? || stage.Place?
  {
    match stage
    case Judge(x, n) => if n < m.capacity then Effect(m, Spot(x), Done) else Next(m, Double(x))
    case Double(x) =>
      if Bytes(Doubled(m.capacity), m.segment) > m.total then Effect(m, Leave(Push(x), BadAlloc), BadAlloc)
      else Next(m, Widen(Push(x), Doubled(m.capacity)))
    case Widen(op, c) =>
      Effect(m.(capacity := c), if op.Push? then Spot(op.x) else Leave(op, Done), Done)
    case Spot(x) => Next(m, Place(x, m.size))
    case Place(x, k) =>
      if !DeadAt(m, k) then Fault(m) else Next(m.(slots := m.slots[k := Live(x)]), Tally(Push(x), k, Done))
  }

  /** The steps of the loop that closes the gap of an erased element. */
  function ShiftMove<T>(m: Mem<T>, stage: Stage<T>): Move<T>
    requires stage.Kill? || stage.Loop? || stage.Take? || stage.Copy? || stage.Drop?
  {
    match stage
    case Kill(op, k, res) =>
      if !LiveAt(m, k) then Fault(m) else Next(m.(slots := m.slots[k := Dead]), Loop(op, k, k, res))
    case Loop(op, k, i, res) => Next(m, if i + 1 < m.size then Take(op, k, i, res) else Tally(op, k, res))
    case Take(op, k, i, res) =>
      if !LiveAt(m, i + 1) then Fault(m) else Next(m, Copy(op, k, i, m.slots[i + 1].value, res))
    case Copy(op, k, i, x, res) =>
      if !DeadAt(m, i) then Fault(m) else Next(m.(slots := m.slots[i := Live(x)]), Drop(op, k, i, res))
    case Drop(op, k, i, res) =>
      if !LiveAt(m, i + 1) then Fault(m) else Next(m.(slots := m.slots[i + 1 := Dead]), Loop(op, k, i + 1, res))
  }

  /** One step of the lock holder. Constructing over a live slot or using a dead one is a fault. */
  function Advance<T>(m: Mem<T>, stage: Stage<T>): Move<T>
  {
    match stage
    case Enter(op) => EnterMove(m, op)
    case Fetch(op, k) =>
      if !LiveAt(m, k) then Fault(m)
      else
        var res := Item(m.slots[k].value);
        if op.Pop? then Next(m, Check(op, k, res)) else Effect(m, Leave(op, res), res)
    case Check(op, k, res) => if k >= m.size then Fault(m) else Next(m, Kill(op, k, res))
    case Tally(op, k, res) =>
      if op.Push? then Next(m, Store(op, k, m.size + 1, res))
      else if m.size == 0 then Fault(m) else Next(m, Store(op, k, m.size - 1, res))
    case Store(op, k, n, res) =>
      Move(m.(size := n), Some(Leave(op, res)), if op.Push? then None else Some(res), false)
    case Leave(op, res) => Move(m, None, None, false)
    case Kill(_, _, _) => ShiftMove(m, stage)
    case Loop(_, _, _, _) => ShiftMove(m, stage)
    case Take(_, _, _, _) => ShiftMove(m, stage)
    case Copy(_, _, _, _, _) => ShiftMove(m, stage)
    case Drop(_, _, _, _) => ShiftMove(m, stage)
    case _ => GrowMove(m, stage)
  }

  // ---------------------------------------------------------------- memory and abstract vector

  /** The slots that hold exactly `xs`. */
  function Layout<T>(xs: seq<T>, n: nat): (s: seq<Slot<T>>)
    requires |xs| <= n
    ensures |s| == n
  {
    seq(n, i requires 0 <= i < n => if i < |xs| then Live(xs[i]) else Dead)
  }

  lemma LayoutMore<T>(xs: seq<T>, x: T, n: nat)
    requires |xs| < n
    ensures Layout(xs, n)[|xs|].Dead?
    ensures Layout(xs, n)[|xs| := Live(x)] == Layout(xs + [x], n)
  {
  }

  lemma LayoutLive<T>(xs: seq<T>, n: nat)
    requires |xs| <= n
    ensures LiveBelow(Layout(xs, n), |xs|) && Values(Layout(xs, n), |xs|) == xs
    ensures forall i :: 0 <= i < |xs| ==> Layout(xs, n)[i] == Live(xs[i])
  {
  }

  lemma LayoutWithout<T>(xs: seq<T>, k: nat, n: nat)
    requires k < |xs| <= n
    ensures Shifted(Layout(xs, n), k, |xs| - 1) == Layout(Without(xs, k), n)
  {
  }

  /** The result an erasing operation has announced. */
  predicate Announced<T(==)>(v: Vec<T>, op: Op<T>, k: nat, res: Res<T>)
  {
    && k < |v.elems|
    && ((op == Pop && k == 0 && res == Item(v.elems[0])) || (op == Erase(k) && res == Done))
  }

  /** An operation that adds or has added `x` at the end. */
  predicate Added<T(==)>(m: Mem<T>, v: Vec<T>, x: T)
  {
    v.elems != [] && m.size == |v.elems| - 1 && v.elems[m.size] == x
  }

  /** How the memory stands to the vector `v` that the operations so far have produced. */
  predicate Matches<T(==)>(m: Mem<T>, stage: Option<Stage<T>>, v: Vec<T>)
    requires |v.elems| <= |m.slots|
  {
    var n := |m.slots|;
    var lay := Layout(v.elems, n);
    match stage
    case Some(Judge(x, k)) => m.size == |v.elems| == k && m.slots == lay
    case Some(Double(x)) => m.size == |v.elems| >= m.capacity && m.slots == lay
    case Some(Widen(op, c)) =>
      && m.size == |v.elems| && m.slots == lay
      && match op {
           case Push(x) => m.size >= m.capacity && c == Doubled(m.capacity) && Bytes(c, m.segment) <= m.total
           case Reserve(k) => c == k > m.capacity && Bytes(c, m.segment) <= m.total
           case _ => false
         }
    case Some(Spot(x)) => Added(m, v, x) && m.slots == Layout(v.elems[..m.size], n)
    case Some(Place(x, k)) => Added(m, v, x) && k == m.size && m.slots == Layout(v.elems[..m.size], n)
    case Some(Fetch(op, k)) =>
      m.size == |v.elems| && m.slots == lay && k < m.size && ((op == Pop && k == 0) || op == At(k))
    case Some(Check(op, k, res)) => m.size == |v.elems| && m.slots == lay && op == Pop && Announced(v, op, k, res)
    case Some(Kill(op, k, res)) => m.size == |v.elems| && m.slots == lay && Announced(v, op, k, res)
    case Some(Loop(op, k, i, res)) =>
      m.size == |v.elems| && Announced(v, op, k, res) && k <= i < m.size && m.slots == Shifted(lay, k, i)
    case Some(Take(op, k, i, res)) =>
      m.size == |v.elems| && Announced(v, op, k, res) && k <= i < m.size - 1 && m.slots == Shifted(lay, k, i)
    case Some(Copy(op, k, i, x, res)) =>
      && m.size == |v.elems| && Announced(v, op, k, res) && k <= i < m.size - 1
      && m.slots == Shifted(lay, k, i) && x == v.elems[i + 1]
    case Some(Drop(op, k, i, res)) =>
      && m.size == |v.elems| && Announced(v, op, k, res) && k <= i < m.size - 1
      && m.slots == Shifted(lay, k, i)[i := Live(v.elems[i + 1])]
    case Some(Tally(op, k, res)) => Settled(m, op, k, res, v)
    case Some(Store(op, k, c, res)) =>
      Settled(m, op, k, res, v) && c == if op.Push? then m.size + 1 else m.size - 1
    case _ => m.size == |v.elems| && m.slots == lay
  }

  /** The slots are as the operation leaves them; the size is still what it was before. */
  predicate Settled<T(==)>(m: Mem<T>, op: Op<T>, k: nat, res: Res<T>, v: Vec<T>)
    requires |v.elems| <= |m.slots|
  {
    if op.Push? then res == Done && Added(m, v, op.x) && m.slots == Layout(v.elems, |m.slots|)
    else
      && m.size == |v.elems| && Announced(v, op, k, res)
      && m.slots == Shifted(Layout(v.elems, |m.slots|), k, m.size - 1)
  }

  /** The invariant of the shared memory: `v` is what it represents. */
  predicate Represents<T(==)>(m: Mem<T>, stage: Option<Stage<T>>, v: Vec<T>)
  {
    && ShmSpec.Valid(v) && v.segment == m.segment && v.total == m.total && v.capacity == m.capacity
    && |m.slots| == m.total / m.segment && v.capacity <= |m.slots|
    && Matches(m, stage, v)
  }

  /** `v` after the effect of a move by an operation. */
  function Effected<T>(v: Vec<T>, op: Op<T>, effect: Option<Res<T>>): Vec<T>
  {
    if effect.Some? then Apply(v, op).0 else v
  }

  /** A move is safe, and the memory after it represents the vector after its effect. */
  predicate Refines<T(==)>(mv: Move<T>, op: Op<T>, v: Vec<T>)
  {
    && !mv.fault && Represents(mv.mem, mv.stage, Effected(v, op, mv.effect))
    && (mv.effect.Some? ==> mv.effect.value == Apply(v, op).1)
  }

  lemma EnterRefines<T>(m: Mem<T>, op: Op<T>, v: Vec<T>)
    requires Represents(m, Some(Enter(op)), v) && OpFits(v.segment, op)
    ensures Refines(EnterMove(m, op), op, v)
  {
    ApplyKeepsValid(v, op);
  }

  lemma GrowRefines<T>(m: Mem<T>, stage: Stage<T>, v: Vec<T>)
    requires Represents(m, Some(stage), v) && OpFits(v.segment, OpOf(stage))
    requires stage.Judge? || stage.Double? || stage.Widen? || stage.Spot? || stage.Place?
    ensures Refines(GrowMove(m, stage), OpOf(stage), v)
  {
    hide Layout;
    var op := OpOf(stage);
    ApplyKeepsValid(v, op);
    var v1 := Apply(v, op).0;
    CapacityInSlots(v1.capacity, v1.segment, v1.total);
    if stage.Place? {
      LayoutMore(v.elems[..m.size], stage.x, |m.slots|);
      assert v.elems[..m.size] + [stage.x] == v.elems;
    } else if !stage.Spot? && op.Push? && v1.elems != v.elems {
      assert v1.elems[..m.size] == v.elems;
    }
  }

  lemma CloseRefines<T>(m: Mem<T>, stage: Stage<T>, v: Vec<T>)
    requires Represents(m, Some(stage), v) && (stage.Take? || stage.Copy? || stage.Drop?)
    ensures Refines(ShiftMove(m, stage), OpOf(stage), v)
  {
    hide Layout;
    hide Shifted;
    hide Apply;
    LayoutLive(v.elems, |m.slots|);
    ShiftStep(Layout(v.elems, |m.slots|), stage.k, stage.i);
  }

  lemma ShiftRefines<T>(m: Mem<T>, stage: Stage<T>, v: Vec<T>)
    requires Represents(m, Some(stage), v)
    requires stage.Kill? || stage.Loop? || stage.Take? || stage.Copy? || stage.Drop?
    ensures Refines(ShiftMove(m, stage), OpOf(stage), v)
  {
    hide Layout;
    hide Shifted;
    hide Apply;
    if stage.Kill? {
      LayoutLive(v.elems, |m.slots|);
      ShiftBegins(Layout(v.elems, |m.slots|), stage.k);
    } else if !stage.Loop? {
      hide Represents;
      hide Refines;
      CloseRefines(m, stage, v);
    }
  }

  lemma StoreRefines<T>(m: Mem<T>, stage: Stage<T>, v: Vec<T>)
    requires Represents(m, Some(stage), v) && (stage.Tally? || stage.Store?)
    ensures Refines(Advance(m, stage), OpOf(stage), v)
  {
    hide Layout;
    hide Shifted;
    if stage.Store? && !stage.op.Push? {
      LayoutWithout(v.elems, stage.k, |m.slots|);
      ApplyKeepsValid(v, stage.op);
    }
  }

  /**
   Every step of the lock holder is safe and keeps the memory a representation of the vector;
   the step with an effect has the result the operation would have if run alone.
   */
  lemma HolderRefines<T>(m: Mem<T>, stage: Stage<T>, v: Vec<T>)
    requires Represents(m, Some(stage), v) && OpFits(v.segment, OpOf(stage))
    ensures Refines(Advance(m, stage), OpOf(stage), v)
  {
    match stage
    case Enter(op) => EnterRefines(m, op, v);
    case Fetch(op, k) => LayoutLive(v.elems, |m.slots|);
    case Check(op, k, res) =>
    case Tally(op, k, res) => StoreRefines(m, stage, v);
    case Store(op, k, n, res) => StoreRefines(m, stage, v);
    case Leave(op, res) =>
    case Kill(_, _, _) => ShiftRefines(m, stage, v);
    case Loop(_, _, _, _) => ShiftRefines(m, stage, v);
    case Take(_, _, _, _) => ShiftRefines(m, stage, v);
    case Copy(_, _, _, _, _) => ShiftRefines(m, stage, v);
    case Drop(_, _, _, _) => ShiftRefines(m, stage, v);
    case _ => GrowRefines(m, stage, v);
  }
}
