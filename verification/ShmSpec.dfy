/**
 `SHMVector` of src/SHMVector.hpp as a sequence: its operations one at a time, what they keep,
 how the capacity grows and that elements leave in the order they came.
 */
module ShmSpec {
  /** The number of values of `size_t`; products wrap around at it. */
  const SIZE_RANGE := 0x1_0000_0000_0000_0000

  /** No object, and no mapped region, is larger than `PTRDIFF_MAX` bytes. */
  const PTRDIFF_MAX := 0x7fff_ffff_ffff_ffff

  datatype Vec<T> = Vec(segment: nat, total: nat, capacity: nat, elems: seq<T>)

  datatype Op<T> =
    | Push(x: T)
    | Pop
    | Erase(index: nat)
    | Reserve(count: nat)
    | At(index: nat)
    | Size

  datatype Res<T> = Done | Item(value: T) | Count(n: nat) | BadAlloc | OutOfRange

  /** `count * segment_size_bytes_` in `size_t`. */
  function Bytes(count: nat, segment: nat): nat
  {
    count * segment % SIZE_RANGE
  }

  function Doubled(capacity: nat): nat
  {
    if capacity == 0 then 1 else capacity * 2 % SIZE_RANGE
  }

  function Without<T>(s: seq<T>, i: nat): seq<T>
    requires i < |s|
  {
    s[..i] + s[i + 1..]
  }

  /** One operation on the vector, as if alone. */
  function Apply<T>(v: Vec<T>, op: Op<T>): (Vec<T>, Res<T>)
  {
    match op
    case Push(x) =>
      if |v.elems| < v.capacity then (v.(elems := v.elems + [x]), Done)
      else if Bytes(Doubled(v.capacity), v.segment) > v.total then (v, BadAlloc)
      else (v.(capacity := Doubled(v.capacity), elems := v.elems + [x]), Done)
    case Pop =>
      if v.elems == [] then (v, OutOfRange)
      else (v.(elems := Without(v.elems, 0)), Item(v.elems[0]))
    case Erase(i) =>
      if i >= |v.elems| then (v, OutOfRange) else (v.(elems := Without(v.elems, i)), Done)
    case Reserve(n) =>
      if n <= v.capacity then (v, Done)
      else if Bytes(n, v.segment) > v.total then (v, BadAlloc)
      else (v.(capacity := n), Done)
    case At(i) => (v, if i >= |v.elems| then OutOfRange else Item(v.elems[i]))
    case Size => (v, Count(|v.elems|))
  }

  /** The elements are within the capacity, and the capacity within the memory. */
  predicate Valid<T>(v: Vec<T>)
  {
    && 0 < v.segment < SIZE_RANGE && v.total <= PTRDIFF_MAX
    && |v.elems| <= v.capacity && v.capacity * v.segment <= v.total
  }

  /** The product `reserve` computes does not wrap around. */
  predicate OpFits<T>(segment: nat, op: Op<T>)
  {
    op.Reserve? ==> op.count * segment < SIZE_RANGE
  }

  lemma MulBounds(a: nat, b: nat, c: nat)
    requires a * b <= c && b > 0
    ensures a <= c && 2 * a * b <= 2 * c
  {
  }

  /** Growing never wraps around: only `reserve` can be asked for too much. */
  lemma DoublingIsExact<T>(v: Vec<T>)
    requires Valid(v)
    ensures Doubled(v.capacity) == (if v.capacity == 0 then 1 else 2 * v.capacity)
    ensures Bytes(Doubled(v.capacity), v.segment) == Doubled(v.capacity) * v.segment
  {
    MulBounds(v.capacity, v.segment, v.total);
  }

  /** Every operation keeps the vector valid and never lowers the capacity. */
  lemma ApplyKeepsValid<T>(v: Vec<T>, op: Op<T>)
    requires Valid(v) && OpFits(v.segment, op)
    ensures Valid(Apply(v, op).0)
    ensures Apply(v, op).0.capacity >= v.capacity
    ensures op.Reserve? && Apply(v, op).1 == Done ==> op.count <= Apply(v, op).0.capacity
  {
    DoublingIsExact(v);
  }

  /**
   `reserve` is granted exactly when the capacity is there already or the memory holds that many
   segments; the capacity is then the larger of the two, and otherwise nothing changes.
   */
  lemma ReserveGrants<T>(v: Vec<T>, n: nat)
    requires Valid(v) && n * v.segment < SIZE_RANGE
    ensures var (v', res) := Apply(v, Reserve(n));
            && (res == Done <==> n <= v.capacity || n * v.segment <= v.total)
            && (res == Done || res == BadAlloc)
            && v' == v.(capacity := if res == Done && n > v.capacity then n else v.capacity)
  {
  }

  /** The capacity `push_back` needs: what there is, or twice as much when that is used up. */
  function Needed<T>(v: Vec<T>): nat
  {
    if |v.elems| < v.capacity then v.capacity else if v.capacity == 0 then 1 else 2 * v.capacity
  }

  /** `push_back` adds the element at the end exactly when the capacity it needs fits the memory. */
  lemma PushGrants<T>(v: Vec<T>, x: T)
    requires Valid(v)
    ensures Apply(v, Push(x)) ==
            if Needed(v) * v.segment <= v.total then (v.(capacity := Needed(v), elems := v.elems + [x]), Done)
            else (v, BadAlloc)
  {
    DoublingIsExact(v);
  }

  /** An erase in range takes out that element and no other; out of range nothing changes. */
  lemma EraseTakesOut<T>(v: Vec<T>, i: nat)
    ensures var (v', res) := Apply(v, Erase(i));
            if i < |v.elems| then
              && res == Done && v'.capacity == v.capacity && |v'.elems| == |v.elems| - 1
              && (forall j :: 0 <= j < i ==> v'.elems[j] == v.elems[j])
              && (forall j :: i <= j < |v'.elems| ==> v'.elems[j] == v.elems[j + 1])
            else res == OutOfRange && v' == v
  {
  }

  /**
   `reserve` keeps the capacity within the memory exactly when its product does not wrap around,
   unless the wrapped product is refused anyway or nothing was asked for.
   */
  lemma ReserveWrapsAround<T>(v: Vec<T>, n: nat)
    requires Valid(v)
    ensures Valid(Apply(v, Reserve(n)).0) <==>
            n <= v.capacity || n * v.segment < SIZE_RANGE || Bytes(n, v.segment) > v.total
  {
  }

  /** 2^61 segments of 8 bytes are 0 bytes in `size_t`: they are granted in a memory of 64 bytes. */
  lemma ReserveBeyondMemory<T>(v: Vec<T>)
    requires v == Vec(8, 64, 0, [])
    ensures Valid(v)
    ensures Apply(v, Reserve(0x2000_0000_0000_0000)) == (v.(capacity := 0x2000_0000_0000_0000), Done)
    ensures !Valid(Apply(v, Reserve(0x2000_0000_0000_0000)).0)
  {
  }

  // ---------------------------------------------------------------- runs of operations

  function Replay<T>(v: Vec<T>, ops: seq<Op<T>>): Vec<T>
    decreases |ops|
  {
    if ops == [] then v else Replay(Apply(v, ops[0]).0, ops[1..])
  }

  /** The elements one operation pushes, pops and erases. */
  function PushedBy<T>(v: Vec<T>, op: Op<T>): seq<T>
  {
    if op.Push? && Apply(v, op).1 == Done then [op.x] else []
  }

  function PoppedBy<T>(v: Vec<T>, op: Op<T>): seq<T>
  {
    if op.Pop? && v.elems != [] then [v.elems[0]] else []
  }

  function ErasedBy<T>(v: Vec<T>, op: Op<T>): seq<T>
  {
    if op.Erase? && op.index < |v.elems| then [v.elems[op.index]] else []
  }

  /** The elements pushed, popped and erased successfully, in order. */
  function Pushed<T>(v: Vec<T>, ops: seq<Op<T>>): seq<T>
    decreases |ops|
  {
    if ops == [] then []
    else PushedBy(v, ops[0]) + Pushed(Apply(v, ops[0]).0, ops[1..])
  }

  function Popped<T>(v: Vec<T>, ops: seq<Op<T>>): seq<T>
    decreases |ops|
  {
    if ops == [] then []
    else PoppedBy(v, ops[0]) + Popped(Apply(v, ops[0]).0, ops[1..])
  }

  function Erased<T>(v: Vec<T>, ops: seq<Op<T>>): seq<T>
    decreases |ops|
  {
    if ops == [] then []
    else ErasedBy(v, ops[0]) + Erased(Apply(v, ops[0]).0, ops[1..])
  }

  /** `a` is `b` with some elements left out. */
  predicate Subsequence<T(==)>(a: seq<T>, b: seq<T>)
    decreases |b|
  {
    a == [] || (b != [] && (Subsequence(a, b[1..]) || (a[0] == b[0] && Subsequence(a[1..], b[1..]))))
  }

  lemma {:induction false} SubsequenceSelf<T>(a: seq<T>)
    ensures Subsequence(a, a)
    decreases |a|
  {
    if a != [] {
      SubsequenceSelf(a[1..]);
    }
  }

  lemma {:induction false} SubsequenceShorter<T>(a: seq<T>, b: seq<T>)
    requires Subsequence(a, b)
    ensures |a| <= |b| && (|a| == |b| ==> a == b)
    decreases |b|
  {
    if a != [] {
      if Subsequence(a, b[1..]) {
        SubsequenceShorter(a, b[1..]);
      } else {
        SubsequenceShorter(a[1..], b[1..]);
        assert a == [a[0]] + a[1..] && b == [b[0]] + b[1..];
      }
    }
  }

  lemma {:induction false} SubsequenceOfWithout<T>(a: seq<T>, b: seq<T>, more: seq<T>, i: nat)
    requires i < |b| && Subsequence(a, Without(b, i) + more)
    ensures Subsequence(a, b + more)
    decreases |b|
  {
    var c := Without(b, i) + more;
    assert (b + more)[1..] == b[1..] + more;
    if a != [] {
      if i == 0 {
        assert c == b[1..] + more;
      } else {
        assert c[0] == b[0];
        assert c[1..] == Without(b[1..], i - 1) + more;
        if Subsequence(a, c[1..]) {
          SubsequenceOfWithout(a, b[1..], more, i - 1);
        } else {
          SubsequenceOfWithout(a[1..], b[1..], more, i - 1);
        }
      }
    }
  }

  lemma {:induction false} OrderKept<T>(v: Vec<T>, ops: seq<Op<T>>)
    ensures Subsequence(Popped(v, ops) + Replay(v, ops).elems, v.elems + Pushed(v, ops))
    decreases |ops|
  {
    hide PushedBy;
    hide PoppedBy;
    hide Apply;
    if ops == [] {
      assert Popped(v, ops) + Replay(v, ops).elems == v.elems == v.elems + Pushed(v, ops);
      SubsequenceSelf(v.elems);
    } else {
      hide Subsequence;
      var op, rest := ops[0], ops[1..];
      var v1 := Apply(v, op).0;
      OrderKept(v1, rest);
      var out, more := Popped(v1, rest) + Replay(v1, rest).elems, Pushed(v1, rest);
      OrderStep(v, op, out, more);
      assert Popped(v, ops) + Replay(v, ops).elems == PoppedBy(v, op) + out;
    }
  }

  /** No element is lost or made up: popped, left and erased are, with multiplicity, what was there and was pushed. */
  lemma {:induction false} ElementsConserved<T>(v: Vec<T>, ops: seq<Op<T>>)
    ensures multiset(v.elems) + multiset(Pushed(v, ops))
         == multiset(Popped(v, ops)) + multiset(Replay(v, ops).elems) + multiset(Erased(v, ops))
    decreases |ops|
  {
    hide Apply;
    hide PushedBy;
    hide PoppedBy;
    hide ErasedBy;
    if ops == [] {
      NothingMoved(v);
    } else {
      var op, v1, rest := ops[0], Apply(v, ops[0]).0, ops[1..];
      ElementsConserved(v1, rest);
      ElementsStep(v, op);
      MultisetConcat(PushedBy(v, op), Pushed(v1, rest));
      MultisetConcat(PoppedBy(v, op), Popped(v1, rest));
      MultisetConcat(ErasedBy(v, op), Erased(v1, rest));
      Regroup(multiset(v.elems), multiset(PushedBy(v, op)), multiset(PoppedBy(v, op)), multiset(ErasedBy(v, op)),
              multiset(v1.elems), multiset(Pushed(v1, rest)), multiset(Popped(v1, rest)), multiset(Erased(v1, rest)),
              multiset(Replay(v1, rest).elems));
    }
  }

  lemma NothingMoved<T>(v: Vec<T>)
    ensures Pushed(v, []) == [] && Popped(v, []) == [] && Erased(v, []) == [] && Replay(v, []) == v
  {
  }

  lemma MultisetConcat<T>(a: seq<T>, b: seq<T>)
    ensures multiset(a + b) == multiset(a) + multiset(b)
  {
  }

  lemma Regroup<T>(was: multiset<T>, pushed: multiset<T>, popped: multiset<T>, erased: multiset<T>, now: multiset<T>,
                   pushedLater: multiset<T>, poppedLater: multiset<T>, erasedLater: multiset<T>, left: multiset<T>)
    requires was + pushed == popped + now + erased
    requires now + pushedLater == poppedLater + left + erasedLater
    ensures was + (pushed + pushedLater) == (popped + poppedLater) + left + (erased + erasedLater)
  {
    calc {
      was + (pushed + pushedLater);
      (was + pushed) + pushedLater;
      popped + erased + (now + pushedLater);
    }
  }

  lemma SameSize<T>(a: seq<T>, b: seq<T>, c: seq<T>, d: seq<T>, e: seq<T>)
    requires multiset(a) + multiset(b) == multiset(c) + multiset(d) + multiset(e)
    ensures |a| + |b| == |c| + |d| + |e|
  {
    assert |multiset(a) + multiset(b)| == |a| + |b|;
    assert |multiset(c) + multiset(d) + multiset(e)| == |c| + |d| + |e|;
  }

  lemma ElementsStep<T>(v: Vec<T>, op: Op<T>)
    ensures multiset(v.elems) + multiset(PushedBy(v, op))
         == multiset(PoppedBy(v, op)) + multiset(Apply(v, op).0.elems) + multiset(ErasedBy(v, op))
  {
    if (op.Pop? && v.elems != []) || (op.Erase? && op.index < |v.elems|) {
      WithoutOne(v.elems, if op.Pop? then 0 else op.index);
    }
  }

  lemma WithoutOne<T>(s: seq<T>, i: nat)
    requires i < |s|
    ensures multiset(s) == multiset(Without(s, i)) + multiset{s[i]}
  {
    assert s == s[..i] + [s[i]] + s[i + 1..];
  }

  lemma OrderStep<T>(v: Vec<T>, op: Op<T>, out: seq<T>, more: seq<T>)
    requires Subsequence(out, Apply(v, op).0.elems + more)
    ensures Subsequence(PoppedBy(v, op) + out,
                        v.elems + (PushedBy(v, op) + more))
  {
    hide Subsequence;
    var v1 := Apply(v, op).0;
    if op.Push? && Apply(v, op).1 == Done {
      assert v1.elems + more == v.elems + ([op.x] + more);
      assert [] + out == out;
    } else if op.Pop? && v.elems != [] {
      assert v1.elems == v.elems[1..];
      SubsequenceCons(v.elems[0], out, v1.elems + more);
      assert [v.elems[0]] + (v1.elems + more) == v.elems + ([] + more);
    } else {
      assert [] + out == out && [] + more == more;
      if op.Erase? && op.index < |v.elems| {
        SubsequenceOfWithout(out, v.elems, more, op.index);
      } else {
        assert v1.elems == v.elems;
      }
    }
  }

  lemma SubsequenceCons<T>(x: T, a: seq<T>, b: seq<T>)
    requires Subsequence(a, b)
    ensures Subsequence([x] + a, [x] + b)
  {
    assert ([x] + a)[1..] == a && ([x] + b)[1..] == b;
  }

  /**
   Nothing is lost, duplicated or reordered: after any operations, what has been popped followed
   by what is left is what was there and was pushed, in order, and the elements missing from it
   are, with multiplicity, exactly the erased ones.
   */
  lemma OrderIsKept<T>(v: Vec<T>, ops: seq<Op<T>>)
    ensures Subsequence(Popped(v, ops) + Replay(v, ops).elems, v.elems + Pushed(v, ops))
    ensures multiset(v.elems) + multiset(Pushed(v, ops))
         == multiset(Popped(v, ops)) + multiset(Replay(v, ops).elems) + multiset(Erased(v, ops))
    ensures |Popped(v, ops)| + |Replay(v, ops).elems| + |Erased(v, ops)| == |v.elems| + |Pushed(v, ops)|
  {
    hide *;
    OrderKept(v, ops);
    ElementsConserved(v, ops);
    SameSize(v.elems, Pushed(v, ops), Popped(v, ops), Replay(v, ops).elems, Erased(v, ops));
  }

  /** Without erasures the vector is a queue: pushed is popped followed by what is left. */
  lemma FirstInFirstOut<T>(v: Vec<T>, ops: seq<Op<T>>)
    requires Erased(v, ops) == []
    ensures v.elems + Pushed(v, ops) == Popped(v, ops) + Replay(v, ops).elems
  {
    OrderIsKept(v, ops);
    SubsequenceShorter(Popped(v, ops) + Replay(v, ops).elems, v.elems + Pushed(v, ops));
  }

  // ---------------------------------------------------------------- growth

  function Power2(k: nat): (p: nat)
    ensures p > 0
  {
    if k == 0 then 1 else 2 * Power2(k - 1)
  }

  /** Zero or a power of two. */
  ghost predicate Grown(capacity: nat)
  {
    capacity == 0 || exists k: nat :: capacity == Power2(k)
  }

  lemma GrownStep<T>(v: Vec<T>, op: Op<T>)
    requires Valid(v) && Grown(v.capacity) && !op.Reserve?
    ensures Grown(Apply(v, op).0.capacity)
  {
    DoublingIsExact(v);
    if v.capacity == 0 {
      assert Power2(0) == 1;
    } else {
      var k: nat :| v.capacity == Power2(k);
      assert Power2(k + 1) == 2 * v.capacity;
    }
  }

  /** On a run without `reserve` the capacity is zero or a power of two. */
  lemma {:induction false} CapacityIsPowerOfTwo<T>(v: Vec<T>, ops: seq<Op<T>>)
    requires Valid(v) && Grown(v.capacity)
    requires forall i :: 0 <= i < |ops| ==> !ops[i].Reserve?
    ensures Grown(Replay(v, ops).capacity)
    decreases |ops|
  {
    if ops != [] {
      GrownStep(v, ops[0]);
      ApplyKeepsValid(v, ops[0]);
      CapacityIsPowerOfTwo(Apply(v, ops[0]).0, ops[1..]);
    }
  }

  /** `k` is the largest power of two of segments that fit, or zero when none fits. */
  ghost predicate IsLimit(segment: nat, total: nat, k: nat)
  {
    if k == 0 then segment > total
    else Grown(k) && k * segment <= total && 2 * k * segment > total
  }

  predicate AllPushed<T>(v: Vec<T>, xs: seq<T>)
    decreases |xs|
  {
    xs == [] || (Apply(v, Push(xs[0])).1 == Done && AllPushed(Apply(v, Push(xs[0])).0, xs[1..]))
  }

  lemma {:induction false} Power2Order(j: nat, k: nat)
    requires j < k
    ensures 2 * Power2(j) <= Power2(k)
    decreases k
  {
    if j < k - 1 {
      Power2Order(j, k - 1);
    }
  }

  lemma GrownApart(a: nat, b: nat)
    requires Grown(a) && Grown(b) && 0 < a < b
    ensures 2 * a <= b
  {
    var j: nat :| a == Power2(j);
    var k: nat :| b == Power2(k);
    if j >= k {
      if k < j {
        Power2Order(k, j);
      }
    } else {
      Power2Order(j, k);
    }
  }

  lemma CapacityWithinLimit<T>(v: Vec<T>, limit: nat)
    requires Valid(v) && Grown(v.capacity) && IsLimit(v.segment, v.total, limit)
    ensures v.capacity <= limit
  {
    if v.capacity > limit {
      if limit == 0 {
        MulGrows(1, v.capacity, v.segment);
      } else {
        GrownApart(limit, v.capacity);
        MulGrows(2 * limit, v.capacity, v.segment);
      }
    }
  }

  /** A push fails exactly when the vector is as full as the memory allows. */
  lemma PushLimit<T>(v: Vec<T>, x: T, limit: nat)
    requires Valid(v) && Grown(v.capacity) && IsLimit(v.segment, v.total, limit)
    ensures Apply(v, Push(x)).1 == Done <==> |v.elems| < limit
  {
    DoublingIsExact(v);
    CapacityWithinLimit(v, limit);
    if 0 < v.capacity < limit {
      GrownApart(v.capacity, limit);
      MulGrows(2 * v.capacity, limit, v.segment);
    } else if v.capacity == 0 < limit {
      MulGrows(1, limit, v.segment);
    }
  }

  lemma MulGrows(a: nat, b: nat, c: nat)
    requires a <= b
    ensures a * c <= b * c
  {
  }

  /**
   Pushing onto a vector that was never reserved succeeds exactly up to the largest power of two
   of segments that fit the memory.
   */
  lemma {:induction false} GrowthBound<T>(v: Vec<T>, xs: seq<T>, limit: nat)
    requires Valid(v) && Grown(v.capacity) && IsLimit(v.segment, v.total, limit)
    ensures AllPushed(v, xs) <==> |v.elems| + |xs| <= limit
    decreases |xs|
  {
    CapacityWithinLimit(v, limit);
    if xs != [] {
      PushLimit(v, xs[0], limit);
      var v1 := Apply(v, Push(xs[0])).0;
      if |v.elems| < limit {
        ApplyKeepsValid(v, Push(xs[0]));
        GrownStep(v, Push(xs[0]));
        GrowthBound(v1, xs[1..], limit);
      }
    }
  }

  /** There is such a power of two for every segment size and memory. */
  lemma LimitExists(segment: nat, total: nat) returns (limit: nat)
    requires segment > 0
    ensures IsLimit(segment, total, limit)
  {
    if segment > total {
      limit := 0;
    } else {
      assert Power2(0) == 1;
      limit := LimitFrom(segment, total, 0);
    }
  }

  lemma {:induction false} LimitFrom(segment: nat, total: nat, k: nat) returns (limit: nat)
    requires segment > 0 && Power2(k) * segment <= total
    ensures limit > 0 && IsLimit(segment, total, limit)
    decreases total - Power2(k) * segment
  {
    var p := Power2(k);
    if 2 * p * segment > total {
      limit := p;
    } else {
      assert Power2(k + 1) * segment == 2 * p * segment == p * segment + p * segment;
      MulGrows(1, p, segment);
      limit := LimitFrom(segment, total, k + 1);
    }
  }

  /** The first failure of a new vector that is only pushed to comes exactly at that bound. */
  lemma GrowthFromEmpty<T>(segment: nat, total: nat, xs: seq<T>) returns (limit: nat)
    requires 0 < segment < SIZE_RANGE && total <= PTRDIFF_MAX
    ensures IsLimit(segment, total, limit)
    ensures AllPushed(Vec(segment, total, 0, []), xs) <==> |xs| <= limit
  {
    limit := LimitExists(segment, total);
    GrowthBound(Vec(segment, total, 0, []), xs, limit);
  }

  // ---------------------------------------------------------------- slots in memory

  /**
   The elements of the slots below `capacity` lie apart exactly when one fits its segment, or
   there is at most one slot.
   */
  lemma SlotsApart(segment: nat, sizeOf: nat, capacity: nat)
    ensures (forall i, j :: 0 <= i < j < capacity ==> i * segment + sizeOf <= j * segment) <==>
            sizeOf <= segment || capacity <= 1
  {
    if sizeOf <= segment {
      forall i, j | 0 <= i < j < capacity
        ensures i * segment + sizeOf <= j * segment
      {
        MulGrows(i + 1, j, segment);
      }
    } else if capacity > 1 {
      assert !(0 * segment + sizeOf <= 1 * segment);
    }
  }

  /** An element that fits its segment lies inside the memory in every slot of a valid vector. */
  lemma SlotInside<T>(v: Vec<T>, sizeOf: nat, i: nat)
    requires Valid(v) && sizeOf <= v.segment && i < v.capacity
    ensures i * v.segment + sizeOf <= v.total
  {
    MulGrows(i + 1, v.capacity, v.segment);
  }
}
