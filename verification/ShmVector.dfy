/**
 The class of src/SHMVector.hpp over slots of raw memory. A slot is dead until an element is
 constructed in it and again after the element is destroyed; the preconditions of `Construct`,
 `Destroy` and `Read` say what must never happen, and every method is proved to respect them.
 */
module ShmVector {
  import opened Wrappers
  import opened ShmSpec

  datatype Slot<T> = Dead | Live(value: T)

  lemma CapacityInSlots(capacity: nat, segment: nat, total: nat)
    requires segment > 0 && capacity * segment <= total
    ensures capacity <= total / segment
  {
    if capacity > total / segment {
      MulGrows(total / segment + 1, capacity, segment);
    }
  }

  lemma SlotsInMemory(n: nat, segment: nat, total: nat)
    requires segment > 0 && n <= total / segment
    ensures n * segment <= total
  {
    MulGrows(n, total / segment, segment);
  }

  predicate LiveBelow<T>(s: seq<Slot<T>>, n: nat)
  {
    n <= |s| && forall i :: 0 <= i < |s| ==> (s[i].Live? <==> i < n)
  }

  function Values<T>(s: seq<Slot<T>>, n: nat): (xs: seq<T>)
    requires LiveBelow(s, n)
    ensures |xs| == n
  {
    seq(n, i requires 0 <= i < n => s[i].value)
  }

  /** The slots after the elements from `index + 1` to `i` have moved one place forward. */
  function Shifted<T>(s: seq<Slot<T>>, index: nat, i: nat): (r: seq<Slot<T>>)
    requires index <= i < |s|
    ensures |r| == |s|
  {
    s[..index] + s[index + 1..i + 1] + [Dead] + s[i + 1..]
  }

  lemma ShiftBegins<T>(s: seq<Slot<T>>, index: nat)
    requires index < |s|
    ensures s[index := Dead] == Shifted(s, index, index)
  {
  }

  lemma ShiftStep<T>(s: seq<Slot<T>>, index: nat, i: nat)
    requires index <= i < |s| - 1 && s[i + 1].Live?
    ensures var r := Shifted(s, index, i);
            r[i].Dead? && r[i + 1] == s[i + 1] && r[i := s[i + 1]][i + 1 := Dead] == Shifted(s, index, i + 1)
  {
  }

  lemma ShiftEnds<T>(s: seq<Slot<T>>, index: nat, n: nat)
    requires LiveBelow(s, n) && index < n
    ensures LiveBelow(Shifted(s, index, n - 1), n - 1)
    ensures Values(Shifted(s, index, n - 1), n - 1) == Without(Values(s, n), index)
  {
  }

  lemma OneMore<T>(s: seq<Slot<T>>, n: nat, x: T)
    requires LiveBelow(s, n) && n < |s|
    ensures LiveBelow(s[n := Live(x)], n + 1)
    ensures Values(s[n := Live(x)], n + 1) == Values(s, n) + [x]
  {
  }

  class SHMVector<T> {
    const segment: nat
    const total: nat
    var capacity: nat
    var size: nat
    const slots: array<Slot<T>>
    var locked: bool

    /** Exactly the slots below `size` are live, and they are within the memory. */
    ghost predicate Held()
      reads this, slots
    {
      && 0 < segment < SIZE_RANGE && total <= PTRDIFF_MAX && slots.Length == total / segment
      && size <= capacity && LiveBelow(slots[..], size)
    }

    /** And so is the whole capacity. */
    ghost predicate Sound()
      reads this, slots
    {
      Held() && capacity * segment <= total && capacity <= slots.Length
    }

    ghost function View(): (v: Vec<T>)
      requires Held()
      reads this, slots
      ensures Sound() ==> ShmSpec.Valid(v)
    {
      Vec(segment, total, capacity, Values(slots[..], size))
    }

    constructor Init(segment: nat, total: nat)
      requires 0 < segment < SIZE_RANGE && 0 < total <= PTRDIFF_MAX
      ensures Sound() && !locked && fresh(slots)
      ensures View() == Vec(segment, total, 0, [])
    {
      this.segment, this.total := segment, total;
      capacity, size, locked := 0, 0, false;
      slots := new Slot<T>[total / segment](_ => Dead);
    }

    /** The C++ constructor: it throws on a zero segment, no memory or no size. */
    static method Create(segment: nat, hasMemory: bool, total: nat) returns (r: Option<SHMVector<T>>)
      requires segment < SIZE_RANGE && total <= PTRDIFF_MAX
      ensures r.None? <==> segment == 0 || !hasMemory || total == 0
      ensures r.Some? ==> fresh(r.value) && r.value.Sound() && !r.value.locked
      ensures r.Some? ==> r.value.View() == Vec(segment, total, 0, [])
    {
      if segment == 0 || !hasMemory || total == 0 {
        return None;
      }
      var v := new SHMVector<T>.Init(segment, total);
      r := Some(v);
    }

    /** Placement new. */
    method Construct(i: nat, x: T)
      requires i < slots.Length && slots[i].Dead?
      modifies slots
      ensures slots[..] == old(slots[..])[i := Live(x)]
    {
      slots[i] := Live(x);
    }

    /** A destructor call. */
    method Destroy(i: nat)
      requires i < slots.Length && slots[i].Live?
      modifies slots
      ensures slots[..] == old(slots[..])[i := Dead]
    {
      slots[i] := Dead;
    }

    method Read(i: nat) returns (x: T)
      requires i < slots.Length && slots[i].Live?
      ensures slots[i] == Live(x)
    {
      x := slots[i].value;
    }

    /**
     `seen` is the capacity as read before the lock is held; it may be out of date. A product that
     wraps around and is then granted takes the capacity beyond the memory.
     */
    method ReserveCount(n: nat, seen: nat) returns (res: Res<T>)
      requires Held() && !locked && seen <= capacity
      modifies this
      ensures Held() && !locked && (View(), res) == Apply(old(View()), Reserve(n))
      ensures Sound() <==>
              if n <= old(capacity) || Bytes(n, segment) > total then old(Sound()) else n * segment < SIZE_RANGE
    {
      if n <= seen {
        return Done;
      }
      locked := true;
      if n <= capacity {
        locked := false;
        return Done;
      }
      if Bytes(n, segment) > total {
        locked := false;
        return BadAlloc;
      }
      capacity := n;
      if n * segment <= total {
        CapacityInSlots(n, segment, total);
      }
      locked := false;
      res := Done;
    }

    /**
     `inBounds` says whether the element is constructed within the memory, or not at all. It is not
     only in a full memory whose capacity a wrapped `reserve` has raised; nothing is said of the
     vector then.
     */
    method PushBack(x: T) returns (res: Res<T>, inBounds: bool)
      requires Held() && !locked
      modifies this, slots
      ensures inBounds <==> !(old(size) == slots.Length && old(size) < old(capacity))
      ensures inBounds ==> Held() && !locked && (View(), res) == Apply(old(View()), Push(x))
      ensures old(Sound()) ==> inBounds && Sound()
    {
      locked, inBounds := true, true;
      if size >= capacity {
        FullIsSound();
        var newCapacity := Doubled(capacity);
        DoublingIsExact(View());
        if Bytes(newCapacity, segment) > total {
          locked := false;
          return BadAlloc, true;
        }
        capacity := newCapacity;
        CapacityInSlots(newCapacity, segment, total);
      }
      if size == slots.Length {
        locked := false;
        return Done, false;
      }
      assert slots[size] == slots[..][size];
      OneMore(slots[..], size, x);
      Construct(size, x);
      size := size + 1;
      locked := false;
      res := Done;
    }

    /** A vector that is full up to its capacity has its capacity within the memory. */
    lemma FullIsSound()
      requires Held() && size >= capacity
      ensures Sound()
    {
      SlotsInMemory(capacity, segment, total);
    }

    method ElementAt(index: nat) returns (res: Res<T>)
      requires Held() && !locked
      modifies this`locked
      ensures Held() && (old(Sound()) ==> Sound()) && !locked && (View(), res) == Apply(old(View()), At(index))
    {
      locked := true;
      if index >= size {
        locked := false;
        return OutOfRange;
      }
      var result := Read(index);
      locked := false;
      res := Item(result);
    }

    method GetSize() returns (res: Res<T>)
      requires Held() && !locked
      modifies this`locked
      ensures Held() && (old(Sound()) ==> Sound()) && !locked && (View(), res) == Apply(old(View()), Size)
    {
      locked := true;
      var result := size;
      locked := false;
      res := Count(result);
    }

    /** An index out of range throws before the lock is released: it stays held. */
    method EraseAt(index: nat) returns (res: Res<T>)
      requires Held() && !locked
      modifies this, slots
      ensures Held() && (old(Sound()) ==> Sound()) && (View(), res) == Apply(old(View()), Erase(index))
      ensures locked <==> index >= old(size)
    {
      locked := true;
      var ok := EraseAtUnlocked(index);
      if !ok {
        return OutOfRange;
      }
      locked := false;
      res := Done;
    }

    method GetNextElement() returns (res: Res<T>)
      requires Held() && !locked
      modifies this, slots
      ensures Held() && (old(Sound()) ==> Sound()) && !locked && (View(), res) == Apply(old(View()), Pop)
    {
      locked := true;
      if size == 0 {
        locked := false;
        return OutOfRange;
      }
      var result := Read(0);
      var _ := EraseAtUnlocked(0);
      locked := false;
      res := Item(result);
    }

    /** Destroy the element, then move every later one forward into the slot just vacated. */
    method EraseAtUnlocked(index: nat) returns (ok: bool)
      requires Held()
      modifies this`size, slots
      ensures Held() && (ok <==> index < old(size))
      ensures View() == if ok then old(View()).(elems := Without(old(View().elems), index)) else old(View())
    {
      hide Shifted;
      hide Values;
      if index >= size {
        return false;
      }
      ghost var was := slots[..];
      ShiftBegins(was, index);
      Destroy(index);
      for i := index to size - 1
        invariant size == old(size) && slots[..] == Shifted(was, index, i)
      {
        ShiftStep(was, index, i);
        assert slots[i] == slots[..][i] && slots[i + 1] == slots[..][i + 1];
        var next := Read(i + 1);
        Construct(i, next);
        assert slots[i + 1] == slots[..][i + 1];
        Destroy(i + 1);
      }
      ShiftEnds(was, index, size);
      size := size - 1;
      ok := true;
    }

    /** The destructor: every element is destroyed, once. */
    method Dispose()
      requires Held()
      modifies slots
      ensures forall i :: 0 <= i < slots.Length ==> slots[i].Dead?
    {
      for i := 0 to size
        invariant forall j :: 0 <= j < slots.Length ==> (slots[..][j].Live? <==> i <= j < size)
      {
        assert slots[i] == slots[..][i];
        Destroy(i);
      }
      assert forall i :: 0 <= i < slots.Length ==> slots[i] == slots[..][i];
    }
  }
}
