/** The growable array of `i32`: a buffer whose length is the capacity,
    and a logical size; the first `size` slots hold the elements. */
module Vectors {
  import opened PowersOfTwo
  import opened VectorModel

  class Vector {
    var data: array<Int32>
    var size: nat
    var capacity: nat
    /** The live elements, `data[0..size)`. */
    ghost var Elements: seq<Int32>

    ghost predicate Valid()
      reads this, data
    {
      data.Length == capacity &&
      size <= capacity &&
      IsPowerOfTwo(capacity) &&
      Elements == data[..size]
    }

    /** `new(initial_capacity)`: an empty vector whose capacity is 16 for a
        zero hint and the next power of two otherwise. */
    constructor (initialCapacity: nat)
      ensures Valid() && fresh(data)
      ensures Elements == [] && size == 0
      ensures capacity == InitialCapacity(initialCapacity)
    {
      capacity := InitialCapacity(initialCapacity);
      data := new Int32[InitialCapacity(initialCapacity)];
      size := 0;
      Elements := [];
    }

    function Size(): (n: nat)
      reads this, data
      requires Valid()
      ensures n == |Elements|
    {
      size
    }

    function Capacity(): (c: nat)
      reads this, data
      requires Valid()
      ensures c == data.Length && |Elements| <= c && IsPowerOfTwo(c)
    {
      capacity
    }

    function IsEmpty(): (b: bool)
      reads this, data
      requires Valid()
      ensures b <==> Elements == []
    {
      size == 0
    }

    /** `at(index)`: the element at `index`, or the out-of-bounds panic. */
    function At(index: nat): (r: Outcome<Int32>)
      reads this, data
      requires Valid()
      ensures r.Ok? <==> index < |Elements|
      ensures r.Ok? ==> r.value == Elements[index]
    {
      if index >= size then OutOfBounds else Ok(data[index])
    }

    /** Moves the elements into a fresh buffer of `newCapacity` slots. */
    method Resize(newCapacity: nat)
      requires Valid()
      requires size <= newCapacity && IsPowerOfTwo(newCapacity)
      modifies this
      ensures Valid() && fresh(data)
      ensures capacity == newCapacity
      ensures size == old(size) && Elements == old(Elements)
    {
      var newData := new Int32[newCapacity];
      for i := 0 to size
        modifies newData
        invariant forall k :: 0 <= k < i ==> newData[k] == data[k]
      {
        newData[i] := data[i];
      }
      assert newData[..size] == data[..size];
      data := newData;
      capacity := newCapacity;
    }

    /** `push(item)`: appends, doubling the capacity first when full. */
    method Push(item: Int32)
      requires Valid()
      modifies this, data
      ensures Valid() && (data == old(data) || fresh(data))
      ensures Elements == old(Elements) + [item]
      ensures size == old(size) + 1
      ensures capacity == GrownCapacity(old(size), old(capacity))
    {
      GrowthMakesRoom(size, capacity);
      if size == capacity {
        Resize(capacity * 2);
      }
      data[size] := item;
      size := size + 1;
      Elements := Elements + [item];
      assert data[..size] == data[..size - 1] + [item];
    }

    /** `insert(index, item)`: fails, changing nothing, unless
        `index < size`; otherwise grows like `push` and shifts the
        elements from `index` on one slot to the right. */
    method Insert(index: nat, item: Int32) returns (ok: bool)
      requires Valid()
      modifies this, data
      ensures Valid() && (data == old(data) || fresh(data))
      ensures ok <==> index < old(size)
      ensures !ok ==> unchanged(this) && unchanged(data)
      ensures ok ==> Elements == InsertAt(old(Elements), index, item)
      ensures ok ==> size == old(size) + 1
      ensures ok ==> capacity == GrownCapacity(old(size), old(capacity))
    {
      if index >= size {
        return false;
      }
      GrowthMakesRoom(size, capacity);
      if size == capacity {
        Resize(capacity * 2);
      }
      ghost var s := Elements;
      for i := size downto index
        modifies data
        invariant forall k :: 0 <= k < i ==> data[k] == s[k]
        invariant forall k :: i < k <= size ==> data[k] == s[k - 1]
      {
        data[i + 1] := data[i];
      }
      data[index] := item;
      ShiftedRightIsInsertAt(data[..size + 1], s, index, item);
      size := size + 1;
      Elements := InsertAt(s, index, item);
      return true;
    }

    /** `prepend(item)`: `insert(0, item)`, so it fails on an empty vector. */
    method Prepend(item: Int32) returns (ok: bool)
      requires Valid()
      modifies this, data
      ensures Valid() && (data == old(data) || fresh(data))
      ensures ok <==> old(size) > 0
      ensures !ok ==> unchanged(this) && unchanged(data)
      ensures ok ==> Elements == [item] + old(Elements)
      ensures ok ==> capacity == GrownCapacity(old(size), old(capacity))
    {
      InsertAtFront(Elements, item);
      ok := Insert(0, item);
    }

    /** `pop()`: `None` on an empty vector; otherwise removes and returns the
        last element, then halves the capacity when a quarter full or less
        and above 16. */
    method Pop() returns (r: Option<Int32>)
      requires Valid()
      modifies this, data
      ensures Valid() && (data == old(data) || fresh(data))
      ensures r.None? <==> old(Elements) == []
      ensures r.None? ==> unchanged(this) && unchanged(data)
      ensures r.Some? ==> r.value == old(Elements)[old(size) - 1]
      ensures r.Some? ==> Elements == old(Elements)[..old(size) - 1]
      ensures r.Some? ==> capacity == PoppedCapacity(old(size) - 1, old(capacity))
    {
      if size == 0 {
        return None;
      }
      var value := data[size - 1];
      size := size - 1;
      Elements := Elements[..size];
      PopShrinksSafely(size, capacity);
      if size <= capacity / 4 && capacity > DefaultCapacity {
        Resize(capacity / 2);
      }
      return Some(value);
    }

    /** `delete(index)`: fails, changing nothing, unless `index < size`;
        otherwise shifts the later elements one slot to the left, then
        DOUBLES the capacity when a quarter full or less and above 16. */
    method Delete(index: nat) returns (ok: bool)
      requires Valid()
      modifies this, data
      ensures Valid() && (data == old(data) || fresh(data))
      ensures ok <==> index < old(size)
      ensures !ok ==> unchanged(this) && unchanged(data)
      ensures ok ==> Elements == DeleteAt(old(Elements), index)
      ensures ok ==> size == old(size) - 1
      ensures ok ==> capacity == DeletedCapacity(old(size) - 1, old(capacity))
    {
      if index >= size {
        return false;
      }
      ghost var s := Elements;
      for i := index to size - 1
        modifies data
        invariant forall k :: 0 <= k < index ==> data[k] == s[k]
        invariant forall k :: index <= k < i ==> data[k] == s[k + 1]
        invariant forall k :: i <= k < size ==> data[k] == s[k]
      {
        data[i] := data[i + 1];
      }
      ShiftedLeftIsDeleteAt(data[..size - 1], s, index);
      size := size - 1;
      Elements := DeleteAt(s, index);
      DeleteNeverShrinks(size, capacity);
      if size <= capacity / 4 && capacity > DefaultCapacity {
        Resize(capacity * 2);
      }
      return true;
    }

    /** `remove(item)`: deletes every occurrence of `item`, re-examining the
        same position after each deletion. Each deletion may double the
        capacity, so the capacity never decreases. */
    method Remove(item: Int32)
      requires Valid()
      modifies this, data
      ensures Valid() && (data == old(data) || fresh(data))
      ensures Elements == Without(old(Elements), item)
      ensures capacity >= old(capacity)
      ensures item !in old(Elements) ==> Elements == old(Elements) && capacity == old(capacity) && data == old(data)
    {
      var i := 0;
      ghost var kept := Without(old(Elements), item);
      while i < size
        invariant Valid() && (data == old(data) || fresh(data))
        invariant i <= size
        invariant Elements[..i] + Without(Elements[i..], item) == kept
        invariant capacity >= old(capacity)
        invariant item !in old(Elements) ==> Elements == old(Elements) && capacity == old(capacity) && data == old(data)
        decreases size - i
      {
        RemovalStep(Elements, i, item);
        if data[i] == item {
          var _ := Delete(i);
        } else {
          i := i + 1;
        }
      }
      assert Elements[i..] == [];
      assert Elements[..i] == Elements;
    }

    /** `find(item)`: the first index holding `item`, or -1. */
    method Find(item: Int32) returns (r: int)
      requires Valid()
      ensures -1 <= r < |Elements|
      ensures r == -1 <==> item !in Elements
      ensures r >= 0 ==> Elements[r] == item && item !in Elements[..r]
    {
      for i := 0 to size
        invariant item !in Elements[..i]
      {
        if data[i] == item {
          return i;
        }
        assert Elements[..i + 1] == Elements[..i] + [Elements[i]];
      }
      assert Elements[..size] == Elements;
      return -1;
    }
  }

  /** The first half of the repository's unit test: construction, `push`,
      `insert` and `prepend`. */
  method BuildScenario() returns (v: Vector)
    ensures fresh(v) && fresh(v.data) && v.Valid()
    ensures v.Elements == [5, 10, 15, 20] && v.Capacity() == 16
  {
    v := new Vector(0);
    assert v.Size() == 0 && v.Capacity() == 16 && v.IsEmpty();

    v.Push(10);
    assert v.Elements == [10];
    assert v.At(0) == Ok(10) && v.Size() == 1;

    v.Push(20);
    var inserted := v.Insert(1, 15);
    assert inserted && v.Elements == [10, 15, 20];
    assert v.At(1) == Ok(15);

    var prepended := v.Prepend(5);
    assert prepended && v.Elements == [5, 10, 15, 20];
    assert v.At(0) == Ok(5);
  }

  /** The rest of the repository's unit test: `pop`, `delete`, `find` and
      `remove`. */
  method VectorOperationsScenario() returns (v: Vector)
    ensures fresh(v) && v.Valid() && v.Elements == [10]
  {
    v := BuildScenario();
    var popped := v.Pop();
    assert popped == Some(20) && v.Elements == [5, 10, 15];

    var deleted := v.Delete(0);
    assert deleted && v.Elements == [10, 15];
    var found := v.Find(15);
    assert found == 1;

    v.Remove(15);
    assert Without([15], 15) == [];
    assert v.Elements == [10];
    found := v.Find(15);
    assert found == -1;
    assert v.Size() == 1;
  }

  /** Pushing a value and popping at once returns that value and restores
      the previous elements. */
  method PushThenPop(v: Vector, item: Int32) returns (r: Option<Int32>)
    requires v.Valid()
    modifies v, v.data
    ensures v.Valid()
    ensures r == Some(item)
    ensures v.Elements == old(v.Elements) && v.Size() == old(v.Size())
  {
    v.Push(item);
    r := v.Pop();
  }
}
