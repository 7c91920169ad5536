/** The abstract model of the vector: its element type, the sequence
    operations its mutators perform on the live elements, and the
    capacity policy its resizes follow. */
module VectorModel {
  import opened PowersOfTwo

  /** Rust's `i32`, the only element type the vector stores. */
  newtype Int32 = x: int | -0x8000_0000 <= x < 0x8000_0000

  /** Rust's `Option`, returned by `pop`. */
  datatype Option<T> = None | Some(value: T)

  /** A bounds-checked read: the value, or the out-of-bounds panic. */
  datatype Outcome<T> = Ok(value: T) | OutOfBounds

  /** The capacity used when no hint is given, and the floor below
      which `pop` and `delete` never resize. */
  const DefaultCapacity: nat := 16

  // ---------------------------------------------------------------------
  // Capacity policy

  /** The capacity `new(hint)` allocates. */
  function InitialCapacity(hint: nat): (c: nat)
    ensures IsPowerOfTwo(c)
    ensures hint == 0 ==> c == DefaultCapacity
    ensures hint > 0 ==> hint <= c && c / 2 < hint
  {
    if hint > 0 then NextPowerOfTwo(hint) else DefaultCapacity
  }

  /** For a non-zero hint, no power of two at least the hint is smaller
      than the initial capacity. */
  lemma InitialCapacityIsLeast(hint: nat, q: nat)
    requires hint > 0 && IsPowerOfTwo(q) && hint <= q
    ensures InitialCapacity(hint) <= q
  {
    NextPowerOfTwoIsLeast(hint, q);
  }

  /** A non-zero hint gets no floor of 16: a hint of 5 yields 8 slots. */
  lemma SmallHintHasNoFloor()
    ensures InitialCapacity(5) == 8 && InitialCapacity(1) == 1
  {
    assert NextPowerOfTwo(3) == 4;
  }

  /** Capacity after `push` or `insert` make room for one more element. */
  function GrownCapacity(size: nat, capacity: nat): nat
  {
    if size == capacity then 2 * capacity else capacity
  }

  /** Capacity after `pop` has removed an element, `size` being the new size. */
  function PoppedCapacity(size: nat, capacity: nat): nat
  {
    if size <= capacity / 4 && capacity > DefaultCapacity then capacity / 2 else capacity
  }

  /** Capacity after `delete` has removed an element, `size` being the new
      size: the same trigger as for `pop`, but the capacity is doubled. */
  function DeletedCapacity(size: nat, capacity: nat): nat
  {
    if size <= capacity / 4 && capacity > DefaultCapacity then 2 * capacity else capacity
  }

  /** Growing leaves room for the new element, keeps the capacity a power
      of two, and changes the capacity exactly when the buffer is full. */
  lemma GrowthMakesRoom(size: nat, capacity: nat)
    requires size <= capacity && IsPowerOfTwo(capacity)
    ensures size < GrownCapacity(size, capacity)
    ensures IsPowerOfTwo(GrownCapacity(size, capacity))
    ensures GrownCapacity(size, capacity) != capacity <==> size == capacity
  {
    DoubleIsPowerOfTwo(capacity);
  }

  /** After a pop the elements still fit, the capacity stays a power of two,
      never grows, and never drops below 16 once it was above it. */
  lemma PopShrinksSafely(size: nat, capacity: nat)
    requires size < capacity && IsPowerOfTwo(capacity)
    ensures size <= PoppedCapacity(size, capacity) <= capacity
    ensures IsPowerOfTwo(PoppedCapacity(size, capacity))
    ensures capacity > DefaultCapacity ==> PoppedCapacity(size, capacity) >= DefaultCapacity
    ensures PoppedCapacity(size, capacity) < capacity <==> size <= capacity / 4 && capacity > DefaultCapacity
  {
    if capacity > DefaultCapacity {
      PowerOfTwoAbove16(capacity);
      HalfIsPowerOfTwo(capacity);
    }
  }

  /** After a delete the elements still fit and the capacity stays a power
      of two, but it never decreases: the shrink branch doubles it. */
  lemma DeleteNeverShrinks(size: nat, capacity: nat)
    requires size < capacity && IsPowerOfTwo(capacity)
    ensures size <= capacity <= DeletedCapacity(size, capacity)
    ensures IsPowerOfTwo(DeletedCapacity(size, capacity))
    ensures DeletedCapacity(size, capacity) > capacity <==> size <= capacity / 4 && capacity > DefaultCapacity
  {
    DoubleIsPowerOfTwo(capacity);
  }

  // ---------------------------------------------------------------------
  // The live elements

  /** The elements after inserting `v` at `index`, later ones shifted right. */
  function InsertAt(s: seq<Int32>, index: nat, v: Int32): (r: seq<Int32>)
    requires index <= |s|
  {
    s[..index] + [v] + s[index..]
  }

  /** The elements after deleting the one at `index`, later ones shifted left. */
  function DeleteAt(s: seq<Int32>, index: nat): (r: seq<Int32>)
    requires index < |s|
  {
    s[..index] + s[index + 1..]
  }

  /** The elements other than `x`, in their original order. */
  function Without(s: seq<Int32>, x: Int32): (r: seq<Int32>)
  {
    if s == [] then []
    else (if s[0] == x then [] else [s[0]]) + Without(s[1..], x)
  }

  /** Inserting places `v` at `index` and moves every later element one
      position to the right. */
  lemma InsertAtShifts(s: seq<Int32>, index: nat, v: Int32)
    requires index <= |s|
    ensures |InsertAt(s, index, v)| == |s| + 1
    ensures InsertAt(s, index, v)[index] == v
    ensures forall k :: 0 <= k < index ==> InsertAt(s, index, v)[k] == s[k]
    ensures forall k :: index < k <= |s| ==> InsertAt(s, index, v)[k] == s[k - 1]
  {
  }

  /** A sequence that agrees with `s` before `index`, holds `v` at `index`
      and holds `s` shifted right after it is `InsertAt(s, index, v)`. */
  lemma ShiftedRightIsInsertAt(t: seq<Int32>, s: seq<Int32>, index: nat, v: Int32)
    requires index <= |s| && |t| == |s| + 1 && t[index] == v
    requires forall k :: 0 <= k < index ==> t[k] == s[k]
    requires forall k :: index < k <= |s| ==> t[k] == s[k - 1]
    ensures t == InsertAt(s, index, v)
  {
    InsertAtShifts(s, index, v);
  }

  /** Deleting moves every element after `index` one position to the left. */
  lemma DeleteAtShifts(s: seq<Int32>, index: nat)
    requires index < |s|
    ensures |DeleteAt(s, index)| == |s| - 1
    ensures forall k :: 0 <= k < index ==> DeleteAt(s, index)[k] == s[k]
    ensures forall k :: index <= k < |s| - 1 ==> DeleteAt(s, index)[k] == s[k + 1]
  {
  }

  /** A sequence that agrees with `s` before `index` and holds `s` shifted
      left from `index` on is `DeleteAt(s, index)`. */
  lemma ShiftedLeftIsDeleteAt(t: seq<Int32>, s: seq<Int32>, index: nat)
    requires index < |s| && |t| == |s| - 1
    requires forall k :: 0 <= k < index ==> t[k] == s[k]
    requires forall k :: index <= k < |s| - 1 ==> t[k] == s[k + 1]
    ensures t == DeleteAt(s, index)
  {
    DeleteAtShifts(s, index);
  }

  /** Inserting adds exactly one occurrence of `v` and loses nothing. */
  lemma InsertAtAddsOne(s: seq<Int32>, index: nat, v: Int32)
    requires index <= |s|
    ensures multiset(InsertAt(s, index, v)) == multiset(s) + multiset{v}
  {
    assert s == s[..index] + s[index..];
  }

  /** Deleting removes exactly one occurrence of the deleted element. */
  lemma DeleteAtRemovesOne(s: seq<Int32>, index: nat)
    requires index < |s|
    ensures multiset(DeleteAt(s, index)) == multiset(s) - multiset{s[index]}
  {
    assert s == s[..index] + [s[index]] + s[index + 1..];
  }

  /** Deleting what was just inserted gives back the original elements. */
  lemma DeleteUndoesInsert(s: seq<Int32>, index: nat, v: Int32)
    requires index <= |s|
    ensures DeleteAt(InsertAt(s, index, v), index) == s
  {
    var t := InsertAt(s, index, v);
    assert t[..index] == s[..index];
    assert t[index + 1..] == s[index..];
    assert s == s[..index] + s[index..];
  }

  /** Re-inserting a deleted element at its position restores the elements. */
  lemma InsertUndoesDelete(s: seq<Int32>, index: nat)
    requires index < |s|
    ensures InsertAt(DeleteAt(s, index), index, s[index]) == s
  {
    var t := DeleteAt(s, index);
    assert t[..index] == s[..index];
    assert t[index..] == s[index + 1..];
    assert s == s[..index] + [s[index]] + s[index + 1..];
  }

  /** Prepending is inserting at position 0. */
  lemma InsertAtFront(s: seq<Int32>, v: Int32)
    ensures InsertAt(s, 0, v) == [v] + s
  {
  }

  /** No occurrence of `x` survives. */
  lemma {:induction false} WithoutRemovesAll(s: seq<Int32>, x: Int32)
    ensures x !in Without(s, x)
    decreases |s|
  {
    if s != [] {
      WithoutRemovesAll(s[1..], x);
    }
  }

  /** Every other value keeps its number of occurrences. */
  lemma {:induction false} WithoutKeepsOthers(s: seq<Int32>, x: Int32, y: Int32)
    requires y != x
    ensures multiset(Without(s, x))[y] == multiset(s)[y]
    decreases |s|
  {
    if s != [] {
      WithoutKeepsOthers(s[1..], x, y);
      assert s == [s[0]] + s[1..];
    }
  }

  /** Exactly the occurrences of `x` are dropped. */
  lemma {:induction false} WithoutLength(s: seq<Int32>, x: Int32)
    ensures |Without(s, x)| == |s| - multiset(s)[x]
    decreases |s|
  {
    if s != [] {
      WithoutLength(s[1..], x);
      assert s == [s[0]] + s[1..];
    }
  }

  /** Filtering a concatenation filters each part and keeps them in order,
      so the survivors keep their relative order. */
  lemma {:induction false} WithoutDistributes(a: seq<Int32>, b: seq<Int32>, x: Int32)
    ensures Without(a + b, x) == Without(a, x) + Without(b, x)
    decreases |a|
  {
    if a == [] {
      assert a + b == b;
    } else {
      assert (a + b)[1..] == a[1..] + b;
      WithoutDistributes(a[1..], b, x);
    }
  }

  /** Without occurrences of `x` nothing changes; in particular filtering
      twice is filtering once. */
  lemma {:induction false} WithoutOfAbsent(s: seq<Int32>, x: Int32)
    requires x !in s
    ensures Without(s, x) == s
    decreases |s|
  {
    if s != [] {
      WithoutOfAbsent(s[1..], x);
    }
  }

  lemma WithoutIsIdempotent(s: seq<Int32>, x: Int32)
    ensures Without(Without(s, x), x) == Without(s, x)
  {
    WithoutRemovesAll(s, x);
    WithoutOfAbsent(Without(s, x), x);
  }

  /** One step of the left-to-right removal scan at position `i`: deleting an
      occurrence of `x` there, or stepping past another value, leaves the
      elements already kept followed by the filtered rest unchanged. */
  lemma RemovalStep(s: seq<Int32>, i: nat, x: Int32)
    requires i < |s|
    ensures s[i] == x ==>
      DeleteAt(s, i)[..i] + Without(DeleteAt(s, i)[i..], x) == s[..i] + Without(s[i..], x)
    ensures s[i] != x ==>
      s[..i + 1] + Without(s[i + 1..], x) == s[..i] + Without(s[i..], x)
  {
    assert s[i..][1..] == s[i + 1..];
    if s[i] == x {
      assert DeleteAt(s, i)[..i] == s[..i];
      assert DeleteAt(s, i)[i..] == s[i + 1..];
    } else {
      assert s[..i + 1] == s[..i] + [s[i]];
    }
  }
}
