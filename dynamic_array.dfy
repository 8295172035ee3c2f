/** A growable array: contents in the prefix data[..size] of a buffer of length capacity. */
module DynamicArrays {
  import opened Errors

  /** The capacity a full array grows to: 1 when it had none, otherwise double. */
  function GrownCapacity(capacity: nat): (r: nat)
    ensures r > capacity
    ensures capacity > 0 ==> r == 2 * capacity
  {
    if capacity == 0 then 1 else capacity * 2
  }

  class DynamicArray<T(0)> {
    var data: array<T>
    var size: nat
    var capacity: nat
    ghost var Repr: set<object>

    /** The object invariant: 0 <= size <= capacity, and capacity is the buffer's length. */
    ghost predicate Valid()
      reads this, Repr
    {
      Repr == {this, data} && capacity == data.Length && size <= capacity
    }

    /** The contents, in order. */
    ghost function Elements(): (s: seq<T>)
      reads this, Repr
      requires Valid()
      ensures |s| == size
    {
      data[..size]
    }

    /** The default constructor: no buffer, no elements. */
    constructor ()
      ensures Valid() && fresh(Repr)
      ensures Elements() == [] && capacity == 0
    {
      data := new T[0];
      size, capacity := 0, 0;
      new;
      Repr := {this, data};
    }

    /** The constructor with an initial capacity. */
    constructor WithCapacity(initialCapacity: nat)
      ensures Valid() && fresh(Repr)
      ensures Elements() == [] && capacity == initialCapacity
    {
      data := new T[initialCapacity];
      size, capacity := 0, initialCapacity;
      new;
      Repr := {this, data};
    }

    /** The copy constructor: equal contents, size and capacity in a buffer of its own. */
    constructor Copy(other: DynamicArray<T>)
      requires other.Valid()
      ensures Valid() && fresh(Repr)
      ensures Elements() == other.Elements()
      ensures size == other.size && capacity == other.capacity
    {
      var newData := new T[other.capacity];
      var i := 0;
      while i < other.size
        invariant 0 <= i <= other.size
        invariant forall k :: 0 <= k < i ==> newData[k] == other.data[k]
      {
        newData[i] := other.data[i];
        i := i + 1;
      }
      data := newData;
      size, capacity := other.size, other.capacity;
      new;
      Repr := {this, data};
    }

    /** Copy assignment: equal contents, size and capacity; a separate buffer unless it is self-assignment. */
    method Assign(other: DynamicArray<T>)
      requires Valid() && other.Valid()
      modifies this
      ensures Valid() && fresh(Repr - old(Repr))
      ensures Elements() == old(other.Elements())
      ensures size == old(other.size) && capacity == old(other.capacity)
      ensures other == this ==> data == old(data)
      ensures other != this ==> fresh(data) && unchanged(other) && other.Elements() == old(other.Elements())
    {
      if this != other {
        var newData := new T[other.capacity];
        var i := 0;
        while i < other.size
          modifies newData
          invariant 0 <= i <= other.size
          invariant forall k :: 0 <= k < i ==> newData[k] == other.data[k]
        {
          newData[i] := other.data[i];
          i := i + 1;
        }
        data := newData;
        size, capacity := other.size, other.capacity;
        Repr := {this, data};
      }
    }

    /** Moves the contents to a new buffer of the given capacity. */
    method Resize(newCapacity: nat)
      requires Valid() && size <= newCapacity
      modifies this
      ensures Valid() && fresh(data) && fresh(Repr - old(Repr))
      ensures capacity == newCapacity && Elements() == old(Elements())
    {
      var newData := new T[newCapacity];
      var i := 0;
      while i < size
        modifies newData
        invariant 0 <= i <= size
        invariant forall k :: 0 <= k < i ==> newData[k] == data[k]
      {
        newData[i] := data[i];
        i := i + 1;
      }
      data := newData;
      capacity := newCapacity;
      Repr := {this, data};
    }

    /** The element at index, or IndexOutOfRange unless 0 <= index < size. */
    method Get(index: int) returns (r: Result<T>)
      requires Valid()
      ensures r.Ok? <==> 0 <= index < |Elements()|
      ensures r.Ok? ==> r.value == Elements()[index]
      ensures r.Err? ==> r.error == IndexOutOfRange
    {
      if index < 0 || index >= size {
        return Err(IndexOutOfRange);
      }
      return Ok(data[index]);
    }

    /** The first element, or EmptyArray. */
    method GetFirst() returns (r: Result<T>)
      requires Valid()
      ensures r.Ok? <==> Elements() != []
      ensures r.Ok? ==> r.value == Elements()[0]
      ensures r.Err? ==> r.error == EmptyArray
    {
      if size == 0 {
        return Err(EmptyArray);
      }
      return Ok(data[0]);
    }

    /** The last element, or EmptyArray. */
    method GetLast() returns (r: Result<T>)
      requires Valid()
      ensures r.Ok? <==> Elements() != []
      ensures r.Ok? ==> r.value == Elements()[|Elements()| - 1]
      ensures r.Err? ==> r.error == EmptyArray
    {
      if size == 0 {
        return Err(EmptyArray);
      }
      return Ok(data[size - 1]);
    }

    method GetSize() returns (n: int)
      requires Valid()
      ensures n == |Elements()| && 0 <= n <= capacity
    {
      return size;
    }

    /** Adds item at the end, growing a full buffer first. */
    method Append(item: T)
      requires Valid()
      modifies Repr
      ensures Valid() && fresh(Repr - old(Repr))
      ensures Elements() == old(Elements()) + [item]
      ensures capacity == if old(size) == old(capacity) then GrownCapacity(old(capacity)) else old(capacity)
    {
      if size == capacity {
        Resize(GrownCapacity(capacity));
      }
      data[size] := item;
      size := size + 1;
    }

    /** Inserts item before position index (0 <= index <= size), shifting the tail right. */
    method InsertAt(item: T, index: int) returns (r: Outcome)
      requires Valid()
      modifies Repr
      ensures Valid() && fresh(Repr - old(Repr))
      ensures r == if 0 <= index <= old(size) then Pass else Fail(IndexOutOfRange)
      ensures r.Pass? ==> Elements() == old(Elements())[..index] + [item] + old(Elements())[index..]
      ensures r.Pass? ==> capacity == if old(size) == old(capacity) then GrownCapacity(old(capacity)) else old(capacity)
      ensures r.Fail? ==> Elements() == old(Elements()) && capacity == old(capacity)
    {
      if index < 0 || index > size {
        return Fail(IndexOutOfRange);
      }
      if size == capacity {
        Resize(GrownCapacity(capacity));
      }
      ghost var s := Elements();
      ShiftRight(index);
      data[index] := item;
      size := size + 1;
      ghost var t := s[..index] + [item] + s[index..];
      forall k | 0 <= k < size ensures data[k] == t[k] {
        if k < index {
          assert t[k] == s[k];
        } else if k > index {
          assert t[k] == s[k - 1];
        }
      }
      assert data[..size] == t;
      return Pass;
    }

    /** Moves the elements from index on one slot to the right, into the spare slot at size. */
    method ShiftRight(index: int)
      requires Valid() && 0 <= index <= size < capacity
      modifies data
      ensures forall k :: 0 <= k < index ==> data[k] == old(data[k])
      ensures forall k :: index < k <= size ==> data[k] == old(data[k - 1])
    {
      var i := size;
      while i > index
        invariant index <= i <= size < data.Length
        invariant forall k :: 0 <= k < i ==> data[k] == old(data[k])
        invariant forall k :: i < k <= size ==> data[k] == old(data[k - 1])
      {
        data[i] := data[i - 1];
        i := i - 1;
      }
    }

    /** Inserts item at the front. */
    method Prepend(item: T)
      requires Valid()
      modifies Repr
      ensures Valid() && fresh(Repr - old(Repr))
      ensures Elements() == [item] + old(Elements())
    {
      var r := InsertAt(item, 0);
      assert old(Elements())[..0] == [] && old(Elements())[0..] == old(Elements());
    }

    /** Removes the element at index (0 <= index < size), shifting the tail left. */
    method RemoveAt(index: int) returns (r: Outcome)
      requires Valid()
      modifies this, data
      ensures Valid() && data == old(data) && capacity == old(capacity)
      ensures r == if 0 <= index < old(size) then Pass else Fail(IndexOutOfRange)
      ensures r.Pass? ==> Elements() == old(Elements())[..index] + old(Elements())[index + 1..]
      ensures r.Fail? ==> Elements() == old(Elements())
    {
      if index < 0 || index >= size {
        return Fail(IndexOutOfRange);
      }
      ghost var s := Elements();
      var i := index;
      while i < size - 1
        modifies data
        invariant index <= i <= size - 1
        invariant forall k :: 0 <= k < index ==> data[k] == s[k]
        invariant forall k :: index <= k < i ==> data[k] == s[k + 1]
        invariant forall k :: i <= k < size ==> data[k] == s[k]
      {
        data[i] := data[i + 1];
        i := i + 1;
      }
      size := size - 1;
      assert Elements() == s[..index] + s[index + 1..];
      return Pass;
    }

    /** Overwrites position index (0 <= index < size) and nothing else. */
    method Set(index: int, value: T) returns (r: Outcome)
      requires Valid()
      modifies data
      ensures Valid()
      ensures r == if 0 <= index < size then Pass else Fail(IndexOutOfRange)
      ensures Elements() == if r.Pass? then old(Elements())[index := value] else old(Elements())
    {
      if index < 0 || index >= size {
        return Fail(IndexOutOfRange);
      }
      data[index] := value;
      return Pass;
    }

    /** Forgets the contents and keeps the buffer. */
    method Clear()
      requires Valid()
      modifies this
      ensures Valid() && Repr == old(Repr) && data == old(data)
      ensures Elements() == [] && capacity == old(capacity)
    {
      size := 0;
    }
  }
}
