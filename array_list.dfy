/**
 * ArrayList: a list stored in the first `size` slots of an object array
 * whose remaining slots hold null, doubling the array when it is full.
 * Elements are never null; a slot is `None` for null or `Some(e)`.
 */
module ArrayLists {
  import opened Wrappers

  /** `DEFAULT_CAPACITY`: the array length of a default or cleared list. */
  const DefaultCapacity: nat := 5

  /**
   * `System.arraycopy(src, srcPos, dest, destPos, length)`: copies as if
   * through a temporary array, so `src` and `dest` may be the same array;
   * a negative position or length, or a range that does not fit either
   * array, throws before anything is copied.
   */
  method ArrayCopy<E>(src: array<E>, srcPos: int, dest: array<E>, destPos: int, length: int) returns (r: Outcome)
    modifies dest
    ensures r == if srcPos < 0 || destPos < 0 || length < 0
                    || srcPos + length > src.Length || destPos + length > dest.Length
                 then Fail(ArrayIndexOutOfBounds) else Pass
    ensures r.Fail? ==> dest[..] == old(dest[..])
    ensures r.Pass? ==> forall k :: destPos <= k < destPos + length ==> dest[k] == old(src[srcPos + k - destPos])
    ensures r.Pass? ==> forall k :: 0 <= k < dest.Length && !(destPos <= k < destPos + length) ==> dest[k] == old(dest[k])
  {
    if srcPos < 0 || destPos < 0 || length < 0 || srcPos + length > src.Length || destPos + length > dest.Length {
      return Fail(ArrayIndexOutOfBounds);
    }
    forall k | destPos <= k < destPos + length {
      dest[k] := src[srcPos + k - destPos];
    }
    r := Pass;
  }

  /**
   * The elements `add(index, element)` leaves, for `0 <= index <= |s|`:
   * the slots from `index` move up by one and the element is then written
   * into the new last slot, not into slot `index`.
   */
  function ShiftThenAppend<T>(s: seq<T>, index: nat, element: T): (r: seq<T>)
    requires index <= |s|
    ensures |r| == |s| + 1 && r[|s|] == element
    ensures forall k :: 0 <= k <= index && k < |s| ==> r[k] == s[k]
    ensures forall k :: index < k < |s| ==> r[k] == s[k - 1]
  {
    if index == |s| then s + [element] else s[..index + 1] + s[index..|s| - 1] + [element]
  }

  /**
   * At `index == |s|`, and also at `index == |s| - 1`, the as-written
   * `add(index, element)` is an ordinary append.
   */
  lemma ShiftThenAppendNearEnd<T>(s: seq<T>, index: nat, element: T)
    requires |s| - 1 <= index <= |s|
    ensures ShiftThenAppend(s, index, element) == s + [element]
  {
  }

  /**
   * Below the end, the as-written `add(index, element)` is an insertion at
   * `index` only when the element equals both the one already at `index`
   * and the last one: slot `index` keeps its old element, which below the
   * last slot also appears again in slot `index + 1`.
   */
  lemma ShiftThenAppendIsNotInsertion<T>(s: seq<T>, index: nat, element: T)
    requires index < |s|
    ensures ShiftThenAppend(s, index, element)[index] == s[index]
    ensures index + 1 < |s| ==> ShiftThenAppend(s, index, element)[index + 1] == s[index]
    ensures ShiftThenAppend(s, index, element) == s[..index] + [element] + s[index..]
            <==> element == s[index] && element == s[|s| - 1]
  {
  }

  /** The elements `remove(index)` leaves: those before `index`, then those after it. */
  function RemovedAt<T>(s: seq<T>, index: nat): (r: seq<T>)
    requires index < |s|
    ensures |r| == |s| - 1
    ensures forall k :: 0 <= k < index ==> r[k] == s[k]
    ensures forall k :: index <= k < |r| ==> r[k] == s[k + 1]
  {
    s[..index] + s[index + 1..]
  }

  class ArrayList<T(==)> {
    var elementData: array<Option<T>>
    var size: int

    /** The elements, in slot order. */
    ghost var Contents: seq<T>

    /** The first `size` slots hold the elements and every later slot is null. */
    ghost predicate Valid()
      reads this, elementData
    {
      && 0 <= size <= elementData.Length
      && |Contents| == size
      && (forall k :: 0 <= k < size ==> elementData[k] == Some(Contents[k]))
      && (forall k :: size <= k < elementData.Length ==> elementData[k] == None)
    }

    /** `ArrayList(initCapacity)`: an empty list over an array of that length. */
    constructor (initCapacity: nat)
      ensures Valid() && fresh(elementData)
      ensures elementData.Length == initCapacity && Contents == [] && size == 0
    {
      elementData := new Option<T>[initCapacity](_ => None);
      size := 0;
      Contents := [];
    }

    /** `ArrayList()`: an empty list over an array of the default length. */
    constructor Default()
      ensures Valid() && fresh(elementData)
      ensures elementData.Length == DefaultCapacity && Contents == [] && size == 0
    {
      elementData := new Option<T>[DefaultCapacity](_ => None);
      size := 0;
      Contents := [];
    }

    /**
     * `of(elements)`: allocates an array of `|elements|` slots and calls
     * `set(i, elements[i])` in turn; since the new list has size 0 the first
     * `set` throws, so only an empty argument yields a list.
     */
    static method Of(elements: seq<T>) returns (r: Result<ArrayList<T>>)
      ensures elements != [] ==> r == Failure(IndexOutOfBounds)
      ensures elements == [] ==> r.Success? && fresh(r.value) && r.value.Valid()
      ensures elements == [] ==> r.value.Contents == [] && fresh(r.value.elementData) && r.value.elementData.Length == 0
    {
      var arrayList := new ArrayList<T>(|elements|);
      var outcome := Pass;
      var i := 0;
      while i < |elements| && outcome.Pass?
        invariant 0 <= i <= |elements|
        invariant fresh(arrayList) && fresh(arrayList.elementData) && arrayList.Valid()
        invariant arrayList.Contents == [] && arrayList.elementData.Length == |elements|
        invariant outcome == if i == 0 then Pass else Fail(IndexOutOfBounds)
      {
        outcome := arrayList.Set(i, elements[i]);
        i := i + 1;
      }
      if outcome.Fail? {
        return Failure(outcome.error);
      }
      r := Success(arrayList);
    }

    /**
     * `add(element)`: store the element after the last one, doubling a full
     * array first. A zero-length array stays zero-length when doubled, so
     * there the store throws, after the counter has already moved to 1.
     */
    method Add(element: T) returns (r: Outcome)
      requires Valid()
      modifies this, elementData
      ensures r == if old(elementData.Length) == 0 then Fail(ArrayIndexOutOfBounds) else Pass
      ensures r.Pass? ==> Valid() && Contents == old(Contents) + [element]
      ensures r.Pass? ==> elementData.Length == (if old(size) == old(elementData.Length) then 2 * old(size) else old(elementData.Length))
      ensures r.Fail? ==> size == 1 && elementData.Length == 0
      ensures elementData == old(elementData) || fresh(elementData)
    {
      IncreaseArraySizeIfNeeded();
      size := size + 1;
      if size - 1 >= elementData.Length {
        return Fail(ArrayIndexOutOfBounds);
      }
      elementData[size - 1] := Some(element);
      Contents := Contents + [element];
      r := Pass;
    }

    /** `increaseArraySizeIfNeeded()`: a full array is replaced by a copy of twice its length. */
    method IncreaseArraySizeIfNeeded()
      requires Valid()
      modifies this
      ensures Valid() && Contents == old(Contents) && size == old(size)
      ensures elementData.Length ==
        if old(size) == old(elementData.Length) then 2 * old(size) else old(elementData.Length)
      ensures elementData == old(elementData) || fresh(elementData)
    {
      if size == elementData.Length {
        var copy := new Option<T>[size * 2](_ => None);
        forall k | 0 <= k < size {
          copy[k] := elementData[k];
        }
        elementData := copy;
      }
    }

    /**
     * `add(index, element)`: after growing a full array, the slots from
     * `index` move up by one and the element lands in the new last slot
     * (see `ShiftThenAppend`). An index outside `0..size`, or any index on a
     * zero-length array, makes the shift throw; the elements are then
     * unchanged, though a full array has already been replaced.
     */
    method AddAt(index: int, element: T) returns (r: Outcome)
      requires Valid()
      modifies this, elementData
      ensures Valid()
      ensures r == if 0 <= index <= old(size) && old(elementData.Length) > 0 then Pass
                   else Fail(ArrayIndexOutOfBounds)
      ensures Contents == if r.Pass? then ShiftThenAppend(old(Contents), index, element) else old(Contents)
      ensures elementData.Length == (if old(size) == old(elementData.Length) then 2 * old(size) else old(elementData.Length))
      ensures elementData == old(elementData) || fresh(elementData)
    {
      IncreaseArraySizeIfNeeded();
      ghost var before := elementData[..];
      var copied := ArrayCopy(elementData, index, elementData, index + 1, size - index);
      if copied.Fail? {
        return Fail(copied.error);
      }
      size := size + 1;
      elementData[size - 1] := Some(element);
      ghost var shifted := ShiftThenAppend(Contents, index, element);
      forall k | 0 <= k < elementData.Length
        ensures elementData[k] == if k < size then Some(shifted[k]) else None
      {
        if k <= index && k < size - 1 {
          assert elementData[k] == before[k];
        } else if index < k < size - 1 {
          assert elementData[k] == before[k - 1];
        } else if k >= size {
          assert elementData[k] == before[k];
        }
      }
      Contents := shifted;
      r := Pass;
    }

    /** `checkIndex(index)`: an index outside the elements throws. */
    function CheckIndex(index: int): (r: Outcome)
      requires Valid()
      reads this, elementData
      ensures r.Pass? <==> 0 <= index < |Contents|
      ensures r.Fail? ==> r.error == IndexOutOfBounds
    {
      if index < 0 || index >= size then Fail(IndexOutOfBounds) else Pass
    }

    /** `checkIfEmpty()`: an empty list throws. */
    function CheckIfEmpty(): (r: Outcome)
      requires Valid()
      reads this, elementData
      ensures r.Pass? <==> Contents != []
      ensures r.Fail? ==> r.error == NoSuchElement
    {
      if size == 0 then Fail(NoSuchElement) else Pass
    }

    /** `get(index)`: the element at a valid index. */
    method Get(index: int) returns (r: Result<T>)
      requires Valid()
      ensures r == if 0 <= index < |Contents| then Success(Contents[index]) else Failure(IndexOutOfBounds)
    {
      var check := CheckIndex(index);
      if check.Fail? {
        return Failure(check.error);
      }
      r := Success(elementData[index].value);
    }

    /** `getFirst()`: slot 0; an empty list throws. */
    method GetFirst() returns (r: Result<T>)
      requires Valid()
      ensures r == if Contents == [] then Failure(NoSuchElement) else Success(Contents[0])
    {
      var check := CheckIfEmpty();
      if check.Fail? {
        return Failure(check.error);
      }
      r := Success(elementData[0].value);
    }

    /** `getLast()`: slot `size - 1`; an empty list throws. */
    method GetLast() returns (r: Result<T>)
      requires Valid()
      ensures r == if Contents == [] then Failure(NoSuchElement) else Success(Contents[|Contents| - 1])
    {
      var check := CheckIfEmpty();
      if check.Fail? {
        return Failure(check.error);
      }
      r := Success(elementData[size - 1].value);
    }

    /** `set(index, element)`: replace the element at a valid index and no other slot. */
    method Set(index: int, element: T) returns (r: Outcome)
      requires Valid()
      modifies this, elementData
      ensures Valid() && elementData == old(elementData) && size == old(size)
      ensures r == if 0 <= index < |Contents| then Pass else Fail(IndexOutOfBounds)
      ensures Contents == if r.Pass? then old(Contents)[index := element] else old(Contents)
      ensures forall k :: 0 <= k < elementData.Length && k != index ==> elementData[k] == old(elementData[k])
    {
      var check := CheckIndex(index);
      if check.Fail? {
        return Fail(check.error);
      }
      elementData[index] := Some(element);
      Contents := Contents[index := element];
      r := Pass;
    }

    /**
     * `remove(index)`: the element at a valid index; later slots move down
     * by one and the vacated last slot is nulled.
     */
    method Remove(index: int) returns (r: Result<T>)
      requires Valid()
      modifies this, elementData
      ensures Valid() && elementData == old(elementData)
      ensures r == if 0 <= index < old(|Contents|) then Success(old(Contents)[index]) else Failure(IndexOutOfBounds)
      ensures Contents == if r.Success? then RemovedAt(old(Contents), index) else old(Contents)
    {
      var check := CheckIndex(index);
      if check.Fail? {
        return Failure(check.error);
      }
      var removedElement := elementData[index].value;
      ghost var before := elementData[..];
      if index < size - 1 {
        var copied := ArrayCopy(elementData, index + 1, elementData, index, size - index - 1);
        assert copied.Pass?;
      }
      elementData[size - 1] := None;
      size := size - 1;
      ghost var remaining := RemovedAt(Contents, index);
      forall k | 0 <= k < size
        ensures elementData[k] == Some(remaining[k])
      {
        if k < index {
          assert elementData[k] == before[k];
        } else {
          assert elementData[k] == before[k + 1];
        }
      }
      forall k | size <= k < elementData.Length
        ensures elementData[k] == None
      {
        if k > size {
          assert elementData[k] == before[k];
        }
      }
      Contents := remaining;
      r := Success(removedElement);
    }

    /**
     * `contains(element)`: scans every slot of the array, nulls included;
     * since the slots past `size` are null, this is membership.
     */
    method Contains(element: T) returns (found: bool)
      requires Valid()
      ensures found <==> element in Contents
    {
      for i := 0 to elementData.Length
        invariant forall k :: 0 <= k < i ==> elementData[k] != Some(element)
      {
        if elementData[i] == Some(element) {
          return true;
        }
      }
      found := false;
    }

    /** `isEmpty()`: whether the counter is zero. */
    method IsEmpty() returns (empty: bool)
      requires Valid()
      ensures empty <==> Contents == []
    {
      empty := size == 0;
    }

    /** `size()`: the number of elements. */
    method Size() returns (n: int)
      requires Valid()
      ensures n == |Contents|
      ensures n <= elementData.Length
    {
      n := size;
    }

    /** `clear()`: no elements, over a fresh array of the default length. */
    method Clear()
      modifies this
      ensures Valid() && fresh(elementData)
      ensures Contents == [] && size == 0 && elementData.Length == DefaultCapacity
    {
      size := 0;
      elementData := new Option<T>[DefaultCapacity](_ => None);
      Contents := [];
    }
  }

  /**
   * `add(1, 7)` on the list 1, 2, 3 leaves 1, 2, 2, 7: slot 1 keeps its
   * element, which is duplicated into slot 2, and the old last element is lost.
   */
  method AddAtOnThreeElements() returns (second: Result<int>, third: Result<int>, fourth: Result<int>)
    ensures second == Success(2) && third == Success(2) && fourth == Success(7)
  {
    var list := new ArrayList<int>.Default();
    var _ := list.Add(1);
    var _ := list.Add(2);
    var _ := list.Add(3);
    var _ := list.AddAt(1, 7);
    second := list.Get(1);
    third := list.Get(2);
    fourth := list.Get(3);
  }
}
