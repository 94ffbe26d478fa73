// A stack of pointers (obstackreap.h) on an array that grows and shrinks
// (util/dynarray.h), and what copying costs over a run.

module DynStack {

  class DynamicArray {
    // null until the first assignment.
    var internalArray: array?<nat>
    var internalArrayLength: nat
    // How many elements have been copied so far.
    ghost var copied: nat

    ghost predicate Valid()
      reads this
    {
      if internalArray == null then internalArrayLength == 0 else internalArray.Length == internalArrayLength
    }

    constructor ()
      ensures Valid() && internalArray == null && copied == 0
    {
      internalArray, internalArrayLength, copied := null, 0, 0;
    }

    // What index access does before it hands out the element: the array grows to
    // more than twice the index when it has to.
    method Reach(index: nat)
      requires Valid()
      modifies this
      ensures Valid() && index < internalArrayLength
      ensures internalArrayLength == if index < old(internalArrayLength) then old(internalArrayLength)
        else 2 * index + 1
      ensures copied == old(copied) + if index < old(internalArrayLength) then 0 else old(internalArrayLength)
      ensures internalArray == old(internalArray) || fresh(internalArray)
      ensures index < old(internalArrayLength) ==> internalArray == old(internalArray)
      ensures forall i :: 0 <= i < old(internalArrayLength) ==>
        internalArray[i] == old(if internalArray == null then 0 else internalArray[i])
    {
      if index >= internalArrayLength {
        var arr := new nat[index * 2 + 1];
        if internalArray != null {
          CopyTo(arr, internalArrayLength);
        }
        internalArray := arr;
        internalArrayLength := index * 2 + 1;
      }
    }

    // memcpy of the first n elements.
    method CopyTo(arr: array<nat>, n: nat)
      requires Valid() && internalArray != null && arr != internalArray && n <= internalArrayLength && n <= arr.Length
      modifies arr, this`copied
      ensures copied == old(copied) + n && forall i :: 0 <= i < n ==> arr[i] == internalArray[i]
    {
      var i := 0;
      while i < n
        invariant 0 <= i <= n && copied == old(copied) + i
        invariant forall k :: 0 <= k < i ==> arr[k] == internalArray[k]
        invariant forall k :: 0 <= k < internalArrayLength ==> internalArray[k] == old(internalArray[k])
      {
        arr[i] := internalArray[i];
        copied := copied + 1;
        i := i + 1;
      }
    }

    // The client now uses only the first nelts elements: the array is cut to twice as
    // many when it is more than four times as long.
    method Trim(nelts: nat)
      requires Valid() && nelts <= internalArrayLength
      modifies this
      ensures Valid() && nelts <= internalArrayLength
      ensures internalArrayLength == if 4 * nelts < old(internalArrayLength) then 2 * nelts
        else old(internalArrayLength)
      ensures copied == old(copied) + if 4 * nelts < old(internalArrayLength) then nelts else 0
      ensures internalArray == old(internalArray) || fresh(internalArray)
      ensures internalArray == null <==> old(internalArray) == null
      ensures forall i :: 0 <= i < nelts ==> internalArray[i] == old(internalArray[i])
    {
      if internalArray != null {
        if nelts * 4 < internalArrayLength {
          var arr := new nat[nelts * 2];
          CopyTo(arr, nelts);
          internalArray := arr;
          internalArrayLength := nelts * 2;
        }
      }
    }
  }

  // Twice the copies that are saved up when m of the L elements are in use.
  function Saved(m: int, L: int): (r: int)
    ensures r >= 0
  {
    if 2 * (2 * m - L) >= L - 2 * m then 2 * (2 * m - L) else L - 2 * m
  }

  // Every run of push and pop copies at most two elements for each call, and one.
  class DynStack {
    const items: DynamicArray
    var numItems: nat
    // How many times push and pop have been called.
    ghost var calls: nat

    // Slot 0 is never used.
    ghost function Contents(): seq<nat>
      requires items.internalArray != null && numItems < items.internalArray.Length
      reads this, items, items.internalArray
    {
      items.internalArray[1..numItems + 1]
    }

    ghost predicate Valid()
      reads this, items, items.internalArray
    {
      && items.Valid() && items.internalArray != null
      && numItems < items.internalArrayLength <= 4 * (numItems + 1)
      && 2 * items.copied + Saved(numItems + 1, items.internalArrayLength) <= 4 * calls + 2
    }

    constructor ()
      ensures Valid() && fresh(items) && fresh(items.internalArray) && Contents() == [] && calls == 0
    {
      items := new DynamicArray();
      numItems, calls := 0, 0;
      new;
      items.Reach(0);
      items.internalArray[0] := 0;
    }

    method Push(ptr: nat)
      requires Valid()
      modifies this, items, items.internalArray
      ensures Valid() && (items.internalArray == old(items.internalArray) || fresh(items.internalArray))
      ensures Contents() == old(Contents()) + [ptr]
      ensures calls == old(calls) + 1 && items.copied <= 2 * calls + 1
      ensures |Contents()| < items.internalArrayLength <= 4 * (|Contents()| + 1)
    {
      ghost var before := items.internalArray[..numItems + 1];
      assert Contents() == before[1..];
      numItems := numItems + 1;
      calls := calls + 1;
      items.Reach(numItems);
      items.internalArray[numItems] := ptr;
      assert items.internalArray[..numItems + 1] == before + [ptr];
      assert Contents() == (before + [ptr])[1..];
    }

    // 0 when the stack is empty.
    method Pop() returns (ptr: nat)
      requires Valid()
      modifies this, items
      ensures Valid() && (items.internalArray == old(items.internalArray) || fresh(items.internalArray))
      ensures old(Contents()) == [] ==> ptr == 0 && Contents() == []
      ensures old(Contents()) != [] ==> old(Contents()) == Contents() + [ptr]
      ensures calls == old(calls) + 1 && items.copied <= 2 * calls + 1
      ensures |Contents()| < items.internalArrayLength <= 4 * (|Contents()| + 1)
    {
      ptr := 0;
      calls := calls + 1;
      if numItems > 0 {
        ptr := items.internalArray[numItems];
        ghost var before := items.internalArray[..numItems];
        assert Contents() == before[1..] + [ptr];
        numItems := numItems - 1;
        items.Trim(numItems + 1);
        assert items.internalArray[..numItems + 1] == before;
        assert Contents() == before[1..];
      }
    }

    method Top() returns (ptr: nat)
      requires Valid()
      ensures ptr == if Contents() == [] then 0 else Contents()[|Contents()| - 1]
    {
      ptr := 0;
      if numItems > 0 {
        ptr := items.internalArray[numItems];
      }
    }
  }
}
