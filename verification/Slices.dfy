/** The slice helpers: finding the first equal element, and removing by index in the backing array. */
module Slices {

  /** GetIndexWithObject. */
  method GetIndexWithObject<T(==)>(s: seq<T>, obj: T) returns (index: int)
    ensures -1 <= index < |s|
    ensures index == -1 ==> obj !in s
    ensures index >= 0 ==> s[index] == obj && obj !in s[..index]
  {
    if |s| == 0 {
      return -1;
    }
    index := -1;
    for i := 0 to |s|
      invariant index == -1 && obj !in s[..i]
    {
      if obj == s[i] {
        return i;
      }
    }
  }

  /** What RemoveObjectWithIndex returns, branch by branch. Index 1 moves the first element to the end. */
  function RemovedAt<T>(s: seq<T>, index: nat): seq<T>
    requires index < |s| || index >= 2
  {
    if index == 0 then s[1..]
    else if index == 1 then s[2..] + [s[0]]
    else if index >= |s| then s
    else s[..index] + s[index + 1..]
  }

  /** Whatever branch is taken, exactly one occurrence is gone. */
  lemma RemovedAtDropsOne<T>(s: seq<T>, index: nat)
    requires index < |s|
    ensures multiset(RemovedAt(s, index)) == multiset(s) - multiset{s[index]}
  {
    if index == 1 {
      assert s == [s[0]] + [s[1]] + s[2..];
    } else {
      assert s == s[..index] + [s[index]] + s[index + 1..];
    }
  }

  /** Where the k-th element of the result was: the others keep their order, except that removing the element
      at index 1 sends the first one to the end. */
  function OldPlace(length: nat, index: nat, k: nat): nat {
    if index == 1 then if k == length - 2 then 0 else k + 2
    else if k < index then k else k + 1
  }

  lemma RemovedAtOrder<T>(s: seq<T>, index: nat)
    requires index < |s|
    ensures |RemovedAt(s, index)| == |s| - 1
    ensures forall k :: 0 <= k < |s| - 1 ==>
      OldPlace(|s|, index, k) < |s| && RemovedAt(s, index)[k] == s[OldPlace(|s|, index, k)]
  {
  }

  /** RemoveObjectWithIndex: appending to a prefix of the slice overwrites the elements behind it.
      The precondition leaves out the indices on which slicing panics. */
  method RemoveObjectWithIndex<T>(a: array<T>, index: int) returns (r: seq<T>)
    requires 0 <= index < a.Length || index >= 2
    modifies a
    ensures r == RemovedAt(old(a[..]), index)
    ensures a[..] == if 2 <= index < a.Length - 1 then r + [old(a[a.Length - 1])] else old(a[..])
  {
    if index == 0 {
      return a[1..];
    } else if index == 1 {
      return a[2..] + [a[0]];
    } else if index >= a.Length {
      return a[..];
    } else if index == a.Length - 1 {
      return a[0..index];
    } else if index == a.Length - 2 {
      a[index] := a[index + 1];
      return a[..index + 1];
    }
    ghost var was := a[..];
    for i := index to a.Length - 1
      invariant forall k :: 0 <= k < index ==> a[k] == was[k]
      invariant forall k :: index <= k < i ==> a[k] == was[k + 1]
      invariant forall k :: i <= k < a.Length ==> a[k] == was[k]
    {
      a[i] := a[i + 1];
    }
    r := a[..a.Length - 1];
    assert r == was[..index] + was[index + 1..];
    assert a[..] == r + [was[a.Length - 1]];
  }

  /** The shape of both callers: copy the list into a fresh slice, find the object, remove it. */
  method RemoveObject<T(==)>(s: seq<T>, obj: T) returns (r: seq<T>)
    requires s != [] ==> obj in s
    ensures s != [] ==> multiset(r) == multiset(s) - multiset{obj}
    ensures s == [] ==> r == []
  {
    if |s| == 0 {
      return s;
    }
    var objectList := new T[|s|](i requires 0 <= i < |s| => s[i]);
    assert objectList[..] == s;
    var index := GetIndexWithObject(s, obj);
    r := RemoveObjectWithIndex(objectList, index);
    RemovedAtDropsOne(s, index);
  }
}
