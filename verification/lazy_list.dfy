/** `LazyList`: a `List` whose contents come from a supplier that is called on first use
    and never again; every `List` operation delegates to the loaded list. */
module Lazy {
  import opened Wrappers
  import opened Model
  import opened Text

  /** `list.remove(o)`: the list without the first element equal to `x`. */
  function RemoveFirst<T(==)>(s: seq<T>, x: T): (r: seq<T>)
    ensures |r| == if x in s then |s| - 1 else |s|
  {
    if |s| == 0 then []
    else if s[0] == x then s[1..]
    else [s[0]] + RemoveFirst(s[1..], x)
  }

  /** Removal leaves the list alone when `x` is absent, and otherwise cuts out exactly the
      position `indexOf` reports. */
  lemma {:induction false} RemoveFirstCut<T>(s: seq<T>, x: T)
    ensures x !in s ==> RemoveFirst(s, x) == s
    ensures x in s ==> RemoveFirst(s, x) == s[..IndexOf(s, x)] + s[IndexOf(s, x) + 1..]
  {
    if |s| > 0 && s[0] != x {
      var t := s[1..];
      RemoveFirstCut(t, x);
      if x in s {
        var i := IndexOf(t, x);
        assert IndexOf(s, x) == i + 1;
        assert s[..i + 1] == [s[0]] + t[..i];
        assert s[i + 2..] == t[i + 1..];
        Assoc([s[0]], t[..i], t[i + 1..]);
      } else {
        assert s == [s[0]] + t;
      }
    }
  }

  /** Removing an element that is present takes exactly one copy of it out. */
  lemma {:induction false} RemoveFirstMultiset<T>(s: seq<T>, x: T)
    requires x in s
    ensures multiset(RemoveFirst(s, x)) == multiset(s) - multiset{x}
  {
    RemoveFirstCut(s, x);
    var i := IndexOf(s, x);
    assert s == s[..i] + [x] + s[i + 1..];
    assert multiset(s) == multiset(s[..i]) + multiset{x} + multiset(s[i + 1..]);
  }

  /** `list.lastIndexOf(o)`: the position of the last element equal to `x`, or -1. */
  function LastIndexIn<T(==)>(s: seq<T>, x: T): (i: int)
    ensures -1 <= i < |s|
    ensures i == -1 <==> x !in s
    ensures 0 <= i ==> s[i] == x && x !in s[i + 1..]
  {
    if |s| == 0 then -1
    else if s[|s| - 1] == x then |s| - 1
    else
      var i := LastIndexIn(s[..|s| - 1], x);
      assert s == s[..|s| - 1] + [s[|s| - 1]];
      i
  }

  /** `LazyList<T>`. The supplier is an oracle: `listSupplier(n)` is the list its `n`-th call
      returns, so a list that called it twice would see a different answer. */
  class LazyList<T(==)> {
    const listSupplier: nat -> seq<T>
    var nestedList: Option<seq<T>>
    /** How many times the supplier has been called. */
    var loads: nat

    /** The supplier has run exactly when a list is cached, and at most once. */
    ghost predicate Valid()
      reads this
    {
      (nestedList.None? <==> loads == 0) && loads <= 1
    }

    /** The list the operations act on: the cached one, or the one the supplier will give. */
    function Elements(): seq<T>
      reads this
    {
      match nestedList
      case Some(l) => l
      case None => listSupplier(loads)
    }

    /** The constructor stores the supplier and does not call it. */
    constructor (listSupplier: nat -> seq<T>)
      ensures Valid() && this.listSupplier == listSupplier && nestedList == None && loads == 0
      ensures Elements() == listSupplier(0)
    {
      this.listSupplier := listSupplier;
      nestedList := None;
      loads := 0;
    }

    /** `getNestedList`: calls the supplier only while nothing is cached, then caches its
        answer. Afterwards the supplier has been called exactly once. */
    method GetNestedList() returns (r: seq<T>)
      requires Valid()
      modifies this
      ensures Valid() && nestedList == Some(r) && loads == 1
      ensures r == old(Elements())
      ensures old(nestedList).None? ==> r == listSupplier(0)
      ensures old(nestedList).Some? ==> nestedList == old(nestedList) && loads == old(loads)
    {
      if nestedList.None? {
        nestedList := Some(listSupplier(loads));
        loads := loads + 1;
      }
      r := nestedList.value;
    }

    method Size() returns (n: int)
      requires Valid()
      modifies this
      ensures Valid() && nestedList.Some? && loads == 1
      ensures Elements() == old(Elements()) && n == |Elements()|
    {
      var l := GetNestedList();
      n := |l|;
    }

    method IsEmpty() returns (b: bool)
      requires Valid()
      modifies this
      ensures Valid() && nestedList.Some? && loads == 1
      ensures Elements() == old(Elements()) && (b <==> |Elements()| == 0)
    {
      var l := GetNestedList();
      b := |l| == 0;
    }

    method Contains(x: T) returns (b: bool)
      requires Valid()
      modifies this
      ensures Valid() && nestedList.Some? && loads == 1
      ensures Elements() == old(Elements()) && (b <==> x in Elements())
    {
      var l := GetNestedList();
      b := x in l;
    }

    /** `add(t)`: appends and answers `true`. */
    method Add(x: T) returns (b: bool)
      requires Valid()
      modifies this
      ensures Valid() && nestedList.Some? && loads == 1
      ensures Elements() == old(Elements()) + [x] && b
    {
      var l := GetNestedList();
      nestedList := Some(l + [x]);
      b := true;
    }

    /** `remove(o)`: takes out the first equal element and answers whether there was one. */
    method RemoveValue(x: T) returns (b: bool)
      requires Valid()
      modifies this
      ensures Valid() && nestedList.Some? && loads == 1
      ensures b <==> x in old(Elements())
      ensures Elements() == RemoveFirst(old(Elements()), x)
    {
      var l := GetNestedList();
      b := x in l;
      nestedList := Some(RemoveFirst(l, x));
    }

    /** `addAll(c)`: appends all of `c` and answers whether the list changed. */
    method AddAll(c: seq<T>) returns (b: bool)
      requires Valid()
      modifies this
      ensures Valid() && nestedList.Some? && loads == 1
      ensures Elements() == old(Elements()) + c && (b <==> |c| > 0)
    {
      var l := GetNestedList();
      nestedList := Some(l + c);
      b := |c| > 0;
    }

    method Clear()
      requires Valid()
      modifies this
      ensures Valid() && nestedList.Some? && loads == 1
      ensures Elements() == []
    {
      var l := GetNestedList();
      nestedList := Some([]);
    }

    /** `get(index)`; an index outside the list throws `IndexOutOfBoundsException`. */
    method Get(index: int) returns (r: Result<T, Failure>)
      requires Valid()
      modifies this
      ensures Valid() && nestedList.Some? && loads == 1
      ensures Elements() == old(Elements())
      ensures 0 <= index < |Elements()| ==> r == Success(Elements()[index])
      ensures !(0 <= index < |Elements()|) ==> r == Failure(IndexOutOfBounds)
    {
      var l := GetNestedList();
      if 0 <= index < |l| {
        r := Success(l[index]);
      } else {
        r := Failure(IndexOutOfBounds);
      }
    }

    /** `set(index, element)`: replaces the element and returns the one it replaced. */
    method Set(index: int, x: T) returns (r: Result<T, Failure>)
      requires Valid()
      modifies this
      ensures Valid() && nestedList.Some? && loads == 1
      ensures 0 <= index < |old(Elements())| ==>
                r == Success(old(Elements())[index]) && Elements() == old(Elements())[index := x]
      ensures !(0 <= index < |old(Elements())|) ==> r == Failure(IndexOutOfBounds) && Elements() == old(Elements())
    {
      var l := GetNestedList();
      if 0 <= index < |l| {
        r := Success(l[index]);
        nestedList := Some(l[index := x]);
      } else {
        r := Failure(IndexOutOfBounds);
      }
    }

    /** `add(index, element)`: inserts before position `index`, which may be the size. */
    method AddAt(index: int, x: T) returns (o: Outcome<Failure>)
      requires Valid()
      modifies this
      ensures Valid() && nestedList.Some? && loads == 1
      ensures 0 <= index <= |old(Elements())| ==>
                o == Pass && Elements() == old(Elements())[..index] + [x] + old(Elements())[index..]
      ensures !(0 <= index <= |old(Elements())|) ==> o == Fail(IndexOutOfBounds) && Elements() == old(Elements())
    {
      var l := GetNestedList();
      if 0 <= index <= |l| {
        nestedList := Some(l[..index] + [x] + l[index..]);
        o := Pass;
      } else {
        o := Fail(IndexOutOfBounds);
      }
    }

    /** `remove(index)`: takes out the element at `index` and returns it. */
    method RemoveAt(index: int) returns (r: Result<T, Failure>)
      requires Valid()
      modifies this
      ensures Valid() && nestedList.Some? && loads == 1
      ensures 0 <= index < |old(Elements())| ==>
                r == Success(old(Elements())[index]) && Elements() == old(Elements())[..index] + old(Elements())[index + 1..]
      ensures !(0 <= index < |old(Elements())|) ==> r == Failure(IndexOutOfBounds) && Elements() == old(Elements())
    {
      var l := GetNestedList();
      if 0 <= index < |l| {
        r := Success(l[index]);
        nestedList := Some(l[..index] + l[index + 1..]);
      } else {
        r := Failure(IndexOutOfBounds);
      }
    }

    method IndexOf(x: T) returns (i: int)
      requires Valid()
      modifies this
      ensures Valid() && nestedList.Some? && loads == 1
      ensures Elements() == old(Elements())
      ensures i == -1 <==> x !in Elements()
      ensures 0 <= i ==> i < |Elements()| && Elements()[i] == x && x !in Elements()[..i]
    {
      var l := GetNestedList();
      i := Text.IndexOf(l, x);
    }

    method LastIndexOf(x: T) returns (i: int)
      requires Valid()
      modifies this
      ensures Valid() && nestedList.Some? && loads == 1
      ensures Elements() == old(Elements())
      ensures i == -1 <==> x !in Elements()
      ensures 0 <= i ==> i < |Elements()| && Elements()[i] == x && x !in Elements()[i + 1..]
    {
      var l := GetNestedList();
      i := LastIndexIn(l, x);
    }
  }

  /** Several operations in a row: the first one loads, the later ones see the cached list
      with the earlier changes, and the supplier has run once. */
  method LoadOnceThenObserve(listSupplier: nat -> seq<int>) returns (list: LazyList<int>, size: int, first: Result<int, Failure>)
    ensures list.Valid() && list.loads == 1
    ensures size == |listSupplier(0)| + 1
    ensures list.Elements() == listSupplier(0) + [7]
    ensures first == (if |listSupplier(0)| == 0 then Success(7) else Success(listSupplier(0)[0]))
  {
    list := new LazyList(listSupplier);
    var added := list.Add(7);
    size := list.Size();
    first := list.Get(0);
  }
}
