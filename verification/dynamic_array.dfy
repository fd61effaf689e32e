/** The growable array container: a buffer of slots plus a count of the slots
    in use. Each mutating operation returns the container value it leaves
    behind; each operation that throws in the Java class returns `Err`. */
module DynamicArrays {
  import opened Wrappers
  import opened Sequences

  /** Capacity of a container built without an explicit capacity. */
  const DefaultCapacity: int := 10

  /** `Math.max`. */
  function Max(a: int, b: int): (r: int)
    ensures r >= a && r >= b && (r == a || r == b)
  {
    if a >= b then a else b
  }

  /** The buffer (`array`) and the number of elements in use (`size`). */
  datatype DynArray<T> = DynArray(buffer: seq<Option<T>>, size: int)
  {
    /** Elements fill slots [0, size) and every slot from `size` on is empty;
        the buffer is never empty because construction demands a positive capacity. */
    predicate Valid()
    {
      && 0 <= size <= |buffer|
      && 0 < |buffer|
      && (forall i :: 0 <= i < size ==> buffer[i].Some?)
      && (forall i :: size <= i < |buffer| ==> buffer[i].None?)
    }

    function Capacity(): (c: nat)
    {
      |buffer|
    }

    /** The elements held, in order: the abstraction every contract speaks of. */
    function Contents(): (c: seq<T>)
      requires Valid()
      ensures |c| == size
      ensures forall i :: 0 <= i < size ==> buffer[i] == Some(c[i])
    {
      seq(size, i requires 0 <= i < size && buffer[i].Some? => buffer[i].value)
    }
  }

  /** Every element of `s` as an occupied slot. */
  function Wrap<T>(s: seq<T>): (r: seq<Option<T>>)
    ensures |r| == |s|
    ensures forall i :: 0 <= i < |s| ==> r[i] == Some(s[i])
  {
    seq(|s|, i requires 0 <= i < |s| => Some(s[i]))
  }

  lemma WrapCons<T>(x: T, s: seq<T>)
    ensures Wrap([x] + s) == [Some(x)] + Wrap(s)
  {
    assert forall k :: 0 <= k < |s| + 1 ==> Wrap([x] + s)[k] == ([Some(x)] + Wrap(s))[k];
  }

  /** `System.arraycopy`: `length` slots of `src` from `srcPos` land in `dest` from
      `destPos`. `src` is a value, so an overlapping copy behaves as if through a
      temporary, as the library promises. */
  function ArrayCopy<T>(src: seq<T>, srcPos: nat, dest: seq<T>, destPos: nat, length: nat): (r: seq<T>)
    requires srcPos + length <= |src| && destPos + length <= |dest|
    ensures |r| == |dest|
    ensures forall k :: destPos <= k < destPos + length ==> r[k] == src[srcPos + (k - destPos)]
    ensures forall k :: 0 <= k < |dest| && !(destPos <= k < destPos + length) ==> r[k] == dest[k]
  {
    dest[..destPos] + src[srcPos..srcPos + length] + dest[destPos + length..]
  }

  /** `Arrays.copyOf`: the first `n` slots of `s`, padded with empty slots. */
  function CopyOf<T>(s: seq<Option<T>>, n: nat): (r: seq<Option<T>>)
    ensures |r| == n
    ensures forall k :: 0 <= k < n && k < |s| ==> r[k] == s[k]
    ensures forall k :: |s| <= k < n ==> r[k].None?
  {
    if n <= |s| then s[..n] else s + seq(n - |s|, _ => None)
  }

  /** `Arrays.fill`: slots [from, to) set to `v`. */
  function Fill<T>(s: seq<T>, from: nat, to: nat, v: T): (r: seq<T>)
    requires from <= to <= |s|
    ensures |r| == |s|
    ensures forall k :: from <= k < to ==> r[k] == v
    ensures forall k :: 0 <= k < |s| && !(from <= k < to) ==> r[k] == s[k]
  {
    s[..from] + seq(to - from, _ => v) + s[to..]
  }

  /** The capacity constructor: a positive capacity gives an empty container of
      exactly that capacity; anything else is rejected. */
  function New<T>(initialCapacity: int): (r: Result<DynArray<T>>)
    ensures r.Err? <==> initialCapacity <= 0
    ensures r.Err? ==> r.error == IllegalArgument
    ensures r.Ok? ==> r.value.Valid() && r.value.Contents() == [] && r.value.Capacity() == initialCapacity
  {
    if initialCapacity <= 0 then Err(IllegalArgument)
    else Ok(DynArray(seq(initialCapacity, _ => None), 0))
  }

  /** The no-argument constructor. */
  function NewDefault<T>(): (r: DynArray<T>)
    ensures r.Valid() && r.Contents() == [] && r.Capacity() == DefaultCapacity
  {
    New(DefaultCapacity).value
  }

  /** Growth rule: when `minCapacity` exceeds the capacity, the buffer is copied
      into one of `max(minCapacity, 2 * capacity)` slots; otherwise nothing happens. */
  function EnsureCapacity<T>(a: DynArray<T>, minCapacity: int): (r: DynArray<T>)
    requires a.Valid()
    ensures r.Valid() && r.size == a.size && r.Contents() == a.Contents()
    ensures r.Capacity() >= minCapacity && r.Capacity() >= a.Capacity()
    ensures minCapacity > a.Capacity() ==> r.Capacity() == Max(minCapacity, 2 * a.Capacity())
    ensures minCapacity <= a.Capacity() ==> r == a
  {
    if minCapacity > |a.buffer| then
      DynArray(CopyOf(a.buffer, Max(minCapacity, 2 * |a.buffer|)), a.size)
    else
      a
  }

  /** Guard of get, set and remove: only the positions of present elements are accepted. */
  function CheckIndex<T>(a: DynArray<T>, index: int): (r: Outcome)
    ensures r.Pass? <==> 0 <= index < a.size
    ensures r.Fail? ==> r.error == IndexOutOfBounds
  {
    if index < 0 || index >= a.size then Fail(IndexOutOfBounds) else Pass
  }

  /** Guard of positional insert: one more position, the end, is accepted. */
  function CheckIndexForAdd<T>(a: DynArray<T>, index: int): (r: Outcome)
    ensures r.Pass? <==> 0 <= index <= a.size
    ensures r.Fail? ==> r.error == IndexOutOfBounds
  {
    if index < 0 || index > a.size then Fail(IndexOutOfBounds) else Pass
  }

  /** Append one element. */
  function Add<T>(a: DynArray<T>, e: T): (r: DynArray<T>)
    requires a.Valid()
    ensures r.Valid() && r.Contents() == a.Contents() + [e]
    ensures r.Capacity() >= a.Capacity()
  {
    var g := EnsureCapacity(a, a.size + 1);
    DynArray(g.buffer[g.size := Some(e)], g.size + 1)
  }

  /** Append all of `xs`, in order, after growing at most once for all of them. */
  function AddAll<T>(a: DynArray<T>, xs: seq<T>): (r: DynArray<T>)
    requires a.Valid()
    ensures r.Valid() && r.Contents() == a.Contents() + xs
    ensures a.size + |xs| <= a.Capacity() ==> r.Capacity() == a.Capacity()
    ensures a.size + |xs| > a.Capacity() ==> r.Capacity() == Max(a.size + |xs|, 2 * a.Capacity())
  {
    var g := EnsureCapacity(a, a.size + |xs|);
    DynArray(ArrayCopy(Wrap(xs), 0, g.buffer, g.size, |xs|), g.size + |xs|)
  }

  /** Positional insert: the elements from `index` on move one place right. */
  function Insert<T>(a: DynArray<T>, index: int, e: T): (r: Result<DynArray<T>>)
    requires a.Valid()
    ensures r.Ok? <==> 0 <= index <= a.size
    ensures r.Err? ==> r.error == IndexOutOfBounds
    ensures r.Ok? ==> r.value.Valid() && r.value.Contents() == InsertAt(a.Contents(), index, e)
    ensures index == a.size ==> r == Ok(Add(a, e))
  {
    match CheckIndexForAdd(a, index)
    case Fail(err) => Err(err)
    case Pass =>
      var g := EnsureCapacity(a, a.size + 1);
      var shifted := ArrayCopy(g.buffer, index, g.buffer, index + 1, g.size - index);
      assert index == g.size ==> shifted == g.buffer;
      Ok(DynArray(shifted[index := Some(e)], g.size + 1))
  }

  /** The element at `index`. */
  function Get<T>(a: DynArray<T>, index: int): (r: Result<T>)
    requires a.Valid()
    ensures r.Ok? <==> 0 <= index < a.size
    ensures r.Err? ==> r.error == IndexOutOfBounds
    ensures r.Ok? ==> r.value == a.Contents()[index]
  {
    match CheckIndex(a, index)
    case Fail(err) => Err(err)
    case Pass => Ok(a.buffer[index].value)
  }

  /** Replace the element at `index`, returning the one it held. */
  function Set<T>(a: DynArray<T>, index: int, e: T): (r: Result<(T, DynArray<T>)>)
    requires a.Valid()
    ensures r.Ok? <==> 0 <= index < a.size
    ensures r.Err? ==> r.error == IndexOutOfBounds
    ensures r.Ok? ==> r.value.0 == a.Contents()[index]
    ensures r.Ok? ==> var b := r.value.1;
      && b.Valid()
      && b.Contents() == a.Contents()[index := e]
      && b.size == a.size
      && b.Capacity() == a.Capacity()
  {
    match CheckIndex(a, index)
    case Fail(err) => Err(err)
    case Pass => Ok((a.buffer[index].value, DynArray(a.buffer[index := Some(e)], a.size)))
  }

  /** Positional removal: the elements after `index` move one place left and the
      slot the last of them leaves is emptied. */
  function RemoveAt<T>(a: DynArray<T>, index: int): (r: Result<DynArray<T>>)
    requires a.Valid()
    ensures r.Ok? <==> 0 <= index < a.size
    ensures r.Err? ==> r.error == IndexOutOfBounds
    ensures r.Ok? ==> r.value.Valid() && r.value.Contents() == DeleteAt(a.Contents(), index)
    ensures r.Ok? ==> r.value.Capacity() == a.Capacity() && r.value.buffer[a.size - 1].None?
  {
    match CheckIndex(a, index)
    case Fail(err) => Err(err)
    case Pass =>
      var shifted := ArrayCopy(a.buffer, index + 1, a.buffer, index, a.size - index - 1);
      Ok(DynArray(shifted[a.size - 1 := None], a.size - 1))
  }

  /** Empty the container, emptying the slots that were in use and keeping the capacity. */
  function Clear<T>(a: DynArray<T>): (r: DynArray<T>)
    requires a.Valid()
    ensures r.Valid() && r.Contents() == [] && r.Capacity() == a.Capacity()
    ensures a.size == 0 ==> r == a
  {
    DynArray(Fill(a.buffer, 0, a.size, None), 0)
  }

  function IsEmpty<T>(a: DynArray<T>): (r: bool)
    requires a.Valid()
    ensures r <==> a.Contents() == []
  {
    a.size == 0
  }

  function Size<T>(a: DynArray<T>): (r: int)
    requires a.Valid()
    ensures r == |a.Contents()|
  {
    a.size
  }

  /** A copy of the slots in use, exactly `size` long. */
  function ToArray<T>(a: DynArray<T>): (r: seq<T>)
    requires a.Valid()
    ensures r == a.Contents()
  {
    var copy := CopyOf(a.buffer, a.size);
    seq(a.size, i requires 0 <= i < |copy| && copy[i].Some? => copy[i].value)
  }

  /** Forward linear search. */
  method IndexOf<T(==)>(a: DynArray<T>, e: T) returns (r: int)
    requires a.Valid()
    ensures IsFirstIndex(a.Contents(), e, r)
  {
    var i := 0;
    while i < a.size
      invariant 0 <= i <= a.size
      invariant e !in a.Contents()[..i]
    {
      if a.buffer[i].value == e {
        return i;
      }
      i := i + 1;
    }
    return -1;
  }

  /** Backward linear search. */
  method LastIndexOf<T(==)>(a: DynArray<T>, e: T) returns (r: int)
    requires a.Valid()
    ensures IsLastIndex(a.Contents(), e, r)
  {
    var i := a.size - 1;
    while i >= 0
      invariant -1 <= i < a.size
      invariant e !in a.Contents()[i + 1..]
    {
      if a.buffer[i].value == e {
        return i;
      }
      i := i - 1;
    }
    return -1;
  }

  method Contains<T(==)>(a: DynArray<T>, e: T) returns (r: bool)
    requires a.Valid()
    ensures r <==> e in a.Contents()
  {
    var index := IndexOf(a, e);
    r := index != -1;
  }

  /** Remove the first occurrence of `e`, reporting whether there was one. */
  method RemoveValue<T(==)>(a: DynArray<T>, e: T) returns (removed: bool, r: DynArray<T>)
    requires a.Valid()
    ensures r.Valid() && r.Capacity() == a.Capacity()
    ensures removed <==> e in a.Contents()
    ensures r.Contents() == RemoveFirst(a.Contents(), e)
    ensures !removed ==> r == a
  {
    var index := IndexOf(a, e);
    if index != -1 {
      RemoveFirstIsDeleteAtFirstIndex(a.Contents(), e, index);
      var res := RemoveAt(a, index);
      return true, res.value;
    }
    return false, a;
  }

  /** The inner loop of `removeAll`: remove the first occurrence of `x` until
      there is none left, reporting whether any removal happened. */
  method Purge<T(==)>(a: DynArray<T>, x: T) returns (any: bool, r: DynArray<T>)
    requires a.Valid()
    ensures r.Valid() && r.Capacity() == a.Capacity()
    ensures r.Contents() == Without(a.Contents(), [x])
    ensures any <==> x in a.Contents()
  {
    any := false;
    var removed;
    removed, r := RemoveValue(a, x);
    WithoutRemoveFirst(a.Contents(), x, [x]);
    while removed
      invariant r.Valid() && r.Capacity() == a.Capacity()
      invariant Without(r.Contents(), [x]) == Without(a.Contents(), [x])
      invariant !removed ==> x !in r.Contents()
      invariant any || removed <==> x in a.Contents()
      decreases r.size + (if removed then 1 else 0)
    {
      any := true;
      ghost var prev := r;
      removed, r := RemoveValue(r, x);
      WithoutRemoveFirst(prev.Contents(), x, [x]);
    }
    WithoutAbsent(r.Contents(), [x]);
  }

  /** Purge every occurrence of every value named in `elements`, reporting whether
      anything was removed. */
  method RemoveAll<T(==)>(a: DynArray<T>, elements: seq<T>) returns (modified: bool, r: DynArray<T>)
    requires a.Valid()
    ensures r.Valid() && r.Capacity() == a.Capacity()
    ensures r.Contents() == Without(a.Contents(), elements)
    ensures !Meets(elements, r.Contents())
    ensures modified <==> Meets(elements, a.Contents())
  {
    modified := false;
    r := a;
    WithoutAbsent(a.Contents(), []);
    assert elements[..0] == [];
    for j := 0 to |elements|
      invariant r.Valid() && r.Capacity() == a.Capacity()
      invariant r.Contents() == Without(a.Contents(), elements[..j])
      invariant modified <==> Meets(elements[..j], a.Contents())
    {
      var any;
      WithoutMember(a.Contents(), elements[..j], elements[j]);
      any, r := Purge(r, elements[j]);
      if any {
        modified := true;
      }
      WithoutWithout(a.Contents(), elements[..j], [elements[j]]);
      MeetsSnoc(elements[..j], elements[j], a.Contents());
      assert elements[..j] + [elements[j]] == elements[..j + 1];
    }
    assert elements[..|elements|] == elements;
    forall k | 0 <= k < |elements| {
      WithoutMember(a.Contents(), elements, elements[k]);
    }
  }
}
