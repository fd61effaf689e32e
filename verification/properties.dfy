/** Properties that relate several operations: traversal and draining through
    the cursors, inverse pairs of operations, and batch versus one-by-one append. */
module Properties {
  import opened Wrappers
  import opened Sequences
  import opened DynamicArrays
  import opened Iterators

  /** The client loop `while (it.hasNext()) it.next()` over a forward cursor. */
  function ForwardWalk<T>(a: DynArray<T>, it: Cursor): (r: seq<T>)
    requires a.Valid() && ForwardValid(a, it)
    decreases a.size - it.cursor
  {
    if !HasNext(a, it) then []
    else match Next(a, it)
      case Err(_) => []
      case Ok((x, it1)) => [x] + ForwardWalk(a, it1)
  }

  /** The client loop `while (it.hasNext()) it.next()` over a reverse cursor. */
  function ReverseWalk<T>(a: DynArray<T>, it: Cursor): (r: seq<Option<T>>)
    requires a.Valid() && ReverseValid(a, it)
    decreases it.cursor + 1
  {
    if !ReverseHasNext(a, it) then []
    else match ReverseNext(a, it)
      case Err(_) => []
      case Ok((x, it1)) => [x] + ReverseWalk(a, it1)
  }

  /** One round of `it.next(); it.remove();` on a forward cursor: it deletes the
      element under the cursor and leaves the cursor where it was. */
  function ForwardStep<T>(a: DynArray<T>, it: Cursor): (r: Result<(T, DynArray<T>, Cursor)>)
    requires a.Valid() && ForwardValid(a, it)
    ensures r.Ok? <==> HasNext(a, it)
    ensures r.Ok? ==> var (x, b, it') := r.value;
      && x == a.Contents()[it.cursor]
      && b.Valid()
      && b.Contents() == DeleteAt(a.Contents(), it.cursor)
      && ForwardValid(b, it')
      && it'.cursor == it.cursor
  {
    match Next(a, it)
    case Err(err) => Err(err)
    case Ok((x, it1)) =>
      match Remove(a, it1)
      case Err(err) => Err(err)
      case Ok((b, it2)) => Ok((x, b, it2))
  }

  /** One round of `it.next(); it.remove();` on a reverse cursor, with `remove` as
      written (`ReverseRemove`) when `fixed` is false and as corrected
      (`ReverseRemoveFixed`) when it is true. */
  function ReverseStep<T>(a: DynArray<T>, it: Cursor, fixed: bool): (r: Result<(Option<T>, DynArray<T>, Cursor)>)
    requires a.Valid() && ReverseValid(a, it)
    requires fixed ==> ReverseInRange(a, it)
    ensures r.Ok? ==> r.value.1.Valid() && ReverseValid(r.value.1, r.value.2)
    ensures r.Ok? ==> r.value.1.size == a.size - 1
    ensures fixed ==> (r.Ok? <==> ReverseHasNext(a, it))
    ensures fixed && r.Ok? ==> var (x, b, it') := r.value;
      && x == Some(a.Contents()[it.cursor])
      && b.Contents() == DeleteAt(a.Contents(), it.cursor)
      && ReverseInRange(b, it')
      && it'.cursor == it.cursor - 1
  {
    match ReverseNext(a, it)
    case Err(err) => Err(err)
    case Ok((x, it1)) =>
      match (if fixed then ReverseRemoveFixed(a, it1) else ReverseRemove(a, it1))
      case Err(err) => Err(err)
      case Ok((b, it2)) => Ok((x, b, it2))
  }

  /** The client loop `while (it.hasNext()) { it.next(); it.remove(); }` over a
      forward cursor: the elements returned and the container left behind. */
  function ForwardDrain<T>(a: DynArray<T>, it: Cursor): (r: Result<(seq<T>, DynArray<T>)>)
    requires a.Valid() && ForwardValid(a, it)
    ensures r.Ok? && r.value.1.Valid()
    decreases a.size
  {
    if !HasNext(a, it) then Ok(([], a))
    else match ForwardStep(a, it)
      case Err(err) => Err(err)
      case Ok((x, b, it2)) =>
        match ForwardDrain(b, it2)
        case Err(err) => Err(err)
        case Ok((ys, c)) => Ok(([x] + ys, c))
  }

  /** The same loop over a reverse cursor. */
  function ReverseDrain<T>(a: DynArray<T>, it: Cursor, fixed: bool): (r: Result<(seq<Option<T>>, DynArray<T>)>)
    requires a.Valid() && ReverseValid(a, it)
    requires fixed ==> ReverseInRange(a, it)
    ensures r.Ok? ==> r.value.1.Valid()
    ensures fixed ==> r.Ok?
    decreases a.size
  {
    if !ReverseHasNext(a, it) then Ok(([], a))
    else match ReverseStep(a, it, fixed)
      case Err(err) => Err(err)
      case Ok((x, b, it2)) =>
        match ReverseDrain(b, it2, fixed)
        case Err(err) => Err(err)
        case Ok((ys, c)) => Ok(([x] + ys, c))
  }

  /** Walking forward from any consistent position returns the rest of the contents, in order. */
  lemma {:induction false} ForwardWalkYieldsSuffix<T>(a: DynArray<T>, it: Cursor)
    requires a.Valid() && ForwardValid(a, it)
    ensures ForwardWalk(a, it) == a.Contents()[it.cursor..]
    decreases a.size - it.cursor
  {
    if HasNext(a, it) {
      var it1 := Next(a, it).value.1;
      ForwardWalkYieldsSuffix(a, it1);
      assert a.Contents()[it.cursor..] == [a.Contents()[it.cursor]] + a.Contents()[it.cursor + 1..];
    }
  }

  /** A fresh forward cursor returns exactly the contents, first to last. */
  lemma ForwardIteration<T>(a: DynArray<T>)
    requires a.Valid()
    ensures ForwardWalk(a, Iterator(a)) == a.Contents()
  {
    ForwardWalkYieldsSuffix(a, Iterator(a));
  }

  /** Walking backward from a position inside the contents returns the prefix up to it, last first. */
  lemma {:induction false} ReverseWalkYieldsPrefix<T>(a: DynArray<T>, it: Cursor)
    requires a.Valid() && ReverseValid(a, it) && ReverseInRange(a, it)
    ensures ReverseWalk(a, it) == Wrap(Reverse(a.Contents()[..it.cursor + 1]))
    decreases it.cursor + 1
  {
    var s := a.Contents();
    var i := it.cursor;
    if ReverseHasNext(a, it) {
      var step := ReverseNext(a, it).value;
      ReverseWalkYieldsPrefix(a, step.1);
      assert ReverseWalk(a, it) == [step.0] + ReverseWalk(a, step.1);
      ReversePrefixStep(s, i);
      WrapCons(s[i], Reverse(s[..i]));
    }
  }

  /** A fresh reverse cursor returns exactly the contents, last to first. */
  lemma ReverseIteration<T>(a: DynArray<T>)
    requires a.Valid()
    ensures ReverseWalk(a, ReverseIterator(a)) == Wrap(Reverse(a.Contents()))
  {
    ReverseWalkYieldsPrefix(a, ReverseIterator(a));
    assert a.Contents()[..a.size] == a.Contents();
  }

  /** Removing after every `next` of a forward cursor returns each remaining element
      once, in order. */
  lemma {:induction false} ForwardDrainReturnsSuffix<T>(a: DynArray<T>, it: Cursor)
    requires a.Valid() && ForwardValid(a, it)
    ensures ForwardDrain(a, it).value.0 == a.Contents()[it.cursor..]
    decreases a.size
  {
    var s := a.Contents();
    var i := it.cursor;
    if HasNext(a, it) {
      var step := ForwardStep(a, it).value;
      ForwardDrainReturnsSuffix(step.1, step.2);
      var rest := ForwardDrain(step.1, step.2).value;
      assert ForwardDrain(a, it) == Ok(([step.0] + rest.0, rest.1));
      DeleteAtSuffix(s, i, rest.0, step.1.Contents()[..i]);
    }
  }

  /** Removing after every `next` of a forward cursor leaves exactly the elements
      before the cursor. */
  lemma {:induction false} ForwardDrainKeepsPrefix<T>(a: DynArray<T>, it: Cursor)
    requires a.Valid() && ForwardValid(a, it)
    ensures ForwardDrain(a, it).value.1.Contents() == a.Contents()[..it.cursor]
    decreases a.size
  {
    var s := a.Contents();
    var i := it.cursor;
    if HasNext(a, it) {
      var step := ForwardStep(a, it).value;
      ForwardDrainKeepsPrefix(step.1, step.2);
      var rest := ForwardDrain(step.1, step.2).value;
      assert ForwardDrain(a, it) == Ok(([step.0] + rest.0, rest.1));
      DeleteAtSuffix(s, i, step.1.Contents()[i..], rest.1.Contents());
    } else {
      assert s[..i] == s;
    }
  }

  /** From a fresh forward cursor, removing after every `next` returns the whole
      contents without skipping or repeating and leaves the container empty. */
  lemma ForwardDrainEmpties<T>(a: DynArray<T>)
    requires a.Valid()
    ensures ForwardDrain(a, Iterator(a)).Ok?
    ensures ForwardDrain(a, Iterator(a)).value.0 == a.Contents()
    ensures ForwardDrain(a, Iterator(a)).value.1.Valid()
    ensures ForwardDrain(a, Iterator(a)).value.1.Contents() == []
  {
    ForwardDrainReturnsSuffix(a, Iterator(a));
    ForwardDrainKeepsPrefix(a, Iterator(a));
  }

  /** With the corrected `remove`, removing after every `next` of a reverse cursor
      returns the prefix up to the cursor, last first, once each. */
  lemma {:induction false} ReverseDrainFixedReturnsPrefix<T>(a: DynArray<T>, it: Cursor)
    requires a.Valid() && ReverseValid(a, it) && ReverseInRange(a, it)
    ensures ReverseDrain(a, it, true).value.0 == Wrap(Reverse(a.Contents()[..it.cursor + 1]))
    decreases a.size
  {
    var s := a.Contents();
    var i := it.cursor;
    if ReverseHasNext(a, it) {
      var step := ReverseStep(a, it, true).value;
      ReverseDrainFixedReturnsPrefix(step.1, step.2);
      var rest := ReverseDrain(step.1, step.2, true).value;
      assert ReverseDrain(a, it, true) == Ok(([step.0] + rest.0, rest.1));
      var ys := Reverse(step.1.Contents()[..i]);
      DeleteAtPrefix(s, i, ys, step.1.Contents()[i..]);
      WrapCons(s[i], ys);
    }
  }

  /** With the corrected `remove`, removing after every `next` of a reverse cursor
      leaves exactly the elements after the cursor. */
  lemma {:induction false} ReverseDrainFixedKeepsSuffix<T>(a: DynArray<T>, it: Cursor)
    requires a.Valid() && ReverseValid(a, it) && ReverseInRange(a, it)
    ensures ReverseDrain(a, it, true).value.1.Contents() == a.Contents()[it.cursor + 1..]
    decreases a.size
  {
    var s := a.Contents();
    var i := it.cursor;
    if ReverseHasNext(a, it) {
      var step := ReverseStep(a, it, true).value;
      ReverseDrainFixedKeepsSuffix(step.1, step.2);
      var rest := ReverseDrain(step.1, step.2, true).value;
      assert ReverseDrain(a, it, true) == Ok(([step.0] + rest.0, rest.1));
      DeleteAtPrefix(s, i, Reverse(step.1.Contents()[..i]), rest.1.Contents());
    } else {
      assert s[0..] == s;
    }
  }

  /** With the corrected `remove`, a fresh reverse cursor drains the container,
      returning the contents last to first. */
  lemma ReverseDrainFixedEmpties<T>(a: DynArray<T>)
    requires a.Valid()
    ensures ReverseDrain(a, ReverseIterator(a), true).Ok?
    ensures ReverseDrain(a, ReverseIterator(a), true).value.0 == Wrap(Reverse(a.Contents()))
    ensures ReverseDrain(a, ReverseIterator(a), true).value.1.Valid()
    ensures ReverseDrain(a, ReverseIterator(a), true).value.1.Contents() == []
  {
    ReverseDrainFixedReturnsPrefix(a, ReverseIterator(a));
    ReverseDrainFixedKeepsSuffix(a, ReverseIterator(a));
    assert a.Contents()[..a.size] == a.Contents();
  }

  /** With `remove` as written, draining [1, 2, 3] backward fails: after returning 3
      and deleting it, the cursor sits on the emptied slot 2, the next `next`
      returns that empty slot, and the `remove` after it is out of bounds. */
  lemma ReverseDrainAsWrittenFails()
    ensures
      var a := DynArray([Some(1), Some(2), Some(3), None], 3);
      && a.Valid()
      && a.Contents() == [1, 2, 3]
      && ReverseDrain(a, ReverseIterator(a), false) == Err(IndexOutOfBounds)
  {
    var a := DynArray([Some(1), Some(2), Some(3), None], 3);
    assert a.Contents() == [1, 2, 3];
    var it := ReverseIterator(a);
    var (x, it1) := ReverseNext(a, it).value;
    assert x == Some(3) && it1 == Cursor(1, 2);
    var (b, it2) := ReverseRemove(a, it1).value;
    assert b.size == 2 && it2 == Cursor(2, -1);
    var (y, it3) := ReverseNext(b, it2).value;
    assert y == None && it3 == Cursor(1, 2);
    assert ReverseRemove(b, it3) == Err(IndexOutOfBounds);
  }

  /** With `remove` as written, draining any non-empty container backward fails: the
      first `remove` leaves the cursor on the slot it emptied past the end, the next
      `next` returns that empty slot, and the `remove` after it is out of bounds. */
  lemma ReverseDrainAsWrittenAlwaysFails<T>(a: DynArray<T>)
    requires a.Valid() && a.size > 0
    ensures ReverseDrain(a, ReverseIterator(a), false) == Err(IndexOutOfBounds)
  {
    var it := ReverseIterator(a);
    var (x, b, it1) := ReverseStep(a, it, false).value;
    assert b.size == a.size - 1 && it1 == Cursor(b.size, -1);
    var (y, it2) := ReverseNext(b, it1).value;
    assert it2.lastRet == b.size;
    assert ReverseStep(b, it1, false) == Err(IndexOutOfBounds);
  }

  /** `hasNext` answers exactly whether `next` succeeds, for both cursors. */
  lemma HasNextIffNext<T>(a: DynArray<T>, it: Cursor)
    requires a.Valid() && ForwardValid(a, it)
    ensures HasNext(a, it) <==> Next(a, it).Ok?
    ensures !HasNext(a, it) <==> Next(a, it) == Err(NoSuchElement)
  {
  }

  lemma ReverseHasNextIffNext<T>(a: DynArray<T>, it: Cursor)
    requires a.Valid() && ReverseValid(a, it)
    ensures ReverseHasNext(a, it) <==> ReverseNext(a, it).Ok?
    ensures !ReverseHasNext(a, it) <==> ReverseNext(a, it) == Err(NoSuchElement)
  {
  }

  /** Inserting at a position and then removing at that position restores the contents. */
  lemma InsertThenRemoveAt<T>(a: DynArray<T>, index: int, e: T)
    requires a.Valid() && 0 <= index <= a.size
    ensures RemoveAt(Insert(a, index, e).value, index).Ok?
    ensures RemoveAt(Insert(a, index, e).value, index).value.Contents() == a.Contents()
  {
    var s := a.Contents();
    assert DeleteAt(InsertAt(s, index, e), index) == s;
  }

  /** After `set`, `get` at that position returns the new element and every other position is unchanged. */
  lemma SetThenGet<T>(a: DynArray<T>, index: int, e: T, other: int)
    requires a.Valid() && 0 <= index < a.size && other != index
    ensures Get(Set(a, index, e).value.1, index) == Ok(e)
    ensures Get(Set(a, index, e).value.1, other) == Get(a, other)
  {
  }

  /** Appending a value and then removing that value by value (the first occurrence)
      restores the size, the multiset of elements and the order of every other
      element, and restores the exact contents when the value was not already present. */
  lemma AddThenRemoveValue<T>(a: DynArray<T>, x: T)
    requires a.Valid()
    ensures |RemoveFirst(Add(a, x).Contents(), x)| == a.size
    ensures multiset(RemoveFirst(Add(a, x).Contents(), x)) == multiset(a.Contents())
    ensures Without(RemoveFirst(Add(a, x).Contents(), x), [x]) == Without(a.Contents(), [x])
    ensures x !in a.Contents() ==> RemoveFirst(Add(a, x).Contents(), x) == a.Contents()
  {
    var s := a.Contents();
    WithoutRemoveFirst(s + [x], x, [x]);
    WithoutAppend(s, [x], [x]);
    assert Without([x], [x]) == [];
    RemoveFirstMultiset(s + [x], x);
    assert multiset(s + [x]) == multiset(s) + multiset{x};
    if x !in s {
      RemoveFirstOfAppended(s, x);
    }
  }

  /** Appending one element at a time. */
  function AddEach<T>(a: DynArray<T>, xs: seq<T>): (r: DynArray<T>)
    requires a.Valid()
    decreases |xs|
  {
    if xs == [] then a else AddEach(Add(a, xs[0]), xs[1..])
  }

  /** Growing for the batch after appending its first element reserves at least as
      much as growing for the whole batch at once. */
  lemma AddAllGrowthStep<T>(a: DynArray<T>, xs: seq<T>)
    requires a.Valid() && xs != []
    ensures AddAll(a, xs).Capacity() <= AddAll(Add(a, xs[0]), xs[1..]).Capacity()
  {
    var a1 := Add(a, xs[0]);
    assert a1.size == a.size + 1;
    if a.size + 1 > a.Capacity() {
      assert a1.Capacity() == Max(a.size + 1, 2 * a.Capacity());
    }
  }

  /** One-at-a-time append keeps every element, in order; and the single growth of
      `addAll` never reserves more than growing element by element would. */
  lemma {:induction false} AddEachMatchesAddAll<T>(a: DynArray<T>, xs: seq<T>)
    requires a.Valid()
    ensures AddEach(a, xs).Valid()
    ensures AddEach(a, xs).Contents() == a.Contents() + xs
    ensures AddAll(a, xs).Capacity() <= AddEach(a, xs).Capacity()
    decreases |xs|
  {
    if xs != [] {
      var a1 := Add(a, xs[0]);
      assert AddEach(a, xs) == AddEach(a1, xs[1..]);
      AddEachMatchesAddAll(a1, xs[1..]);
      assert a.Contents() + xs == a1.Contents() + xs[1..];
      AddAllGrowthStep(a, xs);
    } else {
      assert a.Contents() + xs == a.Contents();
    }
  }
}
