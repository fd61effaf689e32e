/** The forward and reverse cursors. A cursor is the pair (`cursor`, `lastRet`)
    over the container it was made from; `lastRet == -1` means no element is
    available for removal. The container is passed to each step, and a removal
    through the cursor returns the new container with the new cursor. */
module Iterators {
  import opened Wrappers
  import opened Sequences
  import opened DynamicArrays

  datatype Cursor = Cursor(cursor: int, lastRet: int)

  /** A forward cursor that only the cursor itself has mutated through: it points
      into [0, size] and `lastRet`, when set, is the slot just behind it. */
  predicate ForwardValid<T>(a: DynArray<T>, it: Cursor)
  {
    && 0 <= it.cursor <= a.size
    && (it.lastRet == -1 || it.lastRet == it.cursor - 1)
  }

  /** A reverse cursor that only the cursor itself has mutated through. Because its
      `remove` sets `cursor` to `lastRet`, it may point one past the last element,
      at the slot that removal emptied. */
  predicate ReverseValid<T>(a: DynArray<T>, it: Cursor)
  {
    && -1 <= it.cursor <= a.size
    && it.cursor < |a.buffer|
    && (it.lastRet == -1 || (it.lastRet == it.cursor + 1 && it.lastRet <= a.size))
  }

  /** The stronger reverse-cursor invariant the corrected `remove` keeps: the cursor
      and the element it last returned are both positions of present elements. */
  predicate ReverseInRange<T>(a: DynArray<T>, it: Cursor)
  {
    && -1 <= it.cursor < a.size
    && (it.lastRet == -1 || (it.lastRet == it.cursor + 1 && it.lastRet < a.size))
  }

  /** A new forward cursor: nothing returned yet, positioned before the first element. */
  function Iterator<T>(a: DynArray<T>): (it: Cursor)
    requires a.Valid()
    ensures ForwardValid(a, it) && it.lastRet < 0
    ensures it.cursor == 0
  {
    Cursor(0, -1)
  }

  /** Whether `next` has an element to return: some element lies at or after the cursor. */
  function HasNext<T>(a: DynArray<T>, it: Cursor): (r: bool)
    requires a.Valid() && ForwardValid(a, it)
    ensures r <==> a.Contents()[it.cursor..] != []
  {
    it.cursor < a.size
  }

  /** Return the element under the cursor and step past it. */
  function Next<T>(a: DynArray<T>, it: Cursor): (r: Result<(T, Cursor)>)
    requires a.Valid() && ForwardValid(a, it)
    ensures r.Err? <==> it.cursor >= a.size
    ensures r.Err? ==> r.error == NoSuchElement
    ensures r.Ok? ==> r.value.0 == a.Contents()[it.cursor]
    ensures r.Ok? ==> var it' := r.value.1;
      ForwardValid(a, it') && it'.cursor == it.cursor + 1 && it'.lastRet == it.cursor
  {
    if !HasNext(a, it) then Err(NoSuchElement)
    else Ok((a.buffer[it.cursor].value, Cursor(it.cursor + 1, it.cursor)))
  }

  /** Delete the element last returned and step back onto the position it occupied. */
  function Remove<T>(a: DynArray<T>, it: Cursor): (r: Result<(DynArray<T>, Cursor)>)
    requires a.Valid() && ForwardValid(a, it)
    ensures r.Err? <==> it.lastRet < 0
    ensures r.Err? ==> r.error == IllegalState
    ensures r.Ok? ==> var (b, it') := r.value;
      && b.Valid()
      && b.Contents() == DeleteAt(a.Contents(), it.lastRet)
      && ForwardValid(b, it')
      && it'.cursor == it.lastRet
      && it'.lastRet < 0
  {
    if it.lastRet < 0 then Err(IllegalState)
    else match RemoveAt(a, it.lastRet)
      case Err(err) => Err(err)
      case Ok(b) => Ok((b, Cursor(it.lastRet, -1)))
  }

  /** A new reverse cursor: nothing returned yet, positioned at the last element. */
  function ReverseIterator<T>(a: DynArray<T>): (it: Cursor)
    requires a.Valid()
    ensures ReverseInRange(a, it) && ReverseValid(a, it) && it.lastRet < 0
    ensures it.cursor == a.size - 1
  {
    Cursor(a.size - 1, -1)
  }

  /** Whether the reverse `next` has a slot to return: some element lies at or before
      the cursor, or the cursor sits on the slot a removal emptied past the end. */
  function ReverseHasNext<T>(a: DynArray<T>, it: Cursor): (r: bool)
    requires a.Valid() && ReverseValid(a, it)
    ensures it.cursor < a.size ==> (r <==> a.Contents()[..it.cursor + 1] != [])
    ensures it.cursor == a.size ==> r
  {
    it.cursor >= 0
  }

  /** Return the slot under the cursor and step back. The slot is a present element
      except when a removal left the cursor one past the end, where it is empty. */
  function ReverseNext<T>(a: DynArray<T>, it: Cursor): (r: Result<(Option<T>, Cursor)>)
    requires a.Valid() && ReverseValid(a, it)
    ensures r.Err? <==> it.cursor < 0
    ensures r.Err? ==> r.error == NoSuchElement
    ensures r.Ok? && it.cursor < a.size ==> r.value.0 == Some(a.Contents()[it.cursor])
    ensures r.Ok? && it.cursor == a.size ==> r.value.0.None?
    ensures r.Ok? ==> var it' := r.value.1;
      ReverseValid(a, it') && it'.cursor == it.cursor - 1 && it'.lastRet == it.cursor
    ensures r.Ok? && ReverseInRange(a, it) ==> ReverseInRange(a, r.value.1)
  {
    if !ReverseHasNext(a, it) then Err(NoSuchElement)
    else Ok((a.buffer[it.cursor], Cursor(it.cursor - 1, it.cursor)))
  }

  /** The reverse cursor's `remove` as written: it deletes the element last returned
      but then puts the cursor ON that position, which now holds the element that
      followed it, one the reverse walk has already returned. When `lastRet` is the
      empty slot past the end, the deletion itself is out of bounds. */
  function ReverseRemove<T>(a: DynArray<T>, it: Cursor): (r: Result<(DynArray<T>, Cursor)>)
    requires a.Valid() && ReverseValid(a, it)
    ensures r.Err? <==> it.lastRet < 0 || it.lastRet == a.size
    ensures it.lastRet < 0 ==> r.Err? && r.error == IllegalState
    ensures it.lastRet == a.size ==> r.Err? && r.error == IndexOutOfBounds
    ensures r.Ok? ==> var (b, it') := r.value;
      && b.Valid()
      && b.Contents() == DeleteAt(a.Contents(), it.lastRet)
      && ReverseValid(b, it')
      && it'.cursor == it.lastRet
      && it'.lastRet < 0
  {
    if it.lastRet < 0 then Err(IllegalState)
    else match RemoveAt(a, it.lastRet)
      case Err(err) => Err(err)
      case Ok(b) => Ok((b, Cursor(it.lastRet, -1)))
  }

  /** The reverse cursor's `remove` as evidently intended: the cursor stays where
      `next` left it, just before the deleted position, so no element is revisited. */
  function ReverseRemoveFixed<T>(a: DynArray<T>, it: Cursor): (r: Result<(DynArray<T>, Cursor)>)
    requires a.Valid() && ReverseInRange(a, it)
    ensures r.Err? <==> it.lastRet < 0
    ensures r.Err? ==> r.error == IllegalState
    ensures r.Ok? ==> var (b, it') := r.value;
      && b.Valid()
      && b.Contents() == DeleteAt(a.Contents(), it.lastRet)
      && ReverseInRange(b, it') && ReverseValid(b, it')
      && it'.cursor == it.lastRet - 1
      && it'.lastRet < 0
  {
    if it.lastRet < 0 then Err(IllegalState)
    else match RemoveAt(a, it.lastRet)
      case Err(err) => Err(err)
      case Ok(b) => Ok((b, Cursor(it.lastRet - 1, -1)))
  }
}
