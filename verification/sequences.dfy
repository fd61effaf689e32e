/** Sequence-level meaning of the container operations: what each one does to
    the abstract list of elements, independent of buffers and capacity. */
module Sequences {

  /** `s` with `e` placed at position `i`; the elements from `i` on move one place right. */
  function InsertAt<T>(s: seq<T>, i: nat, e: T): (r: seq<T>)
    requires i <= |s|
    ensures |r| == |s| + 1
    ensures r[i] == e
    ensures forall k :: 0 <= k < i ==> r[k] == s[k]
    ensures forall k :: i < k < |r| ==> r[k] == s[k - 1]
  {
    s[..i] + [e] + s[i..]
  }

  /** `s` without its element at position `i`; the elements after it move one place left. */
  function DeleteAt<T>(s: seq<T>, i: nat): (r: seq<T>)
    requires i < |s|
    ensures |r| == |s| - 1
    ensures forall k :: 0 <= k < i ==> r[k] == s[k]
    ensures forall k :: i <= k < |r| ==> r[k] == s[k + 1]
  {
    s[..i] + s[i + 1..]
  }

  /** Deleting at `i` keeps the part before `i` and shifts the part after it down by one. */
  lemma DeleteAtSlices<T>(s: seq<T>, i: nat)
    requires i < |s|
    ensures DeleteAt(s, i)[..i] == s[..i]
    ensures DeleteAt(s, i)[i..] == s[i + 1..]
  {
  }

  /** One draining round from position `i`: what remains to be returned after
      deleting at `i` is the old suffix past `i`, and the part before `i` is untouched. */
  lemma DeleteAtSuffix<T>(s: seq<T>, i: nat, ys: seq<T>, zs: seq<T>)
    requires i < |s|
    requires ys == DeleteAt(s, i)[i..] && zs == DeleteAt(s, i)[..i]
    ensures [s[i]] + ys == s[i..] && zs == s[..i]
  {
    DeleteAtSlices(s, i);
  }

  /** One backward draining round at position `i`: deleting at `i` leaves the prefix
      before `i` to be returned backward, and the suffix after `i` untouched. */
  lemma DeleteAtPrefix<T>(s: seq<T>, i: nat, ys: seq<T>, zs: seq<T>)
    requires i < |s|
    requires ys == Reverse(DeleteAt(s, i)[..i]) && zs == DeleteAt(s, i)[i..]
    ensures [s[i]] + ys == Reverse(s[..i + 1]) && zs == s[i + 1..]
  {
    DeleteAtSlices(s, i);
    ReversePrefixStep(s, i);
  }

  /** `i` is the least position holding `e`, or -1 when `e` does not occur. */
  predicate IsFirstIndex<T(==)>(s: seq<T>, e: T, i: int)
  {
    if i == -1 then e !in s else 0 <= i < |s| && s[i] == e && e !in s[..i]
  }

  /** `i` is the greatest position holding `e`, or -1 when `e` does not occur. */
  predicate IsLastIndex<T(==)>(s: seq<T>, e: T, i: int)
  {
    if i == -1 then e !in s else 0 <= i < |s| && s[i] == e && e !in s[i + 1..]
  }

  /** `s` with its first occurrence of `e` taken out, or `s` itself when there is none. */
  function RemoveFirst<T(==)>(s: seq<T>, e: T): (r: seq<T>)
    ensures e !in s ==> r == s
    ensures e in s ==> |r| == |s| - 1
  {
    if s == [] then []
    else if s[0] == e then s[1..]
    else [s[0]] + RemoveFirst(s[1..], e)
  }

  /** Taking out the first occurrence removes exactly one copy of `e` and keeps every other element. */
  lemma {:induction false} RemoveFirstMultiset<T>(s: seq<T>, e: T)
    ensures multiset(RemoveFirst(s, e)) == multiset(s) - multiset{e}
  {
    if s != [] {
      assert s == [s[0]] + s[1..];
      if s[0] != e {
        RemoveFirstMultiset(s[1..], e);
      }
    }
  }

  /** The elements of `s` that do not occur in `xs`, in their original order. */
  function Without<T(==)>(s: seq<T>, xs: seq<T>): (r: seq<T>)
    ensures |r| <= |s|
  {
    if s == [] then []
    else if s[0] in xs then Without(s[1..], xs)
    else [s[0]] + Without(s[1..], xs)
  }

  /** Some value named in `xs` occurs in `s`. */
  predicate Meets<T(==)>(xs: seq<T>, s: seq<T>)
  {
    exists k :: 0 <= k < |xs| && xs[k] in s
  }

  /** Naming one more value meets `s` when that value occurs in it or the earlier ones already did. */
  lemma MeetsSnoc<T>(xs: seq<T>, x: T, s: seq<T>)
    ensures Meets(xs + [x], s) <==> Meets(xs, s) || x in s
  {
    if Meets(xs + [x], s) && !(x in s) {
      var k :| 0 <= k < |xs| + 1 && (xs + [x])[k] in s;
      assert xs[k] in s;
    }
    if Meets(xs, s) {
      var k :| 0 <= k < |xs| && xs[k] in s;
      assert (xs + [x])[k] in s;
    }
    if x in s {
      assert (xs + [x])[|xs|] in s;
    }
  }

  /** A value survives the filter exactly when it was there and is not named. */
  lemma {:induction false} WithoutMember<T>(s: seq<T>, xs: seq<T>, x: T)
    ensures x in Without(s, xs) <==> x in s && x !in xs
  {
    if s != [] {
      assert s == [s[0]] + s[1..];
      WithoutMember(s[1..], xs, x);
    }
  }

  /** Every surviving value keeps all of its copies. */
  lemma {:induction false} WithoutCount<T>(s: seq<T>, xs: seq<T>, x: T)
    requires x !in xs
    ensures multiset(Without(s, xs))[x] == multiset(s)[x]
  {
    if s != [] {
      assert s == [s[0]] + s[1..];
      WithoutCount(s[1..], xs, x);
    }
  }

  /** `s` back to front. */
  function Reverse<T>(s: seq<T>): (r: seq<T>)
    ensures |r| == |s|
    ensures forall k :: 0 <= k < |s| ==> r[k] == s[|s| - 1 - k]
  {
    if s == [] then [] else Reverse(s[1..]) + [s[0]]
  }

  /** Reversal moves a last element to the front. */
  lemma ReverseSnoc<T>(s: seq<T>, x: T)
    ensures Reverse(s + [x]) == [x] + Reverse(s)
  {
    var l, r := Reverse(s + [x]), [x] + Reverse(s);
    assert forall k :: 0 <= k < |l| ==> l[k] == r[k];
  }

  /** Reversing one more element of a prefix puts that element in front. */
  lemma ReversePrefixStep<T>(s: seq<T>, i: nat)
    requires i < |s|
    ensures Reverse(s[..i + 1]) == [s[i]] + Reverse(s[..i])
  {
    assert s[..i + 1] == s[..i] + [s[i]];
    ReverseSnoc(s[..i], s[i]);
  }

  /** Appending a value that was absent and then taking out its first occurrence gives back `s`. */
  lemma {:induction false} RemoveFirstOfAppended<T>(s: seq<T>, e: T)
    requires e !in s
    ensures RemoveFirst(s + [e], e) == s
  {
    if s != [] {
      assert (s + [e])[1..] == s[1..] + [e];
      RemoveFirstOfAppended(s[1..], e);
    }
  }

  /** Taking out the first occurrence is deleting at the first index. */
  lemma {:induction false} RemoveFirstIsDeleteAtFirstIndex<T>(s: seq<T>, e: T, i: int)
    requires i != -1 && IsFirstIndex(s, e, i)
    ensures RemoveFirst(s, e) == DeleteAt(s, i)
  {
    if s[0] != e {
      var t := s[1..];
      assert t[..i - 1] == s[1..i];
      RemoveFirstIsDeleteAtFirstIndex(t, e, i - 1);
      calc {
        RemoveFirst(s, e);
        [s[0]] + RemoveFirst(t, e);
        [s[0]] + (t[..i - 1] + t[i..]);
        { assert [s[0]] + t[..i - 1] == s[..i]; assert t[i..] == s[i + 1..]; }
        s[..i] + s[i + 1..];
      }
    }
  }

  /** Taking out an occurrence of a value that is filtered anyway does not change the filter. */
  lemma {:induction false} WithoutRemoveFirst<T>(s: seq<T>, e: T, xs: seq<T>)
    requires e in xs
    ensures Without(RemoveFirst(s, e), xs) == Without(s, xs)
  {
    if s != [] && s[0] != e {
      var t := RemoveFirst(s[1..], e);
      WithoutRemoveFirst(s[1..], e, xs);
      assert ([s[0]] + t)[0] == s[0];
      assert ([s[0]] + t)[1..] == t;
    }
  }

  /** Filtering out values that do not occur changes nothing. */
  lemma {:induction false} WithoutAbsent<T>(s: seq<T>, xs: seq<T>)
    requires forall x :: x in xs ==> x !in s
    ensures Without(s, xs) == s
  {
    if s != [] {
      assert s == [s[0]] + s[1..];
      WithoutAbsent(s[1..], xs);
    }
  }

  /** Filtering distributes over concatenation. */
  lemma {:induction false} WithoutAppend<T>(s: seq<T>, t: seq<T>, xs: seq<T>)
    ensures Without(s + t, xs) == Without(s, xs) + Without(t, xs)
  {
    if s != [] {
      var st := s + t;
      assert st[0] == s[0] && st[1..] == s[1..] + t;
      WithoutAppend(s[1..], t, xs);
      if s[0] in xs {
        assert Without(st, xs) == Without(s[1..] + t, xs);
      } else {
        assert Without(st, xs) == [s[0]] + Without(s[1..] + t, xs);
      }
    } else {
      assert s + t == t;
    }
  }

  /** Filtering by `a` and then by `b` is filtering by both at once. */
  lemma {:induction false} WithoutWithout<T>(s: seq<T>, a: seq<T>, b: seq<T>)
    ensures Without(Without(s, a), b) == Without(s, a + b)
  {
    if s != [] {
      WithoutWithout(s[1..], a, b);
      if s[0] !in a {
        var t := Without(s[1..], a);
        assert ([s[0]] + t)[0] == s[0];
        assert ([s[0]] + t)[1..] == t;
      }
    }
  }

  /** Both searches agree on whether the value occurs, and the first hit is never after the last. */
  lemma FirstNotAfterLast<T>(s: seq<T>, e: T, i: int, j: int)
    requires IsFirstIndex(s, e, i) && IsLastIndex(s, e, j)
    ensures i == -1 <==> j == -1
    ensures i <= j
    ensures i == j <==> multiset(s)[e] <= 1
  {
    if i != -1 && j != -1 {
      if i < j {
        assert s[..i + 1] + s[i + 1..] == s;
        assert e in s[i + 1..];
        assert multiset(s[..i + 1])[e] >= 1;
        assert multiset(s[i + 1..])[e] >= 1;
      } else {
        assert s == s[..i] + [e] + s[i + 1..];
        assert e !in multiset(s[..i]);
        assert e !in multiset(s[i + 1..]);
      }
    }
  }
}
