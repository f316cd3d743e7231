/** Stable merge sort on sequences: what ngx_queue_sort computes, and what it means. */
module MergeSort {

  /** le(x, y) stands for cmp(x, y) <= 0, the only thing the sort looks at. */
  ghost predicate TotalPreorder<T>(s: set<T>, le: (T, T) -> bool) {
    && (forall x, y :: x in s && y in s ==> le(x, y) || le(y, x))
    && forall x, y, z :: x in s && y in s && z in s && le(x, y) && le(y, z) ==> le(x, z)
  }

  ghost predicate From<T>(list: seq<T>, s: set<T>) {
    forall i :: 0 <= i < |list| ==> list[i] in s
  }

  /** The second list is drained into the first: an element goes before the first one it is less than. */
  function Merge<T>(a: seq<T>, b: seq<T>, le: (T, T) -> bool): seq<T>
    decreases |a| + |b|
  {
    if a == [] then b
    else if b == [] then a
    else if le(a[0], b[0]) then [a[0]] + Merge(a[1..], b, le)
    else [b[0]] + Merge(a, b[1..], le)
  }

  function Sort<T>(list: seq<T>, le: (T, T) -> bool): seq<T>
    decreases |list|
  {
    if |list| <= 1 then list
    else Merge(Sort(list[..|list| / 2], le), Sort(list[|list| / 2..], le), le)
  }

  ghost predicate Sorted<T>(list: seq<T>, le: (T, T) -> bool) {
    forall i, j :: 0 <= i < j < |list| ==> le(list[i], list[j])
  }

  lemma {:induction false} MergeElements<T>(a: seq<T>, b: seq<T>, le: (T, T) -> bool)
    ensures multiset(Merge(a, b, le)) == multiset(a) + multiset(b)
    ensures |Merge(a, b, le)| == |a| + |b|
    decreases |a| + |b|
  {
    if a != [] && b != [] {
      if le(a[0], b[0]) {
        MergeElements(a[1..], b, le);
        assert a == [a[0]] + a[1..];
      } else {
        MergeElements(a, b[1..], le);
        assert b == [b[0]] + b[1..];
      }
    }
  }

  /** Every element of the result is one of the arguments'. */
  lemma {:induction false} MergeFrom<T>(a: seq<T>, b: seq<T>, le: (T, T) -> bool, s: set<T>)
    requires From(a, s) && From(b, s)
    ensures From(Merge(a, b, le), s)
    decreases |a| + |b|
  {
    if a != [] && b != [] {
      if le(a[0], b[0]) {
        MergeFrom(a[1..], b, le, s);
      } else {
        MergeFrom(a, b[1..], le, s);
      }
    }
  }

  /** x is not greater than any element. */
  ghost predicate Least<T>(x: T, list: seq<T>, le: (T, T) -> bool) {
    forall i :: 0 <= i < |list| ==> le(x, list[i])
  }

  lemma {:induction false} MergeLeast<T>(x: T, a: seq<T>, b: seq<T>, le: (T, T) -> bool)
    requires Least(x, a, le) && Least(x, b, le)
    ensures Least(x, Merge(a, b, le), le)
    decreases |a| + |b|
  {
    if a != [] && b != [] {
      if le(a[0], b[0]) {
        MergeLeast(x, a[1..], b, le);
      } else {
        MergeLeast(x, a, b[1..], le);
      }
    }
  }

  /** The head of a sorted list is least in any list it is not greater than the head of. */
  lemma HeadLeast<T>(x: T, list: seq<T>, le: (T, T) -> bool, s: set<T>)
    requires TotalPreorder(s, le) && x in s && From(list, s) && Sorted(list, le) && (list != [] ==> le(x, list[0]))
    ensures Least(x, list, le)
  {
  }

  lemma {:induction false} MergeSorted<T>(a: seq<T>, b: seq<T>, le: (T, T) -> bool, s: set<T>)
    requires TotalPreorder(s, le) && From(a, s) && From(b, s) && Sorted(a, le) && Sorted(b, le)
    ensures Sorted(Merge(a, b, le), le)
    decreases |a| + |b|
  {
    if a != [] && b != [] {
      if le(a[0], b[0]) {
        MergeSorted(a[1..], b, le, s);
        HeadLeast(a[0], b, le, s);
        MergeLeast(a[0], a[1..], b, le);
      } else {
        MergeSorted(a, b[1..], le, s);
        HeadLeast(b[0], a, le, s);
        MergeLeast(b[0], a, b[1..], le);
      }
    }
  }

  /** The elements equivalent to x, in order. */
  function Same<T>(list: seq<T>, x: T, le: (T, T) -> bool): seq<T> {
    if list == [] then []
    else (if le(x, list[0]) && le(list[0], x) then [list[0]] else []) + Same(list[1..], x, le)
  }

  lemma Reassociate<T>(a: seq<T>, b: seq<T>, c: seq<T>)
    ensures a + (b + c) == a + b + c
  {
  }

  lemma {:induction false} SameJoined<T>(a: seq<T>, b: seq<T>, x: T, le: (T, T) -> bool)
    ensures Same(a + b, x, le) == Same(a, x, le) + Same(b, x, le)
  {
    if a == [] {
      assert a + b == b;
    } else {
      SameJoined(a[1..], b, x, le);
      assert (a + b)[0] == a[0] && (a + b)[1..] == a[1..] + b;
      var first := if le(x, a[0]) && le(a[0], x) then [a[0]] else [];
      assert Same(a + b, x, le) == first + Same(a[1..] + b, x, le);
      Reassociate(first, Same(a[1..], x, le), Same(b, x, le));
    }
  }

  lemma {:induction false} NoneSame<T>(list: seq<T>, x: T, le: (T, T) -> bool)
    requires forall i :: 0 <= i < |list| ==> !le(list[i], x)
    ensures Same(list, x, le) == []
  {
    if list != [] {
      NoneSame(list[1..], x, le);
    }
  }

  /** Merging keeps equivalent elements in order, those of the first list first. */
  lemma {:induction false} MergeStable<T>(a: seq<T>, b: seq<T>, le: (T, T) -> bool, x: T, s: set<T>)
    requires TotalPreorder(s, le) && From(a, s) && From(b, s) && x in s && Sorted(a, le) && Sorted(b, le)
    ensures Same(Merge(a, b, le), x, le) == Same(a, x, le) + Same(b, x, le)
    decreases |a| + |b|
  {
    if a == [] || b == [] {
    } else if le(a[0], b[0]) {
      MergeStable(a[1..], b, le, x, s);
    } else {
      MergeStable(a, b[1..], le, x, s);
      if le(x, b[0]) && le(b[0], x) {
        Greater(a, b[0], x, le, s);
        NoneSame(a, x, le);
      }
    }
  }

  /** No element of a sorted list is equivalent to one that is less than its head. */
  lemma Greater<T>(a: seq<T>, first: T, x: T, le: (T, T) -> bool, s: set<T>)
    requires TotalPreorder(s, le) && From(a, s) && first in s && x in s && Sorted(a, le) && a != []
    requires !le(a[0], first) && le(x, first)
    ensures forall i :: 0 <= i < |a| ==> !le(a[i], x)
  {
    assert a[0] in s && le(a[0], a[0]);
  }

  lemma {:induction false} SortFrom<T>(list: seq<T>, le: (T, T) -> bool, s: set<T>)
    requires From(list, s)
    ensures From(Sort(list, le), s)
    decreases |list|
  {
    if |list| > 1 {
      var front, back := list[..|list| / 2], list[|list| / 2..];
      SortFrom(front, le, s);
      SortFrom(back, le, s);
      MergeFrom(Sort(front, le), Sort(back, le), le, s);
    }
  }

  /** The sort is a permutation, sorted and stable. */
  lemma {:induction false} SortCorrect<T>(list: seq<T>, le: (T, T) -> bool, x: T, s: set<T>)
    requires TotalPreorder(s, le) && From(list, s) && x in s
    ensures multiset(Sort(list, le)) == multiset(list) && Sorted(Sort(list, le), le)
    ensures Same(Sort(list, le), x, le) == Same(list, x, le)
    decreases |list|
  {
    if |list| > 1 {
      var front, back := list[..|list| / 2], list[|list| / 2..];
      assert list == front + back;
      SortCorrect(front, le, x, s);
      SortCorrect(back, le, x, s);
      SortFrom(front, le, s);
      SortFrom(back, le, s);
      MergeElements(Sort(front, le), Sort(back, le), le);
      MergeSorted(Sort(front, le), Sort(back, le), le, s);
      MergeStable(Sort(front, le), Sort(back, le), le, x, s);
      SameJoined(front, back, x, le);
    }
  }

  /** These properties leave one result only: two sorted lists with the same elements in the same order among
      equivalent ones are equal. */
  lemma {:induction false} SortUnique<T>(list: seq<T>, other: seq<T>, le: (T, T) -> bool, s: set<T>)
    requires TotalPreorder(s, le) && From(list, s) && From(other, s) && Sorted(list, le) && Sorted(other, le)
    requires forall x :: x in s ==> Same(list, x, le) == Same(other, x, le)
    ensures list == other
    decreases |list| + |other|
  {
    if list == [] || other == [] {
      if list != [] {
        HeadSame(list, le, s);
      }
      if other != [] {
        HeadSame(other, le, s);
      }
    } else {
      var x, y := list[0], other[0];
      assert x in s && y in s;
      HeadSame(list, le, s);
      HeadSame(other, le, s);
      SameMember(other, x, le, s);
      SameMember(list, y, le, s);
      assert x == y;
      forall z | z in s ensures Same(list[1..], z, le) == Same(other[1..], z, le) {
        var own := if le(z, x) && le(x, z) then [x] else [];
        assert own + Same(list[1..], z, le) == own + Same(other[1..], z, le);
        assert Same(list[1..], z, le) == Same(list, z, le)[|own|..];
      }
      SortUnique(list[1..], other[1..], le, s);
    }
  }

  lemma HeadSame<T>(list: seq<T>, le: (T, T) -> bool, s: set<T>)
    requires TotalPreorder(s, le) && From(list, s) && list != []
    ensures list[0] in s && Same(list, list[0], le) != [] && Same(list, list[0], le)[0] == list[0]
  {
    assert list[0] in s && le(list[0], list[0]);
  }

  /** When something is equivalent to x in a sorted list, x is not less than its head. */
  lemma {:induction false} SameMember<T>(list: seq<T>, x: T, le: (T, T) -> bool, s: set<T>)
    requires TotalPreorder(s, le) && From(list, s) && x in s && Sorted(list, le) && Same(list, x, le) != []
    ensures list != [] && le(list[0], x)
  {
    if !(le(x, list[0]) && le(list[0], x)) {
      SameMember(list[1..], x, le, s);
      assert list[0] in s && list[1] in s && le(list[0], list[1]);
    }
  }
}
