/** The array sort and the binary search (lib/stdlib.c).  An element of the array
    stands for the SIZE bytes that the C code moves one at a time.

    Indexes are 1-based, as in the C code: the children of I are 2I and 2I + 1.  The
    array is a heap from an index on when no element from there on is less than a
    child of it, and an element that is being floated down may be the one exception. */
module HeapSort {
  import opened Options

  type Compare<!T> = (T, T) -> int

  /** A strcmp()-type comparison: a total preorder. */
  ghost predicate Preorder<T(!new)>(compare: Compare<T>) {
    && (forall a, b :: compare(a, b) > 0 <==> compare(b, a) < 0)
    && (forall a, b, c :: compare(a, b) <= 0 && compare(b, c) <= 0 ==> compare(a, c) <= 0)
  }

  predicate Le<T>(a: T, b: T, compare: Compare<T>) { compare(a, b) <= 0 }

  lemma LeTrans<T(!new)>(a: T, b: T, c: T, compare: Compare<T>)
    requires Preorder(compare) && Le(a, b, compare) && Le(b, c, compare)
    ensures Le(a, c, compare)
  {
  }

  lemma LeTotal<T(!new)>(a: T, b: T, compare: Compare<T>)
    requires Preorder(compare)
    ensures compare(a, b) > 0 ==> Le(b, a, compare)
    ensures Le(a, a, compare)
  {
  }

  ghost predicate Sorted<T>(s: seq<T>, compare: Compare<T>) {
    forall i, j :: 0 <= i < j < |s| ==> Le(s[i], s[j], compare)
  }

  // ----- Swaps -----

  /** S with its elements at the 1-based indexes I and J exchanged. */
  function Swapped<T>(s: seq<T>, i: nat, j: nat): (t: seq<T>)
    requires 1 <= i <= |s| && 1 <= j <= |s|
    ensures |t| == |s|
    ensures forall k :: 0 <= k < |s| ==> t[k] == if k == i - 1 then s[j - 1] else if k == j - 1 then s[i - 1] else s[k]
  {
    s[i - 1 := s[j - 1]][j - 1 := s[i - 1]]
  }

  lemma SwappedBag<T>(s: seq<T>, i: nat, j: nat)
    requires 1 <= i <= |s| && 1 <= j <= |s|
    ensures multiset(Swapped(s, i, j)) == multiset(s)
  {
  }

  /** T is S with its first CNT elements in another order. */
  ghost predicate Shuffled<T>(s: seq<T>, t: seq<T>, cnt: nat) {
    cnt <= |s| == |t| && multiset(t[..cnt]) == multiset(s[..cnt]) && t[cnt..] == s[cnt..]
  }

  lemma SwapShuffles<T>(s: seq<T>, t: seq<T>, i: nat, j: nat, cnt: nat)
    requires Shuffled(s, t, cnt) && 1 <= i <= cnt && 1 <= j <= cnt
    ensures Shuffled(s, Swapped(t, i, j), cnt)
  {
    SwappedBag(t[..cnt], i, j);
    assert Swapped(t, i, j)[..cnt] == Swapped(t[..cnt], i, j);
    assert Swapped(t, i, j)[cnt..] == t[cnt..];
  }

  method DoSwap<T>(a: array<T>, i: nat, j: nat)
    requires 1 <= i <= a.Length && 1 <= j <= a.Length
    modifies a
    ensures a[..] == Swapped(old(a[..]), i, j)
  {
    a[i - 1], a[j - 1] := a[j - 1], a[i - 1];
  }

  // ----- Heaps -----

  /** The element K, 1-based, is at least its child C, if that is among the first CNT. */
  ghost predicate Above<T>(s: seq<T>, k: nat, c: nat, cnt: nat, compare: Compare<T>)
    requires cnt <= |s| && 1 <= k
  {
    k < c <= cnt ==> Le(s[c - 1], s[k - 1], compare)
  }

  ghost predicate NodeOk<T>(s: seq<T>, k: nat, cnt: nat, compare: Compare<T>)
    requires cnt <= |s| && 1 <= k
  {
    Above(s, k, 2 * k, cnt, compare) && Above(s, k, 2 * k + 1, cnt, compare)
  }

  /** The elements from LO on are at least their children. */
  ghost predicate HeapFrom<T>(s: seq<T>, lo: nat, cnt: nat, compare: Compare<T>)
    requires cnt <= |s| && 1 <= lo
  {
    forall k: nat :: lo <= k ==> NodeOk(s, k, cnt, compare)
  }

  /** The heap from LO on is right but, perhaps, at CUR, whose children are at most
      its parent. */
  ghost predicate Floating<T>(s: seq<T>, lo: nat, cur: nat, cnt: nat, compare: Compare<T>)
    requires cnt <= |s| && 1 <= lo
  {
    && lo <= cur <= cnt
    && (forall k: nat :: lo <= k && k != cur ==> NodeOk(s, k, cnt, compare))
    && (cur / 2 >= lo ==> Above(s, cur / 2, 2 * cur, cnt, compare) && Above(s, cur / 2, 2 * cur + 1, cnt, compare))
  }

  /** The larger child MAX of CUR goes up, and the element goes down. */
  ghost predicate LargestChild<T>(s: seq<T>, cur: nat, max: nat, cnt: nat, compare: Compare<T>) {
    && 1 <= cur && (max == 2 * cur || max == 2 * cur + 1) && max <= cnt <= |s|
    && Le(s[cur - 1], s[max - 1], compare)
    && (2 * cur <= cnt ==> Le(s[2 * cur - 1], s[max - 1], compare))
    && (2 * cur + 1 <= cnt ==> Le(s[2 * cur], s[max - 1], compare))
  }

  lemma FloatNode<T>(s: seq<T>, lo: nat, cur: nat, max: nat, cnt: nat, compare: Compare<T>, k: nat)
    requires cnt <= |s| && 1 <= lo && Floating(s, lo, cur, cnt, compare) && LargestChild(s, cur, max, cnt, compare)
    requires lo <= k && k != max
    ensures NodeOk(Swapped(s, cur, max), k, cnt, compare)
  {
    hide Le;
    if k != cur {
      assert NodeOk(s, k, cnt, compare);
      if 2 * k == cur || 2 * k + 1 == cur { assert cur / 2 == k; }
    }
  }

  lemma FloatStep<T>(s: seq<T>, lo: nat, cur: nat, max: nat, cnt: nat, compare: Compare<T>)
    requires cnt <= |s| && 1 <= lo && Floating(s, lo, cur, cnt, compare) && LargestChild(s, cur, max, cnt, compare)
    ensures Floating(Swapped(s, cur, max), lo, max, cnt, compare)
  {
    hide Le, LargestChild;
    ChildOf(s, cur, max, cnt, compare);
    var t := Swapped(s, cur, max);
    assert NodeOk(s, max, cnt, compare);
    forall k: nat | lo <= k && k != max ensures NodeOk(t, k, cnt, compare) { FloatNode(s, lo, cur, max, cnt, compare, k); }
  }

  lemma ChildOf<T>(s: seq<T>, cur: nat, max: nat, cnt: nat, compare: Compare<T>)
    requires LargestChild(s, cur, max, cnt, compare)
    ensures max / 2 == cur && cur < max <= cnt
  {
  }

  /** heapify: floats the element I down. */
  method Heapify<T(!new)>(a: array<T>, i: nat, cnt: nat, compare: Compare<T>)
    requires Preorder(compare) && 1 <= i <= cnt <= a.Length && HeapFrom(a[..], i + 1, cnt, compare)
    modifies a
    ensures HeapFrom(a[..], i, cnt, compare) && Shuffled(old(a[..]), a[..], cnt)
  {
    hide Preorder, Swapped, NodeOk, Shuffled, Floating, HeapFrom;
    var cur := i;
    StartFloat(a[..], i, cnt, compare);
    while true
      invariant 1 <= cur <= cnt && Floating(a[..], i, cur, cnt, compare) && Shuffled(old(a[..]), a[..], cnt)
      decreases cnt - cur
    {
      var left, right, max := 2 * cur, 2 * cur + 1, cur;
      LeTotal(a[cur - 1], a[cur - 1], compare);
      if left <= cnt && compare(a[left - 1], a[max - 1]) > 0 { max := left; }
      if left <= cnt { LeTotal(a[left - 1], a[cur - 1], compare); LeTotal(a[left - 1], a[left - 1], compare); }
      ghost var m := max;
      if right <= cnt && compare(a[right - 1], a[max - 1]) > 0 { max := right; }
      if right <= cnt { Largest(a[..], cur, left, right, m, max, compare); }
      if max == cur {
        FloatDone(a[..], i, cur, cnt, compare);
        return;
      }
      FloatStep(a[..], i, cur, max, cnt, compare);
      SwapShuffles(old(a[..]), a[..], cur, max, cnt);
      DoSwap(a, cur, max);
      cur := max;
    }
  }

  lemma StartFloat<T>(s: seq<T>, i: nat, cnt: nat, compare: Compare<T>)
    requires 1 <= i <= cnt <= |s| && HeapFrom(s, i + 1, cnt, compare)
    ensures Floating(s, i, i, cnt, compare) && Shuffled(s, s, cnt)
  {
  }

  lemma FloatDone<T>(s: seq<T>, i: nat, cur: nat, cnt: nat, compare: Compare<T>)
    requires cnt <= |s| && 1 <= i && Floating(s, i, cur, cnt, compare)
    requires 2 * cur <= cnt ==> Le(s[2 * cur - 1], s[cur - 1], compare)
    requires 2 * cur + 1 <= cnt ==> Le(s[2 * cur], s[cur - 1], compare)
    ensures HeapFrom(s, i, cnt, compare)
  {
  }

  /** MAX is the largest of the three, if M was of the first two. */
  lemma Largest<T(!new)>(s: seq<T>, cur: nat, left: nat, right: nat, m: nat, max: nat, compare: Compare<T>)
    requires Preorder(compare) && 1 <= cur < left < right <= |s| && (m == cur || m == left)
    requires Le(s[cur - 1], s[m - 1], compare) && Le(s[left - 1], s[m - 1], compare)
    requires max == if compare(s[right - 1], s[m - 1]) > 0 then right else m
    ensures Le(s[cur - 1], s[max - 1], compare) && Le(s[left - 1], s[max - 1], compare)
    ensures Le(s[right - 1], s[max - 1], compare)
  {
    LeTotal(s[right - 1], s[m - 1], compare);
    LeTotal(s[right - 1], s[right - 1], compare);
    if max == right {
      LeTrans(s[cur - 1], s[m - 1], s[right - 1], compare);
      LeTrans(s[left - 1], s[m - 1], s[right - 1], compare);
    }
  }

  /** The root of a heap is at least every element. */
  lemma {:induction false} RootIsMax<T(!new)>(s: seq<T>, cnt: nat, compare: Compare<T>, k: nat)
    requires Preorder(compare) && 1 <= k <= cnt <= |s| && HeapFrom(s, 1, cnt, compare)
    ensures Le(s[k - 1], s[0], compare)
  {
    hide Preorder;
    if k == 1 {
      LeTotal(s[0], s[0], compare);
    } else {
      assert NodeOk(s, k / 2, cnt, compare);
      assert k == 2 * (k / 2) || k == 2 * (k / 2) + 1;
      RootIsMax(s, cnt, compare, k / 2);
      LeTrans(s[k - 1], s[k / 2 - 1], s[0], compare);
    }
  }

  /** From index N on, each element is at least all those before it. */
  ghost predicate TailOk<T>(s: seq<T>, n: nat, compare: Compare<T>) {
    forall j, k :: 0 <= j < k < |s| && n <= k ==> Le(s[j], s[k], compare)
  }

  lemma ShuffledBag<T>(s: seq<T>, t: seq<T>, cnt: nat)
    requires Shuffled(s, t, cnt)
    ensures multiset(t) == multiset(s)
  {
    assert s == s[..cnt] + s[cnt..] && t == t[..cnt] + t[cnt..];
  }

  /** The element at J of the shuffled part was somewhere in it. */
  lemma ShuffledFrom<T>(s: seq<T>, t: seq<T>, cnt: nat, j: nat) returns (m: nat)
    requires Shuffled(s, t, cnt) && j < cnt
    ensures m < cnt && s[m] == t[j]
  {
    assert t[..cnt][j] in multiset(t[..cnt]);
    assert t[j] in s[..cnt];
    m :| 0 <= m < cnt && s[..cnt][m] == t[j];
  }

  lemma ShuffleKeepsTail<T>(s: seq<T>, t: seq<T>, cnt: nat, compare: Compare<T>)
    requires Shuffled(s, t, cnt) && TailOk(s, cnt, compare)
    ensures TailOk(t, cnt, compare)
  {
    hide Le, Shuffled;
    SameRest(s, t, cnt);
    forall j, k | 0 <= j < k < |t| && cnt <= k ensures Le(t[j], t[k], compare) {
      if j < cnt { var m := ShuffledFrom(s, t, cnt, j); }
    }
  }

  lemma SameRest<T>(s: seq<T>, t: seq<T>, cnt: nat)
    requires Shuffled(s, t, cnt)
    ensures cnt <= |s| == |t| && forall k :: cnt <= k < |s| ==> t[k] == s[k]
  {
    forall k | cnt <= k < |s| ensures t[k] == s[k] { assert t[cnt..][k - cnt] == s[cnt..][k - cnt]; }
  }

  /** Swapping the root to the end of the heap. */
  lemma RootToEnd<T(!new)>(s: seq<T>, i: nat, compare: Compare<T>)
    requires Preorder(compare) && 2 <= i <= |s| && HeapFrom(s, 1, i, compare) && TailOk(s, i, compare)
    ensures TailOk(Swapped(s, 1, i), i - 1, compare)
    ensures HeapFrom(Swapped(s, 1, i), 2, i - 1, compare)
  {
    hide Preorder, Le;
    var t := Swapped(s, 1, i);
    assert forall k :: 0 <= k < i ==> Le(s[k], s[0], compare) by {
      forall k | 0 <= k < i ensures Le(s[k], s[0], compare) { RootIsMax(s, i, compare, k + 1); }
    }
    var n := i - 1;
    forall k: nat | 2 <= k ensures NodeOk(t, k, n, compare) { assert NodeOk(s, k, i, compare); }
  }

  /** sort. */
  method Sort<T(!new)>(a: array<T>, compare: Compare<T>)
    requires Preorder(compare)
    modifies a
    ensures Sorted(a[..], compare) && multiset(a[..]) == multiset(old(a[..]))
  {
    hide Preorder, HeapFrom, TailOk, Shuffled, Swapped, Sorted;
    var cnt := a.Length;
    var i := cnt / 2;
    LeavesAreHeaps(a[..], cnt, compare);
    while i > 0
      invariant 0 <= i <= cnt / 2 && HeapFrom(a[..], i + 1, cnt, compare)
      invariant multiset(a[..]) == multiset(old(a[..]))
    {
      ghost var s := a[..];
      Heapify(a, i, cnt, compare);
      ShuffledBag(s, a[..], cnt);
      i := i - 1;
    }
    NoTail(a[..], compare);
    i := cnt;
    while i > 1
      invariant 0 <= i <= cnt && HeapFrom(a[..], 1, i, compare) && TailOk(a[..], i, compare)
      invariant multiset(a[..]) == multiset(old(a[..]))
    {
      ghost var s := a[..];
      RootToEnd(s, i, compare);
      SwappedBag(s, 1, i);
      DoSwap(a, 1, i);
      ghost var t := a[..];
      Heapify(a, 1, i - 1, compare);
      ShuffledBag(t, a[..], i - 1);
      ShuffleKeepsTail(t, a[..], i - 1, compare);
      i := i - 1;
    }
    AllSorted(a[..], i, compare);
  }

  lemma LeavesAreHeaps<T>(s: seq<T>, cnt: nat, compare: Compare<T>)
    requires cnt <= |s|
    ensures HeapFrom(s, cnt / 2 + 1, cnt, compare)
  {
  }

  lemma NoTail<T>(s: seq<T>, compare: Compare<T>)
    ensures TailOk(s, |s|, compare)
  {
  }

  lemma AllSorted<T>(s: seq<T>, i: nat, compare: Compare<T>)
    requires i <= 1 && TailOk(s, i, compare)
    ensures Sorted(s, compare)
  {
  }

  /** binary_search: finds a match in a sorted array exactly if there is one. */
  method BinarySearch<T(!new)>(key: T, a: array<T>, compare: Compare<T>) returns (r: Option<nat>)
    requires Preorder(compare) && Sorted(a[..], compare)
    ensures r.Some? ==> r.value < a.Length && compare(key, a[r.value]) == 0
    ensures r.None? ==> forall k :: 0 <= k < a.Length ==> compare(key, a[k]) != 0
  {
    var first, last := 0, a.Length;
    while first < last
      invariant first <= last <= a.Length
      invariant forall k :: 0 <= k < first ==> compare(key, a[k]) > 0
      invariant forall k :: last <= k < a.Length ==> compare(key, a[k]) < 0
    {
      var range := last - first;
      var middle := first + range / 2;
      var cmp := compare(key, a[middle]);
      if cmp < 0 {
        forall k | middle <= k < a.Length ensures compare(key, a[k]) < 0 {
        }
        last := middle;
      } else if cmp > 0 {
        forall k | 0 <= k <= middle ensures compare(key, a[k]) > 0 {
        }
        first := middle + 1;
      } else {
        return Some(middle);
      }
    }
    r := None;
  }

}
