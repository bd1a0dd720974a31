/** What the list algorithms of lib/kernel/list.c compute, on sequences of list
    elements: runs, merging, a pass of the natural merge sort, ordered
    insertion.  No links here; Lists has the code that rewrites links. */
module ListOrder {

  /** A list element: the two links, and the data of the structure it is
      embedded in, which no list operation changes. */
  class Elem<T(0)> {
    var prev: Elem?<T>
    var next: Elem?<T>
    const data: T

    constructor (data: T)
      ensures this.data == data && prev == null && next == null
    {
      this.data := data;
      prev, next := null, null;
    }

    /** A head or tail element, embedded in nothing. */
    constructor Header()
    {
      prev, next := null, null;
    }
  }

  type Less<!T> = (T, T) -> bool

  /** A strict weak order: asymmetric, and incomparability is transitive. */
  ghost predicate StrictWeak<T(!new)>(less: Less<T>) {
    && (forall a, b :: less(a, b) ==> !less(b, a))
    && (forall a, b, c :: less(a, c) ==> less(a, b) || less(b, c))
  }

  predicate Before<T(0)>(a: Elem<T>, b: Elem<T>, less: Less<T>) {
    less(a.data, b.data)
  }

  /** Nondecreasing order, in the sense that no element is less than an
      earlier one. */
  ghost predicate Sorted<T(0)>(s: seq<Elem<T>>, less: Less<T>) {
    forall i, j :: 0 <= i < j < |s| ==> !Before(s[j], s[i], less)
  }

  /** The elements equivalent to DATA, in list order. */
  ghost function ClassOf<T(0)>(s: seq<Elem<T>>, data: T, less: Less<T>): seq<Elem<T>> {
    if s == [] then []
    else if !less(s[0].data, data) && !less(data, s[0].data)
    then [s[0]] + ClassOf(s[1..], data, less)
    else ClassOf(s[1..], data, less)
  }

  /** OUT is IN, stably reordered: equivalent elements keep their order. */
  ghost predicate StablyReorders<T(0,!new)>(out: seq<Elem<T>>, in_: seq<Elem<T>>, less: Less<T>) {
    && multiset(out) == multiset(in_)
    && forall data :: ClassOf(out, data, less) == ClassOf(in_, data, less)
  }

  /** Length of the nondecreasing run that S starts with. */
  ghost function RunLength<T(0)>(s: seq<Elem<T>>, less: Less<T>): (e: nat)
    requires s != []
    ensures 1 <= e <= |s|
  {
    if |s| == 1 || Before(s[1], s[0], less) then 1 else 1 + RunLength(s[1..], less)
  }

  /** Number of maximal runs. */
  ghost function Runs<T(0)>(s: seq<Elem<T>>, less: Less<T>): nat {
    if s == [] then 0 else 1 + Runs(s[RunLength(s, less)..], less)
  }

  /** Merge, preferring the left operand among equivalent elements. */
  ghost function Merge<T(0)>(a: seq<Elem<T>>, b: seq<Elem<T>>, less: Less<T>): (m: seq<Elem<T>>)
    ensures |m| == |a| + |b|
  {
    if a == [] then b
    else if b == [] then a
    else if !Before(b[0], a[0], less) then [a[0]] + Merge(a[1..], b, less)
    else [b[0]] + Merge(a, b[1..], less)
  }

  /** End of the second of the two runs that S starts with. */
  ghost function PairLength<T(0)>(s: seq<Elem<T>>, less: Less<T>): (e: nat)
    requires s != []
    ensures RunLength(s, less) <= e <= |s|
    ensures RunLength(s, less) < |s| ==> RunLength(s, less) < e
  {
    var e := RunLength(s, less);
    if e == |s| then e else e + RunLength(s[e..], less)
  }

  /** The first two runs of S merged into one. */
  ghost function MergePair<T(0)>(s: seq<Elem<T>>, less: Less<T>): (m: seq<Elem<T>>)
    requires s != []
    ensures |m| == PairLength(s, less)
  {
    var e, f := RunLength(s, less), PairLength(s, less);
    Merge(s[..e], s[e..f], less)
  }

  /** One pass over the list: neighbouring runs merged two by two. */
  ghost function Pass<T(0)>(s: seq<Elem<T>>, less: Less<T>): (p: seq<Elem<T>>)
    ensures |p| == |s|
  {
    if s == [] then []
    else MergePair(s, less) + Pass(s[PairLength(s, less)..], less)
  }

  /** Number of runs a pass outputs. */
  ghost function OutputRuns<T(0)>(s: seq<Elem<T>>, less: Less<T>): nat {
    if s == [] then 0
    else 1 + OutputRuns(s[PairLength(s, less)..], less)
  }

  /** Passes until one outputs a single run. */
  ghost function NaturalSort<T(0,!new)>(s: seq<Elem<T>>, less: Less<T>): seq<Elem<T>>
    requires StrictWeak(less)
    decreases Runs(s, less)
  {
    PassHalvesRuns(s, less);
    if OutputRuns(s, less) > 1 then NaturalSort(Pass(s, less), less) else Pass(s, less)
  }

  // ----- Order -----

  /** A sequence whose neighbours are in order is in order. */
  lemma {:induction false} ConsSorted<T(0,!new)>(x: Elem<T>, s: seq<Elem<T>>, less: Less<T>)
    requires StrictWeak(less) && Sorted(s, less)
    requires s == [] || !Before(s[0], x, less)
    ensures Sorted([x] + s, less)
  {
    var t := [x] + s;
    forall i, j | 0 <= i < j < |t| ensures !Before(t[j], t[i], less) {
      if i == 0 && j > 1 { assert !Before(s[j - 1], s[0], less); }
    }
  }

  lemma SortedTail<T(0)>(s: seq<Elem<T>>, k: nat, less: Less<T>)
    requires Sorted(s, less) && k <= |s|
    ensures Sorted(s[k..], less) && Sorted(s[..k], less)
  {
  }

  // ----- Runs -----

  lemma {:induction false} RunIsSorted<T(0,!new)>(s: seq<Elem<T>>, less: Less<T>)
    requires s != [] && StrictWeak(less)
    ensures Sorted(s[..RunLength(s, less)], less)
  {
    if !(|s| == 1 || Before(s[1], s[0], less)) {
      RunIsSorted(s[1..], less);
      var e := RunLength(s[1..], less);
      ConsSorted(s[0], s[1..][..e], less);
      assert s[..1 + e] == [s[0]] + s[1..][..e];
    }
  }

  /** A run goes on until an element less than its predecessor, or the end. */
  lemma {:induction false} RunStops<T(0)>(s: seq<Elem<T>>, less: Less<T>)
    requires s != []
    ensures forall k :: 0 < k < RunLength(s, less) ==> !Before(s[k], s[k - 1], less)
    ensures var e := RunLength(s, less); e < |s| ==> Before(s[e], s[e - 1], less)
  {
    if !(|s| == 1 || Before(s[1], s[0], less)) {
      RunStops(s[1..], less);
      var e := RunLength(s[1..], less);
      forall k | 0 < k < 1 + e ensures !Before(s[k], s[k - 1], less) {
        if k > 1 { assert s[k] == s[1..][k - 1] && s[k - 1] == s[1..][k - 2]; }
      }
    }
  }

  lemma {:induction false} RunLengthIs<T(0)>(s: seq<Elem<T>>, e: nat, less: Less<T>)
    requires 1 <= e <= |s|
    requires forall k :: 0 < k < e ==> !Before(s[k], s[k - 1], less)
    requires e < |s| ==> Before(s[e], s[e - 1], less)
    ensures RunLength(s, less) == e
  {
    RunStops(s, less);
    ghost var r := RunLength(s, less);
    assert forall k :: 0 < k < e || 0 < k < r ==> !Before(s[k], s[k - 1], less);
  }

  /** Dropping part of the first run does not add runs. */
  lemma RunsAfterDrop<T(0)>(s: seq<Elem<T>>, k: nat, less: Less<T>)
    requires s != [] && k <= RunLength(s, less)
    ensures Runs(s[k..], less) <= Runs(s, less)
  {
    var e := RunLength(s, less);
    if k < e {
      RunStops(s, less);
      assert forall i :: 0 <= i < |s| - k ==> s[k..][i] == s[k + i];
      RunLengthIs(s[k..], e - k, less);
      assert s[k..][e - k..] == s[e..];
    }
  }

  /** A sorted piece in front adds one run at most. */
  lemma SortedPrefixRuns<T(0)>(a: seq<Elem<T>>, b: seq<Elem<T>>, less: Less<T>)
    requires a != [] && Sorted(a, less)
    ensures Runs(a + b, less) <= 1 + Runs(b, less)
  {
    var s := a + b;
    var e := RunLength(s, less);
    RunStops(s, less);
    assert forall k :: 0 < k < |a| ==> !Before(s[k], s[k - 1], less) by {
      assert forall k :: 0 <= k < |a| ==> s[k] == a[k];
    }
    assert s[e..] == b[e - |a|..];
    if b != [] {
      RunStops(b, less);
      var f := RunLength(b, less);
      assert f < |b| ==> s[|a| + f] == b[f] && s[|a| + f - 1] == b[f - 1];
      RunsAfterDrop(b, e - |a|, less);
    }
  }

  // ----- Merge -----

  /** The head of a sorted sequence bounds the rest. */
  lemma {:induction false} MergeSorted<T(0,!new)>(a: seq<Elem<T>>, b: seq<Elem<T>>, less: Less<T>)
    requires StrictWeak(less) && Sorted(a, less) && Sorted(b, less)
    ensures Sorted(Merge(a, b, less), less)
  {
    if a != [] && b != [] {
      SortedTail(a, 1, less);
      SortedTail(b, 1, less);
      if !Before(b[0], a[0], less) {
        MergeSorted(a[1..], b, less);
        ConsSorted(a[0], Merge(a[1..], b, less), less);
      } else {
        MergeSorted(a, b[1..], less);
        ConsSorted(b[0], Merge(a, b[1..], less), less);
      }
    }
  }

  lemma {:induction false} MergeMultiset<T(0)>(a: seq<Elem<T>>, b: seq<Elem<T>>, less: Less<T>)
    ensures multiset(Merge(a, b, less)) == multiset(a) + multiset(b)
  {
    if a != [] && b != [] {
      if !Before(b[0], a[0], less) {
        MergeMultiset(a[1..], b, less);
        assert a == [a[0]] + a[1..];
      } else {
        MergeMultiset(a, b[1..], less);
        assert b == [b[0]] + b[1..];
      }
    }
  }

  lemma {:induction false} ClassOfConcat<T(0)>(a: seq<Elem<T>>, b: seq<Elem<T>>, data: T, less: Less<T>)
    ensures ClassOf(a + b, data, less) == ClassOf(a, data, less) + ClassOf(b, data, less)
  {
    if a == [] {
      assert a + b == b;
    } else {
      ClassOfConcat(a[1..], b, data, less);
      assert (a + b)[1..] == a[1..] + b;
    }
  }

  /** Elements that all come after X are not equivalent to what X is. */
  lemma {:induction false} ClassAfterIsEmpty<T(0,!new)>(x: Elem<T>, a: seq<Elem<T>>, data: T, less: Less<T>)
    requires StrictWeak(less)
    requires !less(x.data, data) && !less(data, x.data)
    requires forall i :: 0 <= i < |a| ==> Before(x, a[i], less)
    ensures ClassOf(a, data, less) == []
  {
    if a != [] {
      assert Before(x, a[0], less);
      ClassAfterIsEmpty(x, a[1..], data, less);
    }
  }

  /** If X precedes all of A, the members of X's class can be moved in front. */
  lemma MoveClassForward<T(0,!new)>(x: Elem<T>, a: seq<Elem<T>>, data: T, less: Less<T>)
    requires StrictWeak(less) && a != [] && Sorted(a, less) && Before(x, a[0], less)
    ensures ClassOf([x] + a, data, less) == ClassOf(a + [x], data, less)
  {
    ClassOfConcat([x], a, data, less);
    ClassOfConcat(a, [x], data, less);
    if !less(x.data, data) && !less(data, x.data) {
      forall i | 0 <= i < |a| ensures Before(x, a[i], less) {
        if i > 0 { assert !Before(a[i], a[0], less); }
      }
      ClassAfterIsEmpty(x, a, data, less);
    }
  }

  /** Merging two sorted sequences is, class by class, putting one after the
      other. */
  lemma {:induction false} MergeStable<T(0,!new)>(a: seq<Elem<T>>, b: seq<Elem<T>>, data: T, less: Less<T>)
    requires StrictWeak(less) && Sorted(a, less) && Sorted(b, less)
    ensures ClassOf(Merge(a, b, less), data, less) == ClassOf(a + b, data, less)
  {
    if a == [] {
      assert a + b == b;
    } else if b == [] {
      assert a + b == a;
    } else if !Before(b[0], a[0], less) {
      SortedTail(a, 1, less);
      MergeStable(a[1..], b, data, less);
      ClassOfConcat([a[0]], Merge(a[1..], b, less), data, less);
      ClassOfConcat([a[0]], a[1..] + b, data, less);
      assert a + b == [a[0]] + (a[1..] + b);
    } else {
      SortedTail(b, 1, less);
      MergeStable(a, b[1..], data, less);
      ClassOfConcat([b[0]], Merge(a, b[1..], less), data, less);
      ClassOfConcat([b[0]], a + b[1..], data, less);
      MoveClassForward(b[0], a, data, less);
      ClassOfConcat([b[0]] + a, b[1..], data, less);
      ClassOfConcat(a + [b[0]], b[1..], data, less);
      assert ([b[0]] + a) + b[1..] == [b[0]] + (a + b[1..]);
      assert (a + [b[0]]) + b[1..] == a + b;
    }
  }

  // ----- Passes -----

  lemma MergePairProperties<T(0,!new)>(s: seq<Elem<T>>, less: Less<T>)
    requires s != [] && StrictWeak(less)
    ensures Sorted(MergePair(s, less), less)
    ensures StablyReorders(MergePair(s, less), s[..PairLength(s, less)], less)
  {
    var e, f := RunLength(s, less), PairLength(s, less);
    var a, b := s[..e], s[e..f];
    RunIsSorted(s, less);
    if e < |s| {
      RunIsSorted(s[e..], less);
      assert s[e..][..f - e] == b;
    }
    MergeSorted(a, b, less);
    MergeMultiset(a, b, less);
    assert s[..f] == a + b;
    forall data
      ensures ClassOf(MergePair(s, less), data, less) == ClassOf(s[..f], data, less)
    {
      MergeStable(a, b, data, less);
    }
  }

  lemma {:induction false} PassStable<T(0,!new)>(s: seq<Elem<T>>, less: Less<T>)
    requires StrictWeak(less)
    ensures StablyReorders(Pass(s, less), s, less)
  {
    if s != [] {
      var f := PairLength(s, less);
      MergePairProperties(s, less);
      PassStable(s[f..], less);
      assert s == s[..f] + s[f..];
      forall data ensures ClassOf(Pass(s, less), data, less) == ClassOf(s, data, less) {
        ClassOfConcat(MergePair(s, less), Pass(s[f..], less), data, less);
        ClassOfConcat(s[..f], s[f..], data, less);
      }
    }
  }

  /** A pass outputs half as many runs, rounded up, and the list then has no
      more runs than were output: the measure that makes the sort terminate. */
  lemma {:induction false} PassHalvesRuns<T(0,!new)>(s: seq<Elem<T>>, less: Less<T>)
    requires StrictWeak(less)
    ensures OutputRuns(s, less) == (Runs(s, less) + 1) / 2
    ensures Runs(Pass(s, less), less) <= OutputRuns(s, less)
  {
    if s != [] {
      var e, f := RunLength(s, less), PairLength(s, less);
      PassHalvesRuns(s[f..], less);
      MergePairProperties(s, less);
      SortedPrefixRuns(MergePair(s, less), Pass(s[f..], less), less);
      if e < |s| {
        assert s[e..][f - e..] == s[f..];
      }
    }
  }

  lemma {:induction false} StableTrans<T(0,!new)>(a: seq<Elem<T>>, b: seq<Elem<T>>, c: seq<Elem<T>>, less: Less<T>)
    requires StablyReorders(a, b, less) && StablyReorders(b, c, less)
    ensures StablyReorders(a, c, less)
  {
    forall data ensures ClassOf(a, data, less) == ClassOf(c, data, less) {
      assert ClassOf(a, data, less) == ClassOf(b, data, less);
    }
  }

  /** The sort sorts, keeps every element, and is stable. */
  lemma {:induction false} NaturalSortCorrect<T(0,!new)>(s: seq<Elem<T>>, less: Less<T>)
    requires StrictWeak(less)
    ensures Sorted(NaturalSort(s, less), less)
    ensures StablyReorders(NaturalSort(s, less), s, less)
    decreases Runs(s, less)
  {
    PassHalvesRuns(s, less);
    PassStable(s, less);
    if OutputRuns(s, less) > 1 {
      NaturalSortCorrect(Pass(s, less), less);
      StableTrans(NaturalSort(s, less), Pass(s, less), s, less);
    } else if s != [] {
      MergePairProperties(s, less);
      assert Pass(s, less) == MergePair(s, less);
    }
  }
}
