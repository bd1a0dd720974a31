/** Reversal, ordered insertion and removal of duplicates (lib/kernel/list.c), and
    that sorting and repeated ordered insertion agree. */
module ListOps {
  import opened ListOrder
  import opened Lists

  // ----- Ordered insertion -----

  /** Where list_insert_ordered puts X: before the first element it is less than. */
  ghost function Place<T(0)>(s: seq<Elem<T>>, x: Elem<T>, less: Less<T>): (k: nat)
    ensures k <= |s|
    ensures forall i :: 0 <= i < k ==> !Before(x, s[i], less)
    ensures k < |s| ==> Before(x, s[k], less)
  {
    if s == [] || Before(x, s[0], less) then 0 else 1 + Place(s[1..], x, less)
  }

  ghost function Inserted<T(0)>(s: seq<Elem<T>>, x: Elem<T>, less: Less<T>): seq<Elem<T>> {
    var k := Place(s, x, less);
    s[..k] + [x] + s[k..]
  }

  lemma InsertedSorted<T(0,!new)>(s: seq<Elem<T>>, x: Elem<T>, less: Less<T>)
    requires StrictWeak(less) && Sorted(s, less)
    ensures Sorted(Inserted(s, x, less), less)
  {
    hide ClassOf;
    var k := Place(s, x, less);
    var t := Inserted(s, x, less);
    forall i, j | 0 <= i < j < |t| ensures !Before(t[j], t[i], less) {
      if i == k && k < |s| && j > k + 1 { assert !Before(s[j - 1], s[k], less); }
    }
  }

  lemma InsertedClass<T(0,!new)>(s: seq<Elem<T>>, x: Elem<T>, data: T, less: Less<T>)
    requires StrictWeak(less) && Sorted(s, less)
    ensures ClassOf(Inserted(s, x, less), data, less) == ClassOf(s + [x], data, less)
  {
    hide Sorted, ClassOf, StrictWeak;
    var k := Place(s, x, less);
    var a, b := s[..k], s[k..];
    assert s + [x] == a + (b + [x]) && Inserted(s, x, less) == a + ([x] + b);
    ClassOfConcat(a, b + [x], data, less);
    ClassOfConcat(a, [x] + b, data, less);
    if b == [] {
      assert [x] + b == b + [x];
    } else {
      SortedTail(s, k, less);
      MoveClassForward(x, b, data, less);
    }
  }

  /** A sorted list stays sorted, and the new element comes after those that are
      equivalent to it. */
  lemma InsertedCorrect<T(0,!new)>(s: seq<Elem<T>>, x: Elem<T>, less: Less<T>)
    requires StrictWeak(less) && Sorted(s, less)
    ensures Sorted(Inserted(s, x, less), less)
    ensures StablyReorders(Inserted(s, x, less), s + [x], less)
  {
    hide Sorted, ClassOf, StrictWeak;
    InsertedSorted(s, x, less);
    var k := Place(s, x, less);
    assert s == s[..k] + s[k..];
    forall data ensures ClassOf(Inserted(s, x, less), data, less) == ClassOf(s + [x], data, less) {
      InsertedClass(s, x, data, less);
    }
  }

  // ----- Sorting and inserting one by one agree -----

  ghost function InsertionSort<T(0)>(s: seq<Elem<T>>, less: Less<T>): seq<Elem<T>> {
    if s == [] then []
    else Inserted(InsertionSort(s[..|s| - 1], less), s[|s| - 1], less)
  }

  lemma {:induction false} InsertionSortCorrect<T(0,!new)>(s: seq<Elem<T>>, less: Less<T>)
    requires StrictWeak(less)
    ensures Sorted(InsertionSort(s, less), less) && StablyReorders(InsertionSort(s, less), s, less)
  {
    hide Sorted, ClassOf, StrictWeak, Inserted;
    if s == [] {
      EmptySorted(s, less);
    } else {
      var n := |s| - 1;
      var t := InsertionSort(s[..n], less);
      InsertionSortCorrect(s[..n], less);
      InsertedCorrect(t, s[n], less);
      assert s == s[..n] + [s[n]];
      forall data ensures ClassOf(t + [s[n]], data, less) == ClassOf(s, data, less) {
        ClassOfConcat(t, [s[n]], data, less);
        ClassOfConcat(s[..n], [s[n]], data, less);
      }
      StableTrans(InsertionSort(s, less), t + [s[n]], s, less);
    }
  }

  lemma EmptySorted<T(0,!new)>(s: seq<Elem<T>>, less: Less<T>)
    requires s == []
    ensures Sorted(s, less)
  {
  }

  lemma FirstsAgree<T(0,!new)>(a: seq<Elem<T>>, b: seq<Elem<T>>, less: Less<T>)
    requires StrictWeak(less) && Sorted(a, less) && Sorted(b, less) && StablyReorders(a, b, less) && a != []
    ensures b != [] && a[0] == b[0]
  {
    assert a[0] in multiset(a) && a[0] in b;
    assert b[0] in multiset(b) && b[0] in a;
    assert !less(b[0].data, a[0].data) && !less(a[0].data, b[0].data);
    assert !less(a[0].data, a[0].data);
    assert ClassOf(a, a[0].data, less) == ClassOf(b, a[0].data, less);
    assert ClassOf(a, a[0].data, less)[0] == a[0] && ClassOf(b, a[0].data, less)[0] == b[0];
  }

  /** There is only one way to sort stably. */
  lemma {:induction false} StableSortUnique<T(0,!new)>(a: seq<Elem<T>>, b: seq<Elem<T>>, less: Less<T>)
    requires StrictWeak(less) && Sorted(a, less) && Sorted(b, less) && StablyReorders(a, b, less)
    ensures a == b
  {
    hide StrictWeak, Sorted, StablyReorders;
    if a == [] {
      NothingLeft(a, b, less);
    } else {
      FirstsAgree(a, b, less);
      SortedTail(a, 1, less);
      SortedTail(b, 1, less);
      TailsReorder(a, b, less);
      StableSortUnique(a[1..], b[1..], less);
      assert a == [a[0]] + a[1..] && b == [b[0]] + b[1..];
    }
  }

  lemma NothingLeft<T(0,!new)>(a: seq<Elem<T>>, b: seq<Elem<T>>, less: Less<T>)
    requires a == [] && StablyReorders(a, b, less)
    ensures b == []
  {
    assert |b| == |multiset(b)| == |multiset(a)|;
  }

  lemma TailsReorder<T(0,!new)>(a: seq<Elem<T>>, b: seq<Elem<T>>, less: Less<T>)
    requires a != [] && b != [] && a[0] == b[0] && StablyReorders(a, b, less)
    ensures StablyReorders(a[1..], b[1..], less)
  {
    assert a == [a[0]] + a[1..] && b == [b[0]] + b[1..];
    assert multiset(a[1..]) == multiset(a) - multiset{a[0]} == multiset(b[1..]);
    forall data ensures ClassOf(a[1..], data, less) == ClassOf(b[1..], data, less) {
      assert ClassOf(a, data, less) == ClassOf(b, data, less);
      if !less(a[0].data, data) && !less(data, a[0].data) {
        assert ClassOf(a, data, less)[1..] == ClassOf(a[1..], data, less);
        assert ClassOf(b, data, less)[1..] == ClassOf(b[1..], data, less);
      }
    }
  }

  /** list_sort leaves the list in the order that inserting its elements one by
      one with list_insert_ordered would. */
  lemma SortIsInsertion<T(0,!new)>(s: seq<Elem<T>>, less: Less<T>)
    requires StrictWeak(less)
    ensures NaturalSort(s, less) == InsertionSort(s, less)
  {
    hide StrictWeak, Sorted, ClassOf, NaturalSort, InsertionSort;
    NaturalSortCorrect(s, less);
    InsertionSortCorrect(s, less);
    forall data ensures ClassOf(NaturalSort(s, less), data, less) == ClassOf(InsertionSort(s, less), data, less) {
      assert ClassOf(NaturalSort(s, less), data, less) == ClassOf(s, data, less);
    }
    StableSortUnique(NaturalSort(s, less), InsertionSort(s, less), less);
  }

  /** Inserts ELEM into LIST. */
  method InsertOrdered<T(0)>(list: List<T>, elem: Elem<T>, less: Less<T>)
    requires list.Valid() && elem !in list.all && elem !in list.Repr
    modifies list, list.Repr, elem
    ensures list.Valid() && list.Repr == old(list.Repr) + {elem}
    ensures list.Nodes() == Inserted(old(list.Nodes()), elem, less)
  {
    hide Chain;
    ghost var s := list.all;
    ghost var k: nat := 1;
    var e := list.Begin();
    while e != list.tail
      invariant 1 <= k < |s| && e == s[k] && list.all == s && list.Valid() && list.Repr == old(list.Repr)
      invariant Place(Interior(s), elem, less) == k - 1 + Place(s[k..|s| - 1], elem, less)
      decreases |s| - k
    {
      assert k < |s| - 1;
      if Before(elem, e, less) { break; }
      assert s[k..|s| - 1][1..] == s[k + 1..|s| - 1];
      e := Next(e, list, k);
      k := k + 1;
    }
    assert e == list.tail ==> k == |s| - 1 by { SameIndex(s, k, |s| - 1); }
    Insert(e, elem, list, k);
    InsertedAll(s, k, elem, less);
  }

  lemma InsertedAll<T(0)>(s: seq<Elem<T>>, k: nat, x: Elem<T>, less: Less<T>)
    requires 1 <= k < |s| && Place(Interior(s), x, less) == k - 1
    ensures Interior(s[..k] + [x] + s[k..]) == Inserted(Interior(s), x, less)
  {
  }

  // ----- Reversal -----

  ghost function Reversed<E>(s: seq<E>): (r: seq<E>)
    ensures |r| == |s|
  {
    seq(|s|, i requires 0 <= i < |s| => s[|s| - 1 - i])
  }

  /** The elements before I have changed their links over, the others have not. */
  ghost predicate HalfTurned<T(0)>(s: seq<Elem<T>>, i: nat)
    reads s
  {
    var n := |s| - 1;
    && 1 <= i <= n
    && (forall a, b :: 0 <= a < b <= n ==> s[a] != s[b])
    && (forall j {:trigger s[j].next} :: 1 <= j < i ==> s[j].next == s[j - 1])
    && (forall j {:trigger s[j].prev} :: 1 <= j < i ==> s[j].prev == s[j + 1])
    && (forall j {:trigger s[j].next} :: i <= j < n ==> s[j].next == s[j + 1])
    && (forall j {:trigger s[j].prev} :: i <= j < n ==> s[j].prev == s[j - 1])
    && s[0].next == s[1] && s[n].prev == s[n - 1]
  }

  /** The elements from head to tail, in their new order. */
  ghost function Turned<E>(s: seq<E>): (t: seq<E>)
    requires |s| >= 2
  {
    [s[0]] + Reversed(Interior(s)) + [s[|s| - 1]]
  }

  /** The last step: the ends. */
  method TurnEnds<T(0)>(head: Elem<T>, tail: Elem<T>, ghost s: seq<Elem<T>>)
    requires |s| >= 3 && HalfTurned(s, |s| - 1) && head == s[0] && tail == s[|s| - 1]
    modifies s
    ensures Chain(Turned(s)) && head.prev == old(head.prev) && tail.next == old(tail.next)
  {
    ghost var n := |s| - 1;
    assert s[1].next == s[0] && s[n - 1].prev == s[n];
    head.next, tail.prev := tail.prev, head.next;
    var a, b := head.next, tail.prev;
    a.prev, b.next := b.next, a.prev;
    ghost var t := Turned(s);
    assert forall j :: 0 < j < n ==> t[j] == s[n - j];
    forall j {:trigger t[j].next} | 0 <= j < n ensures t[j].next == t[j + 1] { }
    forall j {:trigger t[j].prev} | 0 < j <= n ensures t[j].prev == t[j - 1] { }
  }

  /** Reverses LIST by changing over the links of every element. */
  method Reverse<T(0)>(list: List<T>)
    requires list.Valid()
    modifies list, list.Repr
    ensures list.Valid() && list.Repr == old(list.Repr)
    ensures list.Nodes() == Reversed(old(list.Nodes()))
  {
    hide Chain, HalfTurned, Reversed;
    ghost var s := list.all;
    var e := list.Begin();
    if e != list.tail {
      ghost var i: nat := 1;
      TurnStarts(s);
      while e != list.tail
        invariant 1 <= i <= |s| - 1 && HalfTurned(s, i) && e == s[i]
        invariant list.all == s && list.Repr == old(list.Repr)
        invariant s[0].prev == null && s[|s| - 1].next == null
        decreases |s| - i
      {
        HalfDistinct(s, i);
        Turn(e, s, i);
        e := e.prev;
        i := i + 1;
      }
      HalfDistinct(s, i);
      TurnEnds(list.head, list.tail, s);
      list.all := Turned(s);
    }
    TurnedInterior(s);
    assert forall e :: e in s ==> e in list.Repr;
  }

  lemma TurnStarts<T(0)>(s: seq<Elem<T>>)
    requires Chain(s) && |s| >= 3
    ensures HalfTurned(s, 1)
  {
  }

  lemma HalfDistinct<T(0)>(s: seq<Elem<T>>, i: nat)
    requires HalfTurned(s, i)
    ensures i <= |s| - 1 && forall a, b :: 0 <= a < b < |s| ==> s[a] != s[b]
  {
  }

  lemma TurnedInterior<E>(s: seq<E>)
    requires |s| >= 2
    ensures Interior(Turned(s)) == Reversed(Interior(s))
    ensures |s| == 2 ==> Interior(s) == Reversed(Interior(s))
    ensures |Turned(s)| == |s| && Turned(s)[0] == s[0] && Turned(s)[|s| - 1] == s[|s| - 1]
    ensures forall i :: 0 <= i < |s| ==> Turned(s)[i] in s
  {
  }

  method Turn<T(0)>(e: Elem<T>, ghost s: seq<Elem<T>>, ghost i: nat)
    requires HalfTurned(s, i) && i < |s| - 1 && e == s[i]
    modifies e
    ensures HalfTurned(s, i + 1) && e.prev == s[i + 1]
  {
    assert s[i].next == s[i + 1] && s[i].prev == s[i - 1];
    e.prev, e.next := e.next, e.prev;
  }

  // ----- Duplicates -----

  predicate Equivalent<T(0)>(a: Elem<T>, b: Elem<T>, less: Less<T>) { !Before(a, b, less) && !Before(b, a, less) }

  /** What list_unique keeps of S, and what it removes. */
  ghost function Firsts<T(0)>(s: seq<Elem<T>>, less: Less<T>): (f: seq<Elem<T>>)
    ensures s != [] ==> f != [] && f[0] == s[0]
    decreases |s|
  {
    if |s| <= 1 then s
    else if Equivalent(s[0], s[1], less) then Firsts([s[0]] + s[2..], less)
    else [s[0]] + Firsts(s[1..], less)
  }

  ghost function Repeats<T(0)>(s: seq<Elem<T>>, less: Less<T>): seq<Elem<T>>
    decreases |s|
  {
    if |s| <= 1 then []
    else if Equivalent(s[0], s[1], less) then [s[1]] + Repeats([s[0]] + s[2..], less)
    else Repeats(s[1..], less)
  }

  lemma Shorter<T(0,!new)>(s: seq<Elem<T>>, less: Less<T>)
    requires |s| >= 2 && Sorted(s, less)
    ensures Sorted([s[0]] + s[2..], less) && Sorted(s[1..], less)
    ensures s == [s[0]] + [s[1]] + s[2..] && s == [s[0]] + s[1..]
  {
    var t := [s[0]] + s[2..];
    forall i, j | 0 <= i < j < |t| ensures !Before(t[j], t[i], less) {
      assert t[j] == s[j + 1] && t[i] == if i == 0 then s[0] else s[i + 1];
    }
  }

  /** Of a sorted list, list_unique keeps the first of every equivalence class:
      what it keeps is strictly increasing, everything is kept or removed, and
      whatever it removes is equivalent to something it keeps. */
  lemma {:induction false} UniqueCorrect<T(0,!new)>(s: seq<Elem<T>>, less: Less<T>)
    requires StrictWeak(less) && Sorted(s, less)
    ensures forall i, j :: 0 <= i < j < |Firsts(s, less)| ==> Before(Firsts(s, less)[i], Firsts(s, less)[j], less)
    ensures multiset(Firsts(s, less)) + multiset(Repeats(s, less)) == multiset(s)
    ensures forall x :: x in s ==> exists f :: f in Firsts(s, less) && Equivalent(x, f, less)
    decreases |s|
  {
    if |s| <= 1 {
      Irreflexive(s, less);
    } else {
      hide Sorted;
      Shorter(s, less);
      if Equivalent(s[0], s[1], less) {
        var t := [s[0]] + s[2..];
        UniqueCorrect(t, less);
        OneRepeat(s, less);
        forall x | x in s ensures exists f :: f in Firsts(s, less) && Equivalent(x, f, less) {
          if x in t {
          } else {
            assert x == s[1] && s[0] in Firsts(s, less);
          }
        }
      } else {
        var t := s[1..];
        UniqueCorrect(t, less);
        FirstIsLeast(s, less);
        SmallerThanAll(s[0], Firsts(t, less), less);
        forall x | x in s ensures exists f :: f in Firsts(s, less) && Equivalent(x, f, less) {
          if x in t {
            var f :| f in Firsts(t, less) && Equivalent(x, f, less);
            assert f in Firsts(s, less);
          } else {
            assert x == s[0] && s[0] in Firsts(s, less);
            Irreflexive([s[0]], less);
          }
        }
      }
    }
  }

  lemma OneRepeat<T(0,!new)>(s: seq<Elem<T>>, less: Less<T>)
    requires |s| >= 2 && Equivalent(s[0], s[1], less)
    requires var t := [s[0]] + s[2..]; multiset(Firsts(t, less)) + multiset(Repeats(t, less)) == multiset(t)
    ensures multiset(Firsts(s, less)) + multiset(Repeats(s, less)) == multiset(s)
  {
    hide Firsts, Repeats;
    RepeatStep(s, less);
    var t := [s[0]] + s[2..];
    var r := Repeats(t, less);
    assert s == [s[0]] + [s[1]] + s[2..];
    PushBag(s[1], r);
    AddOne(multiset(Firsts(t, less)), multiset(r), s[0], s[1], multiset(s[2..]));
  }

  lemma PushBag<E>(x: E, r: seq<E>)
    ensures multiset([x] + r) == multiset{x} + multiset(r)
  {
  }

  lemma AddOne<E>(f: multiset<E>, r: multiset<E>, a: E, b: E, rest: multiset<E>)
    requires f + r == multiset{a} + rest
    ensures f + (multiset{b} + r) == multiset{a} + multiset{b} + rest
  {
    assert f + (multiset{b} + r) == (f + r) + multiset{b};
    assert (multiset{a} + rest) + multiset{b} == multiset{a} + multiset{b} + rest;
  }

  lemma RepeatStep<T(0,!new)>(s: seq<Elem<T>>, less: Less<T>)
    requires |s| >= 2 && Equivalent(s[0], s[1], less)
    ensures var t := [s[0]] + s[2..];
            Firsts(s, less) == Firsts(t, less) && Repeats(s, less) == [s[1]] + Repeats(t, less)
  {
  }

  lemma Irreflexive<T(0,!new)>(s: seq<Elem<T>>, less: Less<T>)
    requires StrictWeak(less)
    ensures forall x :: x in s ==> Equivalent(x, x, less)
  {
  }

  lemma FirstIsLeast<T(0,!new)>(s: seq<Elem<T>>, less: Less<T>)
    requires StrictWeak(less) && Sorted(s, less) && |s| >= 2 && !Equivalent(s[0], s[1], less)
    ensures Before(s[0], s[1], less)
  {
  }

  lemma SmallerThanAll<T(0,!new)>(x: Elem<T>, f: seq<Elem<T>>, less: Less<T>)
    requires StrictWeak(less) && f != [] && Before(x, f[0], less)
    requires forall i, j :: 0 <= i < j < |f| ==> Before(f[i], f[j], less)
    ensures forall j :: 0 <= j < |f| ==> Before(x, f[j], less)
  {
    assert forall j :: 0 < j < |f| ==> Before(f[0], f[j], less);
  }

  /** list_unique under way: what is settled before K, and what has been removed. */
  ghost predicate Uniquing<T(0)>(s: seq<Elem<T>>, c: seq<Elem<T>>, k: nat, gone: seq<Elem<T>>, less: Less<T>) {
    && 2 <= |c| && 1 <= k < |c| - 1
    && Firsts(s, less) == c[1..k] + Firsts(c[k..|c| - 1], less)
    && Repeats(s, less) == gone + Repeats(c[k..|c| - 1], less)
  }

  lemma DropNext<T(0)>(s: seq<Elem<T>>, c: seq<Elem<T>>, k: nat, gone: seq<Elem<T>>, less: Less<T>)
    requires Uniquing(s, c, k, gone, less) && k + 1 < |c| - 1 && Equivalent(c[k], c[k + 1], less)
    ensures Uniquing(s, c[..k + 1] + c[k + 2..], k, gone + [c[k + 1]], less)
  {
    var d := c[..k + 1] + c[k + 2..];
    var rest := c[k..|c| - 1];
    assert d[k..|d| - 1] == [rest[0]] + rest[2..];
    assert d[1..k] == c[1..k];
    AddAssoc(gone, [c[k + 1]], Repeats(d[k..|d| - 1], less));
  }

  lemma KeepNext<T(0)>(s: seq<Elem<T>>, c: seq<Elem<T>>, k: nat, gone: seq<Elem<T>>, less: Less<T>)
    requires Uniquing(s, c, k, gone, less) && k + 1 < |c| - 1 && !Equivalent(c[k], c[k + 1], less)
    ensures Uniquing(s, c, k + 1, gone, less)
  {
    assert c[k..|c| - 1][1..] == c[k + 1..|c| - 1];
    AddAssoc(c[1..k], [c[k]], Firsts(c[k + 1..|c| - 1], less));
    assert c[1..k + 1] == c[1..k] + [c[k]];
  }

  lemma NoRepeats<T(0)>(s: seq<Elem<T>>, less: Less<T>)
    requires s == []
    ensures Firsts(s, less) == [] && Repeats(s, less) == []
  {
  }

  lemma UniqueStarts<T(0)>(c: seq<Elem<T>>, less: Less<T>)
    requires |c| >= 3
    ensures Uniquing(Interior(c), c, 1, [], less)
  {
    assert c[1..1] + Firsts(Interior(c), less) == Firsts(Interior(c), less);
    assert [] + Repeats(Interior(c), less) == Repeats(Interior(c), less);
  }

  lemma UniqueEnds<T(0)>(s: seq<Elem<T>>, c: seq<Elem<T>>, k: nat, gone: seq<Elem<T>>, less: Less<T>)
    requires Uniquing(s, c, k, gone, less) && k + 1 == |c| - 1
    ensures Firsts(s, less) == Interior(c) && Repeats(s, less) == gone
  {
    assert |c[k..|c| - 1]| == 1;
    assert Interior(c) == c[1..k] + c[k..|c| - 1];
  }

  /** Two lists that share no element; there may be no second one. */
  ghost predicate TwoLists<T(0)>(list: List<T>, other: List?<T>)
    reads list, list.Repr, other, if other == null then {} else other.Repr
  {
    list.Valid() && (other != null ==> other.Valid() && list != other && list.Repr !! other.Repr)
  }

  /** ELEM, the K'th of LIST, leaves it for the end of OTHER, if there is one. */
  method MoveToBack<T(0)>(elem: Elem<T>, list: List<T>, other: List?<T>, ghost k: nat)
    requires TwoLists(list, other) && 1 <= k < |list.all| - 1 && list.all[k] == elem
    modifies list, list.Repr, other, if other == null then {} else other.Repr
    ensures TwoLists(list, other) && list.Repr == old(list.Repr) - {elem}
    ensures list.all == old(list.all)[..k] + old(list.all)[k + 1..]
    ensures other != null ==> other.Repr == old(other.Repr) + {elem} && other.Nodes() == old(other.Nodes()) + [elem]
  {
    var _ := Remove(elem, list, k);
    if other != null {
      ghost var n := |other.all| - 1;
      Insert(other.tail, elem, other, n);
    }
  }

  /** Removes all but the first of each run of equivalent elements from LIST and, if
      DUPLICATES is given, puts them at its end. */
  method Unique<T(0)>(list: List<T>, duplicates: List?<T>, less: Less<T>)
    requires TwoLists(list, duplicates)
    modifies list, list.Repr, duplicates, if duplicates == null then {} else duplicates.Repr
    ensures TwoLists(list, duplicates)
    ensures list.Nodes() == Firsts(old(list.Nodes()), less)
    ensures duplicates != null ==> duplicates.Nodes() == old(duplicates.Nodes()) + Repeats(old(list.Nodes()), less)
  {
    hide Chain, Firsts, Repeats, Uniquing, Interior, Equivalent;
    ghost var s := Interior(list.all);
    var elem := list.Begin();
    if elem == list.tail {
      NoRepeats(s, less);
      return;
    }
    ghost var k: nat := 1;
    ghost var gone: seq<Elem<T>> := [];
    UniqueStarts(list.all, less);
    var next := Next(elem, list, k);
    while next != list.tail
      invariant TwoLists(list, duplicates) && list.Repr <= old(list.Repr)
      invariant duplicates != null ==> list.Repr + duplicates.Repr == old(list.Repr + duplicates.Repr)
      invariant 1 <= k < |list.all| - 1 && elem == list.all[k] && next == list.all[k + 1]
      invariant Uniquing(s, list.all, k, gone, less)
      invariant duplicates != null ==> duplicates.Nodes() == old(duplicates.Nodes()) + gone
      decreases |list.all| - k
    {
      SameIndex(list.all, k + 1, |list.all| - 1);
      if Equivalent(elem, next, less) {
        DropNext(s, list.all, k, gone, less);
        gone := gone + [next];
        MoveToBack(next, list, duplicates, k + 1);
      } else {
        KeepNext(s, list.all, k, gone, less);
        elem := next;
        k := k + 1;
      }
      next := Next(elem, list, k);
    }
    SameIndex(list.all, k + 1, |list.all| - 1);
    UniqueEnds(s, list.all, k, gone, less);
  }
}
