/** Doubly linked lists with a head and a tail element (lib/kernel/list.c).

    Every operation rewrites `prev` and `next` fields, as the C code does.  The
    ghost field `all` is the list from head to tail; operations that C gives
    only elements get the list they belong to, and their indexes, as ghost
    arguments. */
module Lists {
  import opened ListOrder

  /** S is a stretch of a doubly linked list: distinct elements, each linked to
      its neighbours.  What the outer links of the two ends are is left open. */
  ghost predicate Chain<T(0)>(s: seq<Elem<T>>)
    reads s
  {
    && (forall i, j :: 0 <= i < j < |s| ==> s[i] != s[j])
    && (forall i {:trigger s[i].next} :: 0 <= i < |s| - 1 ==> s[i].next == s[i + 1])
    && (forall i {:trigger s[i].prev} :: 0 < i < |s| ==> s[i].prev == s[i - 1])
  }

  /** The elements between head and tail. */
  ghost function Interior<E>(all: seq<E>): seq<E>
    requires |all| >= 2
  {
    all[1..|all| - 1]
  }

  class List<T(0)> {
    const head: Elem<T>
    const tail: Elem<T>
    ghost var all: seq<Elem<T>>
    ghost var Repr: set<Elem<T>>

    ghost predicate Valid()
      reads this, Repr
    {
      && |all| >= 2 && all[0] == head && all[|all| - 1] == tail
      && (forall i :: 0 <= i < |all| ==> all[i] in Repr)
      && Chain(all)
      && head.prev == null
      && tail.next == null
    }

    ghost function Nodes(): seq<Elem<T>>
      requires Valid()
      reads this, Repr
    {
      Interior(all)
    }

    constructor ()
      ensures Valid() && Nodes() == [] && fresh(Repr)
    {
      var h := new Elem<T>.Header();
      var t := new Elem<T>.Header();
      head, tail := h, t;
      all := [h, t];
      Repr := {h, t};
      new;
      head.prev := null;
      head.next := tail;
      tail.prev := head;
      tail.next := null;
    }

    method Begin() returns (e: Elem<T>)
      requires Valid()
      ensures e == all[1]
      ensures e == tail <==> Nodes() == []
    {
      assert all[0].next == all[1];
      e := head.next;
    }
  }

  /** The element after E, the K'th of LIST. */
  method Next<T(0)>(e: Elem<T>, ghost list: List<T>, ghost k: nat) returns (next: Elem<T>)
    requires list.Valid() && k < |list.all| - 1 && list.all[k] == e
    ensures next == list.all[k + 1] && e.next == next
  {
    assert list.all[k].next == list.all[k + 1];
    next := e.next;
  }

  /** Inserts ELEM just before BEFORE, the K'th element of LIST. */
  method Insert<T(0)>(before: Elem<T>, elem: Elem<T>, ghost list: List<T>, ghost k: nat)
    requires list.Valid() && 1 <= k < |list.all| && list.all[k] == before
    requires elem !in list.all
    modifies list, before, list.all[k - 1], elem
    ensures list.Valid()
    ensures list.all == old(list.all)[..k] + [elem] + old(list.all)[k..]
    ensures list.Repr == old(list.Repr) + {elem}
  {
    assert list.all[k].prev == list.all[k - 1];
    elem.prev := before.prev;
    elem.next := before;
    before.prev.next := elem;
    before.prev := elem;
    list.all := list.all[..k] + [elem] + list.all[k..];
    list.Repr := list.Repr + {elem};
  }

  /** Removes ELEM, the K'th element of LIST, and returns its successor.  The
      links of ELEM itself keep their values. */
  method Remove<T(0)>(elem: Elem<T>, ghost list: List<T>, ghost k: nat) returns (next: Elem<T>)
    requires list.Valid() && 1 <= k < |list.all| - 1 && list.all[k] == elem
    modifies list, list.all[k - 1], list.all[k + 1]
    ensures list.Valid()
    ensures list.all == old(list.all)[..k] + old(list.all)[k + 1..]
    ensures next == list.all[k] && elem.next == next
    ensures list.Repr == old(list.Repr) - {elem}
  {
    assert list.all[k].prev == list.all[k - 1] && list.all[k].next == list.all[k + 1];
    elem.prev.next := elem.next;
    elem.next.prev := elem.prev;
    list.all := list.all[..k] + list.all[k + 1..];
    list.Repr := list.Repr - {elem};
    next := elem.next;
  }

  // ----- Splicing -----

  /** Where the M'th element comes from when the stretches I..J and J..K of a
      sequence change places. */
  ghost function Source(m: int, i: int, j: int, k: int): int {
    if m < i || m >= k then m else if m < i + (k - j) then m - i + j else m - (k - j)
  }

  /** S with the neighbouring stretches I..J and J..K exchanged. */
  ghost function Exchanged<E>(s: seq<E>, i: nat, j: nat, k: nat): (t: seq<E>)
    requires i <= j <= k <= |s|
    ensures |t| == |s|
  {
    seq(|s|, m requires 0 <= m < |s| => s[Source(m, i, j, k)])
  }

  /** The links of S, except those that leave A, B and C (or enter their
      successors), are those of a chain. */
  ghost predicate LinkedExcept<T(0)>(s: seq<Elem<T>>, a: int, b: int, c: int)
    reads s
  {
    && (forall i, j :: 0 <= i < j < |s| ==> s[i] != s[j])
    && (forall m {:trigger s[m].next} :: 0 <= m < |s| - 1 && m != a && m != b && m != c ==> s[m].next == s[m + 1])
    && (forall m {:trigger s[m].prev} :: 0 < m < |s| && m - 1 != a && m - 1 != b && m - 1 != c ==> s[m].prev == s[m - 1])
  }

  ghost predicate Joined<T(0)>(x: Elem<T>, y: Elem<T>)
    reads x, y
  {
    x.next == y && y.prev == x
  }

  lemma SameIndex<T(0)>(s: seq<Elem<T>>, i: nat, j: nat)
    requires Chain(s) && i < |s| && j < |s|
    ensures s[i] == s[j] <==> i == j
  {
  }

  /** Crossing three links of a chain exchanges the two stretches between
      them. */
  lemma ExchangedIsChain<T(0)>(s: seq<Elem<T>>, i: nat, j: nat, k: nat)
    requires 1 <= i < j < k < |s|
    requires LinkedExcept(s, i - 1, j - 1, k - 1)
    requires Joined(s[i - 1], s[j]) && Joined(s[k - 1], s[i]) && Joined(s[j - 1], s[k])
    ensures Chain(Exchanged(s, i, j, k))
    ensures forall m :: 0 <= m < |s| ==> Exchanged(s, i, j, k)[m] in s
    ensures Exchanged(s, i, j, k)[0] == s[0] && Exchanged(s, i, j, k)[|s| - 1] == s[|s| - 1]
  {
    var t := Exchanged(s, i, j, k);
    forall m {:trigger t[m].next} | 0 <= m < |t| - 1 ensures t[m].next == t[m + 1] {
      ExchangedLink(s, i, j, k, m);
    }
    forall m {:trigger t[m].prev} | 0 < m < |t| ensures t[m].prev == t[m - 1] {
      ExchangedLink(s, i, j, k, m - 1);
    }
  }

  lemma ExchangedLink<T(0)>(s: seq<Elem<T>>, i: nat, j: nat, k: nat, m: nat)
    requires 1 <= i < j < k < |s| && m < |s| - 1
    requires LinkedExcept(s, i - 1, j - 1, k - 1)
    requires Joined(s[i - 1], s[j]) && Joined(s[k - 1], s[i]) && Joined(s[j - 1], s[k])
    ensures var t := Exchanged(s, i, j, k); Joined(t[m], t[m + 1])
  {
    var a, b := Source(m, i, j, k), Source(m + 1, i, j, k);
    assert b == a + 1 || a == i - 1 || a == k - 1 || a == j - 1;
    assert b == a + 1 ==> a != i - 1 && a != k - 1 && a != j - 1 ==> Joined(s[a], s[b]);
  }

  /** The six link updates of a splice. */
  method SpliceLinks<T(0)>(before: Elem<T>, first: Elem<T>, last: Elem<T>,
                           ghost s: seq<Elem<T>>, ghost i: nat, ghost j: nat, ghost k: nat)
    requires Chain(s) && 1 <= i < |s| && 1 <= j < k < |s| && (i < j || k <= i)
    requires s[i] == before && s[j] == first && s[k] == last
    modifies s
    ensures s[0].prev == old(s[0].prev) && s[|s| - 1].next == old(s[|s| - 1].next)
    ensures i == k ==> Chain(s)
    ensures i != k ==> LinkedExcept(s, i - 1, j - 1, k - 1)
    ensures i != k ==> Joined(s[i - 1], s[j]) && Joined(s[k - 1], s[i]) && Joined(s[j - 1], s[k])
  {
    assert s[k].prev == s[k - 1] && s[j].prev == s[j - 1];
    assert s[k - 1].next == s[k] && s[i].prev == s[i - 1];
    var last' := last.prev;
    first.prev.next := last'.next;
    last'.next.prev := first.prev;
    first.prev := before.prev;
    last'.next := before;
    before.prev.next := first;
    before.prev := last';
  }

  /** Moves FIRST up to LAST (exclusive) to just before BEFORE, within a list.
      BEFORE may not be inside the stretch; in particular it may not be FIRST,
      from which the code would make a cycle. */
  method Splice<T(0)>(before: Elem<T>, first: Elem<T>, last: Elem<T>,
                      ghost list: List<T>, ghost i: nat, ghost j: nat, ghost k: nat)
    requires list.Valid() && 1 <= i < |list.all| && 1 <= j <= k < |list.all|
    requires list.all[i] == before && list.all[j] == first && list.all[k] == last
    requires j == k || i < j || k <= i
    modifies list, list.Repr
    ensures list.Valid() && list.Repr == old(list.Repr)
    ensures list.all == if j == k || k == i then old(list.all)
                        else if i < j then Exchanged(old(list.all), i, j, k)
                        else Exchanged(old(list.all), j, k, i)
  {
    hide Exchanged, Source, Chain;
    ghost var s := list.all;
    SameIndex(s, j, k);
    if first == last { return; }
    SpliceLinks(before, first, last, s, i, j, k);
    if i < j {
      ExchangedIsChain(s, i, j, k);
      list.all := Exchanged(s, i, j, k);
    } else if k < i {
      ExchangedIsChain(s, j, k, i);
      list.all := Exchanged(s, j, k, i);
    }
  }

  ghost predicate Apart<T(0)>(s: seq<Elem<T>>, t: seq<Elem<T>>) {
    forall a, b :: 0 <= a < |s| && 0 <= b < |t| ==> s[a] != t[b]
  }

  /** The six updates, when BEFORE is in another list T. */
  method SpliceLinksAcross<T(0)>(before: Elem<T>, first: Elem<T>, last: Elem<T>,
                                 ghost s: seq<Elem<T>>, ghost t: seq<Elem<T>>, ghost i: nat, ghost j: nat, ghost k: nat)
    requires Chain(s) && Chain(t) && Apart(s, t)
    requires 1 <= i < |t| && 1 <= j < k < |s| && t[i] == before && s[j] == first && s[k] == last
    modifies s, t
    ensures s[0].prev == old(s[0].prev) && s[|s| - 1].next == old(s[|s| - 1].next)
    ensures t[0].prev == old(t[0].prev) && t[|t| - 1].next == old(t[|t| - 1].next)
    ensures LinkedExcept(s, j - 1, k - 1, k - 1) && LinkedExcept(t, i - 1, i - 1, i - 1)
    ensures Joined(s[j - 1], s[k]) && Joined(t[i - 1], s[j]) && Joined(s[k - 1], t[i])
  {
    assert s[k].prev == s[k - 1] && s[j].prev == s[j - 1];
    assert s[k - 1].next == s[k] && t[i].prev == t[i - 1];
    var last' := last.prev;
    first.prev.next := last'.next;
    last'.next.prev := first.prev;
    first.prev := before.prev;
    last'.next := before;
    before.prev.next := first;
    before.prev := last';
  }

  /** With three links replaced, the stretch J..K of S is in T before I. */
  lemma MovedIsChain<T(0)>(s: seq<Elem<T>>, t: seq<Elem<T>>, i: nat, j: nat, k: nat)
    requires 1 <= i < |t| && 1 <= j < k < |s| && Apart(s, t)
    requires LinkedExcept(s, j - 1, k - 1, k - 1) && LinkedExcept(t, i - 1, i - 1, i - 1)
    requires Joined(s[j - 1], s[k]) && Joined(t[i - 1], s[j]) && Joined(s[k - 1], t[i])
    ensures Chain(Left(s, j, k)) && Chain(Put(t, i, s[j..k]))
  {
    LeftIsChain(s, j, k);
    var u := t[..i] + s[j..k] + t[i..];
    var n := k - j;
    forall m, m' | 0 <= m < m' < |u| ensures u[m] != u[m'] {
      assert u[m] == (if m < i then t[m] else if m < i + n then s[m - i + j] else t[m - n]);
      assert u[m'] == (if m' < i then t[m'] else if m' < i + n then s[m' - i + j] else t[m' - n]);
    }
    forall m {:trigger u[m].next} | 0 <= m < |u| - 1 ensures u[m].next == u[m + 1] { MovedLink(s, t, i, j, k, m); }
    forall m {:trigger u[m].prev} | 0 < m < |u| ensures u[m].prev == u[m - 1] { MovedLink(s, t, i, j, k, m - 1); }
  }

  lemma MovedLink<T(0)>(s: seq<Elem<T>>, t: seq<Elem<T>>, i: nat, j: nat, k: nat, m: nat)
    requires 1 <= i < |t| && 1 <= j < k < |s|
    requires LinkedExcept(s, j - 1, k - 1, k - 1) && LinkedExcept(t, i - 1, i - 1, i - 1)
    requires Joined(t[i - 1], s[j]) && Joined(s[k - 1], t[i]) && m < |t| + (k - j) - 1
    ensures var u := t[..i] + s[j..k] + t[i..]; Joined(u[m], u[m + 1])
  {
    var u, n := t[..i] + s[j..k] + t[i..], k - j;
    if m + 1 < i {
      assert u[m] == t[m] && u[m + 1] == t[m + 1] && t[m].next == t[m + 1] && t[m + 1].prev == t[m];
    } else if i <= m < i + n - 1 {
      var a := m - i + j;
      assert u[m] == s[a] && u[m + 1] == s[a + 1] && s[a].next == s[a + 1] && s[a + 1].prev == s[a];
    } else if m >= i + n {
      var a := m - n;
      assert u[m] == t[a] && u[m + 1] == t[a + 1] && t[a].next == t[a + 1] && t[a + 1].prev == t[a];
    }
  }

  lemma LeftIsChain<T(0)>(s: seq<Elem<T>>, j: nat, k: nat)
    requires 1 <= j < k < |s| && LinkedExcept(s, j - 1, k - 1, k - 1) && Joined(s[j - 1], s[k])
    ensures Chain(s[..j] + s[k..])
  {
    var r := s[..j] + s[k..];
    forall m {:trigger r[m].next} | 0 <= m < |r| - 1 ensures r[m].next == r[m + 1] {
      var a := if m < j then m else m - j + k;
      assert r[m] == s[a] && (m != j - 1 ==> r[m + 1] == s[a + 1] && s[a].next == s[a + 1]);
    }
    forall m {:trigger r[m].prev} | 0 < m < |r| ensures r[m].prev == r[m - 1] {
      var a := if m < j then m else m - j + k;
      assert r[m] == s[a] && (m != j ==> r[m - 1] == s[a - 1] && s[a].prev == s[a - 1]);
    }
  }

  /** What is left of S after a stretch has been taken out. */
  ghost function Left<E>(s: seq<E>, j: nat, k: nat): seq<E>
    requires j <= k <= |s|
  {
    s[..j] + s[k..]
  }

  /** T with that stretch put in before I. */
  ghost function Put<E>(t: seq<E>, i: nat, stretch: seq<E>): seq<E>
    requires i <= |t|
  {
    t[..i] + stretch + t[i..]
  }

  /** Which elements the two lists then have, and that their ends are as before. */
  lemma Shares<T(0)>(s: seq<Elem<T>>, t: seq<Elem<T>>, i: nat, j: nat, k: nat, rs: set<Elem<T>>, rt: set<Elem<T>>)
    requires 1 <= i < |t| && 1 <= j < k < |s| && LinkedExcept(s, j - 1, k - 1, k - 1)
    requires (forall m :: 0 <= m < |s| ==> s[m] in rs) && (forall m :: 0 <= m < |t| ==> t[m] in rt)
    ensures var moved, r, u := (set e | e in s[j..k]), Left(s, j, k), Put(t, i, s[j..k]);
            && (forall m :: 0 <= m < |r| ==> r[m] in rs - moved) && (forall m :: 0 <= m < |u| ==> u[m] in rt + moved)
            && moved <= rs
            && |r| >= 2 && |u| >= 2 && r[0] == s[0] && r[|r| - 1] == s[|s| - 1] && u[0] == t[0] && u[|u| - 1] == t[|t| - 1]
  {
    var moved := set e | e in s[j..k];
    forall m | 0 <= m < |Left(s, j, k)| ensures Left(s, j, k)[m] in rs - moved {
      var a := if m < j then m else m - j + k;
      assert Left(s, j, k)[m] == s[a];
      assert forall b :: j <= b < k ==> s[b] != s[a];
    }
  }

  /** The same updates, when BEFORE is in another list: the stretch leaves its list
      and joins that one. */
  method SpliceAcross<T(0)>(before: Elem<T>, first: Elem<T>, last: Elem<T>, ghost to: List<T>, ghost from_: List<T>,
                            ghost i: nat, ghost j: nat, ghost k: nat)
    requires to.Valid() && from_.Valid() && to.Repr !! from_.Repr
    requires 1 <= i < |to.all| && 1 <= j <= k < |from_.all|
    requires to.all[i] == before && from_.all[j] == first && from_.all[k] == last
    modifies to, from_, to.Repr, from_.Repr
    ensures to.Valid() && from_.Valid() && to.Repr !! from_.Repr && to.Repr + from_.Repr == old(to.Repr + from_.Repr)
    ensures to.all == Put(old(to.all), i, old(from_.all)[j..k])
    ensures from_.all == Left(old(from_.all), j, k)
  {
    hide Chain, Joined, LinkedExcept, Left, Put;
    ghost var s, t := from_.all, to.all;
    SameIndex(s, j, k);
    if first == last {
      NothingMoved(s, t, i, j);
      return;
    }
    assert Apart(s, t);
    SpliceLinksAcross(before, first, last, s, t, i, j, k);
    MovedIsChain(s, t, i, j, k);
    Shares(s, t, i, j, k, from_.Repr, to.Repr);
    ghost var moved := set e | e in s[j..k];
    from_.all := Left(s, j, k);
    from_.Repr := from_.Repr - moved;
    to.all := Put(t, i, s[j..k]);
    to.Repr := to.Repr + moved;
  }

  lemma NothingMoved<E>(s: seq<E>, t: seq<E>, i: nat, j: nat)
    requires i <= |t| && j <= |s|
    ensures Left(s, j, j) == s && Put(t, i, s[j..j]) == t
  {
  }

  // ----- Sorting -----

  /** End of the nondecreasing run that starts at A and ends no later than B.
      A and B are the I'th and K'th elements of LIST. */
  method FindEndOfRun<T(0)>(a: Elem<T>, b: Elem<T>, less: Less<T>,
                            ghost list: List<T>, ghost i: nat, ghost k: nat)
    returns (e: Elem<T>)
    requires list.Valid() && 1 <= i < k < |list.all|
    requires list.all[i] == a && list.all[k] == b
    ensures e == list.all[i + RunLength(list.all[i..k], less)]
  {
    ghost var s := list.all;
    ghost var m := i + 1;
    assert s[i].next == s[m];
    e := a.next;
    while e != b && !Before(e, e.prev, less)
      invariant i < m <= k && e == s[m] && e.prev == s[m - 1]
      invariant RunLength(s[i..k], less) == m - i - 1 + RunLength(s[m - 1..k], less)
      decreases k - m
    {
      assert s[m - 1..k][1..] == s[m..k];
      e := e.next;
      m := m + 1;
      assert s[m].prev == s[m - 1];
    }
  }

  /** A merge under way: S was the list, C is the list now.  P..I is placed,
      and I..M and M..K remain to be merged. */
  ghost predicate Merging<T(0)>(s: seq<Elem<T>>, c: seq<Elem<T>>, p: nat, q: nat, i: nat, m: nat, k: nat,
                                less: Less<T>)
  {
    && p <= q <= k <= |s| == |c| && p <= i <= m <= k
    && c[..p] == s[..p] && c[k..] == s[k..]
    && Merge(s[p..q], s[q..k], less) == c[p..i] + Merge(c[i..m], c[m..k], less)
  }

  lemma StartMerge<T(0)>(s: seq<Elem<T>>, p: nat, q: nat, k: nat, less: Less<T>)
    requires p <= q <= k <= |s|
    ensures Merging(s, s, p, q, p, q, k, less)
  {
    assert s[p..p] == [];
  }

  lemma AddAssoc<E>(a: seq<E>, b: seq<E>, c: seq<E>)
    ensures (a + b) + c == a + (b + c)
  {
  }

  /** What is still to be merged, after placing the first element. */
  lemma MergeStep<T(0)>(c: seq<Elem<T>>, i: nat, m: nat, k: nat, less: Less<T>)
    requires i < m < k <= |c|
    ensures Merge(c[i..m], c[m..k], less) ==
            if !Before(c[m], c[i], less) then [c[i]] + Merge(c[i + 1..m], c[m..k], less)
            else [c[m]] + Merge(c[i..m], c[m + 1..k], less)
  {
    assert c[i..m][1..] == c[i + 1..m];
    assert c[m..k][1..] == c[m + 1..k];
  }

  lemma TakeFirst<T(0)>(s: seq<Elem<T>>, c: seq<Elem<T>>, p: nat, q: nat, i: nat, m: nat, k: nat, less: Less<T>)
    requires Merging(s, c, p, q, i, m, k, less) && i < m < k && !Before(c[m], c[i], less)
    ensures Merging(s, c, p, q, i + 1, m, k, less)
  {
    hide Merge;
    MergeStep(c, i, m, k, less);
    AddAssoc(c[p..i], [c[i]], Merge(c[i + 1..m], c[m..k], less));
    assert c[p..i + 1] == c[p..i] + [c[i]];
  }

  lemma MoveOne<E>(c: seq<E>, p: nat, i: nat, m: nat, k: nat)
    requires p <= i < m < k <= |c|
    ensures var d := Exchanged(c, i, m, m + 1);
            && d[..p] == c[..p] && d[k..] == c[k..]
            && d[p..i + 1] == c[p..i] + [c[m]]
            && d[i + 1..m + 1] == c[i..m]
            && d[m + 1..k] == c[m + 1..k]
  {
  }

  lemma TakeSecond<T(0)>(s: seq<Elem<T>>, c: seq<Elem<T>>, p: nat, q: nat, i: nat, m: nat, k: nat, less: Less<T>)
    requires Merging(s, c, p, q, i, m, k, less) && i < m < k && Before(c[m], c[i], less)
    ensures Merging(s, Exchanged(c, i, m, m + 1), p, q, i + 1, m + 1, k, less)
  {
    hide Exchanged, Merge;
    MoveOne(c, p, i, m, k);
    MergeStep(c, i, m, k, less);
    AddAssoc(c[p..i], [c[m]], Merge(c[i..m], c[m + 1..k], less));
  }

  lemma Merged<T(0)>(s: seq<Elem<T>>, c: seq<Elem<T>>, p: nat, q: nat, i: nat, m: nat, k: nat, less: Less<T>)
    requires Merging(s, c, p, q, i, m, k, less) && (i == m || m == k)
    ensures c == s[..p] + Merge(s[p..q], s[q..k], less) + s[k..]
  {
    assert c == c[..p] + (c[p..i] + c[i..m] + c[m..k]) + c[k..];
    if i == m { assert c[i..m] == []; } else { assert c[m..k] == []; }
  }

  /** Moves B, at index M, in front of A, at index I, and returns what followed
      it. */
  method MoveForward<T(0)>(a: Elem<T>, b: Elem<T>, ghost list: List<T>, ghost i: nat, ghost m: nat)
    returns (next: Elem<T>)
    requires list.Valid() && 1 <= i < m < |list.all| - 1
    requires list.all[i] == a && list.all[m] == b
    modifies list, list.Repr
    ensures list.Valid() && list.Repr == old(list.Repr)
    ensures list.all == Exchanged(old(list.all), i, m, m + 1)
    ensures list.all[i + 1] == a && next == list.all[m + 1]
    ensures forall n :: m < n < |list.all| ==> list.all[n] == old(list.all)[n]
  {
    assert list.all[m].next == list.all[m + 1] && list.all[m + 1].prev == list.all[m];
    next := b.next;
    Splice(a, next.prev, next, list, i, m, m + 1);
  }

  /** Merges the runs A0..A1B0 and A1B0..B1, which are the stretches P..Q and
      Q..K of LIST, by moving elements of the second run forward one at a
      time. */
  method InplaceMerge<T(0)>(a0: Elem<T>, a1b0: Elem<T>, b1: Elem<T>, less: Less<T>,
                            ghost list: List<T>, ghost p: nat, ghost q: nat, ghost k: nat)
    requires list.Valid() && 1 <= p < q < k < |list.all|
    requires list.all[p] == a0 && list.all[q] == a1b0 && list.all[k] == b1
    modifies list, list.Repr
    ensures list.Valid() && list.Repr == old(list.Repr)
    ensures var s := old(list.all);
            list.all == s[..p] + Merge(s[p..q], s[q..k], less) + s[k..]
  {
    hide Merge, Merging, Exchanged, Chain;
    ghost var s := list.all;
    StartMerge(s, p, q, k, less);
    var a, b := a0, a1b0;
    ghost var i: nat, m: nat := p, q;
    while a != b && b != b1
      invariant list.Valid() && list.Repr == old(list.Repr)
      invariant Merging(s, list.all, p, q, i, m, k, less)
      invariant p <= i <= m <= k < |list.all|
      invariant list.all[i] == a && list.all[m] == b && list.all[k] == b1
      decreases k - i
    {
      SameIndex(list.all, i, m);
      SameIndex(list.all, m, k);
      if !Before(b, a, less) {
        TakeFirst(s, list.all, p, q, i, m, k, less);
        a := Next(a, list, i);
        i := i + 1;
      } else {
        TakeSecond(s, list.all, p, q, i, m, k, less);
        b := MoveForward(a, b, list, i, m);
        i, m := i + 1, m + 1;
      }
    }
    SameIndex(list.all, i, m);
    SameIndex(list.all, m, k);
    Merged(s, list.all, p, q, i, m, k, less);
  }

  /** A pass under way: S was the list, C is the list now, both from head to
      tail.  The elements before I are merged, the rest is as it was. */
  ghost predicate Passing<T(0)>(s: seq<Elem<T>>, c: seq<Elem<T>>, i: nat, runs: nat, less: Less<T>) {
    && 1 <= i < |c| == |s|
    && Pass(Interior(s), less) == c[1..i] + Pass(c[i..|c| - 1], less)
    && OutputRuns(Interior(s), less) == runs + OutputRuns(c[i..|c| - 1], less)
  }

  /** The list C with the two runs that start at I merged. */
  ghost function WithPairMerged<T(0)>(c: seq<Elem<T>>, i: nat, less: Less<T>): (d: seq<Elem<T>>)
    requires 1 <= i < |c| - 1
    ensures |d| == |c|
  {
    var rest := c[i..|c| - 1];
    c[..i] + MergePair(rest, less) + c[i + PairLength(rest, less)..]
  }

  lemma PairMergedSlices<T(0)>(c: seq<Elem<T>>, i: nat, less: Less<T>)
    requires 1 <= i < |c| - 1
    ensures var n := |c| - 1;
            var e := PairLength(c[i..n], less);
            var d := WithPairMerged(c, i, less);
            && c[i..n][e..] == d[i + e..n]
            && d[1..i + e] == c[1..i] + MergePair(c[i..n], less)
  {
    hide MergePair, PairLength;
    var n := |c| - 1;
    var e := PairLength(c[i..n], less);
    var d := WithPairMerged(c, i, less);
    assert d[i + e..] == c[i + e..];
    assert d[i + e..n] == d[i + e..][..n - i - e];
    assert d[..i + e] == c[..i] + MergePair(c[i..n], less);
    assert d[1..i + e] == d[..i + e][1..];
  }

  lemma PairMerged<T(0)>(s: seq<Elem<T>>, c: seq<Elem<T>>, i: nat, runs: nat, less: Less<T>)
    requires Passing(s, c, i, runs, less) && i < |c| - 1
    ensures Passing(s, WithPairMerged(c, i, less), i + PairLength(c[i..|c| - 1], less), runs + 1, less)
  {
    hide WithPairMerged, MergePair, PairLength, Interior;
    PairMergedSlices(c, i, less);
    var rest := c[i..|c| - 1];
    AddAssoc(c[1..i], MergePair(rest, less), Pass(rest[PairLength(rest, less)..], less));
  }

  lemma Starting<T(0)>(s: seq<Elem<T>>, less: Less<T>)
    requires |s| >= 2
    ensures Passing(s, s, 1, 0, less)
  {
    assert s[1..1] + Pass(Interior(s), less) == Pass(Interior(s), less);
  }

  lemma LastRun<T(0)>(s: seq<Elem<T>>, c: seq<Elem<T>>, i: nat, runs: nat, less: Less<T>)
    requires Passing(s, c, i, runs, less)
    requires i < |c| - 1 ==> RunLength(c[i..|c| - 1], less) == |c| - 1 - i
    ensures Pass(Interior(s), less) == Interior(c)
    ensures OutputRuns(Interior(s), less) == if i < |c| - 1 then runs + 1 else runs
  {
    var n := |c| - 1;
    var rest := c[i..n];
    if i < n {
      assert rest[..n - i] == rest && rest[n - i..] == [];
      assert rest[PairLength(rest, less)..] == [];
      assert OutputRuns(rest, less) == 1 + OutputRuns<T>([], less);
    } else {
      assert rest == [];
    }
    assert c[1..n] == c[1..i] + rest;
  }

  /** What one iteration of a pass does to the list C at I: nothing, if only
      one run is left, and otherwise the next two runs become one. */
  ghost predicate PairDone<T(0)>(c: seq<Elem<T>>, d: seq<Elem<T>>, i: nat, last: bool, b1: Elem<T>, less: Less<T>) {
    && 1 <= i < |c| - 1 && |d| == |c|
    && (last <==> RunLength(c[i..|c| - 1], less) == |c| - 1 - i)
    && d == (if last then c else WithPairMerged(c, i, less))
    && b1 == d[i + PairLength(c[i..|c| - 1], less)]
  }

  lemma OneRunLeft<T(0)>(c: seq<Elem<T>>, i: nat, less: Less<T>)
    requires 1 <= i < |c| - 1 && RunLength(c[i..|c| - 1], less) == |c| - 1 - i
    ensures PairDone(c, c, i, true, c[|c| - 1], less)
  {
  }

  lemma RunSlices<E>(c: seq<E>, i: nat, e: nat, f: nat, n: nat)
    requires i + e <= i + f <= n <= |c|
    ensures c[i..n][e..] == c[i + e..n]
    ensures c[i..n][..e] == c[i..i + e] && c[i..n][e..f] == c[i + e..i + f]
  {
    var a, b := c[i..n][e..f], c[i + e..i + f];
    assert |a| == |b| && forall x :: 0 <= x < |a| ==> a[x] == c[i..n][e + x] == b[x];
  }

  lemma TwoRunsMerged<T(0)>(c: seq<Elem<T>>, d: seq<Elem<T>>, i: nat, e: nat, f: nat, less: Less<T>)
    requires 1 <= i < i + e < |c| - 1 && e == RunLength(c[i..|c| - 1], less)
    requires f == e + RunLength(c[i + e..|c| - 1], less)
    requires i + f <= |c| - 1 && d == c[..i] + Merge(c[i..i + e], c[i + e..i + f], less) + c[i + f..]
    ensures PairDone(c, d, i, false, c[i + f], less)
  {
    hide RunLength, Merge;
    assert d[i + f] == c[i + f..][0] == c[i + f];
    RunSlices(c, i, e, f, |c| - 1);
    assert f == PairLength(c[i..|c| - 1], less);
  }

  /** Merges the two runs that start at A0, the I'th element of LIST, and
      returns what follows them, if there are two; otherwise returns the tail
      and says so. */
  method MergeNextPair<T(0)>(a0: Elem<T>, list: List<T>, less: Less<T>, ghost i: nat)
    returns (last: bool, b1: Elem<T>)
    requires list.Valid() && 1 <= i < |list.all| - 1 && list.all[i] == a0
    modifies list, list.Repr
    ensures list.Valid() && list.Repr == old(list.Repr)
    ensures PairDone(old(list.all), list.all, i, last, b1, less)
  {
    hide Chain, Merge, RunLength, PairDone;
    ghost var c := list.all;
    ghost var n := |c| - 1;
    ghost var e := RunLength(c[i..n], less);
    SameIndex(c, i + e, n);
    var a1b0 := FindEndOfRun(a0, list.tail, less, list, i, n);
    if a1b0 == list.tail {
      OneRunLeft(c, i, less);
      return true, a1b0;
    }
    ghost var f := e + RunLength(c[i + e..n], less);
    b1 := FindEndOfRun(a1b0, list.tail, less, list, i + e, n);
    InplaceMerge(a0, a1b0, b1, less, list, i, i + e, i + f);
    TwoRunsMerged(c, list.all, i, e, f, less);
    last := false;
  }

  /** One pass of the sort: the body of the do loop. */
  method SortPass<T(0)>(list: List<T>, less: Less<T>) returns (runs: nat)
    requires list.Valid()
    modifies list, list.Repr
    ensures list.Valid() && list.Repr == old(list.Repr)
    ensures list.Nodes() == Pass(old(list.Nodes()), less)
    ensures runs == OutputRuns(old(list.Nodes()), less)
  {
    hide Pass, OutputRuns, WithPairMerged, PairLength, Interior;
    Starting(list.all, less);
    ghost var s := list.all;
    ghost var i: nat := 1;
    runs := 0;
    var a0 := list.Begin();
    while a0 != list.tail
      invariant list.Valid() && list.Repr == old(list.Repr)
      invariant Passing(s, list.all, i, runs, less) && list.all[i] == a0
      decreases |s| - i
    {
      ghost var c := list.all;
      runs := runs + 1;
      var last, b1 := MergeNextPair(a0, list, less, i);
      if last {
        LastRun(s, c, i, runs - 1, less);
        return;
      }
      PairMerged(s, c, i, runs - 1, less);
      i, a0 := i + PairLength(c[i..|c| - 1], less), b1;
    }
    LastRun(s, list.all, i, runs, less);
  }

  /** Sorts LIST by passes until one outputs a single run. */
  method ListSort<T(0,!new)>(list: List<T>, less: Less<T>)
    requires list.Valid() && StrictWeak(less)
    modifies list, list.Repr
    ensures list.Valid() && list.Repr == old(list.Repr)
    ensures list.Nodes() == NaturalSort(old(list.Nodes()), less)
  {
    PassHalvesRuns(list.Nodes(), less);
    var runs := SortPass(list, less);
    while runs > 1
      invariant list.Valid() && list.Repr == old(list.Repr)
      invariant NaturalSort(old(list.Nodes()), less) ==
                if runs > 1 then NaturalSort(list.Nodes(), less) else list.Nodes()
      decreases if runs > 1 then 1 + Runs(list.Nodes(), less) else 0
    {
      PassHalvesRuns(list.Nodes(), less);
      runs := SortPass(list, less);
    }
  }
}
