/** The chained hash table (lib/kernel/hash.c), which rehashes itself. */
module Hash {
  import opened Options
  import opened HashBits

  type Buckets<E> = seq<seq<E>>

  predicate Equal<E>(a: E, b: E, less: (E, E) -> bool) { !less(a, b) && !less(b, a) }

  /** What the table demands of the caller's functions: equality in the sense of
      LESS is an equivalence, and equal elements have equal hash values. */
  ghost predicate Lawful<E(!new)>(hash: E -> nat, less: (E, E) -> bool) {
    && (forall a :: Equal(a, a, less))
    && (forall a, b, c :: Equal(a, b, less) && Equal(b, c, less) ==> Equal(a, c, less))
    && (forall a, b :: Equal(a, b, less) ==> hash(a) == hash(b))
  }

  // ----- Contents -----

  ghost function Bag<E>(b: Buckets<E>): multiset<E> {
    if b == [] then multiset{} else multiset(b[0]) + Bag(b[1..])
  }

  lemma AddBoth<E>(a: multiset<E>, c: multiset<E>, x: multiset<E>, d: multiset<E>, y: multiset<E>)
    requires c + x == d + y
    ensures a + c + x == a + d + y
  {
    assert a + c + x == a + (c + x);
    assert a + d + y == a + (d + y);
  }

  lemma CancelPlus<E>(c: multiset<E>, m: multiset<E>, b: multiset<E>, x: multiset<E>)
    requires c + m == b + (m + x)
    ensures c == b + x
  {
    assert c == c + m - m;
    assert b + x == b + (m + x) - m;
  }

  lemma CancelMinus<E>(c: multiset<E>, m: multiset<E>, b: multiset<E>, u: multiset<E>, x: multiset<E>)
    requires c + m == b + u && u + x == m && m <= b
    ensures c == b - x
  {
    assert c + x + u == b + u;
    assert c + x == c + x + u - u;
    assert b == b + u - u;
    assert c == c + x - x;
  }

  lemma {:induction false} BagUpdate<E>(b: Buckets<E>, i: nat, s: seq<E>)
    requires i < |b|
    ensures Bag(b[i := s]) + multiset(b[i]) == Bag(b) + multiset(s)
    ensures multiset(b[i]) <= Bag(b)
  {
    if i == 0 {
      assert b[0 := s][1..] == b[1..];
    } else {
      BagUpdate(b[1..], i - 1, s);
      assert b[i := s][1..] == b[1..][i - 1 := s];
      AddBoth(multiset(b[0]), Bag(b[1..][i - 1 := s]), multiset(b[i]), Bag(b[1..]), multiset(s));
    }
  }

  lemma {:induction false} InBag<E>(b: Buckets<E>, x: E)
    ensures x in Bag(b) <==> exists i :: 0 <= i < |b| && x in b[i]
  {
    if b != [] {
      InBag(b[1..], x);
      assert x in multiset(b[0]) <==> x in b[0];
      if x in Bag(b[1..]) {
        var i :| 0 <= i < |b[1..]| && x in b[1..][i];
        assert x in b[i + 1];
      }
      if exists i :: 0 <= i < |b| && x in b[i] {
        var i :| 0 <= i < |b| && x in b[i];
        if i > 0 { assert x in b[1..][i - 1]; }
      }
    }
  }

  lemma {:induction false} EmptyBag<E>(b: Buckets<E>)
    requires forall i :: 0 <= i < |b| ==> b[i] == []
    ensures Bag(b) == multiset{}
  {
    if b != [] { EmptyBag(b[1..]); }
  }

  lemma {:induction false} BagPrefix<E>(b: Buckets<E>, i: nat)
    requires i < |b|
    ensures Bag(b[..i + 1]) == Bag(b[..i]) + multiset(b[i])
  {
    if i == 0 {
      assert b[..1][1..] == [] && b[..0] == [];
    } else {
      BagPrefix(b[1..], i - 1);
      assert b[..i + 1][1..] == b[1..][..i] && b[..i][1..] == b[1..][..i - 1];
    }
  }

  function Index<E>(hash: E -> nat, x: E, n: nat): (i: nat)
    requires PowerOf2(n)
    ensures i < n
  {
    MaskIsRemainder(hash(x), n);
    And(hash(x), n - 1)
  }

  /** Every element is in the bucket that its hash value picks. */
  ghost predicate Placed<E(!new)>(b: Buckets<E>, hash: E -> nat)
    requires PowerOf2(|b|)
  {
    forall i, x :: 0 <= i < |b| && x in b[i] ==> Index(hash, x, |b|) == i
  }

  /** No element is there twice, nor two that are equal. */
  ghost predicate Keyed<E(!new)>(bag: multiset<E>, less: (E, E) -> bool) {
    forall x, y :: x in bag && y in bag && Equal(x, y, less) ==> x == y && bag[x] == 1
  }

  /** The one bucket where an element equal to X can be. */
  lemma WhereEqual<E(!new)>(b: Buckets<E>, hash: E -> nat, less: (E, E) -> bool, x: E, y: E)
    requires PowerOf2(|b|) && Placed(b, hash) && Lawful(hash, less) && Equal(y, x, less)
    ensures y in Bag(b) <==> y in b[Index(hash, x, |b|)]
  {
    InBag(b, y);
    assert hash(y) == hash(x);
    if y in Bag(b) {
      var i :| 0 <= i < |b| && y in b[i];
      assert Index(hash, y, |b|) == i;
    }
  }

  /** S without its J'th element. */
  function Unlinked<E>(s: seq<E>, j: nat): seq<E>
    requires j < |s|
  {
    s[..j] + s[j + 1..]
  }

  lemma UnlinkedBag<E>(s: seq<E>, j: nat)
    requires j < |s|
    ensures multiset(Unlinked(s, j)) + multiset{s[j]} == multiset(s)
    ensures forall x :: x in Unlinked(s, j) ==> x in s
  {
    assert s == s[..j] + [s[j]] + s[j + 1..];
  }

  /** Adding an element to the front of its bucket. */
  lemma Pushed<E(!new)>(b: Buckets<E>, hash: E -> nat, x: E)
    requires PowerOf2(|b|) && Placed(b, hash)
    ensures var i := Index(hash, x, |b|);
            Placed(b[i := [x] + b[i]], hash) && Bag(b[i := [x] + b[i]]) == Bag(b) + multiset{x}
  {
    hide Index;
    var i := Index(hash, x, |b|);
    BagUpdate(b, i, [x] + b[i]);
    CancelPlus(Bag(b[i := [x] + b[i]]), multiset(b[i]), Bag(b), multiset{x});
  }

  /** Taking an element out of its bucket. */
  lemma Pulled<E(!new)>(b: Buckets<E>, i: nat, j: nat)
    requires i < |b| && j < |b[i]|
    ensures b[i][j] in Bag(b)
    ensures Bag(b[i := Unlinked(b[i], j)]) == Bag(b) - multiset{b[i][j]}
  {
    hide Bag, Unlinked;
    UnlinkedBag(b[i], j);
    BagUpdate(b, i, Unlinked(b[i], j));
    InBag(b, b[i][j]);
    CancelMinus(Bag(b[i := Unlinked(b[i], j)]), multiset(b[i]), Bag(b), multiset(Unlinked(b[i], j)), multiset{b[i][j]});
  }

  lemma PulledPlaced<E(!new)>(b: Buckets<E>, hash: E -> nat, i: nat, j: nat)
    requires PowerOf2(|b|) && Placed(b, hash) && i < |b| && j < |b[i]|
    ensures Placed(b[i := Unlinked(b[i], j)], hash)
  {
    hide Index, Unlinked;
    var c := b[i := Unlinked(b[i], j)];
    UnlinkedBag(b[i], j);
    forall k, x | 0 <= k < |c| && x in c[k] ensures Index(hash, x, |c|) == k { assert x in b[k]; }
  }

  const MIN_BUCKETS := 4

  /** The number of buckets that rehash wants for N elements: with two to four
      elements in each, or fewer in four buckets. */
  ghost function IdealCount(n: nat): (r: nat)
    ensures PowerOf2(r) && n < 4 * r
    ensures r == MIN_BUCKETS || (r > MIN_BUCKETS && 2 * r <= n)
  {
    FloorPower(if n / 2 < MIN_BUCKETS then MIN_BUCKETS else n / 2)
  }

  // ----- The code -----

  class HashTable<E(==,!new)> {
    const hash: E -> nat
    const less: (E, E) -> bool
    var buckets: Buckets<E>
    var elemCnt: nat

    ghost function Contents(): multiset<E>
      reads this
    {
      Bag(buckets)
    }

    ghost predicate Valid()
      reads this
    {
      && Lawful(hash, less)
      && PowerOf2(|buckets|) && |buckets| >= MIN_BUCKETS
      && Placed(buckets, hash)
      && Keyed(Contents(), less)
      && elemCnt == |Contents()|
    }

    /** hash_init, when it gets its memory. */
    constructor (hash: E -> nat, less: (E, E) -> bool)
      requires Lawful(hash, less)
      ensures Valid() && Contents() == multiset{} && this.hash == hash && this.less == less
    {
      this.hash, this.less := hash, less;
      buckets, elemCnt := [[], [], [], []], 0;
      new;
      EmptyBag(buckets);
      assert PowerOf2(2);
    }

    function FindBucket(e: E): (i: nat)
      requires PowerOf2(|buckets|)
      reads this`buckets
      ensures i == Index(hash, e, |buckets|)
    {
      Index(hash, e, |buckets|)
    }

    /** Where in BUCKET an element equal to E is. */
    method FindElem(bucket: seq<E>, e: E) returns (r: Option<nat>)
      ensures r.Some? ==> r.value < |bucket| && Equal(bucket[r.value], e, less)
      ensures r.None? ==> forall x :: x in bucket ==> !Equal(x, e, less)
    {
      for i := 0 to |bucket|
        invariant forall x :: x in bucket[..i] ==> !Equal(x, e, less)
      {
        if Equal(bucket[i], e, less) { return Some(i); }
      }
      r := None;
    }

    /** find_bucket and find_elem. */
    method Locate(e: E) returns (i: nat, r: Option<nat>)
      requires Valid()
      ensures i < |buckets|
      ensures r.Some? ==> r.value < |buckets[i]| && Equal(buckets[i][r.value], e, less) && buckets[i][r.value] in Contents()
      ensures r.None? ==> forall x :: x in Contents() ==> !Equal(x, e, less)
    {
      hide Index, Keyed, Bag, Placed;
      i := FindBucket(e);
      r := FindElem(buckets[i], e);
      forall x | Equal(x, e, less) ensures x in Contents() <==> x in buckets[i] { WhereEqual(buckets, hash, less, e, x); }
    }

    /** hash_find: the element equal to E, if there is one. */
    method Find(e: E) returns (r: Option<E>)
      requires Valid()
      ensures r.Some? ==> r.value in Contents() && Equal(r.value, e, less)
      ensures r.None? ==> forall x :: x in Contents() ==> !Equal(x, e, less)
    {
      var i, found := Locate(e);
      r := match found case Some(j) => Some(buckets[i][j]) case None => None;
    }

    /** insert_elem and remove_elem. */
    method InsertElem(e: E)
      requires Valid() && forall x :: x in Contents() ==> !Equal(x, e, less)
      modifies this
      ensures Valid() && Contents() == old(Contents()) + multiset{e}
    {
      hide Index, Bag;
      Pushed(buckets, hash, e);
      var i := FindBucket(e);
      buckets := buckets[i := [e] + buckets[i]];
      elemCnt := elemCnt + 1;
    }

    method RemoveElem(i: nat, j: nat)
      requires Valid() && i < |buckets| && j < |buckets[i]|
      modifies this
      ensures Valid() && |buckets| == |old(buckets)|
      ensures old(buckets[i][j]) in old(Contents()) && Contents() == old(Contents()) - multiset{old(buckets[i][j])}
      ensures forall x :: x in Contents() <==> x in old(Contents()) && x != old(buckets[i][j])
    {
      hide Index, Bag, Unlinked;
      Pulled(buckets, i, j);
      PulledPlaced(buckets, hash, i, j);
      buckets := buckets[i := Unlinked(buckets[i], j)];
      elemCnt := elemCnt - 1;
    }

    /** The inner loop of rehash: one old bucket goes into the new ones. */
    method MoveBucket(bucket: seq<E>, b: Buckets<E>) returns (c: Buckets<E>)
      requires PowerOf2(|b|) && Placed(b, hash)
      ensures |c| == |b| && Placed(c, hash) && Bag(c) == Bag(b) + multiset(bucket)
    {
      hide Index, Bag, Placed;
      c := b;
      for i := 0 to |bucket|
        invariant |c| == |b| && Placed(c, hash) && Bag(c) == Bag(b) + multiset(bucket[..i])
      {
        Pushed(c, hash, bucket[i]);
        var k := Index(hash, bucket[i], |c|);
        c := c[k := [bucket[i]] + c[k]];
        assert bucket[..i + 1] == bucket[..i] + [bucket[i]];
      }
      assert bucket[..|bucket|] == bucket;
    }

    method MoveAll(old_: Buckets<E>, newCnt: nat) returns (b: Buckets<E>)
      requires PowerOf2(newCnt)
      ensures |b| == newCnt && Placed(b, hash) && Bag(b) == Bag(old_)
    {
      hide Bag;
      b := seq(newCnt, _ => []);
      EmptyBag(b);
      EmptyBag(old_[..0]);
      for i := 0 to |old_|
        invariant |b| == newCnt && Placed(b, hash) && Bag(b) == Bag(old_[..i])
      {
        b := MoveBucket(old_[i], b);
        BagPrefix(old_, i);
      }
      assert old_[..|old_|] == old_;
    }

    method Rehash(gotMemory: bool)
      requires Valid()
      modifies this`buckets
      ensures Valid() && Contents() == old(Contents())
      ensures |buckets| == if gotMemory then IdealCount(elemCnt) else |old(buckets)|
    {
      hide Bag, Placed, FloorPower, Keyed;
      var newBucketCnt := elemCnt / 2;
      if newBucketCnt < MIN_BUCKETS { newBucketCnt := MIN_BUCKETS; }
      newBucketCnt := RoundDown(newBucketCnt);
      if newBucketCnt == |buckets| || !gotMemory { return; }
      buckets := MoveAll(buckets, newBucketCnt);
    }

    /** hash_insert; GOTMEMORY says whether rehash gets the memory it asks for. */
    method Insert(e: E, gotMemory: bool) returns (r: Option<E>)
      requires Valid()
      modifies this
      ensures Valid()
      ensures r.Some? ==> r.value in old(Contents()) && Equal(r.value, e, less) && Contents() == old(Contents())
      ensures r.None? ==> (forall x :: x in old(Contents()) ==> !Equal(x, e, less))
                          && Contents() == old(Contents()) + multiset{e}
      ensures gotMemory ==> elemCnt < 4 * |buckets| && (|buckets| == MIN_BUCKETS || 2 * |buckets| <= elemCnt)
    {
      hide Index, Bag, Keyed, Placed, Lawful;
      r := Find(e);
      if r.None? { InsertElem(e); }
      Rehash(gotMemory);
    }

    /** hash_replace. */
    method Replace(e: E, gotMemory: bool) returns (r: Option<E>)
      requires Valid()
      modifies this
      ensures Valid()
      ensures r.Some? ==> r.value in old(Contents()) && Equal(r.value, e, less)
                          && Contents() == old(Contents()) - multiset{r.value} + multiset{e}
      ensures r.None? ==> (forall x :: x in old(Contents()) ==> !Equal(x, e, less))
                          && Contents() == old(Contents()) + multiset{e}
      ensures gotMemory ==> elemCnt < 4 * |buckets| && (|buckets| == MIN_BUCKETS || 2 * |buckets| <= elemCnt)
    {
      hide Index, Bag, Placed;
      var i, found := Locate(e);
      r := None;
      if found.Some? {
        r := Some(buckets[i][found.value]);
        OthersDiffer(Contents(), hash, less, r.value, e);
        RemoveElem(i, found.value);
      }
      InsertElem(e);
      Rehash(gotMemory);
    }

    /** hash_delete. */
    method Delete(e: E, gotMemory: bool) returns (r: Option<E>)
      requires Valid()
      modifies this
      ensures Valid()
      ensures r.Some? ==> r.value in old(Contents()) && Equal(r.value, e, less)
                          && Contents() == old(Contents()) - multiset{r.value}
      ensures r.None? ==> (forall x :: x in old(Contents()) ==> !Equal(x, e, less)) && Contents() == old(Contents())
      ensures r.Some? && gotMemory ==> elemCnt < 4 * |buckets| && (|buckets| == MIN_BUCKETS || 2 * |buckets| <= elemCnt)
    {
      hide Index, Bag, Placed, Keyed, Lawful;
      var i, found := Locate(e);
      r := None;
      if found.Some? {
        r := Some(buckets[i][found.value]);
        RemoveElem(i, found.value);
        Rehash(gotMemory);
      }
    }
  }

  /** In a table, only one element is equal to E. */
  lemma OthersDiffer<E(!new)>(bag: multiset<E>, hash: E -> nat, less: (E, E) -> bool, x: E, e: E)
    requires Lawful(hash, less) && Keyed(bag, less) && x in bag && Equal(x, e, less)
    ensures forall y :: y in bag && y != x ==> !Equal(y, e, less)
  {
    forall y | y in bag && Equal(y, e, less) ensures y == x {
      assert Equal(e, x, less);
      assert Equal(y, x, less);
    }
  }

  // ----- Iteration -----

  /** The elements, bucket by bucket. */
  ghost function Flat<E>(b: Buckets<E>): seq<E> {
    if b == [] then [] else b[0] + Flat(b[1..])
  }

  lemma {:induction false} FlatBag<E>(b: Buckets<E>)
    ensures multiset(Flat(b)) == Bag(b)
  {
    if b != [] { FlatBag(b[1..]); }
  }

  lemma {:induction false} FlatSplit<E>(b: Buckets<E>, i: nat)
    requires i < |b|
    ensures Flat(b) == Flat(b[..i]) + b[i] + Flat(b[i + 1..])
  {
    if i == 0 {
      assert b[..0] == [];
    } else {
      FlatSplit(b[1..], i - 1);
      assert b[..i][1..] == b[1..][..i - 1] && b[1..][i..] == b[i + 1..];
    }
  }

  /** An iterator: the bucket, and its element, or its head or, at the end, none. */
  datatype Cursor = At(bucket: nat, pos: int) | End

  /** How many elements the iterator has passed, itself included. */
  ghost function Passed<E>(b: Buckets<E>, c: Cursor): int {
    match c
    case At(i, j) => if i < |b| then |Flat(b[..i])| + j + 1 else 0
    case End => |Flat(b)| + 1
  }

  ghost predicate CursorOk<E>(b: Buckets<E>, c: Cursor) {
    c.At? ==> c.bucket < |b| && -1 <= c.pos < |b[c.bucket]|
  }

  method First<E(==,!new)>(h: HashTable<E>) returns (c: Cursor)
    requires h.Valid()
    ensures CursorOk(h.buckets, c) && c.At? && Passed(h.buckets, c) == 0
  {
    c := At(0, -1);
    assert h.buckets[..0] == [];
  }

  lemma FlatAt<E>(b: Buckets<E>, i: nat, j: nat)
    requires i < |b| && j < |b[i]|
    ensures |Flat(b[..i])| + j < |Flat(b)| && Flat(b)[|Flat(b[..i])| + j] == b[i][j]
  {
    FlatSplit(b, i);
  }

  lemma {:induction false} FlatNext<E>(b: Buckets<E>, i: nat)
    requires i < |b|
    ensures |Flat(b[..i + 1])| == |Flat(b[..i])| + |b[i]|
  {
    FlatSplit(b[..i + 1], i);
    assert b[..i + 1][..i] == b[..i] && b[..i + 1][i + 1..] == [];
  }

  /** hash_next: the element after those passed, or none when all are. */
  method Next<E(==,!new)>(h: HashTable<E>, c: Cursor) returns (d: Cursor, r: Option<E>)
    requires h.Valid() && CursorOk(h.buckets, c) && c.At?
    ensures CursorOk(h.buckets, d) && Passed(h.buckets, d) == Passed(h.buckets, c) + 1
    ensures r == if Passed(h.buckets, c) < |Flat(h.buckets)| then Some(Flat(h.buckets)[Passed(h.buckets, c)]) else None
    ensures r.Some? <==> d.At?
  {
    hide Flat;
    var b := h.buckets;
    var i, j := c.bucket, c.pos + 1;
    while j == |b[i]|
      invariant i < |b| && 0 <= j <= |b[i]| && |Flat(b[..i])| + j == Passed(b, c)
      decreases |b| - i
    {
      FlatNext(b, i);
      i := i + 1;
      if i >= |b| {
        assert b[..i] == b;
        return End, None;
      }
      j := 0;
    }
    FlatAt(b, i, j);
    d, r := At(i, j), Some(b[i][j]);
  }

  /** An iteration visits every element exactly once. */
  method VisitAll<E(==,!new)>(h: HashTable<E>) returns (visited: seq<E>)
    requires h.Valid()
    ensures multiset(visited) == h.Contents() && |visited| == h.elemCnt
  {
    hide Flat, Bag;
    FlatBag(h.buckets);
    visited := [];
    var c := First(h);
    var r: Option<E>;
    c, r := Next(h, c);
    while r.Some?
      invariant CursorOk(h.buckets, c) && (r.Some? <==> c.At?)
      invariant Passed(h.buckets, c) == |visited| + 1 && |visited| <= |Flat(h.buckets)|
      invariant visited == Flat(h.buckets)[..|visited|]
      invariant r == if |visited| < |Flat(h.buckets)| then Some(Flat(h.buckets)[|visited|]) else None
      decreases |Flat(h.buckets)| - |visited|
    {
      visited := visited + [r.value];
      c, r := Next(h, c);
    }
    assert Flat(h.buckets)[..|visited|] == Flat(h.buckets);
  }
}
