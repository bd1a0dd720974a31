/** Where malloc (threads/malloc.c) puts blocks: arenas of one page cut into
    blocks of one size, and big blocks of whole pages; and how the arenas, the
    free lists, the pages and the live blocks fit together.  MallocRuns says what
    callers get, and Mallocs has the code. */
module MallocLayout {
  import opened BitRuns
  import opened Options
  import opened Counting
  import opened Nonlinear
  import opened Pages

  const HEADER := 12               // sizeof (struct arena) on the 32-bit machine
  const DESC_CNT := 7
  const SIZE_LIMIT := 0x1_0000_0000 // size_t has 32 bits

  function BlockSize(d: nat): (s: nat)
    ensures s > 0
  {
    if d == 0 then 16 else 2 * BlockSize(d - 1)
  }

  function BlocksPerArena(d: nat): nat { Div(PGSIZE - HEADER, BlockSize(d)) }

  /** Block I of the arena in page P, of descriptor D. */
  function Addr(p: nat, d: nat, i: nat): nat { PGSIZE * p + HEADER + i * BlockSize(d) }

  function BigAddr(p: nat): nat { PGSIZE * p + HEADER }

  function PageOf(a: nat): nat { a / PGSIZE }

  /** The arena header: free_cnt is the number of free blocks, or, if there is
      no descriptor, the number of pages of the big block. */
  datatype Arena = Arena(desc: Option<nat>, freeCnt: nat)

  function Span(a: Arena): nat { if a.desc.None? then a.freeCnt else 1 }

  /** Bytes from the block's address to the end of what it may use. */
  function Capacity(a: Arena): int {
    if a.desc.Some? then BlockSize(a.desc.value) else PGSIZE * a.freeCnt - HEADER
  }

  lemma BlockSizes()
    ensures BlockSize(0) == 16 && BlockSize(1) == 32 && BlockSize(2) == 64 && BlockSize(3) == 128
    ensures BlockSize(4) == 256 && BlockSize(5) == 512 && BlockSize(6) == 1024
  {
    assert BlockSize(3) == 2 * BlockSize(2);
    assert BlockSize(5) == 2 * BlockSize(4);
  }

  lemma {:induction false} SmallerSizes(d: nat)
    requires d < DESC_CNT
    ensures BlockSize(d) <= 1024
  {
    BlockSizes();
  }

  /** An arena has room for its blocks, behind the header and in one page. */
  lemma BlockInPage(p: nat, d: nat, i: nat)
    requires i < BlocksPerArena(d)
    ensures PGSIZE * p + HEADER <= Addr(p, d, i)
    ensures Addr(p, d, i) + BlockSize(d) <= PGSIZE * (p + 1)
    ensures PageOf(Addr(p, d, i)) == p
  {
    var bs := BlockSize(d);
    assert (i + 1) * bs <= PGSIZE - HEADER;
    assert (i + 1) * bs == i * bs + bs;
  }

  /** ... and no room for one more. */
  lemma NoRoomForMore(p: nat, d: nat)
    ensures Addr(p, d, BlocksPerArena(d)) + BlockSize(d) > PGSIZE * (p + 1)
  {
    var n, bs := BlocksPerArena(d), BlockSize(d);
    assert (n + 1) * bs == n * bs + bs;
    assert (n + 1) * bs > PGSIZE - HEADER;
  }

  /** Blocks of an arena do not overlap. */
  lemma BlocksApart(p: nat, d: nat, i: nat, j: nat)
    requires i < j
    ensures Addr(p, d, i) + BlockSize(d) <= Addr(p, d, j)
  {
    MulMono(i + 1, j, BlockSize(d));
    assert (i + 1) * BlockSize(d) == i * BlockSize(d) + BlockSize(d);
  }

  lemma AddrInjective(p: nat, d: nat, i: nat, q: nat, j: nat)
    requires i < BlocksPerArena(d) && j < BlocksPerArena(d) && Addr(p, d, i) == Addr(q, d, j)
    ensures p == q && i == j
  {
    BlockInPage(p, d, i);
    BlockInPage(q, d, j);
    if i < j { BlocksApart(p, d, i, j); }
    if j < i { BlocksApart(p, d, j, i); }
  }

  // ----- What holds between calls -----

  /** A is a block of the arena in page P. */
  ghost predicate IsBlock(a: nat, p: nat, d: nat) {
    exists i :: 0 <= i < BlocksPerArena(d) && a == Addr(p, d, i)
  }

  ghost function FreeIn(list: seq<nat>, p: nat, d: nat): set<nat> {
    set i | 0 <= i < BlocksPerArena(d) && Addr(p, d, i) in list
  }

  type Arenas = map<nat, Arena>

  /** The pages that malloc holds are those of its arenas: HELD gives each page
      its arena. */
  ghost predicate PagesOk(base: nat, used: seq<bool>, held: map<nat, nat>, arenas: Arenas) {
    && base > 0
    && (forall p :: p in arenas ==> Span(arenas[p]) > 0 && Covers(held, p, Span(arenas[p])))
    && (forall q :: q in held ==> UsedPage(base, used, q) && OnArena(held, arenas, q))
  }

  /** The N pages from P on belong to the arena in page P. */
  ghost predicate Covers(held: map<nat, nat>, p: nat, n: nat) {
    forall q :: p <= q < p + n ==> q in held && held[q] == p
  }

  ghost predicate OnArena(held: map<nat, nat>, arenas: Arenas, q: nat)
    requires q in held
  {
    held[q] in arenas && held[q] <= q < held[q] + Span(arenas[held[q]])
  }

  ghost predicate UsedPage(base: nat, used: seq<bool>, q: nat) {
    base <= q < base + |used| && used[q - base]
  }

  /** The free lists hold blocks of arenas of their size, each once. */
  ghost predicate ListsOk(lists: seq<seq<nat>>, arenas: Arenas) {
    && |lists| == DESC_CNT
    && (forall p :: p in arenas && arenas[p].desc.Some? ==> arenas[p].desc.value < DESC_CNT)
    && (forall d :: 0 <= d < DESC_CNT ==> ListOk(lists[d], d, arenas))
  }

  ghost predicate ListOk(list: seq<nat>, d: nat, arenas: Arenas) {
    && Distinct(list)
    && forall a :: a in list ==>
         PageOf(a) in arenas && arenas[PageOf(a)].desc == Some(d) && IsBlock(a, PageOf(a), d)
  }

  /** free_cnt counts the arena's blocks on its descriptor's free list. */
  ghost predicate CountsOk(lists: seq<seq<nat>>, arenas: Arenas)
    requires |lists| == DESC_CNT
  {
    forall p :: p in arenas && arenas[p].desc.Some? && arenas[p].desc.value < DESC_CNT ==>
      CountOk(lists[arenas[p].desc.value], p, arenas[p])
  }

  ghost predicate CountOk(list: seq<nat>, p: nat, a: Arena)
    requires a.desc.Some?
  {
    a.freeCnt == |FreeIn(list, p, a.desc.value)|
  }

  /** Every arena but those in EXCEPT has a block in use. */
  ghost predicate InUse(arenas: Arenas, except: set<nat>) {
    forall p :: p in arenas && p !in except && arenas[p].desc.Some? ==>
      arenas[p].freeCnt < BlocksPerArena(arenas[p].desc.value)
  }

  /** The live blocks are the blocks that are on no free list.  LIVE gives the
      size each was requested with. */
  ghost predicate LiveOk(live: map<nat, nat>, lists: seq<seq<nat>>, arenas: Arenas)
    requires |lists| == DESC_CNT
  {
    && (forall a :: a in live ==> PageOf(a) in arenas && LiveBlock(a, live[a], arenas[PageOf(a)], lists))
    && (forall p, d: nat, i: nat :: p in arenas && BlockUsed(p, d, i, arenas[p], lists) ==> Addr(p, d, i) in live)
    && (forall p :: p in arenas && arenas[p].desc.None? ==> BigAddr(p) in live)
  }

  /** Block I of arena P is not on its free list. */
  ghost predicate BlockUsed(p: nat, d: nat, i: nat, arena: Arena, lists: seq<seq<nat>>)
    requires |lists| == DESC_CNT
  {
    d < DESC_CNT && arena.desc == Some(d) && i < BlocksPerArena(d) && Addr(p, d, i) !in lists[d]
  }

  ghost predicate LiveBlock(a: nat, size: nat, arena: Arena, lists: seq<seq<nat>>)
    requires |lists| == DESC_CNT
  {
    match arena.desc
    case Some(d) => d < DESC_CNT && IsBlock(a, PageOf(a), d) && a !in lists[d] && 0 < size <= BlockSize(d)
    case None => a == BigAddr(PageOf(a)) && 0 < size && (size < WRAP ==> size <= Capacity(arena))
  }

  /** Requests from here on make size + sizeof (struct arena) wrap around. */
  const WRAP := SIZE_LIMIT - HEADER

  // ----- What follows for the caller of malloc -----

  /** The bytes a live block may use lie on pages of its arena, behind the
      header. */
  lemma LiveInside(base: nat, used: seq<bool>, held: map<nat, nat>, live: map<nat, nat>, lists: seq<seq<nat>>,
                   arenas: Arenas, a: nat)
    requires PagesOk(base, used, held, arenas) && ListsOk(lists, arenas) && LiveOk(live, lists, arenas) && a in live
    ensures var p := PageOf(a);
            && p in arenas && BigAddr(p) <= a
            && a + Capacity(arenas[p]) <= PGSIZE * (p + Span(arenas[p]))
  {
    var p := PageOf(a);
    if arenas[p].desc.Some? {
      var d := arenas[p].desc.value;
      assert IsBlock(a, p, d);
      var i :| 0 <= i < BlocksPerArena(d) && a == Addr(p, d, i);
      BlockInPage(p, d, i);
    }
  }

  /** Live blocks do not overlap. */
  lemma LiveApart(base: nat, used: seq<bool>, held: map<nat, nat>, live: map<nat, nat>, lists: seq<seq<nat>>,
                  arenas: Arenas, a: nat, b: nat)
    requires PagesOk(base, used, held, arenas) && ListsOk(lists, arenas) && LiveOk(live, lists, arenas)
    requires a in live && b in live && a < b
    ensures PageOf(a) in arenas && a + Capacity(arenas[PageOf(a)]) <= b
  {
    var p, q := PageOf(a), PageOf(b);
    LiveInside(base, used, held, live, lists, arenas, a);
    LiveInside(base, used, held, live, lists, arenas, b);
    if p == q {
      assert LiveBlock(a, live[a], arenas[p], lists) && LiveBlock(b, live[b], arenas[p], lists);
      SameArenaApart(p, arenas[p].desc.value, a, b);
    } else {
      SpansApart(base, used, held, arenas, p, q);
    }
  }

  lemma SameArenaApart(p: nat, d: nat, a: nat, b: nat)
    requires IsBlock(a, p, d) && IsBlock(b, p, d) && a < b
    ensures a + BlockSize(d) <= b
  {
    var i :| 0 <= i < BlocksPerArena(d) && a == Addr(p, d, i);
    var j :| 0 <= j < BlocksPerArena(d) && b == Addr(p, d, j);
    if i < j { BlocksApart(p, d, i, j); }
    if j < i { BlocksApart(p, d, j, i); }
  }

  lemma SpansApart(base: nat, used: seq<bool>, held: map<nat, nat>, arenas: Arenas, p: nat, q: nat)
    requires PagesOk(base, used, held, arenas) && p in arenas && q in arenas && p < q
    ensures p + Span(arenas[p]) <= q
  {
    assert Covers(held, q, Span(arenas[q])) && Covers(held, p, Span(arenas[p]));
    assert q in held && held[q] == q;
  }

  /** The header of an arena is clear of every live block. */
  lemma HeaderClear(base: nat, used: seq<bool>, held: map<nat, nat>, live: map<nat, nat>, lists: seq<seq<nat>>,
                    arenas: Arenas, a: nat, q: nat)
    requires PagesOk(base, used, held, arenas) && ListsOk(lists, arenas) && LiveOk(live, lists, arenas)
    requires a in live && q in arenas
    ensures PageOf(a) in arenas
    ensures a + Capacity(arenas[PageOf(a)]) <= PGSIZE * q || PGSIZE * q + HEADER <= a
  {
    var p := PageOf(a);
    LiveInside(base, used, held, live, lists, arenas, a);
    if p < q { SpansApart(base, used, held, arenas, p, q); }
  }

  // ----- Counting free blocks -----

  ghost function UpTo(n: nat): (r: set<nat>)
    ensures |r| == n
    ensures forall i :: i in r <==> 0 <= i < n
  {
    if n == 0 then {} else UpTo(n - 1) + {n - 1}
  }

  lemma {:induction false} SubsetSize(a: set<nat>, b: set<nat>)
    requires a <= b
    ensures |a| <= |b| && (|a| == |b| ==> a == b)
  {
    assert b == a + (b - a);
    assert |b| == |a| + |b - a|;
    if |a| == |b| { assert b - a == {}; }
  }

  /** As many free blocks as blocks: all are free. */
  lemma AllFree(list: seq<nat>, p: nat, d: nat)
    ensures |FreeIn(list, p, d)| <= BlocksPerArena(d)
    ensures |FreeIn(list, p, d)| == BlocksPerArena(d) ==>
              forall i :: 0 <= i < BlocksPerArena(d) ==> Addr(p, d, i) in list
  {
    hide Addr, BlocksPerArena;
    SubsetSize(FreeIn(list, p, d), UpTo(BlocksPerArena(d)));
    if |FreeIn(list, p, d)| == BlocksPerArena(d) {
      forall i | 0 <= i < BlocksPerArena(d) ensures Addr(p, d, i) in list { assert i in UpTo(BlocksPerArena(d)); }
    }
  }

  /** Taking the block A, the I'th of its arena, off the list, or putting it
      on, changes the count of its arena by one and no other. */
  lemma CountChange(with: seq<nat>, without: seq<nat>, p: nat, d: nat, i: nat)
    requires i < BlocksPerArena(d) && Addr(p, d, i) in with && Addr(p, d, i) !in without
    requires forall x :: x in without <==> x in with && x != Addr(p, d, i)
    ensures |FreeIn(with, p, d)| == |FreeIn(without, p, d)| + 1
    ensures forall q :: q != p ==> FreeIn(with, q, d) == FreeIn(without, q, d)
  {
    forall q, j | 0 <= j < BlocksPerArena(d) && Addr(q, d, j) == Addr(p, d, i) ensures q == p && j == i {
      AddrInjective(p, d, i, q, j);
    }
    hide Addr, BlocksPerArena;
    assert FreeIn(with, p, d) == FreeIn(without, p, d) + {i};
    forall q | q != p ensures FreeIn(with, q, d) == FreeIn(without, q, d) {
      assert forall j :: j in FreeIn(with, q, d) <==> j in FreeIn(without, q, d);
    }
  }

  // ----- Pages come and go -----

  ghost function PagesHeld(held: map<nat, nat>, p: nat, n: nat): map<nat, nat> {
    map q | q in held.Keys + PageRange(p, n) :: if p <= q < p + n then p else held[q]
  }

  ghost function PageRange(p: nat, n: nat): (r: set<nat>)
    ensures forall q :: q in r <==> p <= q < p + n
  {
    if n == 0 then {} else PageRange(p, n - 1) + {p + n - 1}
  }

  lemma CoversKept(held: map<nat, nat>, held': map<nat, nat>, x: nat, n: nat)
    requires Covers(held, x, n)
    requires forall q :: q in held && held[q] == x ==> q in held' && held'[q] == x
    ensures Covers(held', x, n)
  {
  }

  /** The page map, when free pages are added to it. */
  lemma PagesHeldIs(base: nat, used: seq<bool>, held: map<nat, nat>, p: nat, n: nat)
    requires base <= p && RunAt(used, p - base, n, false)
    requires forall q :: q in held ==> UsedPage(base, used, q)
    ensures var held' := PagesHeld(held, p, n);
            && (forall q :: q in held ==> q in held' && held'[q] == held[q] && !(p <= q < p + n))
            && (forall q :: q in held' ==> q in held || (p <= q < p + n && held'[q] == p))
            && Covers(held', p, n)
    ensures forall q: nat :: UsedPage(base, used, q) || p <= q < p + n ==>
              UsedPage(base, SetRun(used, p - base, n, true), q)
  {
    var used' := SetRun(used, p - base, n, true);
    forall q: nat | UsedPage(base, used, q) || p <= q < p + n ensures UsedPage(base, used', q) {
      var k := q - base;
      assert used'[k] == if p - base <= k < p - base + n then true else used[k];
    }
  }

  /** Free pages become an arena. */
  lemma PagesTaken(base: nat, used: seq<bool>, held: map<nat, nat>, arenas: Arenas, p: nat, a: Arena)
    requires PagesOk(base, used, held, arenas) && Span(a) > 0 && base <= p
    requires RunAt(used, p - base, Span(a), false)
    ensures p !in arenas && p !in held
    ensures PagesOk(base, SetRun(used, p - base, Span(a), true), PagesHeld(held, p, Span(a)), arenas[p := a])
  {
    hide SetRun, RunAt, UsedPage, Span, Covers, PagesHeld;
    var n := Span(a);
    var held', arenas' := PagesHeld(held, p, n), arenas[p := a];
    RunInside(used, p - base, n, false);
    PagesHeldIs(base, used, held, p, n);
    if p in arenas { CoversFirst(held, p, Span(arenas[p])); }
    forall x | x in arenas' ensures Span(arenas'[x]) > 0 && Covers(held', x, Span(arenas'[x])) {
      if x != p { CoversKept(held, held', x, Span(arenas[x])); }
    }
    forall q | q in held' ensures OnArena(held', arenas', q) {
      if q in held { assert OnArena(held, arenas, q); }
    }
    var used' := SetRun(used, p - base, n, true);
    forall q: nat | q in held' ensures UsedPage(base, used', q) {
      assert UsedPage(base, used, q) || p <= q < p + n;
    }
  }

  lemma CoversFirst(held: map<nat, nat>, p: nat, n: nat)
    requires Covers(held, p, n) && n > 0
    ensures p in held && held[p] == p
  {
  }

  /** The pages of an arena are used. */
  lemma ArenaUsed(base: nat, used: seq<bool>, held: map<nat, nat>, arenas: Arenas, p: nat)
    requires PagesOk(base, used, held, arenas) && p in arenas
    ensures base <= p && RunAt(used, p - base, Span(arenas[p]), true)
  {
    var n := Span(arenas[p]);
    assert Covers(held, p, n);
    assert UsedPage(base, used, p) && UsedPage(base, used, p + n - 1);
    forall k | p - base <= k < p - base + n ensures used[k] { assert UsedPage(base, used, k + base); }
  }

  /** The page map, when an arena's pages leave it. */
  lemma PagesLeft(base: nat, used: seq<bool>, held: map<nat, nat>, arenas: Arenas, p: nat)
    requires PagesOk(base, used, held, arenas) && p in arenas
    requires base <= p && RunAt(used, p - base, Span(arenas[p]), true)
    ensures var held' := held - PageRange(p, Span(arenas[p]));
            && (forall q :: q in held && held[q] != p ==> q in held' && held'[q] == held[q])
            && (forall q :: q in held' ==> q in held && held'[q] == held[q] != p && !(p <= q < p + Span(arenas[p])))
    ensures forall q: nat :: UsedPage(base, used, q) && !(p <= q < p + Span(arenas[p])) ==>
              UsedPage(base, SetRun(used, p - base, Span(arenas[p]), false), q)
  {
    assert Covers(held, p, Span(arenas[p]));
    assert forall q :: q in held ==> OnArena(held, arenas, q);
  }

  /** An arena gives its pages back. */
  lemma PagesGiven(base: nat, used: seq<bool>, held: map<nat, nat>, arenas: Arenas, p: nat)
    requires PagesOk(base, used, held, arenas) && p in arenas
    ensures base <= p && RunAt(used, p - base, Span(arenas[p]), true)
    ensures PagesOk(base, SetRun(used, p - base, Span(arenas[p]), false),
                    held - PageRange(p, Span(arenas[p])), arenas - {p})
  {
    hide SetRun, RunAt, UsedPage, Span, Covers, PageRange;
    ArenaUsed(base, used, held, arenas, p);
    RunInside(used, p - base, Span(arenas[p]), true);
    PagesLeft(base, used, held, arenas, p);
    var n := Span(arenas[p]);
    var held', arenas' := held - PageRange(p, n), arenas - {p};
    forall x | x in arenas' ensures Span(arenas'[x]) > 0 && Covers(held', x, Span(arenas'[x])) {
      CoversKept(held, held', x, Span(arenas[x]));
    }
    forall q | q in held' ensures UsedPage(base, SetRun(used, p - base, n, false), q) && OnArena(held', arenas', q) {
      assert UsedPage(base, used, q) && OnArena(held, arenas, q);
    }
  }

  // ----- Lists, counts and live blocks: one block, or one arena, at a time -----

  /** A list is about arenas of its own descriptor only. */
  lemma ListKept(list: seq<nat>, d: nat, arenas: Arenas, arenas': Arenas)
    requires ListOk(list, d, arenas)
    requires forall p :: p in arenas && arenas[p].desc == Some(d) ==> p in arenas' && arenas'[p].desc == Some(d)
    ensures ListOk(list, d, arenas')
  {
  }

  /** One list changes, and arenas change so that the other lists do not mind. */
  lemma ListsKept(lists: seq<seq<nat>>, list': seq<nat>, d: nat, arenas: Arenas, arenas': Arenas)
    requires ListsOk(lists, arenas) && d < DESC_CNT && ListOk(list', d, arenas')
    requires forall p :: p in arenas && arenas[p].desc.Some? && arenas[p].desc != Some(d) ==>
               p in arenas' && arenas'[p].desc == arenas[p].desc
    requires forall p :: p in arenas' && arenas'[p].desc.Some? ==> arenas'[p].desc.value < DESC_CNT
    ensures ListsOk(lists[d := list'], arenas')
  {
    hide ListOk;
    var lists' := lists[d := list'];
    forall e | 0 <= e < DESC_CNT ensures ListOk(lists'[e], e, arenas') {
      if e != d { ListKept(lists[e], e, arenas, arenas'); }
    }
  }

  /** One list and one arena P of its size change, and the count of P agrees. */
  lemma CountsKept(lists: seq<seq<nat>>, list': seq<nat>, d: nat, arenas: Arenas, arenas': Arenas, p: nat)
    requires |lists| == DESC_CNT && CountsOk(lists, arenas) && d < DESC_CNT
    requires forall q :: q in arenas' && q != p ==> q in arenas && arenas'[q] == arenas[q]
    requires p in arenas' ==> arenas'[p].desc == Some(d) && CountOk(list', p, arenas'[p])
    requires forall q :: q != p ==> FreeIn(list', q, d) == FreeIn(lists[d], q, d)
    ensures CountsOk(lists[d := list'], arenas')
  {
    hide FreeIn;
    var lists' := lists[d := list'];
    forall q | q in arenas' && arenas'[q].desc.Some? && arenas'[q].desc.value < DESC_CNT
      ensures CountOk(lists'[arenas'[q].desc.value], q, arenas'[q])
    {
      if q != p { assert CountOk(lists[arenas[q].desc.value], q, arenas[q]); }
    }
  }

  /** One list and one arena P of its size change: the blocks of P that are off
      the list are live, and the other live blocks stay. */
  lemma LiveKept(live: map<nat, nat>, live': map<nat, nat>, lists: seq<seq<nat>>, list': seq<nat>, d: nat,
                 arenas: Arenas, arenas': Arenas, p: nat)
    requires |lists| == DESC_CNT && LiveOk(live, lists, arenas) && d < DESC_CNT
    requires forall q :: q in arenas' && q != p ==> q in arenas && arenas'[q] == arenas[q]
    requires forall q :: q in arenas && q != p ==> q in arenas'
    requires p in arenas' ==> arenas'[p].desc == Some(d)
    requires forall x :: PageOf(x) != p ==> (x in list' <==> x in lists[d])
    requires forall x :: PageOf(x) != p ==> (x in live' <==> x in live) && (x in live ==> live'[x] == live[x])
    requires forall x :: x in live' && PageOf(x) == p ==>
               p in arenas' && IsBlock(x, p, d) && x !in list' && 0 < live'[x] <= BlockSize(d)
    requires p in arenas' ==> forall x :: IsBlock(x, p, d) && x !in list' ==> x in live'
    ensures LiveOk(live', lists[d := list'], arenas')
  {
    var lists' := lists[d := list'];
    forall q, e: nat, i: nat | q in arenas' && BlockUsed(q, e, i, arenas'[q], lists') ensures Addr(q, e, i) in live' {
      BlockInPage(q, e, i);
      if q == p { assert IsBlock(Addr(p, d, i), p, d); } else { assert BlockUsed(q, e, i, arenas[q], lists); }
    }
    forall q | q in arenas' && arenas'[q].desc.None? ensures BigAddr(q) in live' { BigInPage(q); }
    hide Addr, BlocksPerArena, PageOf, IsBlock, BlockSize;
    forall x | x in live' ensures PageOf(x) in arenas' && LiveBlock(x, live'[x], arenas'[PageOf(x)], lists') {
      if PageOf(x) != p { assert LiveBlock(x, live[x], arenas[PageOf(x)], lists); }
    }
  }

  lemma BigInPage(p: nat)
    ensures PageOf(BigAddr(p)) == p
  {
  }

  // ----- The steps of malloc and free -----

  /** A state of the allocator: see the predicates above. */
  datatype State = State(base: nat, used: seq<bool>, held: map<nat, nat>, arenas: Arenas,
                         lists: seq<seq<nat>>, live: map<nat, nat>)

  /** What holds between calls, but for the arenas in EXCEPT, which may have no
      block in use. */
  ghost predicate Ok(s: State, except: set<nat>) {
    && |s.lists| == DESC_CNT
    && PagesOk(s.base, s.used, s.held, s.arenas)
    && ListsOk(s.lists, s.arenas)
    && CountsOk(s.lists, s.arenas)
    && LiveOk(s.live, s.lists, s.arenas)
    && InUse(s.arenas, except)
  }

  ghost function Blocks(p: nat, d: nat): (b: seq<nat>)
    ensures |b| == BlocksPerArena(d)
    ensures forall i :: 0 <= i < |b| ==> b[i] == Addr(p, d, i)
  {
    seq(BlocksPerArena(d), i requires 0 <= i => Addr(p, d, i))
  }

  lemma BlocksDistinct(p: nat, d: nat)
    ensures Distinct(Blocks(p, d))
    ensures forall a :: a in Blocks(p, d) <==> IsBlock(a, p, d)
    ensures forall a :: a in Blocks(p, d) ==> PageOf(a) == p
    ensures FreeIn(Blocks(p, d), p, d) == UpTo(BlocksPerArena(d))
    ensures forall q :: q != p ==> FreeIn(Blocks(p, d), q, d) == {}
  {
    var b := Blocks(p, d);
    forall i, j | 0 <= i < j < |b| ensures b[i] != b[j] { BlocksApart(p, d, i, j); }
    forall i | 0 <= i < |b| ensures PageOf(b[i]) == p { BlockInPage(p, d, i); }
    forall q, i | q != p && i in FreeIn(b, q, d) ensures false { BlockInPage(q, d, i); }
    forall i | 0 <= i < BlocksPerArena(d) ensures Addr(p, d, i) in b { assert b[i] == Addr(p, d, i); }
  }

  /** S with the page P made an arena of descriptor D. */
  ghost function WithArena(s: State, p: nat, d: nat): State
    requires d < |s.lists| && s.base <= p && p - s.base < |s.used|
  {
    s.(used := SetRun(s.used, p - s.base, 1, true), held := PagesHeld(s.held, p, 1),
       arenas := s.arenas[p := Arena(Some(d), BlocksPerArena(d))], lists := s.lists[d := Blocks(p, d)])
  }

  lemma BlocksOnList(p: nat, d: nat, arenas: Arenas)
    requires p in arenas && arenas[p] == Arena(Some(d), BlocksPerArena(d))
    ensures ListOk(Blocks(p, d), d, arenas) && CountOk(Blocks(p, d), p, arenas[p])
  {
    BlocksDistinct(p, d);
  }

  lemma NewArenaPages(s: State, p: nat, d: nat)
    requires PagesOk(s.base, s.used, s.held, s.arenas) && d < |s.lists|
    requires s.base <= p && p - s.base < |s.used| && !s.used[p - s.base]
    ensures p !in s.arenas
    ensures var t := WithArena(s, p, d); PagesOk(t.base, t.used, t.held, t.arenas)
  {
    hide PagesOk, SetRun, PagesHeld, Blocks, BlocksPerArena;
    PagesTaken(s.base, s.used, s.held, s.arenas, p, Arena(Some(d), BlocksPerArena(d)));
  }

  lemma NewArena(s: State, p: nat, d: nat)
    requires Ok(s, {}) && d < DESC_CNT && s.lists[d] == []
    requires s.base <= p && p - s.base < |s.used| && !s.used[p - s.base]
    ensures Ok(WithArena(s, p, d), {p})
  {
    hide PagesOk, ListOk, CountOk, Blocks, BlocksPerArena, IsBlock, FreeIn, UpTo, PageOf, LiveOk, SetRun, Distinct,
         PagesHeld;
    var t := WithArena(s, p, d);
    NewArenaPages(s, p, d);
    BlocksDistinct(p, d);
    BlocksOnList(p, d, t.arenas);
    NoLiveElsewhere(s, p);
    ListsKept(s.lists, t.lists[d], d, s.arenas, t.arenas);
    NewCounts(s.lists, t.lists[d], d, s.arenas, t.arenas, p);
    LiveKept(s.live, s.live, s.lists, t.lists[d], d, s.arenas, t.arenas, p);
  }

  lemma NoLiveElsewhere(s: State, p: nat)
    requires ListsOk(s.lists, s.arenas) && LiveOk(s.live, s.lists, s.arenas) && p !in s.arenas
    ensures forall x :: x in s.live ==> PageOf(x) != p
  {
  }

  /** The counts, when an empty list gets the blocks of a new arena. */
  lemma NewCounts(lists: seq<seq<nat>>, list': seq<nat>, d: nat, arenas: Arenas, arenas': Arenas, p: nat)
    requires |lists| == DESC_CNT && CountsOk(lists, arenas) && d < DESC_CNT && lists[d] == []
    requires forall q :: q in arenas' && q != p ==> q in arenas && arenas'[q] == arenas[q]
    requires p in arenas' ==> arenas'[p].desc == Some(d) && CountOk(list', p, arenas'[p])
    requires forall q :: q != p ==> FreeIn(list', q, d) == {}
    ensures CountsOk(lists[d := list'], arenas')
  {
    assert forall q :: FreeIn([], q, d) == {};
    hide FreeIn;
    CountsKept(lists, list', d, arenas, arenas', p);
  }

  /** S with the first block of list D handed out, for SIZE bytes. */
  ghost function Taken(s: State, d: nat, size: nat): State
    requires d < |s.lists| && s.lists[d] != [] && PageOf(s.lists[d][0]) in s.arenas
    requires s.arenas[PageOf(s.lists[d][0])].freeCnt > 0
  {
    var a := s.lists[d][0];
    var arena := s.arenas[PageOf(a)];
    s.(lists := s.lists[d := s.lists[d][1..]],
       arenas := s.arenas[PageOf(a) := arena.(freeCnt := arena.freeCnt - 1)],
       live := s.live[a := size])
  }

  lemma FirstOfList(list: seq<nat>, d: nat, arenas: Arenas)
    requires ListOk(list, d, arenas) && list != []
    ensures var p := PageOf(list[0]);
            && p in arenas && arenas[p].desc == Some(d) && IsBlock(list[0], p, d)
            && ListOk(list[1..], d, arenas)
            && forall x :: x in list[1..] <==> x in list && x != list[0]
  {
    assert list == [list[0]] + list[1..];
  }

  lemma BlockOnList(list: seq<nat>, p: nat, d: nat, a: nat)
    requires IsBlock(a, p, d) && a in list
    ensures FreeIn(list, p, d) != {}
  {
    var i :| 0 <= i < BlocksPerArena(d) && a == Addr(p, d, i);
    assert i in FreeIn(list, p, d);
  }

  /** There is a block to hand out, and it counts as free in its arena. */
  lemma CanTake(s: State, d: nat, except: set<nat>)
    requires Ok(s, except) && d < DESC_CNT && s.lists[d] != []
    ensures var a := s.lists[d][0];
            && a !in s.live && PageOf(a) in s.arenas && s.arenas[PageOf(a)].freeCnt > 0
            && s.arenas[PageOf(a)].desc == Some(d)
  {
    var a := s.lists[d][0];
    assert ListOk(s.lists[d], d, s.arenas);
    FirstOfList(s.lists[d], d, s.arenas);
    BlockOnList(s.lists[d], PageOf(a), d, a);
    assert CountOk(s.lists[d], PageOf(a), s.arenas[PageOf(a)]);
    assert forall x :: x in s.live ==> LiveBlock(x, s.live[x], s.arenas[PageOf(x)], s.lists);
  }

  /** Arenas that differ in free_cnt only have the same pages. */
  lemma RecountPages(base: nat, used: seq<bool>, held: map<nat, nat>, arenas: Arenas, p: nat, n: nat)
    requires PagesOk(base, used, held, arenas) && p in arenas && arenas[p].desc.Some?
    ensures PagesOk(base, used, held, arenas[p := arenas[p].(freeCnt := n)])
  {
    hide Covers, UsedPage;
    var arenas' := arenas[p := arenas[p].(freeCnt := n)];
    assert forall x :: x in arenas' ==> x in arenas && Span(arenas'[x]) == Span(arenas[x]);
    forall q | q in held ensures OnArena(held, arenas', q) { assert OnArena(held, arenas, q); }
  }

  /** CountChange, for a block whose index is not known. */
  lemma OneBlockLess(with: seq<nat>, without: seq<nat>, p: nat, d: nat, a: nat)
    requires IsBlock(a, p, d) && a in with && a !in without
    requires forall x :: x in without <==> x in with && x != a
    ensures |FreeIn(with, p, d)| == |FreeIn(without, p, d)| + 1
    ensures forall q :: q != p ==> FreeIn(with, q, d) == FreeIn(without, q, d)
  {
    hide FreeIn;
    var i :| 0 <= i < BlocksPerArena(d) && a == Addr(p, d, i);
    CountChange(with, without, p, d, i);
  }

  lemma TakenLists(s: State, d: nat, except: set<nat>)
    requires ListsOk(s.lists, s.arenas) && CountsOk(s.lists, s.arenas) && d < DESC_CNT && s.lists[d] != []
    requires InUse(s.arenas, except) && forall p :: p in except ==> p == PageOf(s.lists[d][0])
    requires PageOf(s.lists[d][0]) in s.arenas && s.arenas[PageOf(s.lists[d][0])].freeCnt > 0
    ensures var t := Taken(s, d, 1);
            ListsOk(t.lists, t.arenas) && CountsOk(t.lists, t.arenas) && InUse(t.arenas, {})
  {
    hide BlocksPerArena, Addr, IsBlock, FreeIn, PageOf, BlockSize, Distinct, ListOk;
    var list, a := s.lists[d], s.lists[d][0];
    var p, t := PageOf(a), Taken(s, d, 1);
    FirstOfList(list, d, s.arenas);
    OneBlockLess(list, list[1..], p, d, a);
    AllFree(list, p, d);
    assert CountOk(list, p, s.arenas[p]);
    ListKept(list[1..], d, s.arenas, t.arenas);
    ListsKept(s.lists, list[1..], d, s.arenas, t.arenas);
    CountsKept(s.lists, list[1..], d, s.arenas, t.arenas, p);
  }

  lemma TakenPages(s: State, d: nat)
    requires PagesOk(s.base, s.used, s.held, s.arenas) && ListsOk(s.lists, s.arenas)
    requires d < DESC_CNT && s.lists[d] != []
    requires PageOf(s.lists[d][0]) in s.arenas && s.arenas[PageOf(s.lists[d][0])].freeCnt > 0
    ensures var t := Taken(s, d, 1); PagesOk(t.base, t.used, t.held, t.arenas)
  {
    hide PagesOk, PageOf;
    assert ListOk(s.lists[d], d, s.arenas);
    var p := PageOf(s.lists[d][0]);
    RecountPages(s.base, s.used, s.held, s.arenas, p, s.arenas[p].freeCnt - 1);
  }

  lemma TakenLive(s: State, d: nat, size: nat)
    requires ListsOk(s.lists, s.arenas) && LiveOk(s.live, s.lists, s.arenas)
    requires d < DESC_CNT && s.lists[d] != [] && 0 < size <= BlockSize(d)
    requires PageOf(s.lists[d][0]) in s.arenas && s.arenas[PageOf(s.lists[d][0])].freeCnt > 0
    ensures var t := Taken(s, d, size); LiveOk(t.live, t.lists, t.arenas)
  {
    hide BlocksPerArena, Addr, IsBlock, PageOf, LiveOk, BlockSize, ListOk;
    var list, a := s.lists[d], s.lists[d][0];
    var p, t := PageOf(a), Taken(s, d, size);
    FirstOfList(list, d, s.arenas);
    OldLive(s, d, p);
    assert a !in list[1..];
    LiveKept(s.live, t.live, s.lists, list[1..], d, s.arenas, t.arenas, p);
  }

  /** Handing out the first block of a free list. */
  lemma TakeBlock(s: State, d: nat, size: nat, except: set<nat>)
    requires Ok(s, except) && d < DESC_CNT && s.lists[d] != [] && 0 < size <= BlockSize(d)
    requires forall p :: p in except ==> p == PageOf(s.lists[d][0])
    ensures PageOf(s.lists[d][0]) in s.arenas && s.arenas[PageOf(s.lists[d][0])].freeCnt > 0
    ensures s.lists[d][0] !in s.live && s.arenas[PageOf(s.lists[d][0])].desc == Some(d)
    ensures Ok(Taken(s, d, size), {})
  {
    CanTake(s, d, except);
    hide PagesOk, PageOf, LiveOk, BlockSize, ListOk, CountsOk, InUse;
    TakenPages(s, d);
    TakenLists(s, d, except);
    TakenLive(s, d, size);
  }

  /** The live blocks of an arena, as LiveOk has them. */
  lemma OldLive(s: State, d: nat, p: nat)
    requires |s.lists| == DESC_CNT && LiveOk(s.live, s.lists, s.arenas)
    requires d < DESC_CNT && p in s.arenas && s.arenas[p].desc == Some(d)
    ensures forall x :: x in s.live && PageOf(x) == p ==>
              IsBlock(x, p, d) && x !in s.lists[d] && 0 < s.live[x] <= BlockSize(d)
    ensures forall x :: IsBlock(x, p, d) && x !in s.lists[d] ==> x in s.live
  {
    forall x | x in s.live && PageOf(x) == p
      ensures IsBlock(x, p, d) && x !in s.lists[d] && 0 < s.live[x] <= BlockSize(d)
    {
      assert LiveBlock(x, s.live[x], s.arenas[p], s.lists);
    }
    forall x | IsBlock(x, p, d) && x !in s.lists[d] ensures x in s.live {
      var i: nat :| i < BlocksPerArena(d) && x == Addr(p, d, i);
      assert BlockUsed(p, d, i, s.arenas[p], s.lists);
    }
  }

  /** S with the live block A of descriptor D back on its list. */
  ghost function Given(s: State, d: nat, a: nat): State
    requires d < |s.lists| && PageOf(a) in s.arenas
  {
    var arena := s.arenas[PageOf(a)];
    s.(lists := s.lists[d := [a] + s.lists[d]],
       arenas := s.arenas[PageOf(a) := arena.(freeCnt := arena.freeCnt + 1)],
       live := s.live - {a})
  }

  lemma Pushed(list: seq<nat>, a: nat, d: nat, arenas: Arenas)
    requires ListOk(list, d, arenas) && a !in list
    requires PageOf(a) in arenas && arenas[PageOf(a)].desc == Some(d) && IsBlock(a, PageOf(a), d)
    ensures ListOk([a] + list, d, arenas)
    ensures forall x :: x in list <==> x in [a] + list && x != a
  {
  }

  /** Putting a live block back on its list. */
  lemma GiveBlock(s: State, d: nat, a: nat)
    requires Ok(s, {}) && a in s.live && d < DESC_CNT
    requires PageOf(a) in s.arenas && s.arenas[PageOf(a)].desc == Some(d)
    ensures Ok(Given(s, d, a), {PageOf(a)})
    ensures s.arenas[PageOf(a)].freeCnt < BlocksPerArena(d)
  {
    hide PagesOk, BlocksPerArena, Addr, IsBlock, FreeIn, PageOf, LiveOk, BlockSize, Distinct, ListOk;
    var p, t := PageOf(a), Given(s, d, a);
    var list, list' := s.lists[d], [a] + s.lists[d];
    OldLive(s, d, p);
    assert ListOk(list, d, s.arenas);
    Pushed(list, a, d, s.arenas);
    OneBlockLess(list', list, p, d, a);
    assert CountOk(list, p, s.arenas[p]);
    RecountPages(s.base, s.used, s.held, s.arenas, p, s.arenas[p].freeCnt + 1);
    ListKept(list', d, s.arenas, t.arenas);
    ListsKept(s.lists, list', d, s.arenas, t.arenas);
    CountsKept(s.lists, list', d, s.arenas, t.arenas, p);
    LiveKept(s.live, t.live, s.lists, list', d, s.arenas, t.arenas, p);
  }

  /** LIST without the blocks of the arena in page P. */
  function Without(list: seq<nat>, p: nat): (w: seq<nat>)
    ensures forall x :: x in w <==> x in list && PageOf(x) != p
  {
    if list == [] then []
    else if PageOf(list[0]) == p then Without(list[1..], p)
    else [list[0]] + Without(list[1..], p)
  }

  lemma {:induction false} WithoutDistinct(list: seq<nat>, p: nat)
    requires Distinct(list)
    ensures Distinct(Without(list, p))
  {
    if list != [] {
      WithoutDistinct(list[1..], p);
      assert list[0] !in list[1..];
    }
  }

  /** S without the arena in page P. */
  ghost function Dropped(s: State, d: nat, p: nat): State
    requires d < |s.lists| && s.base <= p && p - s.base < |s.used|
  {
    s.(used := SetRun(s.used, p - s.base, 1, false), held := s.held - PageRange(p, 1),
       arenas := s.arenas - {p}, lists := s.lists[d := Without(s.lists[d], p)])
  }

  lemma WithoutOk(list: seq<nat>, d: nat, arenas: Arenas, p: nat)
    requires ListOk(list, d, arenas)
    ensures ListOk(Without(list, p), d, arenas - {p})
    ensures forall q :: q != p ==> FreeIn(Without(list, p), q, d) == FreeIn(list, q, d)
  {
    hide Without, IsBlock;
    WithoutDistinct(list, p);
    forall q | q != p ensures FreeIn(Without(list, p), q, d) == FreeIn(list, q, d) {
      forall i | 0 <= i < BlocksPerArena(d) ensures PageOf(Addr(q, d, i)) == q { BlockInPage(q, d, i); }
    }
  }

  lemma DropLists(s: State, d: nat, p: nat)
    requires ListsOk(s.lists, s.arenas) && CountsOk(s.lists, s.arenas) && d < DESC_CNT
    requires p in s.arenas && s.arenas[p].desc == Some(d)
    ensures ListsOk(s.lists[d := Without(s.lists[d], p)], s.arenas - {p})
    ensures CountsOk(s.lists[d := Without(s.lists[d], p)], s.arenas - {p})
  {
    hide ListOk, FreeIn, Without, IsBlock;
    var list, list', arenas' := s.lists[d], Without(s.lists[d], p), s.arenas - {p};
    assert ListOk(list, d, s.arenas);
    WithoutOk(list, d, s.arenas, p);
    ListsKept(s.lists, list', d, s.arenas, arenas');
    CountsKept(s.lists, list', d, s.arenas, arenas', p);
  }

  lemma NoneLive(s: State, d: nat, p: nat)
    requires forall x :: x in s.live && PageOf(x) == p ==> d < |s.lists| && IsBlock(x, p, d) && x !in s.lists[d]
    requires d < |s.lists| && forall i :: 0 <= i < BlocksPerArena(d) ==> Addr(p, d, i) in s.lists[d]
    ensures forall x :: x in s.live ==> PageOf(x) != p
  {
  }

  /** An arena whose blocks are all free gives its page back. */
  lemma DropArena(s: State, d: nat, p: nat)
    requires Ok(s, {p}) && d < DESC_CNT && p in s.arenas && s.arenas[p].desc == Some(d)
    requires s.arenas[p].freeCnt >= BlocksPerArena(d)
    ensures s.arenas[p].freeCnt == BlocksPerArena(d)
    ensures forall i :: 0 <= i < BlocksPerArena(d) ==> Addr(p, d, i) in s.lists[d]
    ensures s.base <= p && p - s.base < |s.used| && s.used[p - s.base]
    ensures Ok(Dropped(s, d, p), {})
  {
    hide PagesOk, BlocksPerArena, Addr, IsBlock, FreeIn, PageOf, LiveOk, ListOk, SetRun, Without, PageRange;
    var list := s.lists[d];
    assert CountOk(list, p, s.arenas[p]);
    AllFree(list, p, d);
    PagesGiven(s.base, s.used, s.held, s.arenas, p);
    OldLive(s, d, p);
    NoneLive(s, d, p);
    DropLists(s, d, p);
    LiveKept(s.live, s.live, s.lists, Without(list, p), d, s.arenas, s.arenas - {p}, p);
  }

  // ----- Big blocks -----

  /** DIV_ROUND_UP (size + sizeof (struct arena), PGSIZE), as size_t computes it. */
  function PageCount(size: nat): nat {
    ((size + HEADER) % SIZE_LIMIT + PGSIZE - 1) % SIZE_LIMIT / PGSIZE
  }

  /** A big block is large enough exactly when the sum does not wrap around:
      beyond that, every request gets one page.  In between, no pages at all are
      asked for, and the request fails. */
  lemma BigBlockFits(size: nat)
    requires 0 < size < SIZE_LIMIT
    ensures PageCount(size) == 0 <==> WRAP - PGSIZE < size <= WRAP
    ensures PageCount(size) > 0 ==> (size <= Capacity(Arena(None, PageCount(size))) <==> size < WRAP)
    ensures size > WRAP ==> PageCount(size) == 1
    ensures 0 < PageCount(size) && size < WRAP ==> Capacity(Arena(None, PageCount(size) - 1)) < size
  {
    var x := (size + HEADER) % SIZE_LIMIT;
    if size < WRAP {
      assert x == size + HEADER;
      if x <= SIZE_LIMIT - PGSIZE { RoundUp(x); }
    } else {
      assert x == size + HEADER - SIZE_LIMIT;
    }
  }

  lemma RoundUp(x: nat)
    requires 0 < x <= SIZE_LIMIT - PGSIZE
    ensures var n := (x + PGSIZE - 1) % SIZE_LIMIT / PGSIZE; PGSIZE * (n - 1) < x <= PGSIZE * n
  {
  }

  /** S with the N pages from P on made a big block for SIZE bytes. */
  ghost function WithBig(s: State, p: nat, n: nat, size: nat): State
    requires s.base <= p && p - s.base + n <= |s.used|
  {
    s.(used := SetRun(s.used, p - s.base, n, true), held := PagesHeld(s.held, p, n),
       arenas := s.arenas[p := Arena(None, n)], live := s.live[BigAddr(p) := size])
  }

  /** The arenas agree but for page P, where there is no arena of blocks. */
  ghost predicate AgreeBut(arenas: Arenas, arenas': Arenas, p: nat) {
    && (forall q :: q in arenas && q != p ==> q in arenas' && arenas'[q] == arenas[q])
    && (forall q :: q in arenas' && q != p ==> q in arenas)
    && (p in arenas ==> arenas[p].desc.None?)
    && (p in arenas' ==> arenas'[p].desc.None?)
  }

  lemma BigLists(lists: seq<seq<nat>>, arenas: Arenas, arenas': Arenas, p: nat)
    requires ListsOk(lists, arenas) && CountsOk(lists, arenas) && InUse(arenas, {}) && AgreeBut(arenas, arenas', p)
    ensures ListsOk(lists, arenas') && CountsOk(lists, arenas') && InUse(arenas', {})
  {
    hide ListOk, CountOk, BlocksPerArena;
    forall d | 0 <= d < DESC_CNT ensures ListOk(lists[d], d, arenas') { ListKept(lists[d], d, arenas, arenas'); }
  }

  lemma BigLive(live: map<nat, nat>, live': map<nat, nat>, lists: seq<seq<nat>>, arenas: Arenas, arenas': Arenas, p: nat)
    requires |lists| == DESC_CNT && LiveOk(live, lists, arenas) && AgreeBut(arenas, arenas', p)
    requires forall x :: PageOf(x) != p ==> (x in live' <==> x in live) && (x in live ==> live'[x] == live[x])
    requires forall x :: x in live' && PageOf(x) == p ==> p in arenas' && LiveBlock(x, live'[x], arenas'[p], lists)
    requires p in arenas' ==> BigAddr(p) in live'
    ensures LiveOk(live', lists, arenas')
  {
    forall q, d: nat, i: nat | q in arenas' && BlockUsed(q, d, i, arenas'[q], lists) ensures Addr(q, d, i) in live' {
      BlockInPage(q, d, i);
      assert q != p;
      assert BlockUsed(q, d, i, arenas[q], lists);
    }
    forall q | q in arenas' && arenas'[q].desc.None? ensures BigAddr(q) in live' { BigInPage(q); }
    hide LiveBlock, BlockUsed, PageOf, BigAddr, Addr;
    forall x | x in live' ensures PageOf(x) in arenas' && LiveBlock(x, live'[x], arenas'[PageOf(x)], lists) {
      if PageOf(x) != p { assert LiveBlock(x, live[x], arenas[PageOf(x)], lists); }
    }
  }

  lemma BigIsLive(p: nat, n: nat, size: nat, lists: seq<seq<nat>>)
    requires |lists| == DESC_CNT && 0 < size && (size < WRAP ==> size <= Capacity(Arena(None, n)))
    ensures PageOf(BigAddr(p)) == p && LiveBlock(BigAddr(p), size, Arena(None, n), lists)
  {
  }

  lemma NewBig(s: State, p: nat, n: nat, size: nat)
    requires Ok(s, {}) && n > 0 && size > 0 && s.base <= p && RunAt(s.used, p - s.base, n, false)
    requires size < WRAP ==> size <= Capacity(Arena(None, n))
    ensures p !in s.arenas && BigAddr(p) !in s.live
    ensures Ok(WithBig(s, p, n, size), {})
  {
    hide PagesOk, RunAt, SetRun, PagesHeld, PageOf, BigAddr, LiveBlock, ListsOk, CountsOk, LiveOk, InUse, Capacity;
    RunInside(s.used, p - s.base, n, false);
    BigIsLive(p, n, size, s.lists);
    PagesTaken(s.base, s.used, s.held, s.arenas, p, Arena(None, n));
    NoLiveElsewhere(s, p);
    BigLists(s.lists, s.arenas, s.arenas[p := Arena(None, n)], p);
    BigLive(s.live, s.live[BigAddr(p) := size], s.lists, s.arenas, s.arenas[p := Arena(None, n)], p);
  }

  lemma RunInside(bits: seq<bool>, i: nat, cnt: nat, value: bool)
    requires RunAt(bits, i, cnt, value)
    ensures i + cnt <= |bits|
  {
  }

  /** S without the big block in page P. */
  ghost function WithoutBig(s: State, p: nat): State
    requires p in s.arenas && s.base <= p && p - s.base + s.arenas[p].freeCnt <= |s.used|
  {
    var n := s.arenas[p].freeCnt;
    s.(used := SetRun(s.used, p - s.base, n, false), held := s.held - PageRange(p, n),
       arenas := s.arenas - {p}, live := s.live - {BigAddr(p)})
  }

  lemma DropBig(s: State, a: nat)
    requires Ok(s, {}) && a in s.live && PageOf(a) in s.arenas && s.arenas[PageOf(a)].desc.None?
    ensures a == BigAddr(PageOf(a))
    ensures s.base <= PageOf(a) && RunAt(s.used, PageOf(a) - s.base, s.arenas[PageOf(a)].freeCnt, true)
    ensures Ok(WithoutBig(s, PageOf(a)), {})
  {
    hide PagesOk, RunAt, SetRun, PageRange, PageOf, BigAddr, LiveBlock, ListsOk, CountsOk, LiveOk, InUse;
    var p := PageOf(a);
    PagesGiven(s.base, s.used, s.held, s.arenas, p);
    RunInside(s.used, p - s.base, s.arenas[p].freeCnt, true);
    OnlyBig(s, p);
    BigInPage(p);
    BigLists(s.lists, s.arenas, s.arenas - {p}, p);
    BigLive(s.live, s.live - {BigAddr(p)}, s.lists, s.arenas, s.arenas - {p}, p);
  }

  lemma OnlyBig(s: State, p: nat)
    requires |s.lists| == DESC_CNT && LiveOk(s.live, s.lists, s.arenas) && p in s.arenas && s.arenas[p].desc.None?
    ensures forall x :: x in s.live && PageOf(x) == p ==> x == BigAddr(p)
  {
    forall x | x in s.live && PageOf(x) == p ensures x == BigAddr(p) {
      assert LiveBlock(x, s.live[x], s.arenas[p], s.lists);
    }
  }

  // ----- What the pages are held for -----

  /** An arena with fewer free blocks than blocks has a live one. */
  lemma ArenaInUse(s: State, p: nat)
    requires Ok(s, {}) && p in s.arenas
    ensures exists a :: a in s.live && PageOf(a) == p
  {
    match s.arenas[p].desc
    case None =>
      BigInPage(p);
      assert BigAddr(p) in s.live;
    case Some(d) =>
      assert CountOk(s.lists[d], p, s.arenas[p]);
      var i: nat := SomeUsed(s.lists[d], p, d);
      BlockInPage(p, d, i);
      assert BlockUsed(p, d, i, s.arenas[p], s.lists);
      assert Addr(p, d, i) in s.live;
  }

  lemma NoneUsed(list: seq<nat>, p: nat, d: nat)
    requires forall i :: 0 <= i < BlocksPerArena(d) ==> Addr(p, d, i) in list
    ensures |FreeIn(list, p, d)| == BlocksPerArena(d)
  {
    hide Addr, BlocksPerArena;
    assert FreeIn(list, p, d) == UpTo(BlocksPerArena(d));
  }

  lemma SomeUsed(list: seq<nat>, p: nat, d: nat) returns (i: nat)
    requires |FreeIn(list, p, d)| < BlocksPerArena(d)
    ensures i < BlocksPerArena(d) && Addr(p, d, i) !in list
  {
    hide Addr, BlocksPerArena;
    if forall i :: 0 <= i < BlocksPerArena(d) ==> Addr(p, d, i) in list {
      NoneUsed(list, p, d);
      assert false;
    }
    i :| 0 <= i < BlocksPerArena(d) && Addr(p, d, i) !in list;
  }

  ghost predicate PageFor(a: nat, q: nat, arenas: Arenas) {
    PageOf(a) in arenas && PageOf(a) <= q < PageOf(a) + Span(arenas[PageOf(a)])
  }

  /** Between calls, the pages held are those of arenas with a live block and
      those of big blocks, and no others. */
  lemma HeldForLive(s: State, q: nat)
    requires Ok(s, {})
    ensures q in s.held <==> exists a :: a in s.live && PageFor(a, q, s.arenas)
  {
    if q in s.held {
      assert OnArena(s.held, s.arenas, q);
      ArenaInUse(s, s.held[q]);
      var a :| a in s.live && PageOf(a) == s.held[q];
      assert PageFor(a, q, s.arenas);
    }
    if exists a :: a in s.live && PageFor(a, q, s.arenas) {
      var a :| a in s.live && PageFor(a, q, s.arenas);
      assert Covers(s.held, PageOf(a), Span(s.arenas[PageOf(a)]));
    }
  }

  // ----- Taking every block of an arena off its list -----

  function Removed(list: seq<nat>, a: nat): seq<nat> {
    if list == [] then [] else if list[0] == a then list[1..] else [list[0]] + Removed(list[1..], a)
  }

  ghost function Minus(list: seq<nat>, gone: set<nat>): (m: seq<nat>)
    ensures forall x :: x in m <==> x in list && x !in gone
  {
    if list == [] then []
    else if list[0] in gone then Minus(list[1..], gone)
    else [list[0]] + Minus(list[1..], gone)
  }

  lemma {:induction false} RemovedMinus(list: seq<nat>, gone: set<nat>, a: nat)
    requires Distinct(list) && a !in gone
    ensures Removed(Minus(list, gone), a) == Minus(list, gone + {a})
  {
    if list != [] {
      var rest := list[1..];
      assert list[0] !in rest;
      RemovedMinus(rest, gone, a);
      var m := Minus(list, gone);
      if list[0] == a {
        assert m[1..] == Minus(rest, gone);
        MinusAbsent(rest, gone, a);
      } else if list[0] !in gone {
        assert m[1..] == Minus(rest, gone);
      }
    }
  }

  lemma {:induction false} MinusAbsent(list: seq<nat>, gone: set<nat>, a: nat)
    requires a !in list
    ensures Minus(list, gone + {a}) == Minus(list, gone)
  {
    if list != [] { MinusAbsent(list[1..], gone, a); }
  }

  /** The first N blocks of an arena. */
  ghost function FirstBlocks(p: nat, d: nat, n: nat): (b: set<nat>)
    ensures forall x :: x in b <==> exists i :: 0 <= i < n && x == Addr(p, d, i)
  {
    if n == 0 then {} else FirstBlocks(p, d, n - 1) + {Addr(p, d, n - 1)}
  }

  lemma {:induction false} MinusIsWithout(list: seq<nat>, gone: set<nat>, p: nat)
    requires forall x :: x in list ==> (x in gone <==> PageOf(x) == p)
    ensures Minus(list, gone) == Without(list, p)
  {
    if list != [] { MinusIsWithout(list[1..], gone, p); }
  }
}
