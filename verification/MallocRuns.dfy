/** What malloc and free do to the allocator's state, as functions, and what
    holds in every run of them (threads/malloc.c). */
module MallocRuns {
  import opened BitRuns
  import opened Options
  import opened MallocLayout
  import opened Pages
  import opened Nonlinear

  /** The smallest descriptor from D on whose blocks hold SIZE bytes, or DESC_CNT. */
  function DescFrom(size: nat, d: nat): (r: nat)
    requires d <= DESC_CNT
    ensures d <= r <= DESC_CNT
    ensures r < DESC_CNT ==> size <= BlockSize(r)
    ensures forall e :: d <= e < r ==> BlockSize(e) < size
    decreases DESC_CNT - d
  {
    if d == DESC_CNT || size <= BlockSize(d) then d else DescFrom(size, d + 1)
  }

  /** Block sizes end at 1 kB. */
  lemma NoDescFor(size: nat)
    requires DescFrom(size, 0) == DESC_CNT
    ensures size > 1024
  {
    BlockSizes();
    assert BlockSize(6) < size;
  }

  // ----- The new state and the block handed out, or 0 -----

  lemma ArenaTake(s: State, p: nat, d: nat, size: nat)
    requires Ok(s, {}) && d < DESC_CNT && s.lists[d] == [] && 0 < size <= BlockSize(d)
    requires s.base <= p && p - s.base < |s.used| && !s.used[p - s.base]
    ensures var t := WithArena(s, p, d);
            && t.lists[d] != [] && t.lists[d][0] == Addr(p, d, 0) && PageOf(t.lists[d][0]) == p && p !in s.arenas
            && d < |t.lists| && p in t.arenas && t.arenas[p].freeCnt > 0 && Ok(Taken(t, d, size), {}) && Addr(p, d, 0) !in s.live
  {
    hide PagesOk, ListsOk, CountsOk, LiveOk, InUse, PageOf, Addr;
    var t := WithArena(s, p, d);
    NewArena(s, p, d);
    FirstBlock(s, p, d);
    TakeBlock(t, d, size, {p});
  }

  lemma FirstBlock(s: State, p: nat, d: nat)
    requires Ok(s, {}) && d < DESC_CNT && s.base <= p && p - s.base < |s.used| && !s.used[p - s.base]
    ensures var t := WithArena(s, p, d);
            && t.lists[d] != [] && t.lists[d][0] == Addr(p, d, 0) && PageOf(t.lists[d][0]) == p
            && d < |t.lists| && t.live == s.live && p !in s.arenas
  {
    EnoughBlocks(d);
    BlockInPage(p, d, 0);
    NewArenaPages(s, p, d);
  }

  lemma EnoughBlocks(d: nat)
    requires d < DESC_CNT
    ensures BlocksPerArena(d) >= 3
  {
    BlockSizes();
  }

  ghost function AfterSmall(s: State, d: nat, size: nat): (r: (State, nat))
    requires Ok(s, {}) && d < DESC_CNT && 0 < size <= BlockSize(d)
    ensures Ok(r.0, {})
  {
    hide PagesOk, ListsOk, CountsOk, LiveOk, InUse, PageOf, Addr, Scan, RunAt, BlockSize, WithArena, Taken;
    if s.lists[d] != [] then
      TakeBlock(s, d, size, {});
      (Taken(s, d, size), s.lists[d][0])
    else
      match Scan(s.used, 0, 1, false)
      case None => (s, 0)
      case Some(i) =>
        FreePage(s.used, i);
        ArenaTake(s, s.base + i, d, size);
        (Taken(WithArena(s, s.base + i, d), d, size), Addr(s.base + i, d, 0))
  }

  lemma FreePage(used: seq<bool>, i: nat)
    requires RunAt(used, i, 1, false)
    ensures i < |used| && !used[i]
  {
  }

  ghost function AfterBig(s: State, size: nat): (r: (State, nat))
    requires Ok(s, {}) && 0 < size < SIZE_LIMIT
    ensures Ok(r.0, {})
  {
    hide PagesOk, ListsOk, CountsOk, LiveOk, InUse, PageOf, Addr, BigAddr, Scan, RunAt, WithBig, PageCount, Capacity;
    var n := PageCount(size);
    if n == 0 then (s, 0)
    else
      match Scan(s.used, 0, n, false)
      case None => (s, 0)
      case Some(i) =>
        BigBlockFits(size);
        RunInside(s.used, i, n, false);
        NewBig(s, s.base + i, n, size);
        (WithBig(s, s.base + i, n, size), BigAddr(s.base + i))
  }

  /** malloc. */
  ghost function AfterMalloc(s: State, size: nat): (r: (State, nat))
    requires Ok(s, {}) && size < SIZE_LIMIT
    ensures Ok(r.0, {})
  {
    hide PagesOk, ListsOk, CountsOk, LiveOk, InUse, BlockSize;
    var d := DescFrom(size, 0);
    if size == 0 then (s, 0)
    else if d < DESC_CNT then AfterSmall(s, d, size)
    else AfterBig(s, size)
  }

  /** free. */
  ghost function AfterFree(s: State, a: nat): (t: State)
    requires Ok(s, {}) && a in s.live
    ensures Ok(t, {}) && t.live == s.live - {a}
  {
    hide PagesOk, ListsOk, CountsOk, LiveOk, InUse, PageOf, Addr, BigAddr, RunAt, BlocksPerArena, Without, SetRun;
    var p := PageOf(a);
    LiveHasArena(s, a);
    match s.arenas[p].desc
    case None =>
      DropBig(s, a);
      RunInside(s.used, p - s.base, s.arenas[p].freeCnt, true);
      WithoutBig(s, p)
    case Some(d) =>
      GiveBlock(s, d, a);
      var t := Given(s, d, a);
      if t.arenas[p].freeCnt >= BlocksPerArena(d) then
        DropArena(t, d, p);
        Dropped(t, d, p)
      else
        NoExcept(t, p);
        t
  }

  lemma LiveHasArena(s: State, a: nat)
    requires Ok(s, {}) && a in s.live
    ensures PageOf(a) in s.arenas
    ensures s.arenas[PageOf(a)].desc.Some? ==> s.arenas[PageOf(a)].desc.value < DESC_CNT
  {
  }

  // ----- What the caller of malloc and free gets -----

  /** The size of the block at A, whatever was asked for. */
  ghost function BlockBytes(s: State, a: nat): int
    requires Ok(s, {}) && a in s.live
  {
    LiveHasArena(s, a);
    Capacity(s.arenas[PageOf(a)])
  }

  /** The blocks of S but those in BUT are live in T, with the sizes they had. */
  ghost predicate Kept(s: State, t: State, but: set<nat>)
    requires Ok(s, {}) && Ok(t, {})
  {
    forall a :: a in s.live && a !in but ==> a in t.live && t.live[a] == s.live[a] && BlockBytes(t, a) == BlockBytes(s, a)
  }

  lemma NoExcept(t: State, p: nat)
    requires Ok(t, {p})
    requires p in t.arenas && t.arenas[p].desc.Some? && t.arenas[p].freeCnt < BlocksPerArena(t.arenas[p].desc.value)
    ensures Ok(t, {})
  {
    hide PagesOk, ListsOk, CountsOk, LiveOk, BlocksPerArena;
  }

  /** No pages for a request of SIZE bytes: nothing on the free list of its
      descriptor and no free page, or no run of pages for a big block. */
  ghost predicate Fails(s: State, size: nat)
    requires Ok(s, {})
  {
    var d := DescFrom(size, 0);
    size == 0
    || (if d < DESC_CNT then s.lists[d] == [] && Scan(s.used, 0, 1, false).None?
        else PageCount(size) == 0 || Scan(s.used, 0, PageCount(size), false).None?)
  }

  lemma BlockNotNull(list: seq<nat>, d: nat, arenas: Arenas)
    requires ListOk(list, d, arenas) && list != []
    ensures list[0] != 0
  {
    assert list[0] in list && IsBlock(list[0], PageOf(list[0]), d);
    var i: nat :| i < BlocksPerArena(d) && list[0] == Addr(PageOf(list[0]), d, i);
    BlockInPage(PageOf(list[0]), d, i);
  }

  lemma SmallGives(s: State, d: nat, size: nat)
    requires Ok(s, {}) && d < DESC_CNT && 0 < size <= BlockSize(d)
    ensures var (t, a) := AfterSmall(s, d, size);
            && (a == 0 <==> s.lists[d] == [] && Scan(s.used, 0, 1, false).None?)
            && (a == 0 ==> t == s)
            && (a != 0 ==> a !in s.live && t.live == s.live[a := size] && BlockBytes(t, a) == BlockSize(d)
                           && Kept(s, t, {}))
  {
    hide PagesOk, CountsOk, ListOk, LiveOk, InUse, PageOf, Scan, RunAt, BlockSize, SetRun, PagesHeld, Blocks;
    forall a | a in s.live ensures PageOf(a) in s.arenas { LiveHasArena(s, a); }
    if s.lists[d] != [] {
      TakeBlock(s, d, size, {});
      assert ListOk(s.lists[d], d, s.arenas);
      BlockNotNull(s.lists[d], d, s.arenas);
    } else if Scan(s.used, 0, 1, false).Some? {
      FreePage(s.used, Scan(s.used, 0, 1, false).value);
      ArenaTake(s, s.base + Scan(s.used, 0, 1, false).value, d, size);
    }
  }

  lemma BigGives(s: State, size: nat)
    requires Ok(s, {}) && 0 < size < SIZE_LIMIT
    ensures var (t, a) := AfterBig(s, size);
            && (a == 0 <==> PageCount(size) == 0 || Scan(s.used, 0, PageCount(size), false).None?)
            && (a == 0 ==> t == s)
            && (a != 0 ==> a !in s.live && t.live == s.live[a := size] && Kept(s, t, {})
                           && BlockBytes(t, a) == PGSIZE * PageCount(size) - HEADER)
  {
    hide PagesOk, CountsOk, ListsOk, LiveOk, InUse, PageOf, Scan, RunAt, PageCount, SetRun, PagesHeld;
    forall a | a in s.live ensures PageOf(a) in s.arenas { LiveHasArena(s, a); }
    var n := PageCount(size);
    if n != 0 {
      var r := Scan(s.used, 0, n, false);
      if r.Some? {
        BigBlockFits(size);
        RunInside(s.used, r.value, n, false);
        NewBig(s, s.base + r.value, n, size);
        BigInPage(s.base + r.value);
      }
    }
  }

  /** malloc hands out a block that was not live and is large enough, exactly
      when there are pages for it; the other live blocks are as they were.
      "Large enough" fails for the last requests below 4 GB, and only for them. */
  lemma MallocGives(s: State, size: nat)
    requires Ok(s, {}) && size < SIZE_LIMIT
    ensures var (t, a) := AfterMalloc(s, size);
            && (a == 0 <==> Fails(s, size))
            && (a == 0 ==> t == s)
            && (a != 0 ==> && a !in s.live && t.live == s.live[a := size] && Kept(s, t, {})
                           && (size <= BlockBytes(t, a) <==> size < WRAP)
                           && (size >= WRAP ==> BlockBytes(t, a) == PGSIZE - HEADER)
                           && (size <= 1024 ==> BlockBytes(t, a) == 16 || BlockBytes(t, a) < 2 * size))
  {
    hide Ok, PageCount, AfterSmall, AfterBig, Kept, BlockSize, BlockBytes, Capacity;
    var d := DescFrom(size, 0);
    if size == 0 {
    } else if d < DESC_CNT {
      SmallGives(s, d, size);
      SmallerSizes(d);
      Doubled(d);
    } else {
      NoDescFor(size);
      BigGives(s, size);
      BigBlockFits(size);
      BigCapacity(PageCount(size));
    }
  }

  /** The largest request of all gets one page. */
  lemma WrapExample()
    ensures PageCount(SIZE_LIMIT - 1) == 1 && Capacity(Arena(None, 1)) < SIZE_LIMIT - 1
  {
  }

  /** The copy that realloc makes stays inside the new block exactly if the
      request does not wrap around or the old block was no larger than a page. */
  lemma CopyFits(s: State, old_: nat, size: nat)
    requires Ok(s, {}) && old_ in s.live && size < SIZE_LIMIT && AfterMalloc(s, size).1 != 0
    ensures AfterMalloc(s, size).1 in AfterMalloc(s, size).0.live
    ensures var (t, a) := AfterMalloc(s, size);
            var n := BlockBytes(s, old_);
            (if size < n then size else n) <= BlockBytes(t, a) <==> size < WRAP || n <= PGSIZE - HEADER
  {
    hide Ok, AfterMalloc, BlockBytes, Fails, Kept;
    MallocGives(s, size);
  }

  lemma Doubled(d: nat)
    ensures if d == 0 then BlockSize(d) == 16 else BlockSize(d) == 2 * BlockSize(d - 1)
  {
  }

  lemma BigCapacity(n: nat)
    ensures Capacity(Arena(None, n)) == PGSIZE * n - HEADER
  {
  }

  /** free leaves the other live blocks as they were. */
  lemma FreeGives(s: State, a: nat)
    requires Ok(s, {}) && a in s.live
    ensures Kept(s, AfterFree(s, a), {a})
  {
    hide PagesOk, CountsOk, ListsOk, LiveOk, InUse, BlocksPerArena, SetRun, PageRange, Without;
    LiveHasArena(s, a);
    assert Ok(AfterFree(s, a), {});
    forall b | b in s.live && b != a
      ensures BlockBytes(AfterFree(s, a), b) == BlockBytes(s, b)
    {
      LiveHasArena(s, b);
      LiveHasArena(AfterFree(s, a), b);
    }
  }

  /** Page number I of the pool is taken, and not by malloc. */
  ghost predicate TakenElsewhere(s: State, i: nat) { i < |s.used| && s.used[i] && s.base + i !in s.held }

  /** What others have is as it was: malloc takes and gives back no page that it does
      not record, and records none that it does not take or give back. */
  ghost predicate ElsewhereKept(s: State, t: State) {
    t.base == s.base && |t.used| == |s.used| && forall i: nat :: TakenElsewhere(t, i) <==> TakenElsewhere(s, i)
  }

  lemma PagesAdded(s: State, t: State, i: nat, n: nat)
    requires PagesOk(s.base, s.used, s.held, s.arenas) && RunAt(s.used, i, n, false)
    requires t.base == s.base && t.used == SetRun(s.used, i, n, true) && t.held == PagesHeld(s.held, s.base + i, n)
    ensures ElsewhereKept(s, t)
  {
    hide OnArena, Covers;
    PagesHeldIs(s.base, s.used, s.held, s.base + i, n);
  }

  lemma PagesRemoved(s: State, t: State, i: nat, n: nat)
    requires i + n <= |s.used| && forall q :: s.base + i <= q < s.base + i + n ==> q in s.held
    requires t.base == s.base && t.used == SetRun(s.used, i, n, false) && t.held == s.held - PageRange(s.base + i, n)
    ensures ElsewhereKept(s, t)
  {
  }

  lemma ArenaPages(s: State, p: nat)
    requires PagesOk(s.base, s.used, s.held, s.arenas) && p in s.arenas
    ensures forall q :: p <= q < p + Span(s.arenas[p]) ==> q in s.held
  {
    assert Covers(s.held, p, Span(s.arenas[p]));
  }

  /** malloc takes exactly the pages that it holds from then on. */
  lemma MallocPages(s: State, size: nat)
    requires Ok(s, {}) && size < SIZE_LIMIT
    ensures ElsewhereKept(s, AfterMalloc(s, size).0)
  {
    hide PagesOk, ListsOk, CountsOk, LiveOk, InUse, PagesHeld, SetRun, ElsewhereKept, Scan, RunAt, PageOf, BlockSize;
    var d := DescFrom(size, 0);
    SameElsewhere(s, s);
    if size == 0 {
    } else if d < DESC_CNT {
      SmallPages(s, d, size);
    } else if PageCount(size) != 0 {
      match Scan(s.used, 0, PageCount(size), false)
      case None =>
      case Some(i) => PagesAdded(s, AfterMalloc(s, size).0, i, PageCount(size));
    }
  }

  lemma SmallPages(s: State, d: nat, size: nat)
    requires Ok(s, {}) && d < DESC_CNT && 0 < size <= BlockSize(d)
    ensures ElsewhereKept(s, AfterSmall(s, d, size).0)
  {
    hide PagesOk, ListsOk, CountsOk, LiveOk, InUse, PagesHeld, SetRun, ElsewhereKept, Scan, RunAt, PageOf, BlockSize, Addr;
    if s.lists[d] != [] {
      TakeBlock(s, d, size, {});
      SameElsewhere(s, Taken(s, d, size));
    } else {
      match Scan(s.used, 0, 1, false)
      case None => SameElsewhere(s, s);
      case Some(i) =>
        FreePage(s.used, i);
        ArenaTake(s, s.base + i, d, size);
        PagesAdded(s, AfterSmall(s, d, size).0, i, 1);
    }
  }

  lemma SameElsewhere(s: State, t: State)
    requires t.base == s.base && t.used == s.used && t.held == s.held
    ensures ElsewhereKept(s, t)
  {
  }

  /** free gives back exactly the pages that it holds no more. */
  lemma FreePages(s: State, a: nat)
    requires Ok(s, {}) && a in s.live
    ensures ElsewhereKept(s, AfterFree(s, a))
  {
    hide PagesOk, ListsOk, CountsOk, LiveOk, InUse, PageRange, SetRun, ElsewhereKept, RunAt, PageOf, Without, BlocksPerArena;
    var p := PageOf(a);
    LiveHasArena(s, a);
    match s.arenas[p].desc
    case None =>
      DropBig(s, a);
      RunInside(s.used, p - s.base, s.arenas[p].freeCnt, true);
      ArenaPages(s, p);
      PagesRemoved(s, AfterFree(s, a), p - s.base, s.arenas[p].freeCnt);
    case Some(d) =>
      GiveBlock(s, d, a);
      var t := Given(s, d, a);
      if t.arenas[p].freeCnt >= BlocksPerArena(d) {
        DropArena(t, d, p);
        ArenaPages(t, p);
        PagesRemoved(s, Dropped(t, d, p), p - s.base, 1);
      } else {
        SameElsewhere(s, t);
      }
  }

  // ----- Runs -----

  /** realloc, but for the bytes it copies. */
  ghost function AfterRealloc(s: State, old_: nat, size: nat): (r: (State, nat))
    requires Ok(s, {}) && size < SIZE_LIMIT && (old_ == 0 || old_ in s.live)
    ensures Ok(r.0, {})
  {
    if size == 0 then (if old_ == 0 then s else AfterFree(s, old_), 0)
    else
      MallocGives(s, size);
      var (t, a) := AfterMalloc(s, size);
      (if old_ != 0 && a != 0 then AfterFree(t, old_) else t, a)
  }

  /** realloc(old, 0) is free; otherwise the new block, if there is one, takes the
      place of the old, which is kept if there is none. */
  lemma ReallocGives(s: State, old_: nat, size: nat)
    requires Ok(s, {}) && size < SIZE_LIMIT && (old_ == 0 || old_ in s.live)
    ensures var (t, a) := AfterRealloc(s, old_, size);
            && (a == 0 <==> size == 0 || Fails(s, size))
            && t.live == (if size == 0 then s.live - {old_}
                          else if a == 0 then s.live
                          else (s.live - {old_})[a := size])
            && (a != 0 ==> a !in s.live) && ElsewhereKept(s, t)
  {
    hide Ok, Kept, AfterMalloc, AfterFree, Fails, ElsewhereKept, TakenElsewhere;
    SameElsewhere(s, s);
    NullNotLive(s);
    if size == 0 {
      if old_ != 0 { FreePages(s, old_); }
    } else {
      MallocGives(s, size);
      MallocPages(s, size);
      var (t, a) := AfterMalloc(s, size);
      if old_ != 0 && a != 0 {
        FreePages(t, old_);
        KeptTrans(s, t, AfterFree(t, old_));
      }
    }
  }

  lemma NullNotLive(s: State)
    requires Ok(s, {})
    ensures 0 !in s.live
  {
    if 0 in s.live { LiveInside(s.base, s.used, s.held, s.live, s.lists, s.arenas, 0); }
  }

  lemma KeptTrans(s: State, t: State, u: State)
    requires ElsewhereKept(s, t) && ElsewhereKept(t, u)
    ensures ElsewhereKept(s, u)
  {
    hide TakenElsewhere;
  }

  /** What can happen between two points in time: a call of malloc, realloc or
      free, or other parts of the kernel getting and freeing pages of their own. */
  datatype Event =
    | Malloc(size: nat)
    | Realloc(block: nat, newSize: nat)
    | Free(a: nat)
    | Elsewhere(used: seq<bool>)

  /** Callers pass blocks that they hold, and no one touches pages of others. */
  ghost predicate Legal(s: State, e: Event) {
    match e
    case Malloc(size) => size < SIZE_LIMIT
    case Realloc(a, size) => size < SIZE_LIMIT && (a == 0 || a in s.live)
    case Free(a) => a == 0 || a in s.live
    case Elsewhere(used) => forall q :: q in s.held ==> UsedPage(s.base, used, q)
  }

  ghost function Next(s: State, e: Event): (t: State)
    requires Ok(s, {}) && Legal(s, e)
    ensures Ok(t, {})
  {
    match e
    case Malloc(size) => AfterMalloc(s, size).0
    case Realloc(a, size) => AfterRealloc(s, a, size).0
    case Free(a) => if a == 0 then s else AfterFree(s, a)
    case Elsewhere(used) => s.(used := used)
  }

  /** The state after malloc_init, whatever pages are already taken. */
  ghost function Initial(base: nat, used: seq<bool>): (s: State)
    requires base > 0
    ensures Ok(s, {})
  {
    var s := State(base, used, map[], map[], seq(DESC_CNT, _ => []), map[]);
    assert ListsOk(s.lists, s.arenas);
    s
  }

  /** S leads to T by legal events. */
  ghost predicate Leads(s: State, events: seq<Event>, t: State)
    requires Ok(s, {})
    decreases |events|
  {
    if events == [] then t == s else Legal(s, events[0]) && Leads(Next(s, events[0]), events[1..], t)
  }

  lemma {:induction false} LeadsOk(s: State, events: seq<Event>, t: State)
    requires Ok(s, {}) && Leads(s, events, t)
    ensures Ok(t, {})
    decreases |events|
  {
    if events != [] { LeadsOk(Next(s, events[0]), events[1..], t); }
  }

  /** In every run from malloc_init on: live blocks are apart, clear of every
      arena header, and, if the request did not wrap, as large as asked for; and
      the pages held are those of arenas with a live block and of big blocks. */
  lemma EveryRun(base: nat, used: seq<bool>, events: seq<Event>, t: State)
    requires base > 0 && Leads(Initial(base, used), events, t)
    ensures Ok(t, {})
    ensures forall a :: a in t.live && t.live[a] < WRAP ==> t.live[a] <= BlockBytes(t, a)
    ensures forall a, b :: a in t.live && b in t.live && a < b ==> a + BlockBytes(t, a) <= b
    ensures forall a, p :: a in t.live && p in t.arenas ==>
              a + BlockBytes(t, a) <= PGSIZE * p || PGSIZE * p + HEADER <= a
    ensures forall q :: q in t.held <==> exists a :: a in t.live && PageFor(a, q, t.arenas)
  {
    hide PagesOk, ListsOk, CountsOk, LiveOk, InUse, PageOf, Capacity, PageFor, Leads, Initial;
    LeadsOk(Initial(base, used), events, t);
    forall a | a in t.live ensures t.live[a] < WRAP ==> t.live[a] <= BlockBytes(t, a) { LargeEnough(t, a); }
    forall a, b | a in t.live && b in t.live && a < b ensures a + BlockBytes(t, a) <= b {
      LiveApart(t.base, t.used, t.held, t.live, t.lists, t.arenas, a, b);
    }
    forall a, p | a in t.live && p in t.arenas
      ensures a + BlockBytes(t, a) <= PGSIZE * p || PGSIZE * p + HEADER <= a
    {
      HeaderClear(t.base, t.used, t.held, t.live, t.lists, t.arenas, a, p);
    }
    forall q ensures q in t.held <==> exists a :: a in t.live && PageFor(a, q, t.arenas) { HeldForLive(t, q); }
  }

  lemma {:induction false} LeadsKeeps(s: State, events: seq<Event>, t: State)
    requires Ok(s, {}) && Leads(s, events, t) && forall i :: 0 <= i < |events| ==> !events[i].Elsewhere?
    ensures ElsewhereKept(s, t)
    decreases |events|
  {
    hide Ok, ElsewhereKept, AfterMalloc, AfterFree, AfterRealloc;
    SameElsewhere(s, s);
    if events != [] {
      var e := events[0];
      match e {
        case Malloc(size) => MallocPages(s, size);
        case Realloc(a, size) => ReallocGives(s, a, size);
        case Free(a) => if a != 0 { FreePages(s, a); }
        case Elsewhere(_) =>
      }
      assert forall i :: 0 <= i < |events[1..]| ==> events[1..][i] == events[i + 1];
      LeadsKeeps(Next(s, e), events[1..], t);
      KeptTrans(s, Next(s, e), t);
    }
  }

  /** No page is lost: in every run of malloc, realloc and free alone, the pages in
      use are those that were in use at first and those of live blocks; when all
      blocks have been freed, the pool is as it was. */
  lemma NoPageLost(base: nat, used: seq<bool>, events: seq<Event>, t: State)
    requires base > 0 && Leads(Initial(base, used), events, t) && forall i :: 0 <= i < |events| ==> !events[i].Elsewhere?
    ensures Ok(t, {}) && |t.used| == |used| && t.base == base
    ensures forall i :: 0 <= i < |used| ==>
              (t.used[i] <==> used[i] || exists a :: a in t.live && PageFor(a, base + i, t.arenas))
    ensures t.live == map[] ==> t.used == used
  {
    hide PageFor, Leads, PagesOk, ListsOk, CountsOk, LiveOk, InUse, TakenElsewhere;
    var s := Initial(base, used);
    LeadsOk(s, events, t);
    LeadsKeeps(s, events, t);
    forall i | 0 <= i < |used|
      ensures t.used[i] <==> used[i] || exists a :: a in t.live && PageFor(a, base + i, t.arenas)
    {
      HeldForLive(t, base + i);
      UsedPageIs(t, i);
      UsedPageIs(s, i);
    }
  }

  /** A page that is taken is malloc's or someone else's. */
  lemma UsedPageIs(s: State, i: nat)
    requires Ok(s, {}) && i < |s.used|
    ensures s.used[i] <==> TakenElsewhere(s, i) || s.base + i in s.held
  {
    hide ListsOk, CountsOk, LiveOk, InUse, Covers, OnArena;
    assert s.base + i in s.held ==> UsedPage(s.base, s.used, s.base + i);
  }

  lemma LargeEnough(t: State, a: nat)
    requires Ok(t, {}) && a in t.live
    ensures t.live[a] < WRAP ==> t.live[a] <= BlockBytes(t, a)
  {
    LiveHasArena(t, a);
    assert LiveBlock(a, t.live[a], t.arenas[PageOf(a)], t.lists);
  }
}
