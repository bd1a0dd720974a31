/** The heap allocator's code (threads/malloc.c), on the page allocator.

    Free lists, arena headers and live blocks are one abstract state (module
    MallocLayout), and every operation takes it to the state that MallocRuns
    specifies.  Memory is an array of bytes, so that what happens to the bytes of
    live blocks can be stated too: free overwrites the block, realloc copies, and the
    page allocator overwrites the pages that it gets back. */
module Mallocs {
  import opened BitRuns
  import opened Options
  import opened Device
  import opened MallocLayout
  import opened Counting
  import opened Pages
  import opened Nonlinear
  import opened MallocRuns
  import Palloc

  datatype Desc = Desc(blockSize: nat, blocksPerArena: nat)

  /** N bytes from A on are the same. */
  ghost predicate SameBytes(mem: seq<byte>, mem': seq<byte>, a: nat, n: int) {
    a + n <= |mem| && |mem'| == |mem| && forall k :: a <= k < a + n ==> mem'[k] == mem[k]
  }

  /** The bytes of the live blocks are the same. */
  ghost predicate LiveBytesKept(mem: seq<byte>, mem': seq<byte>, s: State)
    requires Ok(s, {})
  {
    forall a :: a in s.live ==> SameBytes(mem, mem', a, BlockBytes(s, a))
  }

  /** A live block ends inside the pool. */
  lemma BlockInMemory(s: State, a: nat)
    requires Ok(s, {}) && a in s.live
    ensures a + BlockBytes(s, a) <= PGSIZE * (s.base + |s.used|)
  {
    LiveHasArena(s, a);
    LiveInside(s.base, s.used, s.held, s.live, s.lists, s.arenas, a);
    ArenaUsed(s.base, s.used, s.held, s.arenas, PageOf(a));
  }

  /** A live block is clear of the pages of another arena. */
  lemma OtherPages(s: State, a: nat, p: nat)
    requires Ok(s, {}) && a in s.live && p in s.arenas && PageOf(a) != p
    ensures a + BlockBytes(s, a) <= PGSIZE * p || PGSIZE * (p + Span(s.arenas[p])) <= a
  {
    LiveHasArena(s, a);
    LiveInside(s.base, s.used, s.held, s.live, s.lists, s.arenas, a);
    if PageOf(a) < p {
      SpansApart(s.base, s.used, s.held, s.arenas, PageOf(a), p);
    } else {
      SpansApart(s.base, s.used, s.held, s.arenas, p, PageOf(a));
    }
  }

  /** Memory that changes inside the block A, and inside pages that no live block
      of T is on, is the same on T's live blocks. */
  lemma FreedBytes(s: State, a: nat, mem: seq<byte>, mem': seq<byte>)
    requires Ok(s, {}) && a in s.live && |mem'| == |mem| && PGSIZE * (s.base + |s.used|) <= |mem|
    requires PageOf(a) in s.arenas
    requires forall k :: 0 <= k < |mem| && !InArena(k, PageOf(a), s.arenas[PageOf(a)]) ==> mem'[k] == mem[k]
    requires (exists b :: b in AfterFree(s, a).live && PageOf(b) == PageOf(a)) ==>
               forall k :: 0 <= k < |mem| && !(a <= k < a + BlockBytes(s, a)) ==> mem'[k] == mem[k]
    ensures LiveBytesKept(mem, mem', AfterFree(s, a))
  {
    hide PagesOk, ListsOk, CountsOk, LiveOk, InUse, PageOf, Capacity, AfterFree, BlockBytes;
    var t := AfterFree(s, a);
    FreeGives(s, a);
    forall b | b in t.live ensures SameBytes(mem, mem', b, BlockBytes(t, b)) {
      BlockInMemory(s, b);
      if PageOf(b) == PageOf(a) {
        if b < a { Apart(s, b, a); } else { Apart(s, a, b); }
      } else {
        OtherPages(s, b, PageOf(a));
      }
    }
  }

  ghost predicate InArena(k: nat, p: nat, a: Arena) { PGSIZE * p <= k < PGSIZE * (p + Span(a)) }

  lemma Apart(s: State, a: nat, b: nat)
    requires Ok(s, {}) && a in s.live && b in s.live && a < b
    ensures a + BlockBytes(s, a) <= b
  {
    LiveApart(s.base, s.used, s.held, s.live, s.lists, s.arenas, a, b);
  }

  class Heap {
    const pages: Palloc.PageAllocator
    var descs: seq<Desc>
    var freeLists: seq<seq<nat>>     // one per descriptor
    var arenas: Arenas               // the headers, by page
    ghost var held: map<nat, nat>    // the arena of each page that malloc holds
    ghost var live: map<nat, nat>    // the blocks handed out, with the sizes asked for

    ghost predicate DescsOk()
      reads this`descs
    {
      |descs| == DESC_CNT && forall d :: 0 <= d < DESC_CNT ==> descs[d] == Desc(BlockSize(d), BlocksPerArena(d))
    }

    ghost function Abstract(): State
      requires pages.Valid()
      reads this`freeLists, this`arenas, this`held, this`live, pages`mem, pages.kernel.usedMap.words
    {
      State(pages.kernel.base, pages.kernel.Bits(), held, arenas, freeLists, live)
    }

    ghost predicate Valid()
      reads this, pages`mem, pages.kernel.usedMap.words
    {
      pages.Valid() && DescsOk() && Ok(Abstract(), {})
    }

    /** malloc_init, for an allocator whose pages may be in use already. */
    constructor (pages: Palloc.PageAllocator)
      requires pages.Valid()
      ensures Valid() && this.pages == pages
      ensures Abstract() == Initial(pages.kernel.base, pages.kernel.Bits())
    {
      this.pages := pages;
      descs, freeLists, arenas, held, live := [], [], map[], map[], map[];
      new;
      BlockSizes();
      var blockSize := 16;
      while blockSize < PGSIZE / 2
        invariant blockSize == BlockSize(|descs|) && |descs| <= DESC_CNT
        invariant forall d :: 0 <= d < |descs| ==> descs[d] == Desc(BlockSize(d), BlocksPerArena(d))
        invariant |freeLists| == |descs| && forall d :: 0 <= d < |descs| ==> freeLists[d] == []
        invariant arenas == map[] && held == map[] && live == map[]
        decreases DESC_CNT - |descs|
      {
        descs := descs + [Desc(blockSize, (PGSIZE - HEADER) / blockSize)];
        freeLists := freeLists + [[]];
        blockSize := blockSize * 2;
      }
      assert |descs| == DESC_CNT by { if |descs| < DESC_CNT { SmallerSizes(|descs|); } }
      assert freeLists == seq(DESC_CNT, _ => []);
      assert Abstract() == Initial(pages.kernel.base, pages.kernel.Bits());
    }

    /** block_to_arena: the arena's page, of a block that is live. */
    method BlockToArena(b: nat) returns (a: nat)
      requires Valid() && b in live
      ensures a == PageOf(b) && a in arenas
      ensures arenas[a].desc == None ==> b % PGSIZE == HEADER
      ensures forall d :: arenas[a].desc == Some(d) && d < DESC_CNT ==> b % PGSIZE >= HEADER && (b % PGSIZE - HEADER) % BlockSize(d) == 0
    {
      a := b / PGSIZE;
      LiveHasArena(Abstract(), b);
      Aligned(Abstract(), b);
    }

    method {:induction false} BlockSizeOf(b: nat) returns (n: nat)
      requires Valid() && b in live
      ensures n == BlockBytes(Abstract(), b)
    {
      hide PagesOk, ListsOk, CountsOk, LiveOk, InUse;
      var a := BlockToArena(b);
      LiveHasArena(Abstract(), b);
      Aligned(Abstract(), b);
      PagesPositive(Abstract(), a);
      match arenas[a].desc
      case Some(d) => n := descs[d].blockSize;
      case None => n := PGSIZE * arenas[a].freeCnt - b % PGSIZE;
    }

    /** The part of malloc for requests that no descriptor satisfies. */
    method BigBlock(size: nat) returns (r: nat)
      requires Valid() && 0 < size < SIZE_LIMIT
      modifies this`arenas, this`held, this`live
      modifies pages`mem, pages.kernel.usedMap.words, pages.user.usedMap.words
      ensures Valid() && (Abstract(), r) == AfterBig(old(Abstract()), size)
      ensures pages.mem == old(pages.mem) && pages.user.Bits() == old(pages.user.Bits())
    {
      hide PagesOk, ListsOk, CountsOk, LiveOk, InUse, Scan, SetRun, PagesHeld;
      ghost var s := Abstract();
      var pageCnt := ((size + HEADER) % SIZE_LIMIT + PGSIZE - 1) % SIZE_LIMIT / PGSIZE;
      var a := pages.GetMultiple(false, false, pageCnt);
      if a.None? { return 0; }
      assert Ok(AfterBig(s, size).0, {});
      arenas := arenas[a.value := Arena(None, pageCnt)];
      held := PagesHeld(held, a.value, pageCnt);
      r := a.value * PGSIZE + HEADER;
      live := live[r := size];
    }

    /** A new arena, its blocks at the end of D's empty free list. */
    method NewArenaFor(d: nat) returns (ok: bool)
      requires Valid() && d < DESC_CNT && freeLists[d] == []
      modifies this`arenas, this`held, this`freeLists
      modifies pages`mem, pages.kernel.usedMap.words, pages.user.usedMap.words
      ensures pages.Valid() && pages.mem == old(pages.mem) && pages.user.Bits() == old(pages.user.Bits())
      ensures var i := Scan(old(Abstract()).used, 0, 1, false);
              && ok == i.Some?
              && (ok ==> && i.value < |old(Abstract()).used| && old(Abstract()).base + i.value !in old(arenas)
                         && Abstract() == WithArena(old(Abstract()), pages.kernel.base + i.value, d))
              && (!ok ==> Abstract() == old(Abstract()))
    {
      hide PagesOk, ListsOk, CountsOk, LiveOk, InUse, Scan, SetRun, PagesHeld, RunAt, Addr;
      ghost var s := Abstract();
      var a := pages.GetMultiple(false, false, 1);
      if a.None? { return false; }
      FreePage(s.used, a.value - pages.kernel.base);
      NewArenaPages(s, a.value, d);
      var blocksPerArena := descs[d].blocksPerArena;
      arenas := arenas[a.value := Arena(Some(d), blocksPerArena)];
      held := PagesHeld(held, a.value, 1);
      for i := 0 to blocksPerArena
        invariant DescsOk() && pages.Valid() && pages.mem == old(pages.mem) && pages.user.Bits() == old(pages.user.Bits())
        invariant arenas == s.arenas[a.value := Arena(Some(d), blocksPerArena)] && held == PagesHeld(s.held, a.value, 1)
        invariant pages.kernel.Bits() == SetRun(s.used, a.value - pages.kernel.base, 1, true)
        invariant freeLists == s.lists[d := Blocks(a.value, d)[..i]]
      {
        assert Blocks(a.value, d)[..i + 1] == Blocks(a.value, d)[..i] + [ArenaToBlock(a.value, i)];
        freeLists := freeLists[d := freeLists[d] + [ArenaToBlock(a.value, i)]];
      }
      assert Blocks(a.value, d)[..blocksPerArena] == Blocks(a.value, d);
      ok := true;
    }

    /** The first block of D's free list goes to the caller. */
    method PopFront(d: nat, size: nat) returns (r: nat)
      requires pages.Valid() && d < |freeLists| && freeLists[d] != []
      requires PageOf(freeLists[d][0]) in arenas && arenas[PageOf(freeLists[d][0])].freeCnt > 0
      modifies this`arenas, this`live, this`freeLists
      ensures Abstract() == Taken(old(Abstract()), d, size) && r == old(freeLists[d][0])
    {
      hide PageOf;
      r := freeLists[d][0];
      freeLists := freeLists[d := freeLists[d][1..]];
      var a := PageOf(r);
      arenas := arenas[a := arenas[a].(freeCnt := arenas[a].freeCnt - 1)];
      live := live[r := size];
    }

    /** arena_to_block. */
    function ArenaToBlock(a: nat, idx: nat): (b: nat)
      requires a in arenas && arenas[a].desc.Some? && DescsOk() && arenas[a].desc.value < DESC_CNT
      reads this`arenas, this`descs
      ensures b == Addr(a, arenas[a].desc.value, idx)
    {
      a * PGSIZE + HEADER + idx * descs[arenas[a].desc.value].blockSize
    }

    method Malloc(size: nat) returns (r: nat)
      requires Valid() && size < SIZE_LIMIT
      modifies this`arenas, this`held, this`live, this`freeLists
      modifies pages`mem, pages.kernel.usedMap.words, pages.user.usedMap.words
      ensures Valid() && (Abstract(), r) == AfterMalloc(old(Abstract()), size)
      ensures pages.mem == old(pages.mem) && pages.user.Bits() == old(pages.user.Bits())
    {
      hide PagesOk, ListsOk, CountsOk, LiveOk, InUse, Scan, PageOf, Addr, BlockSize, BlocksPerArena, WithArena;
      if size == 0 { return 0; }
      var d := 0;
      while d < |descs|
        invariant d <= |descs| && DescFrom(size, 0) == DescFrom(size, d)
      {
        if descs[d].blockSize >= size { break; }
        d := d + 1;
      }
      if d == |descs| {
        r := BigBlock(size);
        return;
      }
      r := SmallBlock(d, size);
    }

    method SmallBlock(d: nat, size: nat) returns (r: nat)
      requires Valid() && d < DESC_CNT && 0 < size <= BlockSize(d)
      modifies this`arenas, this`held, this`live, this`freeLists
      modifies pages`mem, pages.kernel.usedMap.words, pages.user.usedMap.words
      ensures Valid() && (Abstract(), r) == AfterSmall(old(Abstract()), d, size)
      ensures pages.mem == old(pages.mem) && pages.user.Bits() == old(pages.user.Bits())
    {
      hide PagesOk, ListsOk, CountsOk, LiveOk, InUse, Scan, PageOf, Addr, BlockSize, BlocksPerArena, WithArena, Taken, RunAt;
      ghost var s := Abstract();
      assert Ok(AfterSmall(s, d, size).0, {});
      if freeLists[d] == [] {
        var ok := NewArenaFor(d);
        if !ok { return 0; }
        FreePage(s.used, Scan(s.used, 0, 1, false).value);
        ArenaTake(s, s.base + Scan(s.used, 0, 1, false).value, d, size);
      } else {
        TakeBlock(s, d, size, {});
      }
      r := PopFront(d, size);
    }

    /** The blocks of the arena in page P leave the free list, one by one. */
    method UnlinkBlocks(d: nat, p: nat)
      requires DescsOk() && |freeLists| == DESC_CNT && d < DESC_CNT
      requires p in arenas && arenas[p].desc == Some(d) && Distinct(freeLists[d])
      modifies this`freeLists
      ensures freeLists == old(freeLists)[d := Minus(old(freeLists)[d], FirstBlocks(p, d, BlocksPerArena(d)))]
    {
      hide Minus, FirstBlocks, Removed, Addr;
      var blocksPerArena := descs[d].blocksPerArena;
      ghost var lists := freeLists;
      MinusNone(lists[d]);
      NoFirst(p, d);
      for i := 0 to blocksPerArena
        invariant freeLists == lists[d := Minus(lists[d], FirstBlocks(p, d, i))]
      {
        NextFirst(p, d, i);
        RemovedMinus(lists[d], FirstBlocks(p, d, i), Addr(p, d, i));
        freeLists := freeLists[d := Removed(freeLists[d], ArenaToBlock(p, i))];
      }
    }

    /** The arena in page P has no block in use: its blocks leave the free list,
        and its page is freed. */
    method ReleaseArena(d: nat, p: nat)
      requires pages.Valid() && DescsOk() && Ok(Abstract(), {p}) && d < DESC_CNT
      requires p in arenas && arenas[p].desc == Some(d) && arenas[p].freeCnt >= BlocksPerArena(d)
      modifies this`arenas, this`held, this`freeLists
      modifies pages`mem, pages.kernel.usedMap.words, pages.user.usedMap.words
      ensures pages.Valid() && d < |old(freeLists)|
      ensures var s := old(Abstract());
              s.base <= p && p - s.base < |s.used| && Abstract() == Dropped(s, d, p)
              && PGSIZE * (p + 1) <= |old(pages.mem)| && pages.mem == Palloc.Filled(old(pages.mem), p, 1, 0xcc)
      ensures pages.user.Bits() == old(pages.user.Bits())
    {
      hide PagesOk, ListsOk, CountsOk, LiveOk, InUse, Minus, FirstBlocks, Removed, SetRun, PageOf, Without, PageRange, Addr,
           RunAt;
      ghost var s := Abstract();
      DropArena(s, d, p);
      ListOf(s, d);
      assert arenas[p].freeCnt == descs[d].blocksPerArena;
      UnlinkBlocks(d, p);
      ArenaBlocks(s.lists[d], d, s.arenas, p);
      MinusIsWithout(s.lists[d], FirstBlocks(p, d, BlocksPerArena(d)), p);
      OnePage(s.used, p - s.base);
      assert pages.kernel.PageFromPool(p) && RunAt(pages.kernel.Bits(), p - pages.kernel.base, 1, true);
      pages.FreeMultiple(p, 1);
      arenas := arenas - {p};
      held := held - PageRange(p, 1);
    }

    method FreeSmall(b: nat, d: nat)
      requires Valid() && b in live && PageOf(b) in arenas && arenas[PageOf(b)].desc == Some(d) && d < DESC_CNT
      modifies this`arenas, this`held, this`freeLists, this`live
      modifies pages`mem, pages.kernel.usedMap.words, pages.user.usedMap.words
      ensures Valid() && Abstract() == AfterFree(old(Abstract()), b)
      ensures LiveBytesKept(old(pages.mem), pages.mem, Abstract())
      ensures pages.user.Bits() == old(pages.user.Bits())
    {
      hide PagesOk, ListsOk, CountsOk, LiveOk, InUse, SetRun, PageOf, Without, PageRange, BlocksPerArena, BlockSize, LiveBytesKept;
      ghost var s := Abstract();
      var a := PageOf(b);
      BlockInMemory(s, b);
      GiveBlock(s, d, b);
      assert Ok(AfterFree(s, b), {});
      pages.mem := Overlay(pages.mem, b, seq(descs[d].blockSize, _ => 0xcc));
      freeLists := freeLists[d := [b] + freeLists[d]];
      arenas := arenas[a := arenas[a].(freeCnt := arenas[a].freeCnt + 1)];
      live := live - {b};
      if arenas[a].freeCnt >= descs[d].blocksPerArena {
        ReleaseArena(d, a);
        NoneOnPage(Abstract(), a);
      } else {
        NoExcept(Abstract(), a);
      }
      BlockInArena(s, b);
      FreedBytes(s, b, old(pages.mem), pages.mem);
    }

    method FreeBig(b: nat)
      requires Valid() && b in live && PageOf(b) in arenas && arenas[PageOf(b)].desc == None
      modifies this`arenas, this`held, this`live
      modifies pages`mem, pages.kernel.usedMap.words, pages.user.usedMap.words
      ensures Valid() && Abstract() == AfterFree(old(Abstract()), b)
      ensures LiveBytesKept(old(pages.mem), pages.mem, Abstract())
      ensures pages.user.Bits() == old(pages.user.Bits())
    {
      hide PagesOk, ListsOk, CountsOk, LiveOk, InUse, SetRun, PageOf, PageRange, BigAddr, LiveBytesKept;
      ghost var s := Abstract();
      var a := PageOf(b);
      DropBig(s, b);
      PagesPositive(s, a);
      assert Ok(AfterFree(s, b), {});
      pages.FreeMultiple(a, arenas[a].freeCnt);
      held := held - PageRange(a, arenas[a].freeCnt);
      arenas := arenas - {a};
      live := live - {b};
      NoneOnPage(Abstract(), a);
      FreedBytes(s, b, old(pages.mem), pages.mem);
    }

    method Free(p: nat)
      requires Valid() && (p == 0 || p in live)
      modifies this`arenas, this`held, this`freeLists, this`live
      modifies pages`mem, pages.kernel.usedMap.words, pages.user.usedMap.words
      ensures Valid() && Abstract() == if p == 0 then old(Abstract()) else AfterFree(old(Abstract()), p)
      ensures LiveBytesKept(old(pages.mem), pages.mem, Abstract())
      ensures pages.user.Bits() == old(pages.user.Bits())
    {
      hide PagesOk, ListsOk, CountsOk, LiveOk, InUse, PageOf;
      if p != 0 {
        var a := BlockToArena(p);
        LiveHasArena(Abstract(), p);
        if arenas[a].desc.Some? { FreeSmall(p, arenas[a].desc.value); } else { FreeBig(p); }
      } else {
        AllKept(Abstract(), pages.mem);
      }
    }

    /** The bytes that fit are copied, and the other blocks are as they were.  The
        precondition is that of CopyFits: beyond it, memcpy would leave the new
        block. */
    method Realloc(oldBlock: nat, newSize: nat) returns (r: nat)
      requires Valid() && newSize < SIZE_LIMIT && (oldBlock == 0 || oldBlock in live)
      requires newSize < WRAP || oldBlock == 0 || BlockBytes(Abstract(), oldBlock) <= PGSIZE - HEADER
      modifies this`arenas, this`held, this`freeLists, this`live
      modifies pages`mem, pages.kernel.usedMap.words, pages.user.usedMap.words
      ensures Valid() && (Abstract(), r) == AfterRealloc(old(Abstract()), oldBlock, newSize)
      ensures r != 0 && oldBlock != 0 ==>
                var n := BlockBytes(old(Abstract()), oldBlock);
                var size := if newSize < n then newSize else n;
                && r + size <= |pages.mem| && oldBlock + size <= |old(pages.mem)|
                && pages.mem[r..r + size] == old(pages.mem)[oldBlock..oldBlock + size]
      ensures forall b :: b in live && b != r ==> SameBytes(old(pages.mem), pages.mem, b, BlockBytes(Abstract(), b))
      ensures pages.user.Bits() == old(pages.user.Bits())
    {
      hide PagesOk, ListsOk, CountsOk, LiveOk, InUse, PageOf, AfterMalloc, AfterFree, BlockBytes, Capacity, Fails, SameBytes;
      ghost var s := Abstract();
      if newSize == 0 {
        Free(oldBlock);
        return 0;
      }
      MallocGives(s, newSize);
      r := Malloc(newSize);
      ghost var t := Abstract();
      AllKept(t, pages.mem);
      if oldBlock != 0 && r != 0 {
        CopyFits(s, oldBlock, newSize);
        MoveBlock(oldBlock, r, newSize);
      }
    }

    /** The part of realloc after malloc: the bytes move to R, and the old block
        is freed. */
    method MoveBlock(oldBlock: nat, r: nat, newSize: nat)
      requires Valid() && oldBlock in live && r in live && r != oldBlock && oldBlock != 0
      requires var n := BlockBytes(Abstract(), oldBlock);
               (if newSize < n then newSize else n) <= BlockBytes(Abstract(), r)
      modifies this`arenas, this`held, this`freeLists, this`live
      modifies pages`mem, pages.kernel.usedMap.words, pages.user.usedMap.words
      ensures Valid() && Abstract() == AfterFree(old(Abstract()), oldBlock)
      ensures var n := BlockBytes(old(Abstract()), oldBlock);
              var size := if newSize < n then newSize else n;
              && r + size <= |pages.mem| && oldBlock + size <= |old(pages.mem)|
              && pages.mem[r..r + size] == old(pages.mem)[oldBlock..oldBlock + size]
      ensures forall b :: b in live && b != r ==> SameBytes(old(pages.mem), pages.mem, b, BlockBytes(Abstract(), b))
      ensures pages.user.Bits() == old(pages.user.Bits())
    {
      hide PagesOk, ListsOk, CountsOk, LiveOk, InUse, PageOf, AfterFree, BlockBytes, Capacity, LiveBytesKept, SameBytes, Kept;
      ghost var t := Abstract();
      AllKept(t, pages.mem);
      var oldSize := BlockSizeOf(oldBlock);
      var minSize := if newSize < oldSize then newSize else oldSize;
      BlockInMemory(t, oldBlock);
      BlockInMemory(t, r);
      pages.mem := Overlay(pages.mem, r, pages.mem[oldBlock..oldBlock + minSize]);
      ghost var copied := pages.mem;
      FreeGives(t, oldBlock);
      Free(oldBlock);
      CopiedBytes(t, Abstract(), r, oldBlock, minSize, old(pages.mem), copied, pages.mem);
    }
  }

  /** The alignment that block_to_arena asserts. */
  lemma Aligned(s: State, b: nat)
    requires Ok(s, {}) && b in s.live
    ensures PageOf(b) in s.arenas
    ensures match s.arenas[PageOf(b)].desc
            case None => b % PGSIZE == HEADER
            case Some(d) => b % PGSIZE >= HEADER && (b % PGSIZE - HEADER) % BlockSize(d) == 0
  {
    hide PageOf, Addr, BlocksPerArena, BlockSize;
    var p := PageOf(b);
    assert LiveBlock(b, s.live[b], s.arenas[p], s.lists);
    match s.arenas[p].desc
    case None => BigOffset(p);
    case Some(d) =>
      var i: nat :| i < BlocksPerArena(d) && b == Addr(p, d, i);
      BlockOffset(p, d, i);
  }

  lemma BlockOffset(p: nat, d: nat, i: nat)
    requires i < BlocksPerArena(d)
    ensures Addr(p, d, i) % PGSIZE >= HEADER && (Addr(p, d, i) % PGSIZE - HEADER) % BlockSize(d) == 0
  {
    hide BlocksPerArena, BlockSize;
    BlockInPage(p, d, i);
    MultipleOf(i, BlockSize(d));
    InPage(Addr(p, d, i), p);
  }

  lemma BigOffset(p: nat)
    ensures BigAddr(p) % PGSIZE == HEADER
  {
  }

  lemma InPage(a: nat, p: nat)
    requires PGSIZE * p <= a < PGSIZE * (p + 1)
    ensures a % PGSIZE == a - PGSIZE * p
  {
  }

  lemma MultipleOf(i: nat, n: nat)
    requires n > 0
    ensures i * n % n == 0
  {
    var q, r := i * n / n, i * n % n;
    assert n * (i - q) == r;
    if i - q >= 1 { MulMono(1, i - q, n); }
    if i - q <= -1 { MulMono(1, q - i, n); }
  }

  lemma PagesPositive(s: State, p: nat)
    requires Ok(s, {}) && p in s.arenas
    ensures Span(s.arenas[p]) > 0
  {
  }

  lemma ListOf(s: State, d: nat)
    requires ListsOk(s.lists, s.arenas) && d < DESC_CNT
    ensures d < |s.lists| && ListOk(s.lists[d], d, s.arenas)
  {
  }

  lemma {:induction false} MinusNone(list: seq<nat>)
    ensures Minus(list, {}) == list
  {
    if list != [] { MinusNone(list[1..]); }
  }

  lemma NoFirst(p: nat, d: nat)
    ensures FirstBlocks(p, d, 0) == {}
  {
  }

  lemma NextFirst(p: nat, d: nat, i: nat)
    ensures FirstBlocks(p, d, i + 1) == FirstBlocks(p, d, i) + {Addr(p, d, i)}
    ensures Addr(p, d, i) !in FirstBlocks(p, d, i)
  {
    forall j: nat | j < i ensures Addr(p, d, j) != Addr(p, d, i) { BlocksApart(p, d, j, i); }
  }

  lemma ArenaBlocks(list: seq<nat>, d: nat, arenas: Arenas, p: nat)
    requires ListOk(list, d, arenas)
    ensures forall x :: x in list ==> (x in FirstBlocks(p, d, BlocksPerArena(d)) <==> PageOf(x) == p)
  {
    forall i: nat | i < BlocksPerArena(d) ensures PageOf(Addr(p, d, i)) == p { BlockInPage(p, d, i); }
    assert forall x :: x in list ==> IsBlock(x, PageOf(x), d);
  }

  lemma OnePage(used: seq<bool>, i: nat)
    requires i < |used| && used[i]
    ensures RunAt(used, i, 1, true)
  {
  }

  /** A page without an arena has no live block. */
  lemma NoneOnPage(t: State, p: nat)
    requires Ok(t, {}) && p !in t.arenas
    ensures forall b :: b in t.live ==> PageOf(b) != p
  {
  }

  lemma BlockInArena(s: State, b: nat)
    requires Ok(s, {}) && b in s.live
    ensures PageOf(b) in s.arenas
    ensures forall k :: b <= k < b + BlockBytes(s, b) ==> InArena(k, PageOf(b), s.arenas[PageOf(b)])
  {
    LiveHasArena(s, b);
    LiveInside(s.base, s.used, s.held, s.live, s.lists, s.arenas, b);
  }

  lemma AllKept(s: State, mem: seq<byte>)
    requires Ok(s, {}) && PGSIZE * (s.base + |s.used|) <= |mem|
    ensures LiveBytesKept(mem, mem, s)
  {
    forall a | a in s.live ensures SameBytes(mem, mem, a, BlockBytes(s, a)) { BlockInMemory(s, a); }
  }

  /** What realloc leaves in memory: COPIED is what memcpy left, MEM' what free
      left after that. */
  lemma CopiedBytes(s: State, t: State, r: nat, old_: nat, size: nat, mem: seq<byte>, copied: seq<byte>, mem': seq<byte>)
    requires Ok(s, {}) && Ok(t, {}) && r in s.live && old_ in s.live && r != old_ && t.live == s.live - {old_}
    requires Kept(s, t, {old_}) && size <= BlockBytes(s, r)
    requires r + BlockBytes(s, r) <= |mem| && old_ + size <= |mem|
    requires copied == Overlay(mem, r, mem[old_..old_ + size])
    requires LiveBytesKept(mem, mem, s) && LiveBytesKept(copied, mem', t)
    ensures r + size <= |mem'| && mem'[r..r + size] == mem[old_..old_ + size]
    ensures forall b :: b in t.live && b != r ==> SameBytes(mem, mem', b, BlockBytes(t, b))
  {
    hide Ok, BlockBytes;
    assert SameBytes(copied, mem', r, BlockBytes(t, r));
    assert copied[r..r + size] == mem[old_..old_ + size];
    forall b | b in t.live && b != r ensures SameBytes(mem, mem', b, BlockBytes(t, b)) {
      assert SameBytes(copied, mem', b, BlockBytes(t, b)) && SameBytes(mem, mem, b, BlockBytes(s, b));
      if b < r { Apart(s, b, r); } else { Apart(s, r, b); }
    }
  }
}
