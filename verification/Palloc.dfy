/** The page allocator (threads/palloc.c): two pools of pages, each with a
    bitmap of the pages in use.  Pages are numbered from the start of memory;
    page 0 stands for the null pointer. */
module Palloc {
  import opened BitRuns
  import opened Options
  import opened Bitmaps
  import opened Device
  import opened Pages

  const BITMAP_HEADER := 8         // sizeof (struct bitmap)
  const FREE_START := 256          // free memory starts at 1 MB

  function DivRoundUp(n: nat, step: nat): nat
    requires step > 0
  {
    (n + step - 1) / step
  }

  function BitmapBufSize(bitCnt: nat): nat { BITMAP_HEADER + 4 * ElemCnt(bitCnt) }

  /** The pages at a pool's start that hold its bitmap. */
  function BitmapPages(pageCnt: nat): nat { DivRoundUp(BitmapBufSize(pageCnt), PGSIZE) }

  /** The bitmap of the pages that are left fits in front of them, and for all pages
      one page less would not do. */
  lemma BitmapFits(pageCnt: nat)
    requires BitmapPages(pageCnt) <= pageCnt
    ensures BitmapBufSize(pageCnt - BitmapPages(pageCnt)) <= PGSIZE * BitmapPages(pageCnt)
    ensures PGSIZE * (BitmapPages(pageCnt) - 1) < BitmapBufSize(pageCnt)
  {
  }

  // ----- Live groups of pages -----

  /** LIVE gives the size of each group that was handed out and not freed: the
      groups are apart, and the bitmap marks their pages and no others. */
  ghost predicate Exact(used: seq<bool>, live: map<nat, nat>) {
    && (forall p :: p in live ==> live[p] > 0 && RunAt(used, p, live[p], true))
    && (forall p, q :: p in live && q in live && p < q ==> p + live[p] <= q)
    && (forall k :: 0 <= k < |used| && used[k] ==> exists p :: p in live && InGroup(k, p, live[p]))
  }

  ghost predicate InGroup(k: nat, p: nat, n: nat) { p <= k < p + n }

  lemma RunsApart(bits: seq<bool>, p: nat, n: nat, q: nat, m: nat)
    requires RunAt(bits, p, n, false) && RunAt(bits, q, m, true) && n > 0 && m > 0
    ensures q + m <= p || p + n <= q
  {
    var k := if p < q then q else p;
    assert p <= k < p + n ==> !bits[k];
    assert q <= k < q + m ==> bits[k];
  }

  lemma GroupTaken(used: seq<bool>, live: map<nat, nat>, p: nat, n: nat)
    requires Exact(used, live) && n > 0 && RunAt(used, p, n, false)
    ensures p !in live
    ensures Exact(SetRun(used, p, n, true), live[p := n])
  {
    var used', live' := SetRun(used, p, n, true), live[p := n];
    forall q | q in live ensures RunAt(used', q, live[q], true) && (q + live[q] <= p || p + n <= q) {
      RunsApart(used, p, n, q, live[q]);
    }
    forall k | 0 <= k < |used'| && used'[k] ensures exists q :: q in live' && InGroup(k, q, live'[q]) {
      if p <= k < p + n {
        assert InGroup(k, p, live'[p]);
      } else {
        var q :| q in live && InGroup(k, q, live[q]);
        assert q in live' && InGroup(k, q, live'[q]);
      }
    }
  }

  lemma GroupFreed(used: seq<bool>, live: map<nat, nat>, p: nat)
    requires Exact(used, live) && p in live
    ensures RunAt(used, p, live[p], true)
    ensures Exact(SetRun(used, p, live[p], false), live - {p})
  {
    var used', live' := SetRun(used, p, live[p], false), live - {p};
    forall k | 0 <= k < |used'| && used'[k] ensures exists q :: q in live' && InGroup(k, q, live'[q]) {
      var q :| q in live && InGroup(k, q, live[q]);
      assert q in live' && InGroup(k, q, live'[q]);
    }
  }

  /** A pool over time: the bitmap, and the groups that are out. */
  datatype PoolState = PoolState(used: seq<bool>, live: map<nat, nat>)

  /** What a caller may do: ask for pages, or free a group it holds. */
  datatype Request = Get(cnt: nat) | Free(page: nat)

  ghost function Found(used: seq<bool>, cnt: nat): (r: Option<nat>)
    ensures r.Some? ==> cnt > 0 && RunAt(used, r.value, cnt, false)
    ensures r.Some? ==> forall j :: 0 <= j < r.value ==> !RunAt(used, j, cnt, false)
    ensures r.None? ==> cnt == 0 || forall j :: 0 <= j ==> !RunAt(used, j, cnt, false)
  {
    if cnt == 0 then None else Scan(used, 0, cnt, false)
  }

  ghost function Serve(s: PoolState, r: Request): PoolState
    requires Exact(s.used, s.live)
  {
    match r
    case Get(cnt) =>
      (match Found(s.used, cnt)
       case None => s
       case Some(p) => PoolState(SetRun(s.used, p, cnt, true), s.live[p := cnt]))
    case Free(p) =>
      if p in s.live then
        GroupFreed(s.used, s.live, p);
        PoolState(SetRun(s.used, p, s.live[p], false), s.live - {p})
      else s
  }

  lemma ServeExact(s: PoolState, r: Request)
    requires Exact(s.used, s.live)
    ensures Exact(Serve(s, r).used, Serve(s, r).live) && |Serve(s, r).used| == |s.used|
  {
    match r
    case Get(cnt) =>
      var f := Found(s.used, cnt);
      if f.Some? { GroupTaken(s.used, s.live, f.value, cnt); }
    case Free(p) =>
      if p in s.live { GroupFreed(s.used, s.live, p); }
  }

  /** A request for pages is met by a group of its own exactly if there are so many
      free pages in a row; a group that is freed is out no more. */
  lemma ServeGives(s: PoolState, r: Request)
    requires Exact(s.used, s.live)
    ensures var t := Serve(s, r);
            match r
            case Get(cnt) =>
              if cnt > 0 && (exists p :: 0 <= p && RunAt(s.used, p, cnt, false))
              then exists p: nat :: p !in s.live && t.live == s.live[p := cnt] && RunAt(s.used, p, cnt, false)
              else t == s
            case Free(p) =>
              && t.live == s.live - {p}
              && (p in s.live ==> RunAt(t.used, p, s.live[p], false))
  {
    match r
    case Get(cnt) =>
      var f := Found(s.used, cnt);
      if f.Some? { GroupTaken(s.used, s.live, f.value, cnt); }
    case Free(p) =>
      if p in s.live { GroupFreed(s.used, s.live, p); } else { assert s.live - {p} == s.live; }
  }

  ghost function ServeAll(s: PoolState, rs: seq<Request>): (t: PoolState)
    requires Exact(s.used, s.live)
    ensures Exact(t.used, t.live) && |t.used| == |s.used|
    decreases |rs|
  {
    if rs == [] then s
    else
      ServeExact(s, rs[0]);
      ServeAll(Serve(s, rs[0]), rs[1..])
  }

  /** In every run, the groups that are out are apart from each other and inside
      the pool, and the bitmap marks exactly their pages. */
  lemma {:induction false} AllRunsExact(pages: nat, rs: seq<Request>)
    ensures var fresh_ := PoolState(seq(pages, _ => false), map[]);
            && Exact(fresh_.used, fresh_.live)
            && var t := ServeAll(fresh_, rs);
               && (forall p :: p in t.live ==> 0 < t.live[p] && p + t.live[p] <= pages)
               && (forall p, q :: p in t.live && q in t.live && p < q ==> p + t.live[p] <= q)
               && (forall k :: 0 <= k < pages ==> (t.used[k] <==> exists p :: p in t.live && InGroup(k, p, t.live[p])))
  {
    var fresh_ := PoolState(seq(pages, _ => false), map[]);
    assert Exact(fresh_.used, fresh_.live);
    var t := ServeAll(fresh_, rs);
    forall k, p | 0 <= k < pages && p in t.live && InGroup(k, p, t.live[p]) ensures t.used[k] {
      assert RunAt(t.used, p, t.live[p], true);
    }
  }

  /** A group that is out stays out, wherever it is, until it is freed. */
  lemma {:induction false} GroupStays(s: PoolState, rs: seq<Request>, p: nat)
    requires Exact(s.used, s.live) && p in s.live && Free(p) !in rs
    ensures var t := ServeAll(s, rs); p in t.live && t.live[p] == s.live[p]
    decreases |rs|
  {
    if rs != [] {
      ServeExact(s, rs[0]);
      match rs[0]
      case Get(cnt) =>
        var f := Found(s.used, cnt);
        if f.Some? { GroupTaken(s.used, s.live, f.value, cnt); }
        GroupStays(Serve(s, rs[0]), rs[1..], p);
      case Free(q) =>
        assert rs[0] in rs;
        GroupStays(Serve(s, rs[0]), rs[1..], p);
    }
  }

  // ----- The code -----

  class Pool {
    const usedMap: Bitmap
    const base: nat

    ghost predicate Valid() { usedMap.Valid() && base > 0 }

    ghost function Bits(): seq<bool>
      requires Valid()
      reads usedMap.words
    {
      usedMap.Bits()
    }

    /** init_pool: the kernel panics when the bitmap alone takes all the pages. */
    constructor (start: nat, pageCnt: nat)
      requires BitmapPages(pageCnt) <= pageCnt
      ensures Valid() && fresh(usedMap) && fresh(usedMap.words)
      ensures base == start + BitmapPages(pageCnt) && base + |Bits()| == start + pageCnt
      ensures Bits() == seq(pageCnt - BitmapPages(pageCnt), _ => false)
    {
      var bmPages := BitmapPages(pageCnt);
      usedMap := new Bitmap(pageCnt - bmPages);
      base := start + bmPages;
    }

    predicate PageFromPool(page: nat) { base <= page < base + usedMap.bitCnt }
  }

  /** Memory after memset (pages, value, PGSIZE * cnt). */
  ghost function Filled(mem: seq<byte>, page: nat, cnt: nat, value: byte): seq<byte>
    requires PGSIZE * (page + cnt) <= |mem|
  {
    Overlay(mem, PGSIZE * page, seq(PGSIZE * cnt, _ => value))
  }

  class PageAllocator {
    const kernel: Pool
    const user: Pool
    var mem: seq<byte>

    ghost predicate Valid()
      reads this`mem
    {
      && kernel.Valid() && user.Valid() && kernel.usedMap.words != user.usedMap.words
      && kernel.base + kernel.usedMap.bitCnt <= user.base
      && |mem| >= PGSIZE * (user.base + user.usedMap.bitCnt)
    }

    /** palloc_init. */
    constructor (initRamPages: nat, userPageLimit: nat, contents: seq<byte>)
      requires |contents| == PGSIZE * initRamPages && FREE_START <= initRamPages
      requires var free := initRamPages - FREE_START;
               var userPages := if free / 2 > userPageLimit then userPageLimit else free / 2;
               BitmapPages(userPages) <= userPages && BitmapPages(free - userPages) <= free - userPages
      ensures Valid() && mem == contents
      ensures fresh(kernel) && fresh(user) && fresh(kernel.usedMap.words) && fresh(user.usedMap.words)
      ensures forall k :: 0 <= k < |kernel.Bits()| ==> !kernel.Bits()[k]
      ensures forall k :: 0 <= k < |user.Bits()| ==> !user.Bits()[k]
      ensures FREE_START <= kernel.base && user.base + |user.Bits()| == initRamPages
      ensures |user.Bits()| <= userPageLimit
    {
      var freePages := initRamPages - FREE_START;
      var userPages := freePages / 2;
      if userPages > userPageLimit { userPages := userPageLimit; }
      var kernelPages := freePages - userPages;
      kernel := new Pool(FREE_START, kernelPages);
      user := new Pool(FREE_START + kernelPages, userPages);
      mem := contents;
    }

    /** palloc_get_multiple; FROMUSER and ZERO are the flags PAL_USER and PAL_ZERO. */
    method GetMultiple(fromUser: bool, zero: bool, pageCnt: nat) returns (pages: Option<nat>)
      requires Valid()
      modifies this`mem, kernel.usedMap.words, user.usedMap.words
      ensures Valid() && |mem| == |old(mem)|
      ensures var pool := if fromUser then user else kernel;
              var other := if fromUser then kernel else user;
              && other.Bits() == old(other.Bits())
              && (match Found(old(pool.Bits()), pageCnt)
                  case None => pages == None && mem == old(mem) && pool.Bits() == old(pool.Bits())
                  case Some(i) => 
                    && pages == Some(pool.base + i)
                    && pool.Bits() == SetRun(old(pool.Bits()), i, pageCnt, true)
                    && mem == if zero then Filled(old(mem), pool.base + i, pageCnt, 0) else old(mem))
    {
      hide Scan, SetRun;
      var pool := if fromUser then user else kernel;
      if pageCnt == 0 { return None; }
      var pageIdx := pool.usedMap.ScanAndFlip(0, pageCnt, false);
      pages := match pageIdx case Some(i) => Some(pool.base + i) case None => None;
      if pages.Some? && zero {
        mem := Overlay(mem, PGSIZE * pages.value, seq(PGSIZE * pageCnt, _ => 0));
      }
    }

    /** palloc_free_multiple.  The source asserts that the pages are of a pool and
        in use. */
    method FreeMultiple(pages: nat, pageCnt: nat)
      requires Valid()
      requires pages != 0 && pageCnt != 0 ==>
                 || (kernel.PageFromPool(pages) && RunAt(kernel.Bits(), pages - kernel.base, pageCnt, true))
                 || (user.PageFromPool(pages) && RunAt(user.Bits(), pages - user.base, pageCnt, true))
      modifies this`mem, kernel.usedMap.words, user.usedMap.words
      ensures Valid() && |mem| == |old(mem)|
      ensures pages == 0 || pageCnt == 0 ==>
                mem == old(mem) && kernel.Bits() == old(kernel.Bits()) && user.Bits() == old(user.Bits())
      ensures pages != 0 && pageCnt != 0 ==>
                var pool := if kernel.PageFromPool(pages) then kernel else user;
                var other := if kernel.PageFromPool(pages) then user else kernel;
                && pool.PageFromPool(pages) && pages - pool.base + pageCnt <= |pool.Bits()|
                && PGSIZE * (pages + pageCnt) <= |mem|
                && other.Bits() == old(other.Bits())
                && pool.Bits() == SetRun(old(pool.Bits()), pages - pool.base, pageCnt, false)
                && mem == Filled(old(mem), pages, pageCnt, 0xcc)
    {
      hide SetRun;
      if pages == 0 || pageCnt == 0 { return; }
      var pool := if kernel.PageFromPool(pages) then kernel else user;
      mem := Overlay(mem, PGSIZE * pages, seq(PGSIZE * pageCnt, _ => 0xcc));
      pool.usedMap.SetMultiple(pages - pool.base, pageCnt, false);
    }
  }
}
