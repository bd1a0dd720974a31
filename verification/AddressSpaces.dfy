/** An address space over any sequence of updates (userprog/pagedir.c, and
    install_page in userprog/process.c): what pagedir_get_page finds afterwards. */
module AddressSpaces {
  import opened Options
  import opened PageDir

  /** A call.  With Install comes the page that palloc_get_page has for a table. */
  datatype Request =
    | Install(upage: bv32, kpage: bv32, writable: bool, page: Option<bv32>)
    | Clear(upage: bv32)
    | Dirtied(upage: bv32, dirty: bool)
    | Touched(upage: bv32, accessed: bool)

  /** What the code asserts about the addresses. */
  predicate RequestOk(r: Request) {
    && PgOfs(r.upage) == 0 && IsUserVaddr(r.upage)
    && (r.Install? ==> IsPage(r.kpage))
  }

  predicate Offers(r: Request, p: bv32) { r.Install? && r.page == Some(p) }

  /** The allocator hands out pages, and none that is in use. */
  ghost predicate OffersOk(us: seq<Request>, mem: Memory) {
    && (forall i, p :: 0 <= i < |us| && Offers(us[i], p) ==> IsPage(p) && At(p) !in mem)
    && (forall i, j, p :: 0 <= i < j < |us| && Offers(us[i], p) ==> !Offers(us[j], p))
  }

  /** The address space after one call that succeeds. */
  ghost function Apply(space: imap<Key, Fields>, r: Request): imap<Key, Fields> {
    var k := At(r.upage);
    match r
    case Install(_, kpage, w, _) => space[k := Fields(true, Phys(kpage), w, true, false, false)]
    case Clear(_) => space - {k}
    case Dirtied(_, d) => if k in space then space[k := space[k].(dirty := d)] else space
    case Touched(_, a) => if k in space then space[k := space[k].(accessed := a)] else space
  }

  function Phys(kpage: bv32): bv32 { if IsPage(kpage) then Vtop(kpage) else 0 }

  /** ... and after those of a sequence of calls that succeed. */
  ghost function ApplyAll(space: imap<Key, Fields>, us: seq<Request>, oks: seq<bool>): imap<Key, Fields>
    requires |oks| == |us|
  {
    if us == [] then space
    else
      var n := |us| - 1;
      var before := ApplyAll(space, us[..n], oks[..n]);
      if oks[n] then Apply(before, us[n]) else before
  }

  /** install_page refuses a page that is mapped, and fails without memory for a
      table; no other call fails. */
  ghost predicate Outcome(space: imap<Key, Fields>, us: seq<Request>, oks: seq<bool>, i: nat)
    requires |oks| == |us| && i < |us|
  {
    var before := ApplyAll(space, us[..i], oks[..i]);
    && (oks[i] && us[i].Install? ==> At(us[i].upage) !in before)
    && (!oks[i] ==> us[i].Install? && (At(us[i].upage) in before || us[i].page.None?))
  }

  ghost predicate Outcomes(space: imap<Key, Fields>, us: seq<Request>, oks: seq<bool>)
    requires |oks| == |us|
  {
    forall i :: 0 <= i < |us| ==> Outcome(space, us, oks, i)
  }

  /** install_page. */
  method InstallPage(d: PageDirectory, upage: bv32, kpage: bv32, writable: bool, page: Option<bv32>) returns (ok: bool)
    requires d.Valid() && PgOfs(upage) == 0 && IsUserVaddr(upage) && IsPage(kpage)
    requires page.Some? ==> IsPage(page.value) && At(page.value) !in d.mem
    modifies d`mem
    ensures d.Valid() && d.mem.Keys <= old(d.mem.Keys) + if page.Some? then {At(page.value)} else {}
    ensures ok ==> At(upage) !in old(d.Space())
    ensures !ok ==> At(upage) in old(d.Space()) || page.None?
    ensures d.Space() == if ok then Apply(old(d.Space()), Install(upage, kpage, writable, page)) else old(d.Space())
  {
    hide PgOfs, IsUserVaddr, IsPage, PageBase, View, Pte, DirOk, AddressesOk, TablesUser, Present, FrameAddress, FieldsOf, Vtop;
    PageBaseIs(upage);
    InSpace(d.mem, d.pd, upage);
    var found, kaddr := d.GetPage(upage);
    if found { return false; }
    ok := d.SetPage(upage, kpage, writable, page);
  }

  method Serve(d: PageDirectory, r: Request) returns (ok: bool)
    requires d.Valid() && RequestOk(r)
    requires forall p :: Offers(r, p) ==> IsPage(p) && At(p) !in d.mem
    modifies d`mem
    ensures d.Valid()
    ensures forall k :: k in d.mem ==> k in old(d.mem) || Offers(r, k.bits)
    ensures ok && r.Install? ==> At(r.upage) !in old(d.Space())
    ensures !ok ==> r.Install? && (At(r.upage) in old(d.Space()) || r.page.None?)
    ensures d.Space() == if ok then Apply(old(d.Space()), r) else old(d.Space())
  {
    hide PgOfs, IsUserVaddr, IsPage, PageBase, View, Pte, DirOk, AddressesOk, TablesUser, Present, FieldsOf, Vtop;
    PageBaseIs(r.upage);
    match r {
      case Install(upage, kpage, w, page) =>
        assert page.Some? ==> Offers(r, page.value);
        ok := InstallPage(d, upage, kpage, w, page);
      case Clear(upage) =>
        d.ClearPage(upage);
        ok := true;
      case Dirtied(upage, on) =>
        d.SetDirty(upage, on);
        ok := true;
      case Touched(upage, on) =>
        d.SetAccessed(upage, on);
        ok := true;
    }
  }

  /** Any sequence of calls takes the address space to where those that succeed
      take it. */
  method Run(d: PageDirectory, us: seq<Request>) returns (oks: seq<bool>)
    requires d.Valid() && (forall i :: 0 <= i < |us| ==> RequestOk(us[i])) && OffersOk(us, d.mem)
    modifies d`mem
    ensures d.Valid() && |oks| == |us|
    ensures d.Space() == ApplyAll(old(d.Space()), us, oks)
    ensures Outcomes(old(d.Space()), us, oks)
  {
    hide RequestOk, Offers, View, DirOk, AddressesOk, TablesUser, IsPage, Apply, ApplyAll, Outcome, Outcomes;
    oks := [];
    var n := 0;
    ghost var space := d.Space();
    NoneYet(space);
    assert us[..0] == [];
    while n < |us|
      invariant n <= |us| && |oks| == n && d.Valid()
      invariant d.Space() == ApplyAll(space, us[..n], oks)
      invariant Outcomes(space, us[..n], oks)
      invariant forall i, p :: n <= i < |us| && Offers(us[i], p) ==> At(p) !in d.mem
    {
      var ok := Serve(d, us[n]);
      OneMore(space, us, oks, n, ok);
      oks := oks + [ok];
      n := n + 1;
    }
    assert us[..n] == us;
  }

  lemma NoneYet(space: imap<Key, Fields>)
    ensures ApplyAll(space, [], []) == space && Outcomes(space, [], [])
  {
  }

  lemma OneMore(space: imap<Key, Fields>, us: seq<Request>, oks: seq<bool>, n: nat, ok: bool)
    requires n < |us| && |oks| == n
    requires Outcomes(space, us[..n], oks)
    requires var before := ApplyAll(space, us[..n], oks);
             && (ok && us[n].Install? ==> At(us[n].upage) !in before)
             && (!ok ==> us[n].Install? && (At(us[n].upage) in before || us[n].page.None?))
    ensures var before := ApplyAll(space, us[..n], oks);
            ApplyAll(space, us[..n + 1], oks + [ok]) == if ok then Apply(before, us[n]) else before
    ensures Outcomes(space, us[..n + 1], oks + [ok])
  {
    hide Apply;
    var us', oks' := us[..n + 1], oks + [ok];
    assert us'[..n] == us[..n] && oks'[..n] == oks && us'[n] == us[n] && oks'[n] == ok;
    forall i | 0 <= i < n + 1 ensures Outcome(space, us', oks', i) {
      assert us'[..i] == us[..n][..i] && oks'[..i] == oks[..i];
      assert i < n ==> Outcome(space, us[..n], oks, i);
      assert oks[..n] == oks;
    }
  }

  /** The last frame that a page was given, unless it was cleared after that. */
  datatype Last = Unmapped | Frame(kpage: bv32, writable: bool)

  function LastFrame(us: seq<Request>, oks: seq<bool>, p: bv32): Last
    requires |oks| == |us|
  {
    if us == [] then Unmapped
    else
      var n := |us| - 1;
      if us[n].upage == p && oks[n] && us[n].Install? then Frame(us[n].kpage, us[n].writable)
      else if us[n].upage == p && oks[n] && us[n].Clear? then Unmapped
      else LastFrame(us[..n], oks[..n], p)
  }

  /** A page is mapped exactly if it was given a frame and not cleared since, to the
      last frame it was given: neither updates of other pages nor of flags matter. */
  lemma {:induction false} LastFrameWins(us: seq<Request>, oks: seq<bool>, p: bv32)
    requires |oks| == |us| && forall i :: 0 <= i < |us| ==> RequestOk(us[i])
    ensures var space, last := ApplyAll(imap[], us, oks), LastFrame(us, oks, p);
            && (At(p) in space <==> last.Frame?)
            && (last.Frame? ==> IsPage(last.kpage) && space[At(p)].address == Vtop(last.kpage)
                                && space[At(p)].writable == last.writable && space[At(p)].present)
  {
    hide PgOfs, IsUserVaddr, IsPage, Vtop;
    if us != [] { LastFrameWins(us[..|us| - 1], oks[..|us| - 1], p); }
  }

  /** After any sequence of updates of an empty address space, pagedir_get_page
      returns the last frame that the page was given plus the offset, or null; and
      user mode may read the page exactly in the first case, and write it exactly if
      it was given as writable. */
  method RunAndGet(d: PageDirectory, us: seq<Request>, uaddr: bv32) returns (oks: seq<bool>, found: bool, kaddr: bv32)
    requires d.Valid() && d.Space() == imap[] && (forall i :: 0 <= i < |us| ==> RequestOk(us[i])) && OffersOk(us, d.mem)
    requires IsUserVaddr(uaddr)
    modifies d`mem
    ensures d.Valid() && |oks| == |us| && Outcomes(imap[], us, oks)
    ensures var last := LastFrame(us, oks, PageBase(uaddr));
            && (found <==> last.Frame?)
            && (found ==> kaddr == Plus(last.kpage, PgOfs(uaddr)))
            && (UserMayRead(d.mem, d.pd, uaddr) <==> last.Frame?)
            && (UserMayWrite(d.mem, d.pd, uaddr) <==> last.Frame? && last.writable)
  {
    hide UserMayRead, UserMayWrite, RequestOk, Offers, View, DirOk, AddressesOk, TablesUser, IsPage, ApplyAll, Outcome, Outcomes, PgOfs, PageBase, LastFrame, IsUserVaddr, Plus;
    oks := Run(d, us);
    found, kaddr := d.GetPage(uaddr);
    UserAccess(d.mem, d.pd, uaddr);
    LastFrameWins(us, oks, PageBase(uaddr));
    if found { PhysBack(LastFrame(us, oks, PageBase(uaddr)).kpage); }
  }

  lemma PhysBack(kpage: bv32)
    requires IsPage(kpage)
    ensures Vtop(kpage) < PHYS_BASE && Ptov(Vtop(kpage)) == kpage
  {
  }

  /** pagedir_create: a copy of the kernel's directory, which has no user pages. */
  lemma CreatedIsEmpty(mem: Memory, pd: bv32)
    requires DirOk(mem, pd)
    requires forall va :: IsUserVaddr(va) ==> !HasTable(mem, pd, va)
    ensures AddressesOk(mem, pd) && TablesUser(mem[At(pd)]) && View(mem, pd) == imap[]
  {
    hide PgOfs, DirOk, HasTable, IsUserVaddr, TablesUser;
    NotPresent();
    NoUserTables(mem, pd);
  }

  lemma NoUserTables(mem: Memory, pd: bv32)
    requires DirOk(mem, pd)
    requires forall va :: IsUserVaddr(va) ==> !HasTable(mem, pd, va)
    ensures TablesUser(mem[At(pd)])
  {
    hide PdNo, PtNo, IsUserVaddr, User, Writable;
    forall i: bv32 | i < PdNo(PHYS_BASE) && At(i) in mem[At(pd)] ensures mem[At(pd)][At(i)] == 0 {
      EntriesEnough(i);
      var va := AddressOf(i, 0);
      PlaceInRange(va);
      assert !HasTable(mem, pd, va);
    }
  }

  lemma EntriesEnough(i: bv32)
    ensures i < PdNo(PHYS_BASE) ==> i < ENTRIES
  {
  }
}
