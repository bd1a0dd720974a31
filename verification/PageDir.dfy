/** The two-level page directory (userprog/pagedir.c, threads/pte.h,
    threads/vaddr.h). */
module PageDir {
  import opened BitOps
  import opened Options

  // Words and addresses are 32-bit vectors; a page that holds a table is a map from
  // the numbers below 1024 to words, and a pointer to a word is the page's address
  // with such a number.  What the tables stand for is a map from the first addresses
  // of the user pages that are present to what their entries say.

  const PHYS_BASE: bv32 := 0xc000_0000
  const PGMASK: bv32 := 0xfff
  const PTMASK: bv32 := 0x3f_f000
  const PTE_ADDR: bv32 := 0xffff_f000
  const PTE_P: bv32 := 0x1
  const PTE_W: bv32 := 0x2
  const PTE_U: bv32 := 0x4
  const PTE_A: bv32 := 0x20
  const PTE_D: bv32 := 0x40
  const ENTRIES: bv32 := 1024

  // ----- Addresses and entries -----

  function PgOfs(va: bv32): bv32 { va & PGMASK }
  function PgNo(va: bv32): bv32 { va >> 12 }
  function PtNo(va: bv32): bv32 { (va & PTMASK) >> 12 }
  function PdNo(va: bv32): bv32 { va >> 22 }
  predicate IsUserVaddr(va: bv32) { va < PHYS_BASE }

  function Ptov(paddr: bv32): bv32
    requires paddr < PHYS_BASE
  {
    paddr + PHYS_BASE
  }

  function Vtop(vaddr: bv32): bv32
    requires vaddr >= PHYS_BASE
  {
    vaddr - PHYS_BASE
  }

  predicate IsPage(page: bv32) { page >= PHYS_BASE && PgOfs(page) == 0 }

  function PteCreateUser(page: bv32, writable: bool): bv32
    requires IsPage(page)
  {
    Vtop(page) | PTE_P | (if writable then PTE_W else 0) | PTE_U
  }

  function PdeCreateUser(pt: bv32): bv32
    requires IsPage(pt)
  {
    Vtop(pt) | PTE_U | PTE_P | PTE_W
  }

  predicate Present(pte: bv32) { Meets(pte, PTE_P) }
  predicate Dirty(pte: bv32) { Meets(pte, PTE_D) }
  predicate Accessed(pte: bv32) { Meets(pte, PTE_A) }
  predicate Writable(pte: bv32) { Meets(pte, PTE_W) }
  predicate User(pte: bv32) { Meets(pte, PTE_U) }

  /** Whether the address bits of an entry are a physical address of the 1 GB that
      is mapped. */
  predicate Mapped(pte: bv32) { BitAnd(pte, PTE_ADDR) < PHYS_BASE }

  /** pte_get_page, and pde_get_pt of an entry that is present. */
  function PageOf(pte: bv32): bv32
    requires Mapped(pte)
  {
    Ptov(BitAnd(pte, PTE_ADDR))
  }

  /** The fields of an entry come back out of it. */
  lemma PteRoundTrip(page: bv32, writable: bool)
    requires IsPage(page)
    ensures var pte := PteCreateUser(page, writable);
            Mapped(pte) && PageOf(pte) == page && Present(pte) && !Dirty(pte) && !Accessed(pte) && User(pte) && Writable(pte) == writable
  {
  }

  lemma PdeRoundTrip(pt: bv32)
    requires IsPage(pt)
    ensures var pde := PdeCreateUser(pt); Mapped(pde) && PageOf(pde) == pt && Present(pde) && User(pde) && Writable(pde) && pde != 0
  {
  }

  /** Setting and clearing flags. */
  function WithBits(pte: bv32, mask: bv32, on: bool): bv32 {
    if on then BitOr(pte, mask) else BitAnd(pte, BitNot(mask))
  }

  /** An update of one flag leaves the bits that NMASK picks out. */
  lemma OtherField(pte: bv32, mask: bv32, on: bool, n: bv32)
    requires BitAnd(mask, n) == 0
    ensures BitAnd(WithBits(pte, mask, on), n) == BitAnd(pte, n)
  {
    hide BitAnd, BitOr, BitNot;
    OrMasked(pte, mask, n);
    AndNotMasked(pte, mask, n);
  }

  lemma OwnField(pte: bv32, mask: bv32, on: bool)
    requires mask != 0
    ensures Meets(WithBits(pte, mask, on), mask) == on
  {
  }

  lemma FlagsApart()
    ensures BitAnd(PTE_D, PTE_A) == 0 && BitAnd(PTE_D, PTE_P) == 0 && BitAnd(PTE_D, PTE_W) == 0 && BitAnd(PTE_D, PTE_ADDR) == 0
    ensures BitAnd(PTE_A, PTE_D) == 0 && BitAnd(PTE_A, PTE_P) == 0 && BitAnd(PTE_A, PTE_W) == 0 && BitAnd(PTE_A, PTE_ADDR) == 0
    ensures BitAnd(PTE_D, PTE_U) == 0 && BitAnd(PTE_A, PTE_U) == 0 && BitAnd(PTE_P, PTE_U) == 0
    ensures BitAnd(PTE_P, PTE_D) == 0 && BitAnd(PTE_P, PTE_A) == 0 && BitAnd(PTE_P, PTE_W) == 0 && BitAnd(PTE_P, PTE_ADDR) == 0
  {
  }

  /** What an entry says: whether the page is there, its frame, and its flags. */
  datatype Fields = Fields(present: bool, address: bv32, writable: bool, user: bool, accessed: bool, dirty: bool)

  function FieldsOf(pte: bv32): Fields {
    Fields(Present(pte), BitAnd(pte, PTE_ADDR), Writable(pte), User(pte), Accessed(pte), Dirty(pte))
  }

  /** Each update of an entry changes one field. */
  lemma FlagUpdates(pte: bv32, on: bool)
    ensures FieldsOf(WithBits(pte, PTE_D, on)) == FieldsOf(pte).(dirty := on)
    ensures FieldsOf(WithBits(pte, PTE_A, on)) == FieldsOf(pte).(accessed := on)
    ensures FieldsOf(WithBits(pte, PTE_P, on)) == FieldsOf(pte).(present := on)
  {
    hide BitAnd, WithBits;
    FlagsApart();
    OwnField(pte, PTE_D, on);
    OwnField(pte, PTE_A, on);
    OwnField(pte, PTE_P, on);
    OtherField(pte, PTE_D, on, PTE_A); OtherField(pte, PTE_D, on, PTE_P);
    OtherField(pte, PTE_D, on, PTE_U); OtherField(pte, PTE_D, on, PTE_W); OtherField(pte, PTE_D, on, PTE_ADDR);
    OtherField(pte, PTE_A, on, PTE_D); OtherField(pte, PTE_A, on, PTE_P);
    OtherField(pte, PTE_A, on, PTE_U); OtherField(pte, PTE_A, on, PTE_W); OtherField(pte, PTE_A, on, PTE_ADDR);
    OtherField(pte, PTE_P, on, PTE_D); OtherField(pte, PTE_P, on, PTE_A);
    OtherField(pte, PTE_P, on, PTE_U); OtherField(pte, PTE_P, on, PTE_W); OtherField(pte, PTE_P, on, PTE_ADDR);
  }

  /** Two addresses have the same place in the tables exactly if they are in the
      same page. */
  lemma PlaceIsPage(a: bv32, b: bv32)
    ensures PdNo(a) == PdNo(b) && PtNo(a) == PtNo(b) <==> PgNo(a) == PgNo(b)
  {
    hide PdNo, PtNo, PgNo, High, Low, Joined;
    PgNoParts(a);
    PgNoParts(b);
  }

  function High(pgNo: bv32): bv32 { pgNo >> 10 }
  function Low(pgNo: bv32): bv32 { pgNo & 0x3ff }
  function Joined(high: bv32, low: bv32): bv32 { (high << 10) | low }

  lemma PgNoParts(a: bv32)
    ensures PgNo(a) == Joined(PdNo(a), PtNo(a)) && PdNo(a) == High(PgNo(a)) && PtNo(a) == Low(PgNo(a))
  {
  }

  lemma PlaceInRange(va: bv32)
    ensures PdNo(va) < ENTRIES && PtNo(va) < ENTRIES
    ensures IsUserVaddr(va) <==> PdNo(va) < PdNo(PHYS_BASE)
  {
  }

  /** Every entry is the place of some address. */
  lemma AddressOf(i: bv32, j: bv32) returns (va: bv32)
    requires i < ENTRIES && j < ENTRIES
    ensures PdNo(va) == i && PtNo(va) == j && PgOfs(va) == 0
  {
    va := (i << 22) | (j << 12);
  }

  // ----- Tables -----

  /** A 32-bit vector as a key of a map. */
  datatype Key = At(bits: bv32)

  type Table = map<Key, bv32>

  type Memory = map<Key, Table>

  ghost predicate TableOk(t: Table) { forall i :: i < ENTRIES ==> At(i) in t }

  /** An entry of the directory is empty, or points to a table. */
  ghost predicate PdeOk(mem: Memory, pd: bv32, pde: bv32) {
    pde == 0 || (Present(pde) && Mapped(pde) && At(PageOf(pde)) in mem && PageOf(pde) != pd && TableOk(mem[At(PageOf(pde))]))
  }

  /** A directory, and the tables it points to, which are all different. */
  ghost predicate DirOk(mem: Memory, pd: bv32) {
    && At(pd) in mem && TableOk(mem[At(pd)])
    && (forall i :: i < ENTRIES ==> PdeOk(mem, pd, mem[At(pd)][At(i)]))
    && (forall i, j :: i < ENTRIES && j < ENTRIES && i != j && mem[At(pd)][At(i)] != 0 && mem[At(pd)][At(j)] != 0 ==>
          PageOf(mem[At(pd)][At(i)]) != PageOf(mem[At(pd)][At(j)]))
  }

  /** The directory's entry for VA. */
  ghost function Pde(mem: Memory, pd: bv32, va: bv32): (pde: bv32)
    requires DirOk(mem, pd)
    ensures PdeOk(mem, pd, pde)
  {
    PlaceInRange(va);
    mem[At(pd)][At(PdNo(va))]
  }

  ghost predicate HasTable(mem: Memory, pd: bv32, va: bv32)
    requires DirOk(mem, pd)
  {
    Pde(mem, pd, va) != 0
  }

  /** The entry for VA, or 0 if there is no table for it. */
  ghost function Pte(mem: Memory, pd: bv32, va: bv32): bv32
    requires DirOk(mem, pd)
  {
    PlaceInRange(va);
    if !HasTable(mem, pd, va) then 0 else mem[At(PageOf(Pde(mem, pd, va)))][At(PtNo(va))]
  }

  /** Memory with W stored in the entry for VA. */
  ghost function Stored(mem: Memory, pd: bv32, va: bv32, w: bv32): Memory
    requires DirOk(mem, pd) && HasTable(mem, pd, va)
  {
    var pt := At(PageOf(Pde(mem, pd, va)));
    mem[pt := mem[pt][At(PtNo(va)) := w]]
  }

  lemma StoredOk(mem: Memory, pd: bv32, va: bv32, w: bv32)
    requires DirOk(mem, pd) && HasTable(mem, pd, va)
    ensures DirOk(Stored(mem, pd, va, w), pd) && Stored(mem, pd, va, w)[At(pd)] == mem[At(pd)]
  {
    hide PdNo, PtNo, PgNo, PageOf, Mapped, Present;
    var mem' := Stored(mem, pd, va, w);
    forall i | i < ENTRIES ensures PdeOk(mem', pd, mem'[At(pd)][At(i)]) {
      assert PdeOk(mem, pd, mem[At(pd)][At(i)]);
    }
  }

  /** Storing an entry changes it for the addresses of one page, and nothing else. */
  lemma EntryStored(mem: Memory, pd: bv32, va: bv32, w: bv32, u: bv32)
    requires DirOk(mem, pd) && HasTable(mem, pd, va) && DirOk(Stored(mem, pd, va, w), pd)
    ensures Pte(Stored(mem, pd, va, w), pd, u) == (if PgNo(u) == PgNo(va) then w else Pte(mem, pd, u))
    ensures HasTable(Stored(mem, pd, va, w), pd, u) == HasTable(mem, pd, u)
  {
    hide PdNo, PtNo, PgNo, PageOf, Mapped, Present;
    StoredOk(mem, pd, va, w);
    PlaceIsPage(u, va);
    PlaceInRange(u);
    PlaceInRange(va);
  }

  /** Memory with a new table in PAGE for the addresses around VA. */
  ghost function Grown(mem: Memory, pd: bv32, va: bv32, page: bv32, zeros: Table): Memory
    requires DirOk(mem, pd) && IsPage(page)
  {
    mem[At(page) := zeros][At(pd) := mem[At(pd)][At(PdNo(va)) := PdeCreateUser(page)]]
  }

  lemma GrownOk(mem: Memory, pd: bv32, va: bv32, page: bv32, zeros: Table)
    requires DirOk(mem, pd) && !HasTable(mem, pd, va) && IsPage(page) && At(page) !in mem && TableOk(zeros)
    ensures DirOk(Grown(mem, pd, va, page, zeros), pd)
  {
    hide PdNo, PtNo, PgNo, PageOf, Mapped, Present, PdeCreateUser, IsPage;
    PdeRoundTrip(page);
    PlaceInRange(va);
    var mem' := Grown(mem, pd, va, page, zeros);
    forall i | i < ENTRIES ensures PdeOk(mem', pd, mem'[At(pd)][At(i)]) {
      assert PdeOk(mem, pd, mem[At(pd)][At(i)]);
    }
  }

  /** A new table of zeros changes no entry. */
  lemma TableAdded(mem: Memory, pd: bv32, va: bv32, page: bv32, zeros: Table, u: bv32)
    requires DirOk(mem, pd) && !HasTable(mem, pd, va) && IsPage(page) && At(page) !in mem
    requires TableOk(zeros) && forall i :: i < ENTRIES ==> zeros[At(i)] == 0
    requires DirOk(Grown(mem, pd, va, page, zeros), pd)
    ensures Pte(Grown(mem, pd, va, page, zeros), pd, u) == Pte(mem, pd, u)
    ensures HasTable(Grown(mem, pd, va, page, zeros), pd, u) <==> HasTable(mem, pd, u) || PdNo(u) == PdNo(va)
  {
    hide PdNo, PtNo, PgNo, PageOf, Mapped, Present, PdeCreateUser, IsPage;
    PdeRoundTrip(page);
    PlaceInRange(u);
    PlaceInRange(va);
  }

  // ----- The address space that the tables stand for -----

  function PageBase(va: bv32): bv32 { va & 0xffff_f000 }

  function FromNo(pgNo: bv32): bv32 { pgNo << 12 }

  lemma BaseFromNo(va: bv32)
    ensures PageBase(va) == FromNo(PgNo(va)) && PgNo(FromNo(PgNo(va))) == PgNo(va)
  {
  }

  lemma AlignedFromNo(va: bv32)
    requires PgOfs(va) == 0
    ensures va == FromNo(PgNo(va))
  {
  }

  lemma BaseAligned(va: bv32)
    ensures PgOfs(PageBase(va)) == 0
  {
  }

  lemma BaseUser(va: bv32)
    ensures IsUserVaddr(PageBase(va)) == IsUserVaddr(va)
  {
  }

  lemma PageBaseIs(va: bv32)
    ensures PgOfs(PageBase(va)) == 0 && PgNo(PageBase(va)) == PgNo(va)
    ensures IsUserVaddr(PageBase(va)) == IsUserVaddr(va)
    ensures PgOfs(va) == 0 ==> PageBase(va) == va
  {
    hide PgOfs, PgNo, PageBase, IsUserVaddr, FromNo;
    BaseFromNo(va);
    BaseAligned(va);
    BaseUser(va);
    if PgOfs(va) == 0 { AlignedFromNo(va); }
  }

  lemma SamePage(u: bv32, va: bv32)
    requires PgOfs(u) == 0
    ensures PgNo(u) == PgNo(va) <==> u == PageBase(va)
  {
    hide PgOfs, PgNo, PageBase, FromNo;
    BaseFromNo(va);
    AlignedFromNo(u);
  }

  /** The present user pages, by their first address, and what their entries say. */
  ghost function View(mem: Memory, pd: bv32): imap<Key, Fields>
    requires DirOk(mem, pd)
  {
    imap k: Key | IsUserVaddr(k.bits) && PgOfs(k.bits) == 0 && Present(Pte(mem, pd, k.bits)) :: FieldsOf(Pte(mem, pd, k.bits))
  }

  /** An address that ptov can translate, in a page that user mode may use. */
  predicate Usable(pte: bv32) { Mapped(pte) && User(pte) }

  /** The user part of a directory points to tables that user mode may use. */
  ghost predicate TablesUser(dir: Table) {
    forall i :: i < PdNo(PHYS_BASE) && At(i) in dir && dir[At(i)] != 0 ==> User(dir[At(i)]) && Writable(dir[At(i)])
  }

  /** The present entries of user pages are usable. */
  ghost predicate AddressesOk(mem: Memory, pd: bv32)
    requires DirOk(mem, pd)
  {
    forall u :: IsUserVaddr(u) && Present(Pte(mem, pd, u)) ==> Usable(Pte(mem, pd, u))
  }

  /** The entry for VA has become W, and no other has changed. */
  ghost predicate OnlyChanged(mem: Memory, mem': Memory, pd: bv32, va: bv32, w: bv32)
    requires DirOk(mem, pd)
  {
    DirOk(mem', pd) && forall u :: Pte(mem', pd, u) == if PgNo(u) == PgNo(va) then w else Pte(mem, pd, u)
  }

  /** The address space with the page of VA as W says. */
  ghost function SpaceWith(space: imap<Key, Fields>, va: bv32, w: bv32): imap<Key, Fields> {
    if !IsUserVaddr(va) then space
    else if Present(w) then space[At(PageBase(va)) := FieldsOf(w)]
    else space - {At(PageBase(va))}
  }

  /** What View says of one page. */
  ghost predicate ViewAt(mem: Memory, pd: bv32, k: Key)
    requires DirOk(mem, pd)
  {
    && (k in View(mem, pd) <==> IsUserVaddr(k.bits) && PgOfs(k.bits) == 0 && Present(Pte(mem, pd, k.bits)))
    && (k in View(mem, pd) ==> View(mem, pd)[k] == FieldsOf(Pte(mem, pd, k.bits)))
  }

  lemma ViewIs(mem: Memory, pd: bv32, k: Key)
    requires DirOk(mem, pd)
    ensures ViewAt(mem, pd, k)
  {
    hide DirOk, Pte, PgOfs, IsUserVaddr, Present, FieldsOf;
    assert k == At(k.bits);
  }

  lemma KeyChanged(mem: Memory, mem': Memory, pd: bv32, va: bv32, w: bv32, k: Key)
    requires DirOk(mem, pd) && OnlyChanged(mem, mem', pd, va, w)
    ensures k in View(mem', pd) <==> k in SpaceWith(View(mem, pd), va, w)
    ensures k in View(mem', pd) ==> View(mem', pd)[k] == SpaceWith(View(mem, pd), va, w)[k]
  {
    hide DirOk, Pte, PgOfs, PgNo, PageBase, IsUserVaddr, Present, FieldsOf, View;
    PageBaseIs(va);
    ViewIs(mem, pd, k);
    ViewIs(mem', pd, k);
    if PgOfs(k.bits) == 0 {
      SamePage(k.bits, va);
      assert k.bits == PageBase(va) || Pte(mem', pd, k.bits) == Pte(mem, pd, k.bits);
    }
  }

  lemma AddressesChanged(mem: Memory, mem': Memory, pd: bv32, va: bv32, w: bv32)
    requires DirOk(mem, pd) && AddressesOk(mem, pd) && OnlyChanged(mem, mem', pd, va, w)
    requires IsUserVaddr(va) && Present(w) ==> Usable(w)
    ensures AddressesOk(mem', pd)
  {
    hide DirOk, Pte, PgNo, IsUserVaddr, Present, Usable;
    forall u | IsUserVaddr(u) && Present(Pte(mem', pd, u)) ensures Usable(Pte(mem', pd, u)) {
      if PgNo(u) == PgNo(va) { UserByPage(u, va); }
    }
  }

  lemma UserByPage(u: bv32, va: bv32)
    requires PgNo(u) == PgNo(va)
    ensures IsUserVaddr(u) == IsUserVaddr(va)
  {
  }

  lemma ViewChanged(mem: Memory, mem': Memory, pd: bv32, va: bv32, w: bv32)
    requires DirOk(mem, pd) && OnlyChanged(mem, mem', pd, va, w)
    ensures View(mem', pd) == SpaceWith(View(mem, pd), va, w)
  {
    hide View, SpaceWith, DirOk;
    forall k: Key
      ensures k in View(mem', pd) <==> k in SpaceWith(View(mem, pd), va, w)
      ensures k in View(mem', pd) ==> View(mem', pd)[k] == SpaceWith(View(mem, pd), va, w)[k]
    {
      KeyChanged(mem, mem', pd, va, w, k);
    }
  }

  // ----- The code -----

  /** A pointer to an entry: the page of its table, and its index. */
  datatype Slot = Slot(pt: bv32, index: bv32)

  class PageDirectory {
    const pd: bv32
    var mem: Memory              // the pages that hold tables, by their addresses

    ghost predicate Valid()
      reads this
    {
      DirOk(mem, pd) && AddressesOk(mem, pd) && TablesUser(mem[At(pd)])
    }

    ghost function Entry(va: bv32): bv32
      requires Valid()
      reads this
    {
      Pte(mem, pd, va)
    }

    ghost function Space(): imap<Key, Fields>
      requires Valid()
      reads this
    {
      View(mem, pd)
    }

    /** lookup_page, when it is not to create a table. */
    method LookupPage(vaddr: bv32) returns (pte: Option<Slot>)
      requires Valid()
      ensures pte.Some? <==> HasTable(mem, pd, vaddr)
      ensures pte.Some? ==> pte.value == Slot(PageOf(Pde(mem, pd, vaddr)), PtNo(vaddr))
      ensures pte.None? ==> Entry(vaddr) == 0
    {
      hide PdNo, PtNo, PageOf, Mapped, Present, AddressesOk;
      NoTable(mem, pd, vaddr);
      if mem[At(pd)][At(PdNo(vaddr))] == 0 { return None; }
      pte := Some(Slot(PageOf(mem[At(pd)][At(PdNo(vaddr))]), PtNo(vaddr)));
    }

    /** The page that lookup_page gets becomes a table of zeros. */
    method CreateTable(vaddr: bv32, page: bv32)
      requires Valid() && !HasTable(mem, pd, vaddr) && IsPage(page) && At(page) !in mem
      modifies this`mem
      ensures Valid() && Space() == old(Space()) && (forall u :: Entry(u) == old(Entry(u)))
      ensures HasTable(mem, pd, vaddr) && mem.Keys == old(mem.Keys) + {At(page)}
    {
      hide PdNo, PtNo, PgNo, PageOf, Mapped, Present, PdeCreateUser, IsPage, Pte, AddressesOk, View, HasTable;
      NoTable(mem, pd, vaddr);
      var zeros := map i: Key | i in mem[At(pd)] :: 0;
      GrownSame(mem, pd, vaddr, page, zeros);
      mem := mem[At(page) := zeros][At(pd) := mem[At(pd)][At(PdNo(vaddr)) := PdeCreateUser(page)]];
    }

    /** lookup_page, when it is.  PAGE is what palloc_get_page has to offer. */
    method LookupOrCreate(vaddr: bv32, page: Option<bv32>) returns (pte: Option<Slot>)
      requires Valid() && IsUserVaddr(vaddr)
      requires page.Some? ==> IsPage(page.value) && At(page.value) !in mem
      modifies this`mem
      ensures Valid() && Space() == old(Space()) && forall u :: Entry(u) == old(Entry(u))
      ensures pte.None? ==> mem == old(mem)
      ensures pte.None? <==> !old(HasTable(mem, pd, vaddr)) && page.None?
      ensures pte.Some? ==> HasTable(mem, pd, vaddr) && pte.value == Slot(PageOf(Pde(mem, pd, vaddr)), PtNo(vaddr))
      ensures mem.Keys <= old(mem.Keys) + if page.Some? then {At(page.value)} else {}
    {
      hide PdNo, PtNo, PgNo, PageOf, Mapped, Present, PdeCreateUser, IsPage, Pte, AddressesOk, View, HasTable, DirOk;
      NoTable(mem, pd, vaddr);
      if mem[At(pd)][At(PdNo(vaddr))] == 0 {
        if page.None? { return None; }
        CreateTable(vaddr, page.value);
        NoTable(mem, pd, vaddr);
      }
      var pt := PageOf(mem[At(pd)][At(PdNo(vaddr))]);
      pte := Some(Slot(pt, PtNo(vaddr)));
    }

    method Load(slot: Slot, ghost va: bv32) returns (w: bv32)
      requires Valid() && HasTable(mem, pd, va) && slot == Slot(PageOf(Pde(mem, pd, va)), PtNo(va))
      ensures w == Entry(va)
    {
      hide PdNo, PtNo, PageOf, Mapped, Present, AddressesOk;
      PlaceInRange(va);
      w := mem[At(slot.pt)][At(slot.index)];
    }

    /** *pte = w. */
    method Store(slot: Slot, w: bv32, ghost va: bv32)
      requires Valid() && HasTable(mem, pd, va) && slot == Slot(PageOf(Pde(mem, pd, va)), PtNo(va))
      requires IsUserVaddr(va) && Present(w) ==> Usable(w)
      modifies this`mem
      ensures Valid() && (forall u :: Entry(u) == if PgNo(u) == PgNo(va) then w else old(Entry(u)))
      ensures forall u :: HasTable(mem, pd, u) == old(HasTable(mem, pd, u))
      ensures Space() == SpaceWith(old(Space()), va, w) && mem.Keys == old(mem.Keys)
    {
      hide PdNo, PtNo, PgNo, PageOf, Mapped, Present, Pte, AddressesOk, View, SpaceWith;
      StoredOk(mem, pd, va, w);
      forall u
        ensures Pte(Stored(mem, pd, va, w), pd, u) == if PgNo(u) == PgNo(va) then w else Pte(mem, pd, u)
        ensures HasTable(Stored(mem, pd, va, w), pd, u) == HasTable(mem, pd, u)
      {
        EntryStored(mem, pd, va, w, u);
      }
      ViewChanged(mem, Stored(mem, pd, va, w), pd, va, w);
      AddressesChanged(mem, Stored(mem, pd, va, w), pd, va, w);
      mem := mem[At(slot.pt) := mem[At(slot.pt)][At(slot.index) := w]];
    }

    /** pagedir_set_page: UPAGE must not be mapped yet. */
    method SetPage(upage: bv32, kpage: bv32, writable: bool, page: Option<bv32>) returns (ok: bool)
      requires Valid() && PgOfs(upage) == 0 && IsUserVaddr(upage) && IsPage(kpage) && !Present(Entry(upage))
      requires page.Some? ==> IsPage(page.value) && At(page.value) !in mem
      modifies this`mem
      ensures Valid() && (ok <==> old(HasTable(mem, pd, upage)) || page.Some?)
      ensures !ok ==> mem == old(mem)
      ensures mem.Keys <= old(mem.Keys) + if page.Some? then {At(page.value)} else {}
      ensures ok ==> Space() == old(Space())[At(upage) := Fields(true, Vtop(kpage), writable, true, false, false)]
      ensures forall u :: Entry(u) == if ok && PgNo(u) == PgNo(upage) then PteCreateUser(kpage, writable) else old(Entry(u))
    {
      hide PgNo, PtNo, PgOfs, PageOf, Mapped, Present, Pte, View, HasTable, DirOk, AddressesOk, IsUserVaddr,
           PteCreateUser, Pde, PageBase, FieldsOf, Vtop, IsPage;
      var pte := LookupOrCreate(upage, page);
      if pte.None? { return false; }
      NewEntry(kpage, writable);
      PageBaseIs(upage);
      Store(pte.value, PteCreateUser(kpage, writable), upage);
      ok := true;
    }

    /** pagedir_get_page: the frame of the page, plus the offset in it, if the page
        is there. */
    method GetPage(uaddr: bv32) returns (found: bool, kaddr: bv32)
      requires Valid() && IsUserVaddr(uaddr)
      ensures found <==> At(PageBase(uaddr)) in Space()
      ensures found ==> kaddr == FrameAddress(Space()[At(PageBase(uaddr))], uaddr)
    {
      hide PgNo, PtNo, PgOfs, PageBase, Pte, IsUserVaddr, DirOk, HasTable, Pde, Present, Mapped, FieldsOf, View, FrameAddress;
      InSpace(mem, pd, uaddr);
      NotPresent();
      found, kaddr := false, 0;
      var pte := LookupPage(uaddr);
      if pte.Some? {
        var w := Load(pte.value, uaddr);
        if Present(w) { found, kaddr := true, EntryAddress(w, uaddr); }
      }
    }

    /** pagedir_clear_page: the other bits of the entry are preserved. */
    method ClearPage(upage: bv32)
      requires Valid() && PgOfs(upage) == 0 && IsUserVaddr(upage)
      modifies this`mem
      ensures Valid() && Space() == old(Space()) - {At(upage)} && mem.Keys == old(mem.Keys)
      ensures forall u :: FieldsOf(Entry(u)) == if PgNo(u) == PgNo(upage) then old(FieldsOf(Entry(u))).(present := false)
                                                else old(FieldsOf(Entry(u)))
    {
      hide PgNo, PtNo, PgOfs, PageBase, Pte, IsUserVaddr, DirOk, HasTable, Pde, Present, WithBits, Mapped, View;
      InSpace(mem, pd, upage);
      PageBaseIs(upage);
      NotPresent();
      SamePageSameEntry(mem, pd, upage);
      var pte := LookupPage(upage);
      if pte.Some? {
        var w := Load(pte.value, upage);
        FlagUpdates(w, false);
        if Present(w) { Store(pte.value, WithBits(w, PTE_P, false), upage); }
      }
    }

    /** pagedir_set_dirty. */
    method SetDirty(vpage: bv32, dirty: bool)
      requires Valid()
      modifies this`mem
      ensures Valid() && mem.Keys == old(mem.Keys)
      ensures forall u :: FieldsOf(Entry(u)) == if PgNo(u) == PgNo(vpage) && old(HasTable(mem, pd, vpage))
                                                then old(FieldsOf(Entry(u))).(dirty := dirty) else old(FieldsOf(Entry(u)))
      ensures var k := At(PageBase(vpage));
              Space() == if k in old(Space()) then old(Space())[k := old(Space())[k].(dirty := dirty)] else old(Space())
    {
      hide PgNo, PtNo, PgOfs, PageBase, Pte, IsUserVaddr, DirOk, HasTable, Pde, Present, WithBits, Mapped, View;
      NotPresent();
      InSpace(mem, pd, vpage);
      SamePageSameEntry(mem, pd, vpage);
      var pte := LookupPage(vpage);
      if pte.Some? {
        var w := Load(pte.value, vpage);
        FlagUpdates(w, dirty);
        StillMapped(w, WithBits(w, PTE_D, dirty));
        Store(pte.value, WithBits(w, PTE_D, dirty), vpage);
      }
      assert At(PageBase(vpage)) !in old(Space()) ==> old(Space()) - {At(PageBase(vpage))} == old(Space());
    }

    /** pagedir_set_accessed. */
    method SetAccessed(vpage: bv32, accessed: bool)
      requires Valid()
      modifies this`mem
      ensures Valid() && mem.Keys == old(mem.Keys)
      ensures forall u :: FieldsOf(Entry(u)) == if PgNo(u) == PgNo(vpage) && old(HasTable(mem, pd, vpage))
                                                then old(FieldsOf(Entry(u))).(accessed := accessed) else old(FieldsOf(Entry(u)))
      ensures var k := At(PageBase(vpage));
              Space() == if k in old(Space()) then old(Space())[k := old(Space())[k].(accessed := accessed)] else old(Space())
    {
      hide PgNo, PtNo, PgOfs, PageBase, Pte, IsUserVaddr, DirOk, HasTable, Pde, Present, WithBits, Mapped, View;
      NotPresent();
      InSpace(mem, pd, vpage);
      SamePageSameEntry(mem, pd, vpage);
      var pte := LookupPage(vpage);
      if pte.Some? {
        var w := Load(pte.value, vpage);
        FlagUpdates(w, accessed);
        StillMapped(w, WithBits(w, PTE_A, accessed));
        Store(pte.value, WithBits(w, PTE_A, accessed), vpage);
      }
      assert At(PageBase(vpage)) !in old(Space()) ==> old(Space()) - {At(PageBase(vpage))} == old(Space());
    }

    method IsDirty(vpage: bv32) returns (r: bool)
      requires Valid()
      ensures r == FieldsOf(Entry(vpage)).dirty
    {
      hide PgNo, PtNo, PgOfs, PageBase, Pte, IsUserVaddr, DirOk, HasTable, Pde, Present, Mapped, View;
      NotPresent();
      var pte := LookupPage(vpage);
      if pte.None? { return false; }
      var w := Load(pte.value, vpage);
      r := Dirty(w);
    }

    method IsAccessed(vpage: bv32) returns (r: bool)
      requires Valid()
      ensures r == FieldsOf(Entry(vpage)).accessed
    {
      hide PgNo, PtNo, PgOfs, PageBase, Pte, IsUserVaddr, DirOk, HasTable, Pde, Present, Mapped, View;
      NotPresent();
      var pte := LookupPage(vpage);
      if pte.None? { return false; }
      var w := Load(pte.value, vpage);
      r := Accessed(w);
    }
  }

  lemma NewEntry(page: bv32, writable: bool)
    requires IsPage(page)
    ensures Usable(PteCreateUser(page, writable)) && Present(PteCreateUser(page, writable))
    ensures FieldsOf(PteCreateUser(page, writable)) == Fields(true, Vtop(page), writable, true, false, false)
  {
    PteRoundTrip(page, writable);
    VtopPtov(page, PteCreateUser(page, writable));
  }

  lemma VtopPtov(page: bv32, pte: bv32)
    requires IsPage(page) && Mapped(pte) && PageOf(pte) == page
    ensures BitAnd(pte, PTE_ADDR) == Vtop(page)
  {
    hide BitAnd;
  }

  /** The kernel virtual address of UADDR, in the frame that the fields name. */
  function FrameAddress(f: Fields, uaddr: bv32): bv32 {
    if f.address < PHYS_BASE then Plus(Ptov(f.address), PgOfs(uaddr)) else 0
  }

  function Plus(a: bv32, b: bv32): bv32 { a + b }

  /** pte_get_page (pte) + pg_ofs (uaddr). */
  function EntryAddress(pte: bv32, uaddr: bv32): (a: bv32)
    requires Mapped(pte)
    ensures a == FrameAddress(FieldsOf(pte), uaddr)
  {
    hide BitAnd, PgOfs, Plus, Ptov;
    Plus(PageOf(pte), PgOfs(uaddr))
  }

  lemma NotPresent()
    ensures FieldsOf(0) == Fields(false, 0, false, false, false, false) && !Present(0)
  {
  }

  lemma StillMapped(w: bv32, w': bv32)
    requires FieldsOf(w').address == FieldsOf(w).address && FieldsOf(w').user == FieldsOf(w).user
    ensures Usable(w') == Usable(w)
  {
  }

  /** The addresses of one page share an entry. */
  lemma SamePageSameEntry(mem: Memory, pd: bv32, va: bv32)
    requires DirOk(mem, pd)
    ensures forall u :: PgNo(u) == PgNo(va) ==> Pte(mem, pd, u) == Pte(mem, pd, va)
  {
    hide PdNo, PtNo, PgNo, DirOk;
    forall u | PgNo(u) == PgNo(va) ensures Pte(mem, pd, u) == Pte(mem, pd, va) { PlaceIsPage(u, va); }
  }

  /** What the address space says of an address is what its entry says. */
  lemma InSpace(mem: Memory, pd: bv32, va: bv32)
    requires DirOk(mem, pd) && AddressesOk(mem, pd)
    ensures At(PageBase(va)) in View(mem, pd) <==> IsUserVaddr(va) && Present(Pte(mem, pd, va))
    ensures At(PageBase(va)) in View(mem, pd) ==>
              View(mem, pd)[At(PageBase(va))] == FieldsOf(Pte(mem, pd, va)) && Mapped(Pte(mem, pd, va))
  {
    hide PdNo, PtNo, PgNo, PgOfs, DirOk, Pte, PageBase, IsUserVaddr, Present, Mapped, FieldsOf;
    PageBaseIs(va);
    SamePageSameEntry(mem, pd, va);
  }

  lemma GrownTables(mem: Memory, pd: bv32, va: bv32, page: bv32, zeros: Table)
    requires DirOk(mem, pd) && IsPage(page) && TablesUser(mem[At(pd)])
    ensures At(pd) in Grown(mem, pd, va, page, zeros) && TablesUser(Grown(mem, pd, va, page, zeros)[At(pd)])
  {
    hide PdNo, DirOk, PdeCreateUser, User, Writable, IsPage, TablesUser, Mapped, Present, PageOf;
    NoTable(mem, pd, va);
    PdeRoundTrip(page);
    OneMoreTable(mem[At(pd)], PdNo(va), PdeCreateUser(page));
  }

  lemma OneMoreTable(dir: Table, k: bv32, pde: bv32)
    requires TablesUser(dir) && User(pde) && Writable(pde)
    ensures TablesUser(dir[At(k) := pde])
  {
    hide PdNo, User, Writable;
  }

  // ----- What user mode may do -----

  /** A read in user mode: both levels have to be present and open to the user. */
  ghost predicate UserMayRead(mem: Memory, pd: bv32, va: bv32)
    requires DirOk(mem, pd)
  {
    && Present(Pde(mem, pd, va)) && User(Pde(mem, pd, va))
    && HasTable(mem, pd, va) && Present(Pte(mem, pd, va)) && User(Pte(mem, pd, va))
  }

  /** A write: both levels have to be writable, too. */
  ghost predicate UserMayWrite(mem: Memory, pd: bv32, va: bv32)
    requires DirOk(mem, pd)
  {
    UserMayRead(mem, pd, va) && Writable(Pde(mem, pd, va)) && Writable(Pte(mem, pd, va))
  }

  /** User mode may read exactly the user pages in the address space, and write
      exactly those that are there as writable. */
  lemma UserAccess(mem: Memory, pd: bv32, va: bv32)
    requires DirOk(mem, pd) && AddressesOk(mem, pd) && TablesUser(mem[At(pd)]) && IsUserVaddr(va)
    ensures UserMayRead(mem, pd, va) <==> At(PageBase(va)) in View(mem, pd)
    ensures UserMayWrite(mem, pd, va) <==> At(PageBase(va)) in View(mem, pd) && View(mem, pd)[At(PageBase(va))].writable
  {
    hide PdNo, PtNo, PgOfs, PageBase, View, BitAnd, IsUserVaddr;
    InSpace(mem, pd, va);
    NoTable(mem, pd, va);
    PlaceInRange(va);
    NotPresent();
    assert PdeOk(mem, pd, Pde(mem, pd, va));
  }

  /** A new table of zeros leaves every entry and the address space as they are. */
  lemma GrownSame(mem: Memory, pd: bv32, va: bv32, page: bv32, zeros: Table)
    requires DirOk(mem, pd) && AddressesOk(mem, pd) && !HasTable(mem, pd, va) && IsPage(page) && At(page) !in mem
    requires TableOk(zeros) && (forall i :: i < ENTRIES ==> zeros[At(i)] == 0) && TablesUser(mem[At(pd)])
    ensures var mem' := Grown(mem, pd, va, page, zeros);
            && DirOk(mem', pd) && TablesUser(mem'[At(pd)]) && AddressesOk(mem', pd) && View(mem', pd) == View(mem, pd) && HasTable(mem', pd, va)
            && forall u :: Pte(mem', pd, u) == Pte(mem, pd, u)
  {
    hide DirOk, AddressesOk, View, Pte, HasTable, IsPage, Grown, PdNo, TablesUser;
    GrownOk(mem, pd, va, page, zeros);
    GrownTables(mem, pd, va, page, zeros);
    var mem' := Grown(mem, pd, va, page, zeros);
    forall u ensures Pte(mem', pd, u) == Pte(mem, pd, u) && (u == va ==> HasTable(mem', pd, u)) {
      TableAdded(mem, pd, va, page, zeros, u);
    }
    SameView(mem, mem', pd);
  }

  lemma NoTable(mem: Memory, pd: bv32, va: bv32)
    requires DirOk(mem, pd)
    ensures At(pd) in mem && At(PdNo(va)) in mem[At(pd)]
    ensures HasTable(mem, pd, va) <==> mem[At(pd)][At(PdNo(va))] != 0
    ensures HasTable(mem, pd, va) ==> Mapped(Pde(mem, pd, va)) && Pde(mem, pd, va) == mem[At(pd)][At(PdNo(va))]
  {
    PlaceInRange(va);
  }

  /** The same entries are the same address space. */
  lemma SameView(mem: Memory, mem': Memory, pd: bv32)
    requires DirOk(mem, pd) && DirOk(mem', pd) && AddressesOk(mem, pd)
    requires forall u :: Pte(mem', pd, u) == Pte(mem, pd, u)
    ensures AddressesOk(mem', pd) && View(mem', pd) == View(mem, pd)
  {
    hide DirOk, Pte, PgOfs, IsUserVaddr, Present, FieldsOf, Usable;
  }
}
