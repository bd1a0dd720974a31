/** pagedir_destroy (userprog/pagedir.c): what it frees, in what order, and that it
    frees nothing twice.  The pages that it hands back are a sequence, which is then
    compared with the address space that the directory stands for. */
module PageDirDestroy {
  import opened Counting
  import opened BitOps
  import opened PageDir

  const USER_ENTRIES: bv32 := 768      // pd_no (PHYS_BASE)

  /** The frames of the first N entries of a table, in order. */
  ghost function FreedOfTable(t: Table, n: bv32): seq<Key>
    requires TableOk(t) && n <= ENTRIES
    decreases n
  {
    if n == 0 then []
    else FreedOfTable(t, n - 1)
         + (if Present(t[At(n - 1)]) && Mapped(t[At(n - 1)]) then [At(PageOf(t[At(n - 1)]))] else [])
  }

  ghost function TableAt(mem: Memory, pd: bv32, i: bv32): bv32
    requires DirOk(mem, pd) && i < ENTRIES && mem[At(pd)][At(i)] != 0
  {
    assert PdeOk(mem, pd, mem[At(pd)][At(i)]);
    PageOf(mem[At(pd)][At(i)])
  }

  /** What entry I of the directory leads to: frames, and a table. */
  ghost function EntryPages(mem: Memory, pd: bv32, i: bv32): seq<Key>
    requires DirOk(mem, pd) && i < ENTRIES
  {
    if mem[At(pd)][At(i)] == 0 then []
    else
      assert PdeOk(mem, pd, mem[At(pd)][At(i)]);
      FreedOfTable(mem[At(TableAt(mem, pd, i))], ENTRIES) + [At(TableAt(mem, pd, i))]
  }

  ghost function FreedOfDir(mem: Memory, pd: bv32, n: bv32): seq<Key>
    requires DirOk(mem, pd) && n <= ENTRIES
    decreases n
  {
    if n == 0 then [] else FreedOfDir(mem, pd, n - 1) + EntryPages(mem, pd, n - 1)
  }

  /** The inner loop: the frames of the table PT of directory entry I, then PT. */
  method FreeTable(d: PageDirectory, pt: bv32, ghost i: bv32) returns (freed: seq<Key>)
    requires d.Valid() && i < USER_ENTRIES && d.mem[At(d.pd)][At(i)] != 0 && pt == TableAt(d.mem, d.pd, i)
    ensures At(pt) in d.mem && TableOk(d.mem[At(pt)])
    ensures freed == FreedOfTable(d.mem[At(pt)], ENTRIES) + [At(pt)]
  {
    hide Present, Mapped, PageOf, AddressesOk, DirOk, TablesUser;
    PresentOrEmpty(d.mem, d.pd, i);
    freed := [];
    var j: bv32 := 0;
    while j < ENTRIES
      invariant j <= ENTRIES && freed == FreedOfTable(d.mem[At(pt)], j)
      decreases ENTRIES - j
    {
      var pte := d.mem[At(pt)][At(j)];
      EntryMapped(d.mem, d.pd, i, j);
      if Present(pte) { freed := freed + [At(PageOf(pte))]; }
      j := j + 1;
    }
    freed := freed + [At(pt)];
  }

  /** The body of the outer loop: what entry I of the directory leads to. */
  method FreeEntry(d: PageDirectory, i: bv32) returns (freed: seq<Key>)
    requires d.Valid() && i < USER_ENTRIES
    ensures freed == EntryPages(d.mem, d.pd, i)
  {
    hide Present, Mapped, PageOf, AddressesOk, FreedOfTable, PdeOk, DirOk, TableAt, TablesUser;
    PresentOrEmpty(d.mem, d.pd, i);
    var pde := d.mem[At(d.pd)][At(i)];
    freed := [];
    if Present(pde) { freed := FreeTable(d, PageOf(pde), i); }
  }

  /** The code: the pages it hands to palloc_free_page, in order. */
  method Destroy(d: PageDirectory) returns (freed: seq<Key>)
    requires d.Valid()
    ensures freed == FreedOfDir(d.mem, d.pd, USER_ENTRIES) + [At(d.pd)]
  {
    hide AddressesOk, FreedOfDir, EntryPages, DirOk, TablesUser;
    freed := [];
    NoneFreed(d.mem, d.pd);
    var i: bv32 := 0;
    while i < USER_ENTRIES
      invariant i <= USER_ENTRIES && freed == FreedOfDir(d.mem, d.pd, i)
      decreases USER_ENTRIES - i
    {
      var more := FreeEntry(d, i);
      freed := freed + more;
      FreedNext(d.mem, d.pd, i);
      i := i + 1;
    }
    freed := freed + [At(d.pd)];
  }

  lemma NoneFreed(mem: Memory, pd: bv32)
    requires DirOk(mem, pd)
    ensures FreedOfDir(mem, pd, 0) == []
  {
  }

  lemma FreedNext(mem: Memory, pd: bv32, i: bv32)
    requires DirOk(mem, pd) && i < ENTRIES
    ensures FreedOfDir(mem, pd, i + 1) == FreedOfDir(mem, pd, i) + EntryPages(mem, pd, i)
  {
    hide EntryPages, DirOk;
    assert i + 1 - 1 == i && i + 1 != 0;
  }

  lemma PresentOrEmpty(mem: Memory, pd: bv32, i: bv32)
    requires DirOk(mem, pd) && i < ENTRIES
    ensures At(pd) in mem && At(i) in mem[At(pd)]
    ensures var pde := mem[At(pd)][At(i)];
            && (Present(pde) <==> pde != 0)
            && (pde != 0 ==> Mapped(pde) && PageOf(pde) == TableAt(mem, pd, i)
                             && At(PageOf(pde)) in mem && TableOk(mem[At(PageOf(pde))]))
  {
    assert PdeOk(mem, pd, mem[At(pd)][At(i)]);
    NotPresent();
  }

  /** The entry J of the table I is that of an address, so if it is present its
      frame can be translated. */
  lemma EntryMapped(mem: Memory, pd: bv32, i: bv32, j: bv32)
    requires DirOk(mem, pd) && AddressesOk(mem, pd) && i < USER_ENTRIES && j < ENTRIES && mem[At(pd)][At(i)] != 0
    ensures At(TableAt(mem, pd, i)) in mem && At(j) in mem[At(TableAt(mem, pd, i))]
    ensures Present(mem[At(TableAt(mem, pd, i))][At(j)]) ==> Mapped(mem[At(TableAt(mem, pd, i))][At(j)])
  {
    var u := EntryOf(mem, pd, i, j);
  }

  lemma EntryOf(mem: Memory, pd: bv32, i: bv32, j: bv32) returns (u: bv32)
    requires DirOk(mem, pd) && i < USER_ENTRIES && j < ENTRIES && mem[At(pd)][At(i)] != 0
    ensures At(TableAt(mem, pd, i)) in mem && At(j) in mem[At(TableAt(mem, pd, i))]
    ensures IsUserVaddr(u) && PgOfs(u) == 0 && PdNo(u) == i && PtNo(u) == j
    ensures Pte(mem, pd, u) == mem[At(TableAt(mem, pd, i))][At(j)]
  {
    hide PdNo, PtNo, PgOfs, Present, Mapped, IsUserVaddr, PageOf;
    PresentOrEmpty(mem, pd, i);
    u := AddressOf(i, j);
    UserPart(u);
    PlaceInRange(u);
  }

  lemma UserPart(u: bv32)
    ensures IsUserVaddr(u) <==> PdNo(u) < USER_ENTRIES
  {
  }

  // ----- Each page once -----

  lemma Append(s: seq<Key>, t: seq<Key>)
    requires Distinct(s) && Distinct(t) && forall k :: k in s ==> k !in t
    ensures Distinct(s + t)
  {
    var u := s + t;
    forall m, n | 0 <= m < n < |u| ensures u[m] != u[n] {
      if m < |s| <= n { assert u[m] in s && u[n] in t; }
    }
  }

  /** K is the frame of entry J of table T. */
  ghost predicate FrameIn(t: Table, j: bv32, k: Key) {
    j < ENTRIES && At(j) in t && Present(t[At(j)]) && Mapped(t[At(j)]) && k == At(PageOf(t[At(j)]))
  }

  predicate Below(j: bv32, n: bv32) { j < n }

  lemma LastBelow(j: bv32, n: bv32)
    requires 0 < n <= ENTRIES
    ensures Below(j, n) <==> Below(j, n - 1) || j == n - 1
  {
  }

  ghost predicate FrameBelow(t: Table, n: bv32, j: bv32, k: Key) { Below(j, n) && FrameIn(t, j, k) }

  lemma {:induction false} TableMembers(t: Table, n: bv32, k: Key)
    requires TableOk(t) && n <= ENTRIES
    ensures k in FreedOfTable(t, n) <==> exists j :: FrameBelow(t, n, j, k)
    decreases n
  {
    if n != 0 {
      hide FrameIn, FreedOfTable, Below, TableOk;
      TableMembers(t, n - 1, k);
      forall j ensures FrameBelow(t, n, j, k) <==> FrameBelow(t, n - 1, j, k) || (j == n - 1 && FrameIn(t, j, k)) {
        LastBelow(j, n);
      }
      assert FrameIn(t, n - 1, k) ==> FrameBelow(t, n, n - 1, k);
    }
  }

  /** Different entries of the table have different frames. */
  ghost predicate FramesApart(t: Table) {
    forall i, j, k :: FrameIn(t, i, k) && FrameIn(t, j, k) ==> i == j
  }

  lemma {:induction false} TableOnce(t: Table, n: bv32)
    requires TableOk(t) && n <= ENTRIES && FramesApart(t)
    ensures Distinct(FreedOfTable(t, n))
    decreases n
  {
    if n != 0 {
      hide Distinct, FrameIn;
      TableOnce(t, n - 1);
      LastOnce(t, n);
    }
  }

  lemma LastOnce(t: Table, n: bv32)
    requires TableOk(t) && n <= ENTRIES && n != 0 && FramesApart(t) && Distinct(FreedOfTable(t, n - 1))
    ensures Distinct(FreedOfTable(t, n))
  {
    hide Present, Mapped, PageOf, FreedOfTable;
    FreedIs(t, n);
    if Present(t[At(n - 1)]) && Mapped(t[At(n - 1)]) {
      var k := At(PageOf(t[At(n - 1)]));
      TableMembers(t, n - 1, k);
      assert FrameIn(t, n - 1, k);
      assert !Below(n - 1, n - 1);
      Append(FreedOfTable(t, n - 1), [k]);
    }
  }

  lemma FreedIs(t: Table, n: bv32)
    requires TableOk(t) && n <= ENTRIES && n != 0
    ensures At(n - 1) in t
    ensures FreedOfTable(t, n) == FreedOfTable(t, n - 1)
              + (if Present(t[At(n - 1)]) && Mapped(t[At(n - 1)]) then [At(PageOf(t[At(n - 1)]))] else [])
  {
  }

  /** Entry I of the directory leads to K, as its table or as a frame of it. */
  ghost predicate LeadsTo(mem: Memory, pd: bv32, i: bv32, k: Key)
    requires DirOk(mem, pd)
  {
    && i < USER_ENTRIES && At(i) in mem[At(pd)] && mem[At(pd)][At(i)] != 0
    && At(TableAt(mem, pd, i)) in mem
    && (k == At(TableAt(mem, pd, i)) || exists j :: FrameIn(mem[At(TableAt(mem, pd, i))], j, k))
  }

  ghost predicate LeadsBelow(mem: Memory, pd: bv32, n: bv32, i: bv32, k: Key)
    requires DirOk(mem, pd)
  {
    Below(i, n) && LeadsTo(mem, pd, i, k)
  }

  lemma FramesOfTable(t: Table, k: Key)
    requires TableOk(t)
    ensures k in FreedOfTable(t, ENTRIES) <==> exists j :: FrameIn(t, j, k)
  {
    TableMembers(t, ENTRIES, k);
    hide Present, Mapped, PageOf, FreedOfTable;
    forall j ensures FrameIn(t, j, k) <==> FrameBelow(t, ENTRIES, j, k) { }
  }

  lemma EntryMembers(mem: Memory, pd: bv32, i: bv32, k: Key)
    requires DirOk(mem, pd) && i < USER_ENTRIES
    ensures k in EntryPages(mem, pd, i) <==> LeadsTo(mem, pd, i, k)
  {
    hide Present, Mapped, PageOf, FreedOfTable, FrameIn, TableAt;
    PresentOrEmpty(mem, pd, i);
    if mem[At(pd)][At(i)] != 0 { FramesOfTable(mem[At(TableAt(mem, pd, i))], k); }
  }

  /** What entry N - 1 adds to what is freed. */
  lemma DirLast(mem: Memory, pd: bv32, n: bv32, k: Key)
    requires DirOk(mem, pd) && 0 < n <= USER_ENTRIES
    ensures k in FreedOfDir(mem, pd, n) <==> k in FreedOfDir(mem, pd, n - 1) || LeadsTo(mem, pd, n - 1, k)
  {
    hide FreedOfDir, EntryPages, LeadsTo, DirOk;
    InRange(n);
    FreedNext(mem, pd, n - 1);
    EntryMembers(mem, pd, n - 1, k);
  }

  lemma InRange(n: bv32)
    requires 0 < n <= USER_ENTRIES
    ensures n - 1 < USER_ENTRIES && n - 1 < ENTRIES && n - 1 + 1 == n && n <= ENTRIES
  {
  }

  lemma {:induction false} DirMembers(mem: Memory, pd: bv32, n: bv32, k: Key)
    requires DirOk(mem, pd) && n <= USER_ENTRIES
    ensures k in FreedOfDir(mem, pd, n) <==> exists i :: LeadsBelow(mem, pd, n, i, k)
    decreases n
  {
    if n != 0 {
      hide DirOk, FreedOfDir, Below, LeadsTo;
      InRange(n);
      DirMembers(mem, pd, n - 1, k);
      DirLast(mem, pd, n, k);
      forall i ensures LeadsBelow(mem, pd, n, i, k) <==> LeadsBelow(mem, pd, n - 1, i, k) || (i == n - 1 && LeadsTo(mem, pd, i, k)) {
        LastBelow(i, n);
      }
      assert LeadsTo(mem, pd, n - 1, k) ==> LeadsBelow(mem, pd, n, n - 1, k);
    }
  }

  /** No page is the frame of two user pages, or both a frame and a table. */
  ghost predicate FramesOwn(mem: Memory, pd: bv32)
    requires DirOk(mem, pd)
  {
    && (forall i, i', k :: LeadsTo(mem, pd, i, k) && LeadsTo(mem, pd, i', k) ==> i == i')
    && (forall i :: i < USER_ENTRIES && HasEntry(mem, pd, i) ==>
          At(TableAt(mem, pd, i)) in mem && FramesApart(mem[At(TableAt(mem, pd, i))])
          && forall j :: !FrameIn(mem[At(TableAt(mem, pd, i))], j, At(TableAt(mem, pd, i))))
    && (forall i :: !LeadsTo(mem, pd, i, At(pd)))
  }

  ghost predicate HasEntry(mem: Memory, pd: bv32, i: bv32)
    requires DirOk(mem, pd)
  {
    i < ENTRIES && mem[At(pd)][At(i)] != 0
  }

  lemma {:induction false} DirOnce(mem: Memory, pd: bv32, n: bv32)
    requires DirOk(mem, pd) && n <= USER_ENTRIES && FramesOwn(mem, pd)
    ensures Distinct(FreedOfDir(mem, pd, n))
    decreases n
  {
    hide DirOk, EntryPages, FreedOfDir, Distinct, FramesOwn;
    if n == 0 {
      NoneFreed(mem, pd);
      NothingTwice();
    } else {
      InRange(n);
      DirOnce(mem, pd, n - 1);
      OnceMore(mem, pd, n - 1, n);
    }
  }

  /** What the entry M adds was not there before. */
  lemma OnceMore(mem: Memory, pd: bv32, m: bv32, n: bv32)
    requires DirOk(mem, pd) && m < USER_ENTRIES && n == m + 1 && FramesOwn(mem, pd)
    requires Distinct(FreedOfDir(mem, pd, m))
    ensures Distinct(FreedOfDir(mem, pd, n))
  {
    hide DirOk, EntryPages, FreedOfDir, Distinct, FramesOwn;
    FreedNext(mem, pd, m);
    EntryOnce(mem, pd, m);
    AppendEntry(mem, pd, m);
  }

  lemma NothingTwice()
    ensures Distinct<Key>([])
  {
  }

  lemma EntryOnce(mem: Memory, pd: bv32, i: bv32)
    requires DirOk(mem, pd) && i < USER_ENTRIES && FramesOwn(mem, pd)
    ensures Distinct(EntryPages(mem, pd, i))
  {
    hide FreedOfTable, FrameIn, FramesApart, TableAt, Present, Mapped, PageOf;
    PresentOrEmpty(mem, pd, i);
    if mem[At(pd)][At(i)] != 0 {
      assert HasEntry(mem, pd, i);
      var pt := At(TableAt(mem, pd, i));
      TableOnce(mem[pt], ENTRIES);
      FramesOfTable(mem[pt], pt);
      Append(FreedOfTable(mem[pt], ENTRIES), [pt]);
    }
  }

  /** What an earlier entry leads to, entry M does not. */
  lemma NotAgain(mem: Memory, pd: bv32, m: bv32, k: Key)
    requires DirOk(mem, pd) && m < USER_ENTRIES && FramesOwn(mem, pd) && k in FreedOfDir(mem, pd, m)
    ensures k !in EntryPages(mem, pd, m)
  {
    hide DirOk, EntryPages, FreedOfDir, LeadsTo;
    DirMembers(mem, pd, m, k);
    var i :| LeadsBelow(mem, pd, m, i, k);
    EntryMembers(mem, pd, m, k);
    assert !Below(m, m);
  }

  lemma AppendEntry(mem: Memory, pd: bv32, m: bv32)
    requires DirOk(mem, pd) && m < USER_ENTRIES && FramesOwn(mem, pd)
    requires Distinct(FreedOfDir(mem, pd, m)) && Distinct(EntryPages(mem, pd, m))
    ensures Distinct(FreedOfDir(mem, pd, m) + EntryPages(mem, pd, m))
  {
    hide DirOk, EntryPages, FreedOfDir, Distinct, FramesOwn;
    var s, t := FreedOfDir(mem, pd, m), EntryPages(mem, pd, m);
    forall k | k in s ensures k !in t { NotAgain(mem, pd, m, k); }
    Append(s, t);
  }

  /** Each frame belongs to one user page, and none holds a table. */
  ghost predicate FramesDistinct(mem: Memory, pd: bv32)
    requires DirOk(mem, pd)
  {
    && (forall u, v :: u in View(mem, pd) && v in View(mem, pd) && View(mem, pd)[u].address == View(mem, pd)[v].address ==> u == v)
    && (forall u :: u in View(mem, pd) ==> FrameOf(View(mem, pd)[u]) !in mem)
  }

  function FrameOf(f: Fields): Key {
    if f.address < PHYS_BASE then At(Ptov(f.address)) else At(0)
  }

  lemma FrameKey(mem: Memory, pd: bv32, i: bv32, j: bv32, k: Key) returns (u: bv32)
    requires DirOk(mem, pd) && i < USER_ENTRIES && HasEntry(mem, pd, i) && At(TableAt(mem, pd, i)) in mem
    requires FrameIn(mem[At(TableAt(mem, pd, i))], j, k)
    ensures At(u) in View(mem, pd) && PdNo(u) == i && PtNo(u) == j
    ensures k == FrameOf(View(mem, pd)[At(u)]) && View(mem, pd)[At(u)].address < PHYS_BASE
  {
    hide PdNo, PtNo, PgOfs, IsUserVaddr, DirOk, BitAnd, TableAt;
    u := EntryOf(mem, pd, i, j);
  }

  lemma PtovInjective(a: bv32, b: bv32)
    requires a < PHYS_BASE && b < PHYS_BASE && Ptov(a) == Ptov(b)
    ensures a == b
  {
  }

  /** The same frame in two places is the same place. */
  lemma FramesOnce(mem: Memory, pd: bv32, i: bv32, j: bv32, i': bv32, j': bv32, k: Key)
    requires DirOk(mem, pd) && FramesDistinct(mem, pd) && i < USER_ENTRIES && i' < USER_ENTRIES
    requires HasEntry(mem, pd, i) && At(TableAt(mem, pd, i)) in mem && FrameIn(mem[At(TableAt(mem, pd, i))], j, k)
    requires HasEntry(mem, pd, i') && At(TableAt(mem, pd, i')) in mem && FrameIn(mem[At(TableAt(mem, pd, i'))], j', k)
    ensures i == i' && j == j' && k !in mem
  {
    hide PdNo, PtNo, DirOk, TableAt, View, Ptov, FrameIn;
    var u := FrameKey(mem, pd, i, j, k);
    var v := FrameKey(mem, pd, i', j', k);
    PtovInjective(View(mem, pd)[At(u)].address, View(mem, pd)[At(v)].address);
    assert At(u) == At(v);
  }

  lemma LeadsOnce(mem: Memory, pd: bv32, i: bv32, i': bv32, k: Key)
    requires DirOk(mem, pd) && FramesDistinct(mem, pd) && LeadsTo(mem, pd, i, k) && LeadsTo(mem, pd, i', k)
    ensures i == i' && k != At(pd)
  {
    hide FramesDistinct, FrameIn, Present, Mapped, PageOf;
    var t, t' := At(TableAt(mem, pd, i)), At(TableAt(mem, pd, i'));
    assert HasEntry(mem, pd, i) && HasEntry(mem, pd, i');
    if exists j :: FrameIn(mem[t], j, k) {
      var j :| FrameIn(mem[t], j, k);
      FramesOnce(mem, pd, i, j, i, j, k);
      if k != t' {
        var j' :| FrameIn(mem[t'], j', k);
        FramesOnce(mem, pd, i, j, i', j', k);
      }
    } else if exists j :: FrameIn(mem[t'], j, k) {
      var j :| FrameIn(mem[t'], j, k);
      FramesOnce(mem, pd, i', j, i', j, k);
    } else {
      assert PdeOk(mem, pd, mem[At(pd)][At(i)]);
    }
  }

  lemma DistinctIsOwn(mem: Memory, pd: bv32)
    requires DirOk(mem, pd) && FramesDistinct(mem, pd)
    ensures FramesOwn(mem, pd)
  {
    hide FramesDistinct, FrameIn, LeadsTo, DirOk, TableAt;
    forall i, i', k | LeadsTo(mem, pd, i, k) && LeadsTo(mem, pd, i', k) ensures i == i' { LeadsOnce(mem, pd, i, i', k); }
    forall i ensures !LeadsTo(mem, pd, i, At(pd)) { if LeadsTo(mem, pd, i, At(pd)) { LeadsOnce(mem, pd, i, i, At(pd)); } }
    forall i | i < USER_ENTRIES && HasEntry(mem, pd, i)
      ensures At(TableAt(mem, pd, i)) in mem && FramesApart(mem[At(TableAt(mem, pd, i))])
      ensures forall j :: !FrameIn(mem[At(TableAt(mem, pd, i))], j, At(TableAt(mem, pd, i)))
    {
      PresentOrEmptyEntry(mem, pd, i);
      var t := At(TableAt(mem, pd, i));
      forall j, j', k | FrameIn(mem[t], j, k) && FrameIn(mem[t], j', k) ensures j == j' {
        FramesOnce(mem, pd, i, j, i, j', k);
      }
      forall j ensures !FrameIn(mem[t], j, t) { if FrameIn(mem[t], j, t) { FramesOnce(mem, pd, i, j, i, j, t); } }
    }
  }

  lemma PresentOrEmptyEntry(mem: Memory, pd: bv32, i: bv32)
    requires DirOk(mem, pd) && HasEntry(mem, pd, i)
    ensures At(TableAt(mem, pd, i)) in mem
  {
    assert PdeOk(mem, pd, mem[At(pd)][At(i)]);
  }

  /** K is a table that a user entry of the directory points to. */
  ghost predicate UserTable(mem: Memory, pd: bv32, k: Key)
    requires DirOk(mem, pd)
  {
    exists i :: TableIs(mem, pd, i, k)
  }

  ghost predicate TableIs(mem: Memory, pd: bv32, i: bv32, k: Key)
    requires DirOk(mem, pd)
  {
    i < USER_ENTRIES && HasEntry(mem, pd, i) && k == At(TableAt(mem, pd, i))
  }

  /** K is the frame of a user page that is present. */
  ghost predicate UserFrame(mem: Memory, pd: bv32, k: Key)
    requires DirOk(mem, pd)
  {
    exists u :: u in View(mem, pd) && FrameOf(View(mem, pd)[u]) == k
  }

  lemma LeadsToWhat(mem: Memory, pd: bv32, k: Key)
    requires DirOk(mem, pd) && AddressesOk(mem, pd)
    ensures (exists i :: LeadsTo(mem, pd, i, k)) <==> UserTable(mem, pd, k) || UserFrame(mem, pd, k)
  {
    hide DirOk, AddressesOk, View, TableAt, FrameIn, FrameOf;
    forall i | LeadsTo(mem, pd, i, k) ensures UserTable(mem, pd, k) || UserFrame(mem, pd, k) {
      if k == At(TableAt(mem, pd, i)) {
        assert TableIs(mem, pd, i, k);
      } else {
        var j :| FrameIn(mem[At(TableAt(mem, pd, i))], j, k);
        var u := FrameKey(mem, pd, i, j, k);
      }
    }
    forall i | TableIs(mem, pd, i, k) ensures LeadsTo(mem, pd, i, k) { TableLeads(mem, pd, i, k); }
    forall u | u in View(mem, pd) && FrameOf(View(mem, pd)[u]) == k ensures exists i :: LeadsTo(mem, pd, i, k) {
      FrameLeads(mem, pd, u);
    }
  }

  lemma TableLeads(mem: Memory, pd: bv32, i: bv32, k: Key)
    requires DirOk(mem, pd) && TableIs(mem, pd, i, k)
    ensures LeadsTo(mem, pd, i, k)
  {
    PresentOrEmpty(mem, pd, i);
  }

  /** The frame of a page is found through the page's directory entry. */
  lemma FrameLeads(mem: Memory, pd: bv32, u: Key)
    requires DirOk(mem, pd) && AddressesOk(mem, pd) && u in View(mem, pd)
    ensures LeadsTo(mem, pd, PdNo(u.bits), FrameOf(View(mem, pd)[u]))
  {
    hide PdNo, PtNo, PgOfs, BitAnd, IsUserVaddr;
    UserPart(u.bits);
    PlaceInRange(u.bits);
    NotPresent();
    var pde := Pde(mem, pd, u.bits);
    assert Mapped(Pte(mem, pd, u.bits));
    assert FrameIn(mem[At(PageOf(pde))], PtNo(u.bits), FrameOf(View(mem, pd)[u]));
  }

  /** pagedir_destroy frees exactly the frames of the present user pages, the user
      page tables and the directory, and each of them once. */
  lemma DestroyFreesOnce(mem: Memory, pd: bv32)
    requires DirOk(mem, pd) && AddressesOk(mem, pd) && FramesDistinct(mem, pd)
    ensures var freed := FreedOfDir(mem, pd, USER_ENTRIES) + [At(pd)];
            && Distinct(freed)
            && forall k :: k in freed <==> k == At(pd) || UserTable(mem, pd, k) || UserFrame(mem, pd, k)
  {
    hide DirOk, FreedOfDir, Distinct, FramesDistinct, AddressesOk, UserTable, UserFrame;
    DistinctIsOwn(mem, pd);
    DirOnce(mem, pd, USER_ENTRIES);
    forall k ensures k in FreedOfDir(mem, pd, USER_ENTRIES) <==> exists i :: LeadsTo(mem, pd, i, k) {
      DirMembers(mem, pd, USER_ENTRIES, k);
      forall i ensures LeadsTo(mem, pd, i, k) <==> LeadsBelow(mem, pd, USER_ENTRIES, i, k) { }
    }
    forall k ensures (exists i :: LeadsTo(mem, pd, i, k)) <==> UserTable(mem, pd, k) || UserFrame(mem, pd, k) {
      LeadsToWhat(mem, pd, k);
    }
    Append(FreedOfDir(mem, pd, USER_ENTRIES), [At(pd)]);
  }
}
