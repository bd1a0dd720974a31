/** The list of open inodes (filesys/inode.c): one structure per sector, counted
    references, and deallocation at the last close of a removed file.

    How many references are held to each sector is a map, which opening adds to and
    closing takes from; the counts in the structures are proved equal to it, so that
    a structure is freed when nobody refers to it any more and not before. */
module OpenInodes {
  import opened Inode

  ghost predicate DistinctSectors(open: seq<InodeHandle>) {
    forall i, j :: 0 <= i < j < |open| ==> open[i] != open[j] && open[i].sector != open[j].sector
  }

  /** Two structures in the list are of two sectors. */
  lemma Different(open: seq<InodeHandle>, x: InodeHandle, h: InodeHandle)
    requires DistinctSectors(open) && x in open && h in open && x != h
    ensures x.sector != h.sector
  {
    var i :| 0 <= i < |open| && open[i] == x;
    var j :| 0 <= j < |open| && open[j] == h;
  }

  ghost predicate IsOpen(open: seq<InodeHandle>, s: nat) { exists h :: h in open && h.sector == s }

  ghost predicate Counted(h: InodeHandle, refs: map<nat, nat>)
    reads h`openCnt
  {
    h.sector in refs && h.openCnt == refs[h.sector] && h.openCnt > 0
  }

  lemma Taken(open: seq<InodeHandle>, i: nat)
    requires DistinctSectors(open) && i < |open|
    ensures var rest := open[..i] + open[i + 1..];
            && DistinctSectors(rest)
            && (forall x :: x in rest <==> x in open && x != open[i])
            && (forall s :: s != open[i].sector ==> (IsOpen(rest, s) <==> IsOpen(open, s)))
  {
    var rest := open[..i] + open[i + 1..];
    assert forall k :: 0 <= k < |rest| ==> rest[k] == open[if k < i then k else k + 1];
    forall x | x in open && x != open[i] ensures x in rest {
      var j :| 0 <= j < |open| && open[j] == x;
      assert rest[if j < i then j else j - 1] == x;
    }
  }

  lemma Joined(open: seq<InodeHandle>, h: InodeHandle)
    requires DistinctSectors(open) && h !in open && !IsOpen(open, h.sector)
    ensures DistinctSectors([h] + open)
    ensures forall s :: IsOpen([h] + open, s) <==> IsOpen(open, s) || s == h.sector
  {
    assert forall j :: 0 <= j < |open| ==> open[j] in open;
    assert forall x :: x in [h] + open <==> x == h || x in open;
  }

  class InodeTable {
    var open: seq<InodeHandle>
    ghost var refs: map<nat, nat>    // references held, by sector
    ghost var doomed: set<nat>       // sectors of open files that have been removed

    /** Each open sector has one structure, whose count is that of the references
        to it, and whose mark says whether the file has been removed. */
    ghost predicate Valid()
      reads this, open`openCnt, open`removed
    {
      && DistinctSectors(open)
      && (forall h :: h in open ==> Counted(h, refs))
      && (forall s :: s in refs <==> IsOpen(open, s))
      && (forall h :: h in open ==> (h.removed <==> h.sector in doomed))
      && doomed <= refs.Keys
    }

    constructor ()
      ensures Valid() && open == [] && refs == map[] && doomed == {}
    {
      open, refs, doomed := [], map[], {};
    }

    /** The search of inode_open. */
    method Find(sector: nat) returns (found: bool, i: nat)
      ensures found <==> IsOpen(open, sector)
      ensures found ==> i < |open| && open[i].sector == sector
    {
      i := 0;
      while i < |open|
        invariant i <= |open| && forall j :: 0 <= j < i ==> open[j].sector != sector
      {
        if open[i].sector == sector { return true, i; }
        i := i + 1;
      }
      found := false;
    }

    /** inode_open: the structure that the sector has already, or a new one. */
    method Open(sector: nat, gotMemory: bool) returns (h: InodeHandle?)
      requires Valid()
      modifies this, open`openCnt
      ensures Valid()
      ensures h == null <==> sector !in old(refs) && !gotMemory
      ensures h != null ==> h in open && h.sector == sector
      ensures refs == if h == null then old(refs)
                      else old(refs)[sector := 1 + old(if sector in refs then refs[sector] else 0)]
      ensures open == if sector in old(refs) || h == null then old(open) else [h] + old(open)
      ensures h != null && sector !in old(refs) ==> fresh(h)
      ensures doomed == old(doomed)
    {
      hide DistinctSectors, IsOpen;
      var found, i := Find(sector);
      if found {
        h := open[i];
        Reopen(h);
        return;
      }
      if !gotMemory { return null; }
      h := new InodeHandle(sector);
      Joined(open, h);
      open := [h] + open;
      refs := refs[sector := 1];
    }

    /** inode_reopen. */
    method Reopen(h: InodeHandle)
      requires Valid() && h in open
      modifies this`refs, h`openCnt
      ensures Valid() && refs == old(refs)[h.sector := old(refs[h.sector]) + 1]
    {
      hide DistinctSectors, IsOpen;
      assert Counted(h, refs);
      h.openCnt := h.openCnt + 1;
      refs := refs[h.sector := refs[h.sector] + 1];
      forall x | x in open ensures Counted(x, refs) {
        if x != h { Different(open, x, h); assert old(Counted(x, refs)); }
      }
    }

    /** inode_remove: the file goes when the last reference does. */
    method Remove(h: InodeHandle)
      requires Valid() && h in open
      modifies h`removed, this`doomed
      ensures Valid() && doomed == old(doomed) + {h.sector}
    {
      hide DistinctSectors;
      forall x | x in open && x != h ensures x.sector != h.sector { Different(open, x, h); }
      h.removed := true;
      doomed := doomed + {h.sector};
    }

    /** inode_close: the structure leaves the list at the last reference, and only
        then; the blocks are to be deallocated exactly if the file was removed. */
    method Close(h: InodeHandle) returns (last: bool, deallocate: bool)
      requires Valid() && h in open
      modifies this, h`openCnt
      ensures Valid()
      ensures last <==> old(refs[h.sector]) == 1
      ensures deallocate <==> last && h.sector in old(doomed)
      ensures doomed == if last then old(doomed) - {h.sector} else old(doomed)
      ensures refs == if last then old(refs) - {h.sector} else old(refs)[h.sector := old(refs[h.sector]) - 1]
      ensures !last ==> open == old(open)
      ensures last ==> forall x :: x in open <==> x in old(open) && x != h
    {
      hide DistinctSectors, IsOpen;
      assert Counted(h, refs);
      forall x | x in open && x != h ensures x.sector != h.sector { Different(open, x, h); }
      h.openCnt := h.openCnt - 1;
      last := h.openCnt == 0;
      deallocate := last && h.removed;
      forall x | x in open && x != h ensures Counted(x, refs) { assert old(Counted(x, refs)); }
      if last {
        var i := 0;
        while open[i] != h
          invariant 0 <= i < |open| && h in open[i..]
          decreases |open| - i
          modifies {}
        {
          i := i + 1;
        }
        Taken(open, i);
        NotOpen(open, i);
        open := open[..i] + open[i + 1..];
        refs := refs - {h.sector};
        doomed := doomed - {h.sector};
      } else {
        refs := refs[h.sector := refs[h.sector] - 1];
      }
    }
  }

  // ----- Runs -----

  /** A call, for the inode in a sector. */
  datatype Call =
    | Open(sector: nat, gotMemory: bool)
    | Reopen(sector: nat)
    | Remove(sector: nat)
    | Close(sector: nat)

  /** What becomes of one sector: the references held to its inode, and whether the
      file has been removed since it was first opened. */
  datatype Life = Life(refs: nat, removed: bool)

  function Lived(l: Life, c: Call): Life {
    match c
    case Open(_, gotMemory) => if l.refs == 0 && !gotMemory then l else l.(refs := l.refs + 1)
    case Reopen(_) => l.(refs := l.refs + 1)
    case Remove(_) => l.(removed := true)
    case Close(_) => if l.refs <= 1 then Life(0, false) else l.(refs := l.refs - 1)
  }

  function LifeOf(calls: seq<Call>, s: nat): Life {
    if calls == [] then Life(0, false)
    else
      var l := LifeOf(calls[..|calls| - 1], s);
      if calls[|calls| - 1].sector == s then Lived(l, calls[|calls| - 1]) else l
  }

  /** Only an inode that is open is reopened, removed or closed. */
  predicate LegalCall(calls: seq<Call>, c: Call) { c.Open? || LifeOf(calls, c.sector).refs > 0 }

  ghost predicate Legal(calls: seq<Call>) { forall i :: 0 <= i < |calls| ==> LegalCall(calls[..i], calls[i]) }

  /** The last close of a file that has been removed. */
  predicate Ends(calls: seq<Call>, c: Call) { c.Close? && LifeOf(calls, c.sector) == Life(1, true) }

  /** The sectors whose files have to go, in order. */
  function Ended(calls: seq<Call>): seq<nat> {
    if calls == [] then []
    else
      var before, c := calls[..|calls| - 1], calls[|calls| - 1];
      Ended(before) + if Ends(before, c) then [c.sector] else []
  }

  ghost predicate Agrees(refs: map<nat, nat>, doomed: set<nat>, calls: seq<Call>, s: nat) {
    LifeOf(calls, s) == Life(if s in refs then refs[s] else 0, s in doomed)
  }

  /** The structure of a sector that is open. */
  method Handle(t: InodeTable, sector: nat) returns (h: InodeHandle)
    requires t.Valid() && sector in t.refs
    ensures h in t.open && h.sector == sector
  {
    var found, i := t.Find(sector);
    h := t.open[i];
  }

  method Serve(t: InodeTable, c: Call, ghost calls: seq<Call>) returns (deallocate: bool)
    requires t.Valid() && (forall s :: Agrees(t.refs, t.doomed, calls, s)) && LegalCall(calls, c)
    modifies t, t.open`openCnt, t.open`removed
    ensures t.Valid() && forall s :: Agrees(t.refs, t.doomed, calls + [c], s)
    ensures deallocate <==> Ends(calls, c)
    ensures forall h :: h in t.open ==> h in old(t.open) || fresh(h)
  {
    hide DistinctSectors, IsOpen, Counted, LifeOf;
    forall s ensures LifeOf(calls + [c], s) == if c.sector == s then Lived(LifeOf(calls, s), c) else LifeOf(calls, s) {
      OneMore(calls, c, s);
    }
    assert Agrees(t.refs, t.doomed, calls, c.sector);
    RefsPositive(t);
    deallocate := false;
    match c {
      case Open(s, gotMemory) =>
        var h := t.Open(s, gotMemory);
      case Reopen(s) =>
        var h := Handle(t, s);
        t.Reopen(h);
      case Remove(s) =>
        var h := Handle(t, s);
        t.Remove(h);
      case Close(s) =>
        var h := Handle(t, s);
        var last;
        last, deallocate := t.Close(h);
    }
    forall s ensures Agrees(t.refs, t.doomed, calls + [c], s) { assert old(Agrees(t.refs, t.doomed, calls, s)); }
  }

  lemma RefsPositive(t: InodeTable)
    requires t.Valid()
    ensures forall s :: s in t.refs ==> t.refs[s] > 0
  {
    forall s | s in t.refs ensures t.refs[s] > 0 {
      var h :| h in t.open && h.sector == s;
      assert Counted(h, t.refs);
    }
  }

  lemma OneMore(calls: seq<Call>, c: Call, s: nat)
    ensures LifeOf(calls + [c], s) == if c.sector == s then Lived(LifeOf(calls, s), c) else LifeOf(calls, s)
  {
    assert (calls + [c])[..|calls|] == calls;
  }

  /** In every run the blocks of a file are deallocated exactly at the close that
      gives up the last reference, if inode_remove has been called since the
      first; other inodes' calls make no difference. */
  method Run(calls: seq<Call>) returns (t: InodeTable, freed: seq<nat>)
    requires Legal(calls)
    ensures fresh(t) && t.Valid() && forall s :: Agrees(t.refs, t.doomed, calls, s)
    ensures freed == Ended(calls)
  {
    hide LifeOf, Lived, Ends, LegalCall;
    t := new InodeTable();
    freed := [];
    forall s ensures Agrees(map[], {}, [], s) { NoneYet(s); }
    for i := 0 to |calls|
      invariant fresh(t) && t.Valid() && (forall s :: Agrees(t.refs, t.doomed, calls[..i], s))
      invariant forall h :: h in t.open ==> fresh(h)
      invariant freed == Ended(calls[..i])
    {
      assert forall j :: 0 <= j < |t.open| ==> t.open[j] in t.open;
      var deallocate := Serve(t, calls[i], calls[..i]);
      if deallocate { freed := freed + [calls[i].sector]; }
      assert calls[..i + 1] == calls[..i] + [calls[i]];
      assert calls[..i + 1][..i] == calls[..i];
    }
    assert calls[..|calls|] == calls;
  }

  lemma NoneYet(s: nat)
    ensures LifeOf([], s) == Life(0, false)
  {
  }

  lemma NotOpen(open: seq<InodeHandle>, i: nat)
    requires DistinctSectors(open) && i < |open|
    ensures !IsOpen(open[..i] + open[i + 1..], open[i].sector) && IsOpen(open, open[i].sector)
  {
    var rest := open[..i] + open[i + 1..];
    assert forall k :: 0 <= k < |rest| ==> rest[k] == open[if k < i then k else k + 1];
  }
}
