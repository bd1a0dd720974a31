/** Directories (filesys/directory.c): lookups, additions, removals and listing,
    over the file that inode_read_at and inode_write_at give access to.

    The bytes of that file are cut into entries of fixed size, and the entries in use
    are a map from names to sectors (module DirEntries).  The methods read and write
    one entry at a time through the inode layer, and their contracts say what becomes
    of the map and of the other files on the disk. */
module Directories {
  import opened CStrings
  import opened Device
  import opened DirEntries
  import opened Inode
  import opened InodeLayout
  import opened SectorWords

  /** The file as the read of one entry finds it. */
  lemma EntryRead(c: seq<byte>, i: nat, n: nat)
    requires |c| % ENTRY_SIZE == 0 && n == ReadSize(|c|, ENTRY_SIZE, ENTRY_SIZE * i)
    ensures n == ENTRY_SIZE <==> i < SlotCount(c)
    ensures n == ENTRY_SIZE ==> c[ENTRY_SIZE * i..ENTRY_SIZE * i + ENTRY_SIZE] == Slot(c, i)
  {
  }

  /** A write of one entry is that of a slot. */
  lemma EntryWritten(c: seq<byte>, i: nat, e: DirEntry)
    requires |c| % ENTRY_SIZE == 0 && i <= SlotCount(c)
    ensures WrittenAt(c, ENTRY_SIZE * i, e) == WithSlot(c, i, e)
  {
    if i == SlotCount(c) {
      assert ENTRY_SIZE * i == |c|;
      assert WrittenAt(c, |c|, e) == c + e;
    } else {
      assert Padded(c, ENTRY_SIZE * i + ENTRY_SIZE) == c;
    }
  }

  lemma NewEntryIs(e: DirEntry, name: seq<byte>, sector: nat)
    requires 0 !in name && 0 < |name| <= NAME_MAX && sector < WORD_LIMIT
    requires e[..4] == ToBytes(sector) && e[4..4 + |name|] == name && e[4 + |name|] == 0 && e[IN_USE_AT] != 0
    ensures InUse(e) && EntryName(e) == name && EntrySector(e) == sector
  {
    var rest := e[4 + |name| + 1..IN_USE_AT];
    assert e[4..IN_USE_AT] == name + [0] + rest;
    CStringOf(name, rest);
    assert forall k :: 0 <= k < 4 ==> e[k] == ToBytes(sector)[k];
  }

  lemma ErasedIs(e: DirEntry)
    ensures !InUse(e[IN_USE_AT := 0])
  {
  }

  ghost predicate NoneTwice(names: seq<seq<byte>>) { forall m, n :: 0 <= m < n < |names| ==> names[m] != names[n] }

  /** The names in use from slot I on, in order. */
  ghost function NamesFrom(c: seq<byte>, i: nat): seq<seq<byte>>
    requires i <= SlotCount(c)
    decreases SlotCount(c) - i
  {
    if i == SlotCount(c) then []
    else if InUse(Slot(c, i)) then [EntryName(Slot(c, i))] + NamesFrom(c, i + 1)
    else NamesFrom(c, i + 1)
  }

  /** A position between two entries, and the names in use from there on. */
  ghost predicate AtSlot(c: seq<byte>, pos: nat) { pos % ENTRY_SIZE == 0 && pos / ENTRY_SIZE <= SlotCount(c) }

  ghost function NamesAt(c: seq<byte>, pos: nat): seq<seq<byte>>
    requires AtSlot(c, pos)
  {
    NamesFrom(c, pos / ENTRY_SIZE)
  }

  lemma FromTheStart(c: seq<byte>)
    ensures AtSlot(c, 0) && NamesAt(c, 0) == NamesFrom(c, 0)
  {
  }

  /** They are those of the directory, each once. */
  lemma {:induction false} NamesOnce(c: seq<byte>, i: nat)
    requires DirOk(c) && i <= SlotCount(c)
    ensures forall name :: name in NamesFrom(c, i) <==> exists j :: i <= j && Named(c, j, name)
    ensures forall m, n :: 0 <= m < n < |NamesFrom(c, i)| ==> NamesFrom(c, i)[m] != NamesFrom(c, i)[n]
    decreases SlotCount(c) - i
  {
    if i < SlotCount(c) {
      hide Slot, InUse, EntryName;
      NamesOnce(c, i + 1);
      var rest := NamesFrom(c, i + 1);
      forall name ensures name in NamesFrom(c, i) <==> exists j :: i <= j && Named(c, j, name) {
        assert Named(c, i, name) <==> InUse(Slot(c, i)) && name == EntryName(Slot(c, i));
      }
      if InUse(Slot(c, i)) {
        var name := EntryName(Slot(c, i));
        assert Named(c, i, name);
        assert name !in rest;
        var all := NamesFrom(c, i);
        assert all == [name] + rest;
        forall m, n | 0 <= m < n < |all| ensures all[m] != all[n] {
          if m == 0 { assert all[n] == rest[n - 1] && rest[n - 1] in rest; } else { assert rest[m - 1] != rest[n - 1]; }
        }
      }
    }
  }

  /** Entries of zeros are a directory without names. */
  lemma {:induction false} ZerosAreEmpty(n: nat, k: nat)
    requires k <= n
    ensures var c := Padded([], ENTRY_SIZE * n);
            SlotCount(c) == n && DirOk(c) && ListingTo(c, k) == map[]
  {
    var c := Padded([], ENTRY_SIZE * n);
    forall i | 0 <= i < n ensures !InUse(Slot(c, i)) { assert Slot(c, i)[IN_USE_AT] == c[ENTRY_SIZE * i + IN_USE_AT]; }
    if k > 0 { ZerosAreEmpty(n, k - 1); }
  }

  const DIR_INODE := 1

  /** dir_create: a directory without names, in a sector that the caller has taken;
      the other files are unchanged.  The size is an off_t, which has 32 bits. */
  method DirCreate(fs: FileSystem, sector: nat, entryCnt: nat) returns (ok: bool)
    requires fs.Valid() && sector < |fs.disk| && fs.taken[sector] && sector !in fs.owner
    requires ENTRY_SIZE * entryCnt < WORD_LIMIT / 2
    modifies fs`disk, fs`taken, fs.freeMap.bitmap.words, fs`owner, fs`inodes
    ensures fs.Valid() && fs.inodes == if ok then old(fs.inodes) + {sector} else old(fs.inodes)
    ensures ok ==> DirOk(Contents(fs.disk, sector)) && Listing(Contents(fs.disk, sector)) == map[]
    ensures ok ==> SlotCount(Contents(fs.disk, sector)) == entryCnt && Word(fs.disk[sector], TYPE_WORD) == DIR_INODE
    ensures ok <==> ENTRY_SIZE * entryCnt <= INODE_SPAN
                    && old(fs.Free()) >= SectorsFor(0, SectorCount(ENTRY_SIZE * entryCnt))
    ensures forall f :: f in old(fs.inodes) ==> Contents(fs.disk, f) == old(Contents(fs.disk, f))
  {
    hide FileOk, Contents, Slot, DirOk, ListingTo, SlotCount, SectorCount, Padded, Word;
    ok := fs.InodeCreate(sector, ENTRY_SIZE * entryCnt, DIR_INODE);
    ZerosAreEmpty(entryCnt, entryCnt);
  }

  class Dir {
    const fs: FileSystem
    const inode: InodeHandle
    var pos: nat

    ghost function Bytes(): seq<byte>
      reads fs
    {
      Contents(fs.disk, inode.sector)
    }

    ghost predicate Valid()
      reads fs, fs.freeMap.bitmap.words
    {
      fs.Valid() && inode.sector in fs.inodes && DirOk(Bytes())
    }

    /** dir_open. */
    constructor (fs: FileSystem, inode: InodeHandle)
      requires fs.Valid() && inode.sector in fs.inodes && DirOk(Contents(fs.disk, inode.sector))
      ensures Valid() && this.fs == fs && this.inode == inode && pos == 0
    {
      this.fs, this.inode, pos := fs, inode, 0;
    }

    /** inode_read_at (dir->inode, &e, sizeof e, ofs), at slot I. */
    method ReadEntry(e: array<byte>, ofs: nat, ghost i: nat) returns (whole: bool)
      requires Valid() && e.Length == ENTRY_SIZE && ofs == ENTRY_SIZE * i
      modifies e
      ensures whole <==> i < SlotCount(Bytes())
      ensures whole ==> e[..] == Slot(Bytes(), i)
    {
      hide FileOk, Contents, Slot, DirOk, SlotCount;
      Whole(Bytes());
      var n := fs.ReadAt(inode.sector, e, ENTRY_SIZE, ofs);
      EntryRead(Bytes(), i, n);
      whole := n == ENTRY_SIZE;
      assert whole ==> e[..ENTRY_SIZE] == e[..];
    }

    /** lookup: the entry for NAME and its offset, that of slot I. */
    method Lookup(name: seq<byte>) returns (found: bool, e: DirEntry, ofs: nat, ghost i: nat)
      requires Valid()
      ensures found <==> name in Listing(Bytes())
      ensures found ==> ofs == ENTRY_SIZE * i && Named(Bytes(), i, name) && e == Slot(Bytes(), i)
    {
      hide FileOk, Contents, Slot, Listing, EntryName, InUse, DirOk, SlotCount;
      ghost var c := Bytes();
      var buffer := new byte[ENTRY_SIZE];
      InListing(c, name);
      ofs, i := 0, 0;
      e := seq(ENTRY_SIZE, _ => 0);
      var whole := ReadEntry(buffer, ofs, i);
      while whole
        invariant ofs == ENTRY_SIZE * i && i <= SlotCount(c) && (whole <==> i < SlotCount(c))
        invariant whole ==> buffer[..] == Slot(c, i)
        invariant forall j :: 0 <= j < i ==> !Named(c, j, name)
        decreases SlotCount(c) - i
      {
        e := buffer[..];
        if InUse(e) && EntryName(e) == name {
          found := true;
          return;
        }
        ofs, i := ofs + ENTRY_SIZE, i + 1;
        whole := ReadEntry(buffer, ofs, i);
      }
      forall j ensures !Named(c, j, name) { }
      found := false;
    }

    /** The search of dir_add: the offset of the first free slot I, or of the end. */
    method FindFree(e: array<byte>) returns (ofs: nat, ghost i: nat)
      requires Valid() && e.Length == ENTRY_SIZE
      modifies e
      ensures ofs == ENTRY_SIZE * i && i <= SlotCount(Bytes())
      ensures i < SlotCount(Bytes()) ==> !InUse(Slot(Bytes(), i))
      ensures forall j :: 0 <= j < i ==> InUse(Slot(Bytes(), j))
    {
      hide FileOk, Contents, Slot, DirOk, SlotCount;
      ghost var c := Bytes();
      ofs, i := 0, 0;
      var whole := ReadEntry(e, ofs, i);
      while whole
        invariant ofs == ENTRY_SIZE * i && i <= SlotCount(c) && (whole <==> i < SlotCount(c))
        invariant whole ==> e[..] == Slot(c, i)
        invariant forall j :: 0 <= j < i ==> InUse(Slot(c, j))
        decreases SlotCount(c) - i
      {
        if !InUse(e[..]) { return; }
        ofs, i := ofs + ENTRY_SIZE, i + 1;
        whole := ReadEntry(e, ofs, i);
      }
    }

    /** The entry that dir_add writes: the flag, the name with its null, the sector;
        the rest is what E had there. */
    method FillEntry(e: array<byte>, name: seq<byte>, sector: nat)
      requires e.Length == ENTRY_SIZE && 0 !in name && 0 < |name| <= NAME_MAX && sector < WORD_LIMIT
      modifies e
      ensures InUse(e[..]) && EntryName(e[..]) == name && EntrySector(e[..]) == sector
    {
      hide ToBytes, InUse, EntryName, EntrySector;
      e[IN_USE_AT] := 1;
      CopyIn(e, 4, name + [0]);
      assert e[4 + |name|] == 0 && e[4..4 + |name|] == name && e[IN_USE_AT] == 1;
      CopyIn(e, 0, ToBytes(sector));
      assert e[..4] == ToBytes(sector);
      assert e[4 + |name|] == 0 && e[4..4 + |name|] == name && e[IN_USE_AT] == 1;
      NewEntryIs(e[..], name, sector);
    }

    /** Some slot is free. */
    ghost predicate HasFree()
      reads fs
    {
      exists j :: 0 <= j < SlotCount(Bytes()) && !InUse(Slot(Bytes(), j))
    }

    /** The file can grow by an entry. */
    ghost predicate CanGrow()
      reads fs
    {
      var end := |Bytes()| + ENTRY_SIZE;
      end <= INODE_SPAN && fs.Free() >= SectorsFor(SectorCount(|Bytes()|), SectorCount(end))
    }

    /** dir_add: the one new name is in the map, or nothing has changed.  A free slot
        is used again; the file grows by an entry only if there is none. */
    method Add(name: seq<byte>, inodeSector: nat) returns (success: bool)
      requires Valid() && 0 !in name && inodeSector < WORD_LIMIT
      modifies fs, fs.freeMap.bitmap.words, inode`writerCnt
      ensures Valid()
      ensures success <==> 0 < |name| <= NAME_MAX && name !in old(Listing(Bytes()))
                           && inode.denyWriteCnt == 0 && old(HasFree() || CanGrow())
      ensures success ==> Listing(Bytes()) == old(Listing(Bytes()))[name := inodeSector]
      ensures !success ==> Bytes() == old(Bytes())
      ensures old(HasFree()) ==> |Bytes()| == old(|Bytes()|)
      ensures fs.inodes == old(fs.inodes) && forall f :: f in fs.inodes && f != inode.sector ==>
                                                           Contents(fs.disk, f) == old(Contents(fs.disk, f))
    {
      hide FileOk, Contents, Slot, DirOk, Listing, InUse, EntryName, WithSlot, WrittenAt, SlotCount, SectorCount;
      ghost var c := Bytes();
      Whole(c);
      if name == [] || |name| > NAME_MAX { return false; }
      var found, _, _, _ := Lookup(name);
      if found { return false; }
      var e := new byte[ENTRY_SIZE];
      var ofs, i := FindFree(e);
      FillEntry(e, name, inodeSector);
      ghost var entry: DirEntry := e[..];
      EntryWritten(c, i, entry);
      AddedListing(c, i, entry);
      LengthBound(fs.disk, fs.owner, inode.sector, i);
      AtEnd(c, i);
      assert e[..ENTRY_SIZE] == entry;
      var extended, n := fs.WriteAt(inode, e, ENTRY_SIZE, ofs);
      success := n == ENTRY_SIZE;
    }

    /** dir_remove; CANOPEN says whether inode_open gets the memory it needs. */
    method Remove(name: seq<byte>, canOpen: bool) returns (success: bool)
      requires Valid()
      modifies fs, fs.freeMap.bitmap.words, inode`writerCnt
      ensures Valid()
      ensures success <==> name in old(Listing(Bytes())) && canOpen && inode.denyWriteCnt == 0
      ensures success ==> Listing(Bytes()) == old(Listing(Bytes())) - {name} && |Bytes()| == old(|Bytes()|)
      ensures !success ==> Bytes() == old(Bytes())
      ensures fs.inodes == old(fs.inodes) && forall f :: f in fs.inodes && f != inode.sector ==>
                                                           Contents(fs.disk, f) == old(Contents(fs.disk, f))
    {
      hide FileOk, Contents, Slot, DirOk, Listing, InUse, EntryName, WithSlot, WrittenAt, SlotCount;
      ghost var c := Bytes();
      Whole(c);
      var found, e, ofs, i := Lookup(name);
      if !found || !canOpen { return false; }
      SlotNamed(c, i, name);
      ErasedIs(e);
      var buffer := new byte[ENTRY_SIZE];
      CopyIn(buffer, 0, e[IN_USE_AT := 0]);
      OverlayAll(buffer[..], e[IN_USE_AT := 0]);
      assert buffer[..ENTRY_SIZE] == buffer[..] == e[IN_USE_AT := 0];
      EntryWritten(c, i, e[IN_USE_AT := 0]);
      RemovedListing(c, i, e[IN_USE_AT := 0], name);
      LengthBound(fs.disk, fs.owner, inode.sector, i);
      var extended, n := fs.WriteAt(inode, buffer, ENTRY_SIZE, ofs);
      success := n == ENTRY_SIZE;
    }

    /** dir_readdir: the next name in use from the position on. */
    method ReadDir() returns (more: bool, name: seq<byte>)
      requires Valid() && AtSlot(Bytes(), pos)
      modifies this`pos
      ensures AtSlot(Bytes(), pos) && (more ==> pos > old(pos))
      ensures more <==> NamesAt(Bytes(), old(pos)) != []
      ensures NamesAt(Bytes(), old(pos)) == (if more then [name] + NamesAt(Bytes(), pos) else [])
    {
      hide FileOk, Contents, Slot, DirOk, EntryName, InUse, SlotCount;
      ghost var c := Bytes();
      ghost var i: nat := pos / ENTRY_SIZE;
      var buffer := new byte[ENTRY_SIZE];
      name := [];
      var whole := ReadEntry(buffer, pos, i);
      while whole
        invariant pos == ENTRY_SIZE * i && i <= SlotCount(c) && (whole <==> i < SlotCount(c)) && pos >= old(pos)
        invariant whole ==> buffer[..] == Slot(c, i)
        invariant NamesFrom(c, old(pos) / ENTRY_SIZE) == NamesFrom(c, i)
        decreases SlotCount(c) - i
      {
        pos, i := pos + ENTRY_SIZE, i + 1;
        if InUse(buffer[..]) { return true, EntryName(buffer[..]); }
        whole := ReadEntry(buffer, pos, i);
      }
      more := false;
    }

    lemma IsDirectory()
      requires Valid()
      ensures DirOk(Bytes())
    {
    }

    /** Reading from the start lists every name in use exactly once. */
    method ListAll() returns (names: seq<seq<byte>>)
      requires Valid()
      modifies this`pos
      ensures forall name :: name in names <==> name in Listing(Bytes())
      ensures NoneTwice(names)
    {
      hide FileOk, Contents, Slot, DirOk, EntryName, InUse, SlotCount, NamesFrom, Listing, NoneTwice, Valid, AtSlot, NamesAt;
      ghost var c := Bytes();
      IsDirectory();
      pos := 0;
      names := [];
      FromTheStart(c);
      var more, name := ReadDir();
      while more
        invariant AtSlot(c, pos)
        invariant NamesFrom(c, 0) == names + (if more then [name] + NamesAt(c, pos) else [])
        decreases |NamesFrom(c, 0)| - |names|
      {
        Regrouped(names, name, NamesAt(c, pos));
        names := names + [name];
        more, name := ReadDir();
      }
      assert names + [] == names;
      AllListed(c);
    }
  }

  lemma Regrouped(a: seq<seq<byte>>, b: seq<byte>, c: seq<seq<byte>>)
    ensures a + ([b] + c) == a + [b] + c
  {
  }

  lemma AllListed(c: seq<byte>)
    requires DirOk(c)
    ensures forall name :: name in NamesFrom(c, 0) <==> name in Listing(c)
    ensures NoneTwice(NamesFrom(c, 0))
  {
    hide DirOk, Listing, NamesFrom, Named;
    NamesOnce(c, 0);
    forall name ensures name in NamesFrom(c, 0) <==> name in Listing(c) { InListing(c, name); }
  }

  /** A slot that is there is within the file, so writing it takes no new sectors. */
  lemma LengthBound(disk: seq<Sector>, owner: Owners, ino: nat, i: nat)
    requires FileOk(disk, owner, ino)
    ensures i < SlotCount(Contents(disk, ino)) ==>
              var end := ENTRY_SIZE * i + ENTRY_SIZE;
              end <= |Contents(disk, ino)| <= INODE_SPAN && SectorCount(end) <= SectorCount(|Contents(disk, ino)|)
  {
    hide FileOk, Contents;
    FileIs(disk, owner, ino);
  }

  /** Behind the last slot the file ends. */
  lemma AtEnd(c: seq<byte>, i: nat)
    requires DirOk(c) && i <= SlotCount(c)
    ensures i == SlotCount(c) ==> ENTRY_SIZE * i == |c|
  {
  }

  lemma Whole(c: seq<byte>)
    requires DirOk(c)
    ensures |c| % ENTRY_SIZE == 0
  {
  }

}
