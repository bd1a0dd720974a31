/** Files kept in inodes, on a disk with a free map (filesys/inode.c and
    filesys/free-map.c).  The disk is the array of sectors that the cache
    stands for (module Cache).

    Files are extended a sector at a time, with the tables that the sector needs, and
    read and written a sector at a time.  What this does to the sequences of bytes
    that files stand for is proved in InodeLayout; the ghost field `owner` says for
    every sector taken what it is for. */
module Inode {
  import opened Device
  import opened SectorWords
  import opened InodeLayout
  import opened Options
  import opened BitRuns
  import opened Counting
  import opened FreeMaps

  /** struct inode: an open inode. */
  class InodeHandle {
    const sector: nat
    var openCnt: int
    var removed: bool
    var denyWriteCnt: int
    var writerCnt: int

    constructor (sector: nat)
      ensures this.sector == sector && openCnt == 1 && !removed && denyWriteCnt == 0 && writerCnt == 0
    {
      this.sector := sector;
      openCnt, removed, denyWriteCnt, writerCnt := 1, false, 0, 0;
    }
  }

  class FileSystem {
    const freeMap: FreeMap
    var disk: seq<Sector>
    ghost var taken: seq<bool>   // what the free map says of each sector
    ghost var inodes: set<nat>   // sectors of the inodes of all files
    ghost var owner: Owners      // what each sector of a file is there for

    ghost predicate MapOk()
      reads this`taken, freeMap.bitmap.words
    {
      freeMap.Valid() && freeMap.Taken() == taken
    }

    ghost predicate Accounted()
      reads this, freeMap.bitmap.words
    {
      MapOk() && InodeLayout.Accounted(disk, owner, taken)
    }

    ghost predicate Valid()
      reads this, freeMap.bitmap.words
    {
      && Accounted()
      && forall ino :: ino in inodes ==> FileOk(disk, owner, ino)
    }

    /** A disk with an empty file system: only the two sectors at fixed places are
        taken, and their inodes have yet to be created. */
    constructor (disk: seq<Sector>)
      requires 2 <= |disk| <= WORD_LIMIT
      ensures Valid() && this.disk == disk && inodes == {} && owner == map[] && fresh(freeMap.bitmap.words)
      ensures forall s :: 0 <= s < |disk| ==> (taken[s] <==> s == FREE_MAP_SECTOR || s == ROOT_DIR_SECTOR)
    {
      var m := new FreeMap(|disk|);
      freeMap, this.disk, taken, inodes, owner := m, disk, m.Taken(), {}, map[];
    }

    /** How many sectors are free. */
    ghost function Free(): nat
      reads this`taken
    {
      Count(taken, IsFree)
    }

    /** free_map_allocate, as the inode code calls it: for one sector. */
    method TakeSector() returns (ok: bool, s: nat)
      requires Accounted()
      modifies this`taken, freeMap.bitmap.words
      ensures Accounted()
      ensures ok == exists i :: 0 <= i < |taken| && !old(taken)[i]
      ensures ok ==> s < |taken| && !old(taken)[s] && taken == old(taken)[s := true]
      ensures !ok ==> taken == old(taken)
      ensures old(Free()) == if ok then Free() + 1 else 0
    {
      hide RunAt, SetRun;
      forall i: nat ensures RunAt(taken, i, 1, false) <==> i < |taken| && !taken[i] { OneSector(taken, i); }
      ok, s := freeMap.Allocate(1);
      OneSector(taken, s);
      CountSome(taken, IsFree);
      if ok { CountUpdate(taken, s, true, IsFree); }
      taken := freeMap.Taken();
    }

    /** No sector is free. */
    ghost predicate Full()
      reads this
    {
      forall i :: 0 <= i < |taken| ==> taken[i]
    }

    /** free_map_release, as the inode code calls it: for one sector. */
    method GiveSector(s: nat)
      requires MapOk() && s < |taken| && taken[s]
      modifies this`taken, freeMap.bitmap.words
      ensures MapOk() && taken == old(taken)[s := false]
    {
      hide RunAt, SetRun;
      OneSector(taken, s);
      freeMap.Release(s, 1);
      taken := freeMap.Taken();
    }

    twostate predicate Grows(ino: nat)
      reads this, freeMap.bitmap.words
    {
      MapOk() && InodeLayout.Grows(old(disk), old(owner), old(taken), disk, owner, taken, ino)
    }

    /** The direct case of extend_file's loop body. */
    method PlaceDirect(ghost ino: nat, d: Sector, k: nat, s: nat) returns (d': Sector)
      requires Accounted() && Placed(disk, owner, ino, d, k) && k < DIRECT_CNT
      requires s < |disk| && taken[s] && s !in owner
      modifies this`owner
      ensures Grows(ino) && Added(disk, d, disk, d', owner, ino, k, s)
      ensures SameInode(d, d', k)
    {
      hide MapOk;
      AddDirect(disk, owner, ino, d, k, s);
      d' := WithPointer(d, k, s);
      UnusedPointer(d, k, s, k);
      owner := owner[s := (ino, Data(k))];
    }

    /** The indirect case: the table comes with the first sector in it. */
    method PlaceIndirect(ghost ino: nat, d: Sector, k: nat, s: nat) returns (ok: bool, d': Sector)
      requires Accounted() && Placed(disk, owner, ino, d, k) && DIRECT_CNT <= k < DIRECT_CNT + WORDS
      requires s < |disk| && taken[s] && s !in owner
      modifies this`disk, this`taken, freeMap.bitmap.words, this`owner
      ensures Grows(ino)
      ensures ok ==> Added(old(disk), d, disk, d', owner, ino, k, s)
      ensures ok ==> SameInode(d, d', k)
      ensures !ok ==> disk == old(disk) && owner == old(owner) && Full()
      ensures if ok then old(Free()) == Free() + TablesFor(k) else old(Free()) < TablesFor(k)
    {
      hide MapOk, Added, PutWord, SameInode, Count;
      d' := d;
      SameInodeRefl(d, k);
      if k == DIRECT_CNT {
        var t;
        ok, t := TakeSector();
        if !ok { return; }
        d' := WithPointer(d, INDIRECT_IDX, t);
        UnusedPointer(d, INDIRECT_IDX, t, k);
        AddFirstIndirect(disk, owner, ino, d, k, s, t);
        WritePointer(disk, ino, d, k, INDIRECT_IDX, t);
        owner := owner[s := (ino, Data(k))][t := (ino, Indirect)];
      } else {
        AddIndirect(disk, owner, ino, d, k, s);
        owner := owner[s := (ino, Data(k))];
      }
      var table := Pointer(d', INDIRECT_IDX);
      var buf := disk[table];
      buf := PutWord(buf, CalculateIndices(k)[1], s);
      disk := disk[table := buf];
      ok := true;
    }

    /** The doubly indirect case.  The code keeps one variable for the sector of
        either table; the second-level table's sector is the one left in it. */
    method PlaceDoubly(ghost ino: nat, d: Sector, k: nat, s: nat) returns (ok: bool, d': Sector)
      requires Accounted() && Placed(disk, owner, ino, d, k) && DIRECT_CNT + WORDS <= k < SPAN_SECTORS
      requires s < |disk| && taken[s] && s !in owner
      modifies this`disk, this`taken, freeMap.bitmap.words, this`owner
      ensures Grows(ino)
      ensures ok ==> Added(old(disk), d, disk, d', owner, ino, k, s)
      ensures ok ==> SameInode(d, d', k)
      ensures !ok ==> disk == old(disk) && owner == old(owner) && Full()
      ensures if ok then old(Free()) == Free() + TablesFor(k) else old(Free()) < TablesFor(k)
    {
      hide MapOk, Count, Added, SameInode, PutWord, WithPointer, Pointer, Word, Placed, Locate, InodeLayout.Grows;
      d' := d;
      SameInodeRefl(d, k);
      var offsets := CalculateIndices(k);
      ghost var j, w := offsets[1], offsets[2];
      var newSector, newIndirect := 0, false;
      if k == DIRECT_CNT + WORDS {
        ok, newSector := TakeSector();
        if !ok {
          GrowsMap(disk, owner, old(taken), taken, ino);
          return;
        }
        d' := WithPointer(d, DBL_INDIRECT_IDX, newSector);
        UnusedPointer(d, DBL_INDIRECT_IDX, newSector, k);
      }
      ghost var t := newSector;
      if offsets[2] == 0 {
        ok, newSector := TakeSector();
        if !ok {
          GrowsMap(disk, owner, old(taken), taken, ino);
          return;
        }
        newIndirect := true;
      }
      ghost var u := newSector;
      ghost var doubly := Pointer(d', DBL_INDIRECT_IDX);
      ghost var owner': Owners := owner;
      if w != 0 {
        SecondTableExists(disk, owner, ino, d, k, s, j, w);
        owner' := owner[s := (ino, Data(k))];
        ghost var first := Word(disk[doubly], j);
        GrowsByOne(disk, owner, old(taken), owner', taken, ino, first, PutWord(disk[first], w, s));
      } else if j != 0 {
        AddNewSecond(disk, owner, ino, d, k, s, j, u);
        owner' := owner[s := (ino, Data(k))][u := (ino, Second(j))];
        GrowsByTwo(disk, owner, old(taken), owner', taken, ino,
                   doubly, PutWord(disk[doubly], j, u), u, PutWord(disk[u], 0, s));
      } else {
        AddNewDoubly(disk, owner, ino, d, k, s, t, u);
        owner' := owner[t := (ino, DoublyIndirect)][s := (ino, Data(k))][u := (ino, Second(0))];
        GrowsByTwo(disk, owner, old(taken), owner', taken, ino,
                   doubly, PutWord(disk[doubly], j, u), u, PutWord(disk[u], 0, s));
      }
      WriteTables(Pointer(d', DBL_INDIRECT_IDX), newIndirect, newSector, offsets, s);
      owner := owner';
      ok := true;
    }

    /** The doubly indirect table at DOUBLY, with its entry to the second level
        updated if that is new, and the second-level table it then points to. */
    ghost function TablesWritten(disk: seq<Sector>, doubly: nat, newIndirect: bool, newSector: nat, j: nat, w: nat, s: nat)
      : seq<Sector>
      requires j < WORDS && w < WORDS && s < WORD_LIMIT && newSector < WORD_LIMIT
    {
      if doubly >= |disk| then disk else
      var disk1 := if newIndirect then disk[doubly := PutWord(disk[doubly], j, newSector)] else disk;
      var first := Word(disk1[doubly], j);
      if first >= |disk| then disk else disk1[first := PutWord(disk1[first], w, s)]
    }

    method WriteTables(doubly: nat, newIndirect: bool, newSector: nat, offsets: seq<nat>, s: nat)
      requires |offsets| == 3 && offsets[1] < WORDS && offsets[2] < WORDS
      requires s < WORD_LIMIT && newSector < WORD_LIMIT && doubly < |disk|
      requires Word(if newIndirect then PutWord(disk[doubly], offsets[1], newSector) else disk[doubly], offsets[1]) < |disk|
      modifies this`disk
      ensures disk == TablesWritten(old(disk), doubly, newIndirect, newSector, offsets[1], offsets[2], s)
    {
      hide MapOk, PutWord, Word;
      var buf := disk[doubly];
      if newIndirect {
        buf := PutWord(buf, offsets[1], newSector);
        disk := disk[doubly := buf];
      }
      var first := Word(buf, offsets[1]);
      buf := disk[first];
      buf := PutWord(buf, offsets[2], s);
      disk := disk[first := buf];
    }

    /** One iteration of extend_file's loop: a zeroed sector becomes the K'th of
        the file.  A failure leaves the file as it was, though sectors taken
        from the free map on the way stay taken. */
    method AddSector(ghost ino: nat, d: Sector, k: nat) returns (ok: bool, d': Sector)
      requires Accounted() && Placed(disk, owner, ino, d, k) && k < SPAN_SECTORS
      modifies this`disk, this`taken, freeMap.bitmap.words, this`owner
      ensures Grows(ino)
      ensures ok ==> Kept(old(disk), d, disk, d', ino, k) && Placed(disk, owner, ino, d', k + 1)
      ensures ok ==> At(disk, Locate(disk, ino, d', Data(k))) == Zeroes()
      ensures ok ==> SameInode(d, d', k)
      ensures !ok ==> Kept(old(disk), d, disk, d, ino, k) && Full()
      ensures if ok then old(Free()) == Free() + 1 + TablesFor(k) else old(Free()) < 1 + TablesFor(k)
    {
      hide MapOk, Count, Kept, Placed, Locate, Added, SameInode, InodeLayout.Grows;
      d' := d;
      ghost var disk0, owner0, free0 := disk, owner, taken;
      var s;
      ok, s := TakeSector();
      if !ok {
        KeptRefl(disk, d, ino, k);
        GrowsMap(disk, owner, free0, taken, ino);
        return;
      }
      disk := disk[s := Zeroes()];
      GrowsByOne(disk0, owner, free0, owner, taken, ino, s, Zeroes());
      WriteElsewhere(disk0, owner, ino, d, k, s, Zeroes());
      KeptPlaced(disk0, d, owner, disk, d, owner, ino, k);
      ghost var disk1, owner1, free1 := disk, owner, taken;
      if k < DIRECT_CNT {
        d' := PlaceDirect(ino, d, k, s);
      } else if k < DIRECT_CNT + WORDS {
        ok, d' := PlaceIndirect(ino, d, k, s);
      } else {
        ok, d' := PlaceDoubly(ino, d, k, s);
      }
      GrowsTrans(disk0, owner0, free0, disk1, owner1, free1, disk, owner, taken, ino);
      if ok {
        AddedIs(disk1, d, disk, d', owner, ino, k, s);
        KeptTrans(disk0, d, disk1, d, disk, d', ino, k);
      }
    }

    /** extend_file on an inode in memory: zeroed sectors are added until the
        file reaches LENGTH.  Fails for a length no inode can have, and when the
        free map runs out; a file's sectors then hold what they held. */
    method ExtendDisk(ghost ino: nat, d: Sector, length: int) returns (ok: bool, e: Sector)
      requires Accounted() && -1 <= Length(d) <= INODE_SPAN
      requires Placed(disk, owner, ino, d, SectorCount(Length(d)))
      requires ZeroFrom(disk, ino, d, Max(Length(d), 0), SectorCount(Length(d)))
      modifies this`disk, this`taken, freeMap.bitmap.words, this`owner
      ensures Grows(ino)
      ensures ok ==> 0 <= length <= INODE_SPAN && Extended(old(disk), d, disk, e, owner, ino, length)
      ensures !ok ==> Kept(old(disk), d, disk, d, ino, SectorCount(Length(d)))
      ensures !ok ==> !(0 <= length <= INODE_SPAN) || Full()
      ensures ok <==> 0 <= length <= INODE_SPAN && old(Free()) >= SectorsFor(SectorCount(Length(d)), SectorCount(length))
      ensures ok ==> old(Free()) == Free() + SectorsFor(SectorCount(Length(d)), SectorCount(length))
    {
      hide MapOk, Count, TablesFor, Extending, Extended, Kept, Placed, ZeroFrom, InodeLayout.Grows, SameInode;
      ghost var disk0, owner0, free0 := disk, owner, taken;
      ghost var n0, from_ := SectorCount(Length(d)), Max(Length(d), 0);
      GrowsMap(disk, owner, taken, taken, ino);
      KeptRefl(disk, d, ino, n0);
      e := d;
      if length > INODE_SPAN || length < 0 { return false, e; }
      var lastNew := LastSector(length);
      var lastOld := LastSector(Length(d));
      if Length(d) != -1 && lastNew <= lastOld {
        if lastNew == lastOld && Length(d) < length {
          e := WithLength(d, length);
          SameSectors(disk, d, owner, ino, length);
        } else {
          NothingToDo(disk, d, owner, ino, length);
        }
        return true, e;
      }
      var next := if Length(d) == -1 then 0 else lastOld + 1;
      CountCovers(length);
      ExtendingStart(disk, d, owner, ino, n0, from_);
      while next <= lastNew
        invariant n0 <= next <= lastNew + 1 <= SPAN_SECTORS
        invariant InodeLayout.Grows(disk0, owner0, free0, disk, owner, taken, ino)
        invariant Accounted() && Placed(disk, owner, ino, e, next)
        invariant Extending(disk0, d, disk, e, owner, ino, n0, from_, next)
        invariant old(Free()) == Free() + SectorsFor(n0, next)
        decreases lastNew + 1 - next
      {
        ghost var disk1, owner1, free1, e1 := disk, owner, taken, e;
        ok, e := AddSector(ino, e, next);
        GrowsTrans(disk0, owner0, free0, disk1, owner1, free1, disk, owner, taken, ino);
        if !ok {
          ExtendingAborted(disk0, d, disk1, e1, owner1, disk, ino, n0, from_, next);
          MoreSectors(n0, next + 1, lastNew + 1);
          return;
        }
        ExtendingMore(disk0, d, disk1, e1, owner1, disk, e, owner, ino, n0, from_, next);
        next := next + 1;
      }
      ExtendingDone(disk0, d, disk, e, owner, ino, length);
      e := WithLength(e, length);
      ok := true;
    }

    /** No file but INO has changed, and no sector has been given up. */
    twostate predicate OthersKept(ino: nat)
      reads this
    {
      && inodes == old(inodes) && |disk| == |old(disk)|
      && (forall s :: s in old(owner) ==> s in owner && owner[s] == old(owner)[s])
      && (forall j :: j in inodes && j != ino ==>
            FileOk(old(disk), old(owner), j) && FileOk(disk, owner, j)
            && Contents(disk, j) == Contents(old(disk), j))
    }

    /** extend_file on an inode on the disk. */
    method ExtendFile(ino: nat, length: int) returns (ok: bool)
      requires Valid() && ino in inodes
      modifies this`disk, this`taken, freeMap.bitmap.words, this`owner
      ensures Valid() && OthersKept(ino)
      ensures ok ==> 0 <= length <= INODE_SPAN
      ensures Contents(disk, ino) ==
              if ok then Padded(old(Contents(disk, ino)), length) else old(Contents(disk, ino))
      ensures ok <==> 0 <= length <= INODE_SPAN
                      && old(Free()) >= SectorsFor(SectorCount(old(|Contents(disk, ino)|)), SectorCount(length))
    {
      hide MapOk, Count, SectorsFor, SectorCount, FileOk, Extended, Kept, Placed, ZeroFrom, Contents, InodeLayout.Grows;
      ghost var disk0, owner0 := disk, owner;
      FileIs(disk, owner, ino);
      var e;
      ok, e := ExtendDisk(ino, disk[ino], length);
      ghost var disk1 := disk;
      GrowsIs(disk0, owner0, old(taken), disk, owner, taken, ino);
      if ok {
        FileExtended(disk0, owner0, disk, e, owner, ino, length);
        disk := disk[ino := e];
      } else {
        FileKept(disk0, owner0, disk, owner, ino);
      }
      forall j | j in inodes && j != ino
        ensures FileOk(disk, owner, j) && Contents(disk, j) == Contents(disk0, j)
      {
        GrownElsewhere(disk0, owner0, old(taken), disk1, owner, taken, ino, e, j);
      }
    }

    /** get_data_block: the sector that holds byte OFFSET of the file, or none if
        the file is shorter than OFFSET and ALLOCATE is not set. */
    method GetDataBlock(ino: nat, offset: nat, allocate: bool) returns (s: Option<nat>)
      requires Valid() && ino in inodes
      requires offset / SECTOR_SIZE < SectorCount(|Contents(disk, ino)|)
               || (!allocate && offset > |Contents(disk, ino)|)
      ensures s.None? <==> !allocate && offset > |Contents(disk, ino)|
      ensures s.Some? ==> s.value == Locate(disk, ino, At(disk, ino), Data(offset / SECTOR_SIZE)) < |disk|
    {
      hide MapOk, FileOk, Contents, Locate;
      FileIs(disk, owner, ino);
      var d := disk[ino];
      if offset > Length(d) && !allocate { return None; }
      var k := offset / SECTOR_SIZE;
      DataSector(disk, owner, ino, k);
      TablesOnDisk(disk, owner, ino, k);
      IndicesFollowPath(disk, ino, d, k);
      var offsets := CalculateIndices(k);
      if |offsets| == 1 {
        s := Some(Pointer(d, offsets[0]));
      } else if |offsets| == 2 {
        var buf := disk[Pointer(d, INDIRECT_IDX)];
        s := Some(Word(buf, offsets[1]));
      } else {
        var buf := disk[Pointer(d, DBL_INDIRECT_IDX)];
        buf := disk[Word(buf, offsets[1])];
        s := Some(Word(buf, offsets[2]));
      }
    }

    /** One chunk of a read, within a sector. */
    method ReadChunk(ino: nat, buffer: array<byte>, done: nat, offset: nat, chunk: nat)
      requires Valid() && ino in inodes && 0 < chunk && done + chunk <= buffer.Length
      requires offset + chunk <= |Contents(disk, ino)| && offset % SECTOR_SIZE + chunk <= SECTOR_SIZE
      modifies buffer
      ensures buffer[..] == Overlay(old(buffer[..]), done, Contents(disk, ino)[offset..offset + chunk])
    {
      hide MapOk, FileOk, Contents, Locate;
      FileIs(disk, owner, ino);
      SectorSlice(disk, owner, ino, offset, chunk);
      var s := GetDataBlock(ino, offset, false);
      match s {
        case None => // zero fill in the code; within the file's length no sector is missing
          assert false;
        case Some(nr) =>
          var sectorData := disk[nr];
          CopyIn(buffer, done, sectorData[offset % SECTOR_SIZE..offset % SECTOR_SIZE + chunk]);
      }
    }

    /** inode_length. */
    method InodeLength(ino: nat) returns (length: int)
      requires Valid() && ino in inodes
      ensures length == |Contents(disk, ino)|
    {
      hide MapOk;
      FileIs(disk, owner, ino);
      length := Length(disk[ino]);
    }

    /** inode_read_at. */
    method ReadAt(ino: nat, buffer: array<byte>, size: nat, offset: nat) returns (bytesRead: nat)
      requires Valid() && ino in inodes && size <= buffer.Length
      modifies buffer
      ensures bytesRead == ReadSize(|Contents(disk, ino)|, size, offset) <= size
      ensures bytesRead < size ==> offset + bytesRead >= |Contents(disk, ino)|
      ensures bytesRead > 0 ==> buffer[..bytesRead] == Contents(disk, ino)[offset..offset + bytesRead]
      ensures buffer[bytesRead..] == old(buffer[bytesRead..])
    {
      hide MapOk, FileOk, Contents, Overlay, Valid;
      ghost var c := Contents(disk, ino);
      var left, at := size, offset;
      bytesRead := 0;
      while left > 0
        invariant 0 <= left && at == offset + bytesRead && left + bytesRead == size
        invariant ReadSoFar(buffer[..], old(buffer[..]), c, offset, bytesRead)
      {
        var length := InodeLength(ino);
        var chunk := Chunk(left, length - at, at);
        if chunk <= 0 { break; }
        ReadStep(buffer[..], old(buffer[..]), c, offset, bytesRead, c[at..at + chunk]);
        ReadChunk(ino, buffer, bytesRead, at, chunk);
        left := left - chunk;
        at := at + chunk;
        bytesRead := bytesRead + chunk;
      }
    }

    /** One chunk of a write, within a sector: the sector is read, changed and
        written back. */
    method WriteChunk(ino: nat, offset: nat, chunk: seq<byte>)
      requires Valid() && ino in inodes && 0 < |chunk|
      requires offset + |chunk| <= |Contents(disk, ino)| && offset % SECTOR_SIZE + |chunk| <= SECTOR_SIZE
      modifies this`disk
      ensures Valid() && OthersKept(ino)
      ensures Contents(disk, ino) == Overlay(old(Contents(disk, ino)), offset, chunk)
    {
      hide MapOk, FileOk, Contents, Locate, Overlay;
      ghost var disk0 := disk;
      FileIs(disk, owner, ino);
      DataSector(disk, owner, ino, offset / SECTOR_SIZE);
      FileWritten(disk, owner, ino, offset, chunk);
      var s := GetDataBlock(ino, offset, true);
      var sectorData := disk[s.value];
      var written: Sector := Overlay(sectorData, offset % SECTOR_SIZE, chunk);
      disk := disk[s.value := written];
      forall j | j in inodes && j != ino
        ensures FileOk(disk, owner, j) && Contents(disk, j) == Contents(disk0, j)
      {
        OtherFile(disk0, owner, disk, owner, j);
      }
    }

    /** The loop of inode_write_at: sector by sector, within the file. */
    method WriteChunks(ino: nat, buffer: array<byte>, size: nat, offset: nat) returns (bytesWritten: nat)
      requires Valid() && ino in inodes && size <= buffer.Length
      requires offset + size <= |Contents(disk, ino)| && offset + size <= INODE_SPAN
      modifies this`disk
      ensures Valid() && OthersKept(ino) && bytesWritten == size
      ensures Contents(disk, ino) == Overlay(old(Contents(disk, ino)), offset, buffer[..size])
    {
      hide MapOk, FileOk, Contents, Overlay, SectorCount;
      ghost var c, data := Contents(disk, ino), buffer[..size];
      bytesWritten := 0;
      var left, at := size, offset;
      OverlayNothing(c, offset, data);
      while left > 0
        invariant 0 <= left && at == offset + bytesWritten && left + bytesWritten == size
        invariant Valid() && OthersKept(ino)
        invariant Contents(disk, ino) == Overlay(c, offset, data[..bytesWritten])
      {
        var chunk := Chunk(left, INODE_SPAN - at, at);
        OverlayMore(c, offset, data, bytesWritten, chunk);
        assert buffer[bytesWritten..bytesWritten + chunk] == data[bytesWritten..bytesWritten + chunk];
        WriteChunk(ino, at, buffer[bytesWritten..bytesWritten + chunk]);
        left := left - chunk;
        at := at + chunk;
        bytesWritten := bytesWritten + chunk;
      }
      TakeAll(data);
    }

    /** inode_write_at without the count of writers. */
    method ExtendAndWrite(ino: nat, buffer: array<byte>, size: nat, offset: nat)
      returns (extended: bool, bytesWritten: nat)
      requires Valid() && ino in inodes && size <= buffer.Length
      modifies this`disk, this`taken, freeMap.bitmap.words, this`owner
      ensures Valid() && OthersKept(ino) && bytesWritten == if extended then size else 0
      ensures Contents(disk, ino) == if extended then WrittenAt(old(Contents(disk, ino)), offset, buffer[..size])
                                     else old(Contents(disk, ino))
      ensures extended <==> offset + size <= INODE_SPAN
                            && old(Free()) >= SectorsFor(SectorCount(old(|Contents(disk, ino)|)), SectorCount(offset + size))
    {
      hide MapOk, Count, SectorsFor, FileOk, Contents, Overlay, SectorCount, Padded;
      bytesWritten := 0;
      extended := ExtendFile(ino, offset + size);
      if extended { bytesWritten := WriteChunks(ino, buffer, size, offset); }
    }

    /** inode_write_at.  The code goes on writing after a failed extension; this
        model stops there and says so. */
    method WriteAt(inode: InodeHandle, buffer: array<byte>, size: nat, offset: nat)
      returns (extended: bool, bytesWritten: nat)
      requires Valid() && inode.sector in inodes && size <= buffer.Length
      modifies this`disk, this`taken, freeMap.bitmap.words, this`owner, inode`writerCnt
      ensures Valid() && OthersKept(inode.sector) && inode.writerCnt == old(inode.writerCnt)
      ensures inode.denyWriteCnt != 0 ==> extended && bytesWritten == 0 && disk == old(disk)
      ensures inode.denyWriteCnt == 0 && extended ==>
                && bytesWritten == size
                && Contents(disk, inode.sector) == WrittenAt(old(Contents(disk, inode.sector)), offset, buffer[..size])
      ensures !extended ==> bytesWritten == 0 && Contents(disk, inode.sector) == old(Contents(disk, inode.sector))
      ensures extended <==> inode.denyWriteCnt != 0 || (offset + size <= INODE_SPAN
                            && old(Free()) >= SectorsFor(SectorCount(old(|Contents(disk, inode.sector)|)), SectorCount(offset + size)))
    {
      hide MapOk, Count, SectorsFor, FileOk, Contents, WrittenAt, SectorCount, InodeLayout.Accounted;
      if inode.denyWriteCnt != 0 { return true, 0; }
      inode.writerCnt := inode.writerCnt + 1;
      extended, bytesWritten := ExtendAndWrite(inode.sector, buffer, size, offset);
      inode.writerCnt := inode.writerCnt - 1;
    }

    /** Every sector that any file uses is marked in the free map, and is reached
        by one path of one file. */
    lemma ReachedOnce(i: nat, p: Path, j: nat, q: Path)
      requires Valid() && i in inodes && j in inodes
      requires Has(SectorCount(|Contents(disk, i)|), p) && Has(SectorCount(|Contents(disk, j)|), q)
      ensures var s := Locate(disk, i, At(disk, i), p);
              && s < |taken| && taken[s]
              && (s == Locate(disk, j, At(disk, j), q) ==> i == j && p == q)
    {
      hide Locate;
      PlacedLeads(disk, owner, i, At(disk, i), SectorCount(|Contents(disk, i)|), p);
      PlacedLeads(disk, owner, j, At(disk, j), SectorCount(|Contents(disk, j)|), q);
    }

    /** inode_create, in a sector that its caller has taken from the free map.
        (The code panics when it fails.) */
    method InodeCreate(sector: nat, length: int, kind: nat) returns (ok: bool)
      requires Valid() && sector < |disk| && taken[sector] && sector !in owner
      requires 0 <= length && kind < WORD_LIMIT
      modifies this`disk, this`taken, freeMap.bitmap.words, this`owner, this`inodes
      ensures Valid()
      ensures inodes == if ok then old(inodes) + {sector} else old(inodes)
      ensures ok ==> length <= INODE_SPAN && Contents(disk, sector) == Padded([], length)
      ensures ok ==> Word(disk[sector], TYPE_WORD) == kind
      ensures ok <==> length <= INODE_SPAN && old(Free()) >= SectorsFor(0, SectorCount(length))
      ensures forall j :: j in old(inodes) ==> Contents(disk, j) == Contents(old(disk), j)
    {
      hide MapOk, FileOk, Contents, Placed, ZeroFrom, Extended, Kept, NewInode, InodeLayout.Grows, Length, Word;
      ghost var disk0, owner0 := disk, owner;
      var d := NewInode(kind);
      owner := owner[sector := (sector, Path.Inode)];
      ghost var owner1 := owner;
      NewInodePlaced(disk, owner, sector, kind);
      var e;
      ok, e := ExtendDisk(sector, d, length);
      ghost var disk1 := disk;
      GrowsIs(disk0, owner1, old(taken), disk, owner, taken, sector);
      if ok {
        FileCreated(disk0, kind, disk, e, owner, sector, length);
        disk := disk[sector := e];
        inodes := inodes + {sector};
      }
      forall j | j in old(inodes) ensures FileOk(disk, owner, j) && Contents(disk, j) == Contents(disk0, j) {
        FileIs(disk0, owner0, j);
        OtherFile(disk0, owner0, disk0, owner1, j);
        GrownElsewhere(disk0, owner1, old(taken), disk1, owner, taken, sector, e, j);
      }
    }

    /** The data sectors that extend_file took for a file. */
    ghost function FileSectors(ino: nat): set<nat>
      reads this`disk
    {
      DataSectors(disk, ino, SectorCount(|Contents(disk, ino)|))
    }

    /** deallocate_inode, for a file of direct sectors only: it frees the sectors of
        the file and no others, but not the one sector that an empty file has.  The
        sector of the inode itself stays taken. */
    method Deallocate(ino: nat)
      requires Valid() && ino in inodes && SectorCount(|Contents(disk, ino)|) <= DIRECT_CNT
      modifies this`taken, freeMap.bitmap.words, this`owner, this`inodes
      ensures Valid() && inodes == old(inodes) - {ino}
      ensures |taken| == |old(taken)|
      ensures forall s :: s in FileSectors(ino) ==> s < |taken| && old(taken)[s]
      ensures forall s :: 0 <= s < |taken| ==>
                (taken[s] <==> old(taken)[s] && (s !in FileSectors(ino) || |Contents(disk, ino)| == 0))
      ensures (forall s :: s in FileSectors(ino) ==> !taken[s]) <==> |Contents(disk, ino)| != 0
      ensures forall j :: j in inodes ==> FileOk(disk, owner, j) && FileOk(disk, old(owner), j)
    {
      hide MapOk, FileOk, Contents, Locate;
      FileIs(disk, owner, ino);
      var d := disk[ino];
      var nrSectors := if Length(d) == 0 then 0 else 1 + LastSector(Length(d));
      ghost var free0 := taken;
      forall k: nat | k < SectorCount(Length(d)) ensures Leads(disk, owner, ino, d, Data(k)) {
        DataHas(SectorCount(Length(d)), k);
        PlacedLeads(disk, owner, ino, d, SectorCount(Length(d)), Data(k));
      }
      var next := 0;
      while next < nrSectors
        modifies this`taken, freeMap.bitmap.words
        invariant 0 <= next <= nrSectors <= DIRECT_CNT && |taken| == |free0|
        invariant MapOk()
        invariant forall s :: 0 <= s < |taken| ==>
                    (taken[s] <==> free0[s] && s !in DataSectors(disk, ino, next))
      {
        DirectSector(disk, ino, next);
        GiveSector(Pointer(d, next));
        next := next + 1;
      }
      AllReleased(disk, ino, free0, taken, SectorCount(Length(d)), nrSectors);
      ghost var owner0 := owner;
      owner := map s | s in owner && owner[s].0 != ino :: owner[s];
      inodes := inodes - {ino};
      forall s | s in owner ensures s < |disk| && taken[s] {
      }
      forall j | j in inodes ensures FileOk(disk, owner, j) {
        OtherFile(disk, owner0, disk, owner, j);
      }
    }
  }

  predicate IsFree(bit: bool) { !bit }

  /** How many tables come with the K'th sector of a file: the first sector of the
      indirect part and of each second-level table brings a table, and the very
      first of the doubly indirect part two. */
  function TablesFor(k: nat): nat {
    if k < DIRECT_CNT then 0
    else if k < DIRECT_CNT + WORDS then if k == DIRECT_CNT then 1 else 0
    else (if k == DIRECT_CNT + WORDS then 1 else 0) + if (k - DIRECT_CNT - WORDS) % WORDS == 0 then 1 else 0
  }

  /** How many sectors a file that has FROM sectors takes to have TO. */
  function SectorsFor(from_: nat, to: nat): nat {
    if to <= from_ then 0 else SectorsFor(from_, to - 1) + 1 + TablesFor(to - 1)
  }

  /** A file of N sectors takes those and its tables: the indirect one, the doubly
      indirect one, and a second-level one for every 128 sectors behind the others,
      the last of them perhaps not full. */
  lemma {:induction false} TablesTaken(n: nat)
    ensures SectorsFor(0, n) == n + (if n > 123 then 1 else 0) + (if n > 251 then 1 + (n - 251 + 127) / 128 else 0)
  {
    if n > 0 { TablesTaken(n - 1); }
  }

  lemma {:induction false} MoreSectors(from_: nat, a: nat, b: nat)
    requires a <= b
    ensures SectorsFor(from_, a) <= SectorsFor(from_, b)
  {
    if a < b { MoreSectors(from_, a, b - 1); }
  }

  lemma TakeAll(data: seq<byte>)
    ensures data[..|data|] == data
  {
  }

  /** Chunks are within a sector and within the request. */
  function Chunk(left: int, limit: int, at: nat): int {
    var sectorLeft := SECTOR_SIZE - at % SECTOR_SIZE;
    var minLeft := if limit < sectorLeft then limit else sectorLeft;
    if left < minLeft then left else minLeft
  }

  /** A read under way: DONE bytes of the file are in the buffer, and the rest of it
      is as it was. */
  ghost predicate ReadSoFar(now: seq<byte>, was: seq<byte>, c: seq<byte>, offset: nat, done: nat) {
    && done <= |now| == |was|
    && (done > 0 ==> offset + done <= |c| && now[..done] == c[offset..offset + done])
    && now[done..] == was[done..]
  }

  /** One more chunk in the buffer of a read. */
  lemma ReadStep(now: seq<byte>, was: seq<byte>, c: seq<byte>, offset: nat, done: nat, data: seq<byte>)
    requires ReadSoFar(now, was, c, offset, done) && done + |data| <= |now| && offset + done + |data| <= |c|
    requires data == c[offset + done..offset + done + |data|]
    ensures ReadSoFar(Overlay(now, done, data), was, c, offset, done + |data|)
  {
    hide Overlay;
    OverlayParts(now, done, data);
    assert now[done..][|data|..] == now[done + |data|..];
    assert was[done..][|data|..] == was[done + |data|..];
    if done == 0 { assert now[..done] == c[offset..offset]; }
  }

  /** The part of a read of SIZE bytes at OFFSET that a file of LENGTH has. */
  function ReadSize(length: nat, size: nat, offset: nat): (n: nat)
    ensures n <= size && (n > 0 ==> offset + n <= length)
    ensures n < size ==> offset + n >= length
  {
    if offset >= length then 0 else if size < length - offset then size else length - offset
  }
}
