/** How an inode reaches its sectors (filesys/inode.c): 123 direct pointers, one
    indirect table, one doubly indirect table; and what the files of a disk
    contain, as functions of the disk.

    A path names a sector of a file: a data sector by its number, or one of the
    tables.  Which file has a sector, and by which path, is a map from sectors; a path
    leads only to a sector that the map gives to it, so none is reached twice. */
module InodeLayout {
  import opened Device
  import opened SectorWords

  const DIRECT_CNT := 123
  const INDIRECT_IDX := 123
  const DBL_INDIRECT_IDX := 124
  const SECTOR_CNT := 125
  const SPAN_SECTORS := DIRECT_CNT + WORDS + WORDS * WORDS
  const INODE_SPAN := SPAN_SECTORS * SECTOR_SIZE
  const INODE_MAGIC := 0x494e4f44

  // struct inode_disk: type, length, magic, then the sector pointers.
  const TYPE_WORD := 0
  const LENGTH_WORD := 1
  const MAGIC_WORD := 2
  const POINTERS_WORD := 3

  function Zeroes(): (z: Sector)
    ensures forall i :: 0 <= i < SECTOR_SIZE ==> z[i] == 0
  {
    seq(SECTOR_SIZE, _ => 0 as byte)
  }

  function Length(d: Sector): int {
    var w := Word(d, LENGTH_WORD);
    if w < WORD_LIMIT / 2 then w else w - WORD_LIMIT
  }

  function WithLength(d: Sector, length: int): Sector
    requires -WORD_LIMIT / 2 <= length < WORD_LIMIT / 2
  {
    PutWord(d, LENGTH_WORD, if length < 0 then length + WORD_LIMIT else length)
  }

  function Pointer(d: Sector, i: nat): (p: nat)
    requires i < SECTOR_CNT
    ensures p < WORD_LIMIT
  {
    Word(d, POINTERS_WORD + i)
  }

  function WithPointer(d: Sector, i: nat, p: nat): Sector
    requires i < SECTOR_CNT && p < WORD_LIMIT
  {
    PutWord(d, POINTERS_WORD + i, p)
  }

  /** C's division truncates toward zero: an empty file's last sector is 0. */
  function LastSector(length: int): nat
    requires length >= -1
  {
    if length <= 0 then 0 else (length - 1) / SECTOR_SIZE
  }

  /** Number of data sectors allocated to a file.  Length -1 marks an inode
      under construction; a file of length 0 has one sector. */
  function SectorCount(length: int): nat
    requires length >= -1
  {
    if length == -1 then 0 else LastSector(length) + 1
  }

  /** The offsets to follow from the inode to its K'th data sector. */
  function CalculateIndices(k: nat): (o: seq<nat>) {
    if k < DIRECT_CNT then [k]
    else if k < DIRECT_CNT + WORDS then [INDIRECT_IDX, k - DIRECT_CNT]
    else [DBL_INDIRECT_IDX, (k - DIRECT_CNT - WORDS) / WORDS, (k - DIRECT_CNT - WORDS) % WORDS]
  }

  /** What a sector of a file is there for. */
  datatype Path =
    | Inode
    | Data(k: nat)
    | Indirect
    | DoublyIndirect
    | Second(j: nat)

  /** The paths that a file of N data sectors has. */
  predicate Has(n: nat, p: Path) {
    match p
    case Inode => true
    case Data(k) => k < n
    case Indirect => n > DIRECT_CNT
    case DoublyIndirect => n > DIRECT_CNT + WORDS
    case Second(j) => n > DIRECT_CNT + WORDS + WORDS * j
  }

  function At(disk: seq<Sector>, s: nat): Sector {
    if s < |disk| then disk[s] else Zeroes()
  }

  /** The sector that path P of the inode D, kept in sector INO, leads to.
      (Paths that no file has lead to sector 0.) */
  function Locate(disk: seq<Sector>, ino: nat, d: Sector, p: Path): nat {
    match p
    case Inode => ino
    case Indirect => Pointer(d, INDIRECT_IDX)
    case DoublyIndirect => Pointer(d, DBL_INDIRECT_IDX)
    case Second(j) => if j < WORDS then Word(At(disk, Pointer(d, DBL_INDIRECT_IDX)), j) else 0
    case Data(k) =>
      if k < DIRECT_CNT then Pointer(d, k)
      else if k < DIRECT_CNT + WORDS then
        Word(At(disk, Pointer(d, INDIRECT_IDX)), k - DIRECT_CNT)
      else if k < SPAN_SECTORS then
        var i := k - DIRECT_CNT - WORDS;
        Word(At(disk, Word(At(disk, Pointer(d, DBL_INDIRECT_IDX)), i / WORDS)), i % WORDS)
      else 0
  }

  /** Following the offsets leads where the path does. */
  lemma IndicesFollowPath(disk: seq<Sector>, ino: nat, d: Sector, k: nat)
    requires k < SPAN_SECTORS
    ensures var o := CalculateIndices(k);
            Locate(disk, ino, d, Data(k)) ==
              if |o| == 1 then Pointer(d, o[0])
              else if |o| == 2 then Word(At(disk, Pointer(d, o[0])), o[1])
              else Word(At(disk, Word(At(disk, Pointer(d, o[0])), o[1])), o[2])
  {
  }

  /** Different sectors of a file are reached by different offsets. */
  lemma IndicesInjective(k: nat, l: nat)
    requires CalculateIndices(k) == CalculateIndices(l)
    ensures k == l
  {
    var o := CalculateIndices(k);
    assert |o| == 3 ==> k - DIRECT_CNT - WORDS == WORDS * o[1] + o[2];
    assert |o| == 3 ==> l - DIRECT_CNT - WORDS == WORDS * o[1] + o[2];
  }

  type Owners = map<nat, (nat, Path)>

  /** Every path of the file leads to a sector that records exactly that path:
      so no two paths, of one file or of two, meet. */
  ghost predicate Placed(disk: seq<Sector>, owner: Owners, ino: nat, d: Sector, n: nat) {
    && n <= SPAN_SECTORS
    && forall p :: Has(n, p) ==> Leads(disk, owner, ino, d, p)
  }

  ghost predicate Leads(disk: seq<Sector>, owner: Owners, ino: nat, d: Sector, p: Path) {
    var s := Locate(disk, ino, d, p);
    s < |disk| && s in owner && owner[s] == (ino, p)
  }

  // ----- What a write leaves alone -----

  /** The pointer slots of the inode that a file of N sectors uses. */
  predicate SlotUsed(n: nat, i: nat) {
    && i < SECTOR_CNT
    && (i < DIRECT_CNT ==> i < n)
    && (i == INDIRECT_IDX ==> Has(n, Indirect))
    && (i == DBL_INDIRECT_IDX ==> Has(n, DoublyIndirect))
  }

  /** The path that entry W of table Q is for. */
  function Entry(q: Path, w: nat): Path {
    match q
    case Indirect => Data(DIRECT_CNT + w)
    case DoublyIndirect => Second(w)
    case Second(j) => Data(DIRECT_CNT + WORDS + WORDS * j + w)
    case _ => Inode
  }

  predicate IsTable(q: Path) { q.Indirect? || q.DoublyIndirect? || q.Second? }

  /** The pointers and table entries in use by a file of N sectors are the same
      on both disks. */
  ghost predicate SamePointers(disk: seq<Sector>, d: Sector, disk': seq<Sector>, d': Sector, ino: nat, n: nat) {
    && (forall i: nat :: SlotUsed(n, i) ==> Pointer(d', i) == Pointer(d, i))
    && (forall q, w: nat :: IsTable(q) && Has(n, q) && w < WORDS && Has(n, Entry(q, w)) ==>
          EntrySame(disk, disk', Locate(disk, ino, d, q), w))
  }

  ghost predicate EntrySame(disk: seq<Sector>, disk': seq<Sector>, table: nat, w: nat)
    requires w < WORDS
  {
    Word(At(disk', table), w) == Word(At(disk, table), w)
  }

  /** A file of N sectors is where it was, and its data sectors are what they
      were. */
  ghost predicate Kept(disk: seq<Sector>, d: Sector, disk': seq<Sector>, d': Sector, ino: nat, n: nat) {
    && (forall p :: Has(n, p) ==> PathSame(disk, d, disk', d', ino, p))
    && (forall k: nat :: k < n ==> DataSame(disk, disk', Locate(disk, ino, d, Data(k))))
  }

  ghost predicate PathSame(disk: seq<Sector>, d: Sector, disk': seq<Sector>, d': Sector, ino: nat, p: Path) {
    Locate(disk', ino, d', p) == Locate(disk, ino, d, p)
  }

  ghost predicate DataSame(disk: seq<Sector>, disk': seq<Sector>, s: nat) {
    At(disk', s) == At(disk, s)
  }

  lemma SamePointersSamePath(disk: seq<Sector>, d: Sector, disk': seq<Sector>, d': Sector, ino: nat, n: nat, p: Path)
    requires n <= SPAN_SECTORS && SamePointers(disk, d, disk', d', ino, n) && Has(n, p)
    ensures PathSame(disk, d, disk', d', ino, p)
  {
    match p
    case Inode =>
    case Indirect => assert SlotUsed(n, INDIRECT_IDX);
    case DoublyIndirect => assert SlotUsed(n, DBL_INDIRECT_IDX);
    case Second(j) => SameSecond(disk, d, disk', d', ino, n, j);
    case Data(k) =>
      if k < DIRECT_CNT {
        assert SlotUsed(n, k);
      } else if k < DIRECT_CNT + WORDS {
        assert SlotUsed(n, INDIRECT_IDX);
        assert Entry(Indirect, k - DIRECT_CNT) == p;
        assert EntrySame(disk, disk', Locate(disk, ino, d, Indirect), k - DIRECT_CNT);
      } else {
        var i := k - DIRECT_CNT - WORDS;
        SameDoubly(disk, d, disk', d', ino, n, i / WORDS, i % WORDS);
      }
  }

  lemma SameDoubly(disk: seq<Sector>, d: Sector, disk': seq<Sector>, d': Sector, ino: nat, n: nat, j: nat, w: nat)
    requires n <= SPAN_SECTORS && SamePointers(disk, d, disk', d', ino, n) && w < WORDS
    requires Has(n, Data(DIRECT_CNT + WORDS + WORDS * j + w))
    ensures PathSame(disk, d, disk', d', ino, Data(DIRECT_CNT + WORDS + WORDS * j + w))
  {
    hide Word, Pointer, At;
    SameSecond(disk, d, disk', d', ino, n, j);
    Through(disk, ino, d, j, w);
    Through(disk', ino, d', j, w);
    assert EntrySame(disk, disk', Locate(disk, ino, d, Second(j)), w);
  }

  lemma SameSecond(disk: seq<Sector>, d: Sector, disk': seq<Sector>, d': Sector, ino: nat, n: nat, j: nat)
    requires n <= SPAN_SECTORS && SamePointers(disk, d, disk', d', ino, n) && Has(n, Second(j))
    ensures PathSame(disk, d, disk', d', ino, Second(j))
  {
    assert SlotUsed(n, DBL_INDIRECT_IDX);
    assert Has(n, DoublyIndirect) && Entry(DoublyIndirect, j) == Second(j) && j < WORDS;
    assert EntrySame(disk, disk', Locate(disk, ino, d, DoublyIndirect), j);
  }

  /** A write to a sector that is no part of this file. */
  lemma WriteElsewhere(disk: seq<Sector>, owner: Owners, ino: nat, d: Sector, n: nat, s: nat, x: Sector)
    requires Placed(disk, owner, ino, d, n) && s < |disk|
    requires s in owner ==> owner[s].0 != ino
    ensures Kept(disk, d, disk[s := x], d, ino, n)
  {
    hide Locate, Has, Pointer, Word;
    var disk' := disk[s := x];
    forall p | Has(n, p) ensures Locate(disk, ino, d, p) != s { assert Leads(disk, owner, ino, d, p); }
    forall p | Has(n, p) ensures PathSame(disk, d, disk', d, ino, p) {
      SamePointersSamePath(disk, d, disk', d, ino, n, p);
    }
    forall k: nat | k < n ensures DataSame(disk, disk', Locate(disk, ino, d, Data(k))) {
      assert Has(n, Data(k)) by { DataHas(n, k); }
    }
  }

  lemma DataHas(n: nat, k: nat)
    ensures Has(n, Data(k)) <==> k < n
  {
  }

  /** A new value for a data sector of the file. */
  lemma WriteData(disk: seq<Sector>, owner: Owners, ino: nat, d: Sector, n: nat, k: nat, x: Sector)
    requires Placed(disk, owner, ino, d, n) && k < n
    ensures Locate(disk, ino, d, Data(k)) < |disk|
    ensures var s := Locate(disk, ino, d, Data(k));
            && (forall p :: Has(n, p) ==> PathSame(disk, d, disk[s := x], d, ino, p))
            && (forall l: nat :: l < n && l != k ==> DataSame(disk, disk[s := x], Locate(disk, ino, d, Data(l))))
            && At(disk[s := x], s) == x
  {
    hide Locate, Has, Pointer, Word;
    DataHas(n, k);
    assert Leads(disk, owner, ino, d, Data(k));
    var s := Locate(disk, ino, d, Data(k));
    var disk' := disk[s := x];
    forall p | Has(n, p) && p != Data(k) ensures Locate(disk, ino, d, p) != s { assert Leads(disk, owner, ino, d, p); }
    forall p | Has(n, p) ensures PathSame(disk, d, disk', d, ino, p) {
      SamePointersSamePath(disk, d, disk', d, ino, n, p);
    }
    forall l: nat | l < n && l != k ensures DataSame(disk, disk', Locate(disk, ino, d, Data(l))) {
      assert Has(n, Data(l)) by { DataHas(n, l); }
    }
  }

  /** A new value for a pointer of the inode that the file does not use yet. */
  lemma WritePointer(disk: seq<Sector>, ino: nat, d: Sector, n: nat, i: nat, v: nat)
    requires n <= SPAN_SECTORS && i < SECTOR_CNT && v < WORD_LIMIT && !SlotUsed(n, i)
    ensures Kept(disk, d, disk, WithPointer(d, i, v), ino, n)
    ensures Pointer(WithPointer(d, i, v), i) == v
  {
    var d' := WithPointer(d, i, v);
    forall j: nat | j < SECTOR_CNT ensures Pointer(d', j) == if j == i then v else Pointer(d, j) {
      WordAfterPut(d, POINTERS_WORD + i, v, POINTERS_WORD + j);
    }
    hide Locate, Has, Pointer, Word, WithPointer;
    forall p | Has(n, p) ensures PathSame(disk, d, disk, d', ino, p) {
      SamePointersSamePath(disk, d, disk, d', ino, n, p);
    }
  }

  /** A new value for an entry of a table, not in use yet. */
  lemma WriteEntry(disk: seq<Sector>, owner: Owners, ino: nat, d: Sector, n: nat, q: Path, w: nat, v: nat)
    requires Placed(disk, owner, ino, d, n) && IsTable(q) && Has(n, q) && w < WORDS && v < WORD_LIMIT
    requires !Has(n, Entry(q, w))
    ensures Locate(disk, ino, d, q) < |disk|
    ensures var t := Locate(disk, ino, d, q);
            var disk' := disk[t := PutWord(disk[t], w, v)];
            Kept(disk, d, disk', d, ino, n) && Word(At(disk', t), w) == v
  {
    assert Leads(disk, owner, ino, d, q);
    var t := Locate(disk, ino, d, q);
    var disk' := disk[t := PutWord(disk[t], w, v)];
    forall x: nat | x < WORDS ensures Word(disk'[t], x) == if x == w then v else Word(disk[t], x) {
      WordAfterPut(disk[t], w, v, x);
    }
    hide Locate, Has, Pointer, Word, PutWord, Entry;
    forall p | Has(n, p) && p != q ensures Locate(disk, ino, d, p) != t { assert Leads(disk, owner, ino, d, p); }
    forall p | Has(n, p) ensures PathSame(disk, d, disk', d, ino, p) {
      SamePointersSamePath(disk, d, disk', d, ino, n, p);
    }
    forall k: nat | k < n ensures DataSame(disk, disk', Locate(disk, ino, d, Data(k))) {
      assert Has(n, Data(k)) by { DataHas(n, k); }
    }
  }

  lemma KeptTrans(a: seq<Sector>, d: Sector, b: seq<Sector>, e: Sector, c: seq<Sector>, f: Sector, ino: nat, n: nat)
    requires Kept(a, d, b, e, ino, n) && Kept(b, e, c, f, ino, n)
    ensures Kept(a, d, c, f, ino, n)
  {
    hide Locate, Has, At;
    forall p | Has(n, p) ensures PathSame(a, d, c, f, ino, p) {
      assert PathSame(a, d, b, e, ino, p) && PathSame(b, e, c, f, ino, p);
    }
    forall k: nat | k < n ensures DataSame(a, c, Locate(a, ino, d, Data(k))) {
      assert Has(n, Data(k)) by { DataHas(n, k); }
      assert PathSame(a, d, b, e, ino, Data(k));
      assert DataSame(a, b, Locate(a, ino, d, Data(k))) && DataSame(b, c, Locate(b, ino, e, Data(k)));
    }
  }

  lemma KeptFewer(a: seq<Sector>, d: Sector, b: seq<Sector>, e: Sector, ino: nat, m: nat, n: nat)
    requires Kept(a, d, b, e, ino, n) && m <= n
    ensures Kept(a, d, b, e, ino, m)
  {
    forall p | Has(m, p) ensures PathSame(a, d, b, e, ino, p) { assert Has(n, p); }
  }

  /** What is kept stays placed, for owners that only grow. */
  lemma KeptPlaced(a: seq<Sector>, d: Sector, owner: Owners, b: seq<Sector>, e: Sector, owner': Owners, ino: nat, n: nat)
    requires Placed(a, owner, ino, d, n) && Kept(a, d, b, e, ino, n) && |b| == |a|
    requires forall s :: s in owner ==> s in owner' && owner'[s] == owner[s]
    ensures Placed(b, owner', ino, e, n)
  {
    hide Locate, Has;
    forall p | Has(n, p) ensures Leads(b, owner', ino, e, p) {
      assert Leads(a, owner, ino, d, p) && PathSame(a, d, b, e, ino, p);
    }
  }

  // ----- One more sector -----

  /** The file has S as its K'th data sector, holding what S held, and is
      otherwise as it was. */
  ghost predicate Added(disk: seq<Sector>, d: Sector, disk': seq<Sector>, d': Sector, owner': Owners,
                        ino: nat, k: nat, s: nat)
  {
    && Kept(disk, d, disk', d', ino, k)
    && Placed(disk', owner', ino, d', k + 1)
    && Locate(disk', ino, d', Data(k)) == s
    && At(disk', s) == At(disk, s)
  }

  /** A file with one more sector: the new paths have to lead somewhere too. */
  lemma PlacedOneMore(disk: seq<Sector>, owner: Owners, ino: nat, d: Sector, k: nat)
    requires Placed(disk, owner, ino, d, k) && k < SPAN_SECTORS
    requires Leads(disk, owner, ino, d, Data(k))
    requires k == DIRECT_CNT ==> Leads(disk, owner, ino, d, Indirect)
    requires k == DIRECT_CNT + WORDS ==> Leads(disk, owner, ino, d, DoublyIndirect)
    requires forall j: nat :: k == DIRECT_CNT + WORDS + WORDS * j ==> Leads(disk, owner, ino, d, Second(j))
    ensures Placed(disk, owner, ino, d, k + 1)
  {
    hide Leads;
    forall p | Has(k + 1, p) ensures Leads(disk, owner, ino, d, p) {
      if !Has(k, p) {
        assert p.Second? ==> k == DIRECT_CNT + WORDS + WORDS * p.j;
      }
    }
  }

  /** Paths through a table, one step at a time. */
  lemma Through(disk: seq<Sector>, ino: nat, d: Sector, j: nat, w: nat)
    requires j < WORDS && w < WORDS
    ensures Locate(disk, ino, d, Indirect) == Pointer(d, INDIRECT_IDX)
    ensures Locate(disk, ino, d, DoublyIndirect) == Pointer(d, DBL_INDIRECT_IDX)
    ensures Locate(disk, ino, d, Data(DIRECT_CNT + w)) == Word(At(disk, Locate(disk, ino, d, Indirect)), w)
    ensures Locate(disk, ino, d, Second(j)) == Word(At(disk, Locate(disk, ino, d, DoublyIndirect)), j)
    ensures Locate(disk, ino, d, Data(DIRECT_CNT + WORDS + WORDS * j + w)) ==
            Word(At(disk, Locate(disk, ino, d, Second(j))), w)
  {
    hide Word, Pointer, At;
    var i := WORDS * j + w;
    assert i / WORDS == j && i % WORDS == w;
  }

  lemma AddDirect(disk: seq<Sector>, owner: Owners, ino: nat, d: Sector, k: nat, s: nat)
    requires Placed(disk, owner, ino, d, k) && k < DIRECT_CNT
    requires s !in owner && s < |disk| && s < WORD_LIMIT
    ensures Added(disk, d, disk, WithPointer(d, k, s), owner[s := (ino, Data(k))], ino, k, s)
  {
    var d', owner' := WithPointer(d, k, s), owner[s := (ino, Data(k))];
    WritePointer(disk, ino, d, k, k, s);
    KeptPlaced(disk, d, owner, disk, d', owner', ino, k);
    hide Placed, Kept;
    PlacedOneMore(disk, owner', ino, d', k);
  }

  /** The first sector past the direct ones: T becomes the indirect table. */
  lemma AddFirstIndirect(disk: seq<Sector>, owner: Owners, ino: nat, d: Sector, k: nat, s: nat, t: nat)
    requires Placed(disk, owner, ino, d, k) && k == DIRECT_CNT
    requires s !in owner && t !in owner && s != t && s < |disk| && t < |disk| && s < WORD_LIMIT && t < WORD_LIMIT
    ensures Added(disk, d, disk[t := PutWord(disk[t], 0, s)], WithPointer(d, INDIRECT_IDX, t),
                  owner[s := (ino, Data(k))][t := (ino, Indirect)], ino, k, s)
  {
    hide PutWord, WithPointer, Pointer, Word, Locate, Placed, Kept;
    var d', disk' := WithPointer(d, INDIRECT_IDX, t), disk[t := PutWord(disk[t], 0, s)];
    var owner' := owner[s := (ino, Data(k))][t := (ino, Indirect)];
    WritePointer(disk, ino, d, k, INDIRECT_IDX, t);
    WordAfterPut(disk[t], 0, s, 0);
    KeptPlaced(disk, d, owner, disk, d', owner, ino, k);
    WriteElsewhere(disk, owner, ino, d', k, t, PutWord(disk[t], 0, s));
    KeptTrans(disk, d, disk, d', disk', d', ino, k);
    KeptPlaced(disk, d, owner, disk', d', owner', ino, k);
    Through(disk', ino, d', 0, 0);
    PlacedOneMore(disk', owner', ino, d', k);
  }

  lemma AddIndirect(disk: seq<Sector>, owner: Owners, ino: nat, d: Sector, k: nat, s: nat)
    requires Placed(disk, owner, ino, d, k) && DIRECT_CNT < k < DIRECT_CNT + WORDS
    requires s !in owner && s < |disk| && s < WORD_LIMIT
    ensures var t := Locate(disk, ino, d, Indirect);
            && t < |disk| && t in owner && owner[t] == (ino, Indirect)
            && Added(disk, d, disk[t := PutWord(disk[t], k - DIRECT_CNT, s)], d, owner[s := (ino, Data(k))], ino, k, s)
  {
    AddEntry(disk, owner, ino, d, k, s, Indirect, k - DIRECT_CNT);
  }

  /** A sector for a second-level table that exists: the J'th. */
  lemma AddDoubly(disk: seq<Sector>, owner: Owners, ino: nat, d: Sector, k: nat, s: nat, j: nat, w: nat)
    requires Placed(disk, owner, ino, d, k) && k == DIRECT_CNT + WORDS + WORDS * j + w && 0 < w < WORDS && j < WORDS
    requires s !in owner && s < |disk| && s < WORD_LIMIT
    ensures var t := Locate(disk, ino, d, Second(j));
            && t < |disk| && t in owner && owner[t] == (ino, Second(j))
            && Added(disk, d, disk[t := PutWord(disk[t], w, s)], d, owner[s := (ino, Data(k))], ino, k, s)
  {
    AddEntry(disk, owner, ino, d, k, s, Second(j), w);
  }

  /** A sector entered in a table Q that exists, as entry W, not the first. */
  lemma AddEntry(disk: seq<Sector>, owner: Owners, ino: nat, d: Sector, k: nat, s: nat, q: Path, w: nat)
    requires Placed(disk, owner, ino, d, k) && k < SPAN_SECTORS
    requires q == Indirect || (q.Second? && q.j < WORDS)
    requires 0 < w < WORDS && Entry(q, w) == Data(k)
    requires s !in owner && s < |disk| && s < WORD_LIMIT
    ensures var t := Locate(disk, ino, d, q);
            && t < |disk| && t in owner && owner[t] == (ino, q)
            && Added(disk, d, disk[t := PutWord(disk[t], w, s)], d, owner[s := (ino, Data(k))], ino, k, s)
  {
    hide PutWord, Pointer, Word, Locate, Kept;
    assert Leads(disk, owner, ino, d, q);
    hide Placed;
    WriteEntry(disk, owner, ino, d, k, q, w, s);
    var t := Locate(disk, ino, d, q);
    var disk', owner' := disk[t := PutWord(disk[t], w, s)], owner[s := (ino, Data(k))];
    KeptPlaced(disk, d, owner, disk', d, owner', ino, k);
    assert PathSame(disk, d, disk', d, ino, q) by { KeptPath(disk, d, disk', d, ino, k, q); }
    Through(disk', ino, d, if q.Second? then q.j else 0, w);
    assert w % WORDS != 0;
    PlacedOneMore(disk', owner', ino, d, k);
  }

  lemma KeptPath(disk: seq<Sector>, d: Sector, disk': seq<Sector>, d': Sector, ino: nat, n: nat, p: Path)
    requires Kept(disk, d, disk', d', ino, n) && Has(n, p)
    ensures PathSame(disk, d, disk', d', ino, p)
  {
  }

  /** The first sector of a new second-level table U, the J'th, once the doubly
      indirect table points to it. */
  lemma AddFirstOfSecond(disk: seq<Sector>, owner: Owners, ino: nat, d: Sector, k: nat, s: nat, j: nat, t: nat, u: nat)
    requires Placed(disk, owner, ino, d, k) && k == DIRECT_CNT + WORDS + WORDS * j && j < WORDS
    requires s !in owner && u !in owner && s != u && s < |disk| && u < |disk| && s < WORD_LIMIT && u < WORD_LIMIT
    requires Pointer(d, DBL_INDIRECT_IDX) == t && t < |disk| && t != s && t != u && Word(disk[t], j) == u
    requires j == 0 ==> t !in owner
    ensures var owner1: Owners := if j == 0 then owner[t := (ino, DoublyIndirect)] else owner;
            Added(disk, d, disk[u := PutWord(disk[u], 0, s)], d,
                  owner1[s := (ino, Data(k))][u := (ino, Second(j))], ino, k, s)
  {
    hide PutWord, Pointer, Word, Locate, Placed, Kept;
    var disk' := disk[u := PutWord(disk[u], 0, s)];
    var owner1: Owners := if j == 0 then owner[t := (ino, DoublyIndirect)] else owner;
    var owner': Owners := owner1[s := (ino, Data(k))][u := (ino, Second(j))];
    WordAfterPut(disk[u], 0, s, 0);
    WriteElsewhere(disk, owner, ino, d, k, u, PutWord(disk[u], 0, s));
    KeptPlaced(disk, d, owner, disk', d, owner', ino, k);
    Through(disk', ino, d, j, 0);
    assert k == DIRECT_CNT + WORDS <==> j == 0;
    PlacedOneMore(disk', owner', ino, d, k);
  }

  lemma AddedAfter(a: seq<Sector>, d: Sector, b: seq<Sector>, e: Sector, c: seq<Sector>, f: Sector,
                   owner': Owners, ino: nat, k: nat, s: nat)
    requires Kept(a, d, b, e, ino, k) && Added(b, e, c, f, owner', ino, k, s) && At(b, s) == At(a, s)
    ensures Added(a, d, c, f, owner', ino, k, s)
  {
    hide Kept, Placed, Locate;
    KeptTrans(a, d, b, e, c, f, ino, k);
  }

  lemma KeptRefl(disk: seq<Sector>, d: Sector, ino: nat, n: nat)
    ensures Kept(disk, d, disk, d, ino, n)
  {
  }

  lemma AddedIs(disk: seq<Sector>, d: Sector, disk': seq<Sector>, d': Sector, owner': Owners, ino: nat, k: nat, s: nat)
    requires Added(disk, d, disk', d', owner', ino, k, s)
    ensures Kept(disk, d, disk', d', ino, k) && Placed(disk', owner', ino, d', k + 1)
    ensures At(disk', Locate(disk', ino, d', Data(k))) == At(disk, s)
  {
  }

  /** Type, length, magic number and the pointers that a file of N sectors uses
      are the same. */
  ghost predicate SameInode(d: Sector, d': Sector, n: nat) {
    && (forall i: nat :: i < POINTERS_WORD ==> Word(d', i) == Word(d, i))
    && (forall i: nat :: SlotUsed(n, i) ==> Pointer(d', i) == Pointer(d, i))
  }

  lemma SameInodeRefl(d: Sector, n: nat)
    ensures SameInode(d, d, n)
  {
  }

  lemma SameInodeTrans(d: Sector, e: Sector, f: Sector, m: nat, n: nat)
    requires SameInode(d, e, m) && SameInode(e, f, n) && m <= n
    ensures SameInode(d, f, m)
  {
    forall i: nat | SlotUsed(m, i) ensures Pointer(f, i) == Pointer(d, i) { assert SlotUsed(n, i); }
  }

  lemma UnusedPointer(d: Sector, i: nat, p: nat, n: nat)
    requires i < SECTOR_CNT && p < WORD_LIMIT && !SlotUsed(n, i)
    ensures SameInode(d, WithPointer(d, i, p), n)
  {
    forall j: nat | j < WORDS ensures Word(WithPointer(d, i, p), j) == if j == POINTERS_WORD + i then p else Word(d, j) {
      WordAfterPut(d, POINTERS_WORD + i, p, j);
    }
  }

  /** Two inodes with the same used pointers are the same file of N sectors. */
  lemma SameInodeSamePaths(disk: seq<Sector>, d: Sector, d': Sector, ino: nat, n: nat)
    requires n <= SPAN_SECTORS && SameInode(d, d', n)
    ensures Kept(disk, d, disk, d', ino, n)
  {
    hide Locate, Word, Pointer;
    forall p | Has(n, p) ensures PathSame(disk, d, disk, d', ino, p) {
      SamePointersSamePath(disk, d, disk, d', ino, n, p);
    }
  }

  lemma KeptSym(a: seq<Sector>, d: Sector, b: seq<Sector>, e: Sector, ino: nat, n: nat)
    requires Kept(a, d, b, e, ino, n)
    ensures Kept(b, e, a, d, ino, n)
  {
    hide Locate, At;
    forall p | Has(n, p) ensures PathSame(b, e, a, d, ino, p) { assert PathSame(a, d, b, e, ino, p); }
    forall k: nat | k < n ensures DataSame(b, a, Locate(b, ino, e, Data(k))) {
      assert PathSame(a, d, b, e, ino, Data(k)) by { DataHas(n, k); }
      assert DataSame(a, b, Locate(a, ino, d, Data(k)));
    }
  }

  /** A sector for a second-level table U that has to be made, the J'th but not
      the first: entered in the doubly indirect table first. */
  lemma AddNewSecond(disk: seq<Sector>, owner: Owners, ino: nat, d: Sector, k: nat, s: nat, j: nat, u: nat)
    requires Placed(disk, owner, ino, d, k) && k == DIRECT_CNT + WORDS + WORDS * j && 0 < j < WORDS
    requires s !in owner && u !in owner && s != u && s < |disk| && u < |disk| && s < WORD_LIMIT && u < WORD_LIMIT
    ensures var t := Pointer(d, DBL_INDIRECT_IDX);
            && t < |disk| && t in owner && owner[t] == (ino, DoublyIndirect)
            && var disk1 := disk[t := PutWord(disk[t], j, u)];
            && Word(disk1[t], j) == u
            && Added(disk, d, disk1[u := PutWord(disk1[u], 0, s)], d,
                     owner[s := (ino, Data(k))][u := (ino, Second(j))], ino, k, s)
  {
    hide PutWord, Word, Pointer, Locate, Kept, Placed, Added;
    var t := Pointer(d, DBL_INDIRECT_IDX);
    assert Leads(disk, owner, ino, d, DoublyIndirect) by { PlacedLeads(disk, owner, ino, d, k, DoublyIndirect); }
    Through(disk, ino, d, j, 0);
    WriteEntry(disk, owner, ino, d, k, DoublyIndirect, j, u);
    var disk1 := disk[t := PutWord(disk[t], j, u)];
    KeptPlaced(disk, d, owner, disk1, d, owner, ino, k);
    AddFirstOfSecond(disk1, owner, ino, d, k, s, j, t, u);
    AddedAfter(disk, d, disk1, d, disk1[u := PutWord(disk1[u], 0, s)], d,
               owner[s := (ino, Data(k))][u := (ino, Second(j))], ino, k, s);
  }

  /** AddDoubly, in terms of the two reads the code makes. */
  lemma SecondTableExists(disk: seq<Sector>, owner: Owners, ino: nat, d: Sector, k: nat, s: nat, j: nat, w: nat)
    requires Placed(disk, owner, ino, d, k) && k == DIRECT_CNT + WORDS + WORDS * j + w && 0 < w < WORDS && j < WORDS
    requires s !in owner && s < |disk| && s < WORD_LIMIT
    ensures Pointer(d, DBL_INDIRECT_IDX) < |disk|
    ensures var t := Word(disk[Pointer(d, DBL_INDIRECT_IDX)], j);
            && t < |disk| && t in owner && owner[t] == (ino, Second(j))
            && Added(disk, d, disk[t := PutWord(disk[t], w, s)], d, owner[s := (ino, Data(k))], ino, k, s)
  {
    hide PutWord, Word, Pointer, Locate, Kept, Placed, Added;
    PlacedLeads(disk, owner, ino, d, k, DoublyIndirect);
    Through(disk, ino, d, j, w);
    AddDoubly(disk, owner, ino, d, k, s, j, w);
  }

  lemma PlacedLeads(disk: seq<Sector>, owner: Owners, ino: nat, d: Sector, n: nat, p: Path)
    requires Placed(disk, owner, ino, d, n) && Has(n, p)
    ensures Leads(disk, owner, ino, d, p)
  {
  }

  /** The first sector past the indirect table: both T, the doubly indirect
      table, and U, its first second-level table, have to be made. */
  lemma AddNewDoubly(disk: seq<Sector>, owner: Owners, ino: nat, d: Sector, k: nat, s: nat, t: nat, u: nat)
    requires Placed(disk, owner, ino, d, k) && k == DIRECT_CNT + WORDS
    requires s !in owner && t !in owner && u !in owner && s != t && s != u && t != u
    requires s < |disk| && t < |disk| && u < |disk| && s < WORD_LIMIT && t < WORD_LIMIT && u < WORD_LIMIT
    ensures var d' := WithPointer(d, DBL_INDIRECT_IDX, t);
            var disk1 := disk[t := PutWord(disk[t], 0, u)];
            && Pointer(d', DBL_INDIRECT_IDX) == t && Word(disk1[t], 0) == u
            && Added(disk, d, disk1[u := PutWord(disk1[u], 0, s)], d',
                     owner[t := (ino, DoublyIndirect)][s := (ino, Data(k))][u := (ino, Second(0))], ino, k, s)
  {
    hide PutWord, WithPointer, Word, Pointer, Locate, Kept, Placed, Added;
    var d' := WithPointer(d, DBL_INDIRECT_IDX, t);
    var disk1 := disk[t := PutWord(disk[t], 0, u)];
    WritePointer(disk, ino, d, k, DBL_INDIRECT_IDX, t);
    WordAfterPut(disk[t], 0, u, 0);
    KeptPlaced(disk, d, owner, disk, d', owner, ino, k);
    WriteElsewhere(disk, owner, ino, d', k, t, PutWord(disk[t], 0, u));
    KeptTrans(disk, d, disk, d', disk1, d', ino, k);
    KeptPlaced(disk, d', owner, disk1, d', owner, ino, k);
    AddFirstOfSecond(disk1, owner, ino, d', k, s, 0, t, u);
    AddedAfter(disk, d, disk1, d', disk1[u := PutWord(disk1[u], 0, s)], d',
               owner[t := (ino, DoublyIndirect)][s := (ino, Data(k))][u := (ino, Second(0))], ino, k, s);
  }

  /** Owned sectors are on the disk and marked in the free map. */
  ghost predicate Accounted(disk: seq<Sector>, owner: Owners, free: seq<bool>) {
    && |disk| == |free| <= WORD_LIMIT
    && forall s :: s in owner ==> s < |disk| && free[s]
  }

  /** What adding sectors to file INO may do to the rest: nothing is given up,
      and no other file's sector, nor the inode itself, is written. */
  ghost predicate Grows(disk: seq<Sector>, owner: Owners, free: seq<bool>,
                        disk': seq<Sector>, owner': Owners, free': seq<bool>, ino: nat)
  {
    && Accounted(disk', owner', free') && |disk'| == |disk| && |free'| == |free|
    && (forall s :: s in owner ==> s in owner' && owner'[s] == owner[s])
    && (forall s :: s in owner && !Writable(owner, ino, s) ==> At(disk', s) == At(disk, s))
    && (forall s :: 0 <= s < |free| && free[s] ==> free'[s])
  }

  /** Sectors that adding sectors to file INO may write. */
  predicate Writable(owner: Owners, ino: nat, s: nat) {
    s in owner ==> owner[s].0 == ino && owner[s].1 != Path.Inode
  }

  lemma GrowsByTwo(disk: seq<Sector>, owner: Owners, free: seq<bool>, owner': Owners, free': seq<bool>, ino: nat,
                   a: nat, x: Sector, b: nat, y: Sector)
    requires Accounted(disk, owner, free) && a < |disk| && b < |disk|
    requires Writable(owner, ino, a) && Writable(owner, ino, b)
    requires |free'| == |free| && forall s :: 0 <= s < |free| && free[s] ==> free'[s]
    requires forall s :: s in owner ==> s in owner' && owner'[s] == owner[s]
    requires forall s :: s in owner' && s !in owner ==> s < |disk| && free'[s]
    ensures Grows(disk, owner, free, disk[a := x][b := y], owner', free', ino)
  {
  }

  lemma GrowsByOne(disk: seq<Sector>, owner: Owners, free: seq<bool>, owner': Owners, free': seq<bool>, ino: nat,
                   a: nat, x: Sector)
    requires Accounted(disk, owner, free) && a < |disk| && Writable(owner, ino, a)
    requires |free'| == |free| && forall s :: 0 <= s < |free| && free[s] ==> free'[s]
    requires forall s :: s in owner ==> s in owner' && owner'[s] == owner[s]
    requires forall s :: s in owner' && s !in owner ==> s < |disk| && free'[s]
    ensures Grows(disk, owner, free, disk[a := x], owner', free', ino)
  {
  }

  /** Marking sectors in the free map, for use or in vain. */
  lemma GrowsMap(disk: seq<Sector>, owner: Owners, free: seq<bool>, free': seq<bool>, ino: nat)
    requires Accounted(disk, owner, free)
    requires |free'| == |free| && forall s :: 0 <= s < |free| && free[s] ==> free'[s]
    ensures Grows(disk, owner, free, disk, owner, free', ino)
  {
  }

  lemma GrowsTrans(a: seq<Sector>, o: Owners, f: seq<bool>, b: seq<Sector>, p: Owners, g: seq<bool>,
                   c: seq<Sector>, q: Owners, h: seq<bool>, ino: nat)
    requires Grows(a, o, f, b, p, g, ino) && Grows(b, p, g, c, q, h, ino)
    ensures Grows(a, o, f, c, q, h, ino)
  {
  }

  // ----- Contents -----

  function FileByte(disk: seq<Sector>, ino: nat, d: Sector, x: nat): byte {
    At(disk, Locate(disk, ino, d, Data(x / SECTOR_SIZE)))[x % SECTOR_SIZE]
  }

  /** The bytes of the file whose inode is in sector INO. */
  function Contents(disk: seq<Sector>, ino: nat): (c: seq<byte>)
    ensures |c| == Max(Length(At(disk, ino)), 0)
    ensures forall x :: 0 <= x < |c| ==> c[x] == FileByte(disk, ino, At(disk, ino), x)
  {
    seq(Max(Length(At(disk, ino)), 0), x requires 0 <= x => FileByte(disk, ino, At(disk, ino), x))
  }

  /** What a file's sectors hold from byte FROM on is zero. */
  ghost predicate ZeroFrom(disk: seq<Sector>, ino: nat, d: Sector, from_: nat, n: nat) {
    forall x: nat :: from_ <= x < SECTOR_SIZE * n ==> FileByte(disk, ino, d, x) == 0
  }

  ghost predicate FileOk(disk: seq<Sector>, owner: Owners, ino: nat) {
    var d := At(disk, ino);
    && Word(d, MAGIC_WORD) == INODE_MAGIC
    && 0 <= Length(d) <= INODE_SPAN
    && Placed(disk, owner, ino, d, SectorCount(Length(d)))
    && ZeroFrom(disk, ino, d, Length(d), SectorCount(Length(d)))
  }

  /** A file's allocated sectors cover its length, and not one too many. */
  lemma CountCovers(length: int)
    requires 0 <= length <= INODE_SPAN
    ensures length <= SECTOR_SIZE * SectorCount(length)
    ensures SectorCount(length) <= SPAN_SECTORS
  {
  }

  /** A file has the fewest sectors that hold its bytes, and at least one. */
  lemma FewestSectors(length: int, n: nat)
    requires length >= 0
    ensures 1 <= SectorCount(length) && length <= SECTOR_SIZE * SectorCount(length)
    ensures n >= 1 && length <= SECTOR_SIZE * n ==> SectorCount(length) <= n
  {
  }

  lemma KeptBytes(a: seq<Sector>, d: Sector, b: seq<Sector>, e: Sector, ino: nat, n: nat)
    requires Kept(a, d, b, e, ino, n)
    ensures forall x: nat :: x < SECTOR_SIZE * n ==> FileByte(b, ino, e, x) == FileByte(a, ino, d, x)
  {
    hide Locate, At;
    forall x: nat | x < SECTOR_SIZE * n ensures FileByte(b, ino, e, x) == FileByte(a, ino, d, x) {
      assert PathSame(a, d, b, e, ino, Data(x / SECTOR_SIZE));
      assert DataSame(a, b, Locate(a, ino, d, Data(x / SECTOR_SIZE)));
    }
  }

  /** OLD owners and their sectors, as far as they belong to file J, survive. */
  ghost predicate LeavesAlone(disk: seq<Sector>, owner: Owners, disk': seq<Sector>, owner': Owners, j: nat) {
    && |disk'| == |disk|
    && forall s :: s in owner && owner[s].0 == j ==>
         s in owner' && owner'[s] == owner[s] && At(disk', s) == At(disk, s)
  }

  /** A change that leaves a file's sectors alone leaves the file alone. */
  lemma OtherFile(disk: seq<Sector>, owner: Owners, disk': seq<Sector>, owner': Owners, j: nat)
    requires FileOk(disk, owner, j) && LeavesAlone(disk, owner, disk', owner', j)
    ensures FileOk(disk', owner', j) && Contents(disk', j) == Contents(disk, j)
  {
    hide Locate, Has, At, Length, Word, SectorCount;
    var d := At(disk, j);
    var n := SectorCount(Length(d));
    assert Has(n, Inode) && Locate(disk, j, d, Inode) == j by { InodePath(disk, j, d, n); }
    assert Leads(disk, owner, j, d, Inode);
    assert At(disk', j) == d;
    UntouchedKept(disk, owner, disk', owner', j, d, n);
    KeptBytes(disk, d, disk', d, j, n);
    forall p | Has(n, p) ensures Leads(disk', owner', j, d, p) {
      assert Leads(disk, owner, j, d, p) && PathSame(disk, d, disk', d, j, p);
    }
    CountCovers(Length(d));
  }

  lemma InodePath(disk: seq<Sector>, ino: nat, d: Sector, n: nat)
    ensures Has(n, Inode) && Locate(disk, ino, d, Inode) == ino
  {
  }

  lemma UntouchedKept(disk: seq<Sector>, owner: Owners, disk': seq<Sector>, owner': Owners, j: nat, d: Sector, n: nat)
    requires Placed(disk, owner, j, d, n) && LeavesAlone(disk, owner, disk', owner', j)
    ensures Kept(disk, d, disk', d, j, n)
  {
    hide Locate, Has, At, Entry;
    forall p | Has(n, p) ensures DataSame(disk, disk', Locate(disk, j, d, p)) { assert Leads(disk, owner, j, d, p); }
    forall p | Has(n, p) ensures PathSame(disk, d, disk', d, j, p) {
      SamePointersSamePath(disk, d, disk', d, j, n, p);
    }
    forall k: nat | k < n ensures DataSame(disk, disk', Locate(disk, j, d, Data(k))) {
      assert Has(n, Data(k)) by { DataHas(n, k); }
    }
  }

  /** Zeroes, continued by a zeroed sector. */
  lemma ZeroOneMore(disk: seq<Sector>, d: Sector, disk': seq<Sector>, d': Sector, ino: nat, from_: nat, k: nat)
    requires ZeroFrom(disk, ino, d, from_, k) && Kept(disk, d, disk', d', ino, k)
    requires At(disk', Locate(disk', ino, d', Data(k))) == Zeroes()
    ensures ZeroFrom(disk', ino, d', from_, k + 1)
  {
    KeptBytes(disk, d, disk', d', ino, k);
    forall x: nat | from_ <= x < SECTOR_SIZE * (k + 1) ensures FileByte(disk', ino, d', x) == 0 {
      if x >= SECTOR_SIZE * k { assert x / SECTOR_SIZE == k; }
    }
  }

  lemma ZeroKept(disk: seq<Sector>, d: Sector, disk': seq<Sector>, d': Sector, ino: nat, from_: nat, n: nat)
    requires ZeroFrom(disk, ino, d, from_, n) && Kept(disk, d, disk', d', ino, n)
    ensures ZeroFrom(disk', ino, d', from_, n)
  {
    KeptBytes(disk, d, disk', d', ino, n);
  }

  function Max(a: int, b: int): int { if a < b then b else a }

  /** The length is no part of where a file is. */
  lemma LengthKeeps(disk: seq<Sector>, d: Sector, length: int, ino: nat, n: nat)
    requires -WORD_LIMIT / 2 <= length < WORD_LIMIT / 2 && n <= SPAN_SECTORS
    ensures Kept(disk, d, disk, WithLength(d, length), ino, n)
  {
    var d' := WithLength(d, length);
    hide Locate, Word, Pointer, WithLength;
    forall p | Has(n, p) ensures PathSame(disk, d, disk, d', ino, p) {
      SamePointersSamePath(disk, d, disk, d', ino, n, p);
    }
  }

  /** The file under way: D, of N0 sectors on DISK, has become E, of K sectors
      on DISK', the new ones all zero. */
  ghost predicate Extending(disk: seq<Sector>, d: Sector, disk': seq<Sector>, e: Sector, owner': Owners,
                            ino: nat, n0: nat, from_: nat, k: nat)
  {
    && n0 <= k <= SPAN_SECTORS
    && Kept(disk, d, disk', e, ino, n0)
    && SameInode(d, e, n0)
    && Placed(disk', owner', ino, e, k)
    && ZeroFrom(disk', ino, e, from_, k)
  }

  lemma ExtendingStart(disk: seq<Sector>, d: Sector, owner: Owners, ino: nat, n0: nat, from_: nat)
    requires Placed(disk, owner, ino, d, n0) && ZeroFrom(disk, ino, d, from_, n0)
    ensures Extending(disk, d, disk, d, owner, ino, n0, from_, n0)
  {
    hide ZeroFrom, Locate;
    KeptRefl(disk, d, ino, n0);
    SameInodeRefl(d, n0);
  }

  lemma ExtendingMore(disk: seq<Sector>, d: Sector, disk1: seq<Sector>, e: Sector, owner1: Owners,
                      disk2: seq<Sector>, f: Sector, owner2: Owners, ino: nat, n0: nat, from_: nat, k: nat)
    requires Extending(disk, d, disk1, e, owner1, ino, n0, from_, k) && k < SPAN_SECTORS
    requires Kept(disk1, e, disk2, f, ino, k) && Placed(disk2, owner2, ino, f, k + 1) && SameInode(e, f, k)
    requires At(disk2, Locate(disk2, ino, f, Data(k))) == Zeroes()
    ensures Extending(disk, d, disk2, f, owner2, ino, n0, from_, k + 1)
  {
    hide ZeroFrom, Locate, Placed, Kept, SameInode;
    KeptFewer(disk1, e, disk2, f, ino, n0, k);
    KeptTrans(disk, d, disk1, e, disk2, f, ino, n0);
    SameInodeTrans(d, e, f, n0, k);
    ZeroOneMore(disk1, e, disk2, f, ino, from_, k);
  }

  /** Giving up half way leaves the file, as its inode on the disk describes
      it, as it was. */
  lemma ExtendingAborted(disk: seq<Sector>, d: Sector, disk1: seq<Sector>, e: Sector, owner1: Owners,
                         disk2: seq<Sector>, ino: nat, n0: nat, from_: nat, k: nat)
    requires Extending(disk, d, disk1, e, owner1, ino, n0, from_, k)
    requires Kept(disk1, e, disk2, e, ino, k)
    ensures Kept(disk, d, disk2, d, ino, n0)
  {
    hide ZeroFrom, Locate, Placed, Kept, SameInode;
    KeptFewer(disk1, e, disk2, e, ino, n0, k);
    KeptTrans(disk, d, disk1, e, disk2, e, ino, n0);
    SameInodeSamePaths(disk2, d, e, ino, n0);
    KeptSym(disk2, d, disk2, e, ino, n0);
    KeptTrans(disk, d, disk2, e, disk2, d, ino, n0);
  }

  /** What a successful extension of the inode D to E has done. */
  ghost predicate Extended(disk: seq<Sector>, d: Sector, disk': seq<Sector>, e: Sector, owner': Owners,
                           ino: nat, length: int)
  {
    && -1 <= Length(d) && 0 <= Length(e) <= INODE_SPAN
    && Length(e) == Max(Length(d), length)
    && Word(e, MAGIC_WORD) == Word(d, MAGIC_WORD) && Word(e, TYPE_WORD) == Word(d, TYPE_WORD)
    && Kept(disk, d, disk', e, ino, SectorCount(Length(d)))
    && Placed(disk', owner', ino, e, SectorCount(Length(e)))
    && ZeroFrom(disk', ino, e, Max(Length(d), 0), SectorCount(Length(e)))
  }

  lemma ExtendingDone(disk: seq<Sector>, d: Sector, disk': seq<Sector>, e: Sector, owner': Owners, ino: nat, length: int)
    requires -1 <= Length(d) <= length && 0 <= length <= INODE_SPAN
    requires Extending(disk, d, disk', e, owner', ino, SectorCount(Length(d)), Max(Length(d), 0), SectorCount(length))
    ensures Extended(disk, d, disk', WithLength(e, length), owner', ino, length)
  {
    var n, f := SectorCount(length), WithLength(e, length);
    LengthKeeps(disk', e, length, ino, n);
    hide ZeroFrom, Locate, Placed, Kept, WithLength, SectorCount, Length, Word;
    KeptFewer(disk', e, disk', f, ino, SectorCount(Length(d)), n);
    KeptTrans(disk, d, disk', e, disk', f, ino, SectorCount(Length(d)));
    KeptPlaced(disk', e, owner', disk', f, owner', ino, n);
    ZeroKept(disk', e, disk', f, ino, Max(Length(d), 0), n);
    assert Word(e, MAGIC_WORD) == Word(d, MAGIC_WORD) && Word(e, TYPE_WORD) == Word(d, TYPE_WORD);
  }

  /** A longer file in the same number of sectors. */
  lemma SameSectors(disk: seq<Sector>, d: Sector, owner: Owners, ino: nat, length: int)
    requires 0 <= Length(d) < length <= INODE_SPAN && LastSector(length) == LastSector(Length(d))
    requires Placed(disk, owner, ino, d, SectorCount(Length(d)))
    requires ZeroFrom(disk, ino, d, Length(d), SectorCount(Length(d)))
    ensures Extended(disk, d, disk, WithLength(d, length), owner, ino, length)
  {
    var n, f := SectorCount(length), WithLength(d, length);
    CountCovers(length);
    LengthKeeps(disk, d, length, ino, n);
    hide ZeroFrom, Locate, Placed, Kept, WithLength, Length, Word;
    KeptPlaced(disk, d, owner, disk, f, owner, ino, n);
    ZeroKept(disk, d, disk, f, ino, Length(d), n);
  }

  lemma NothingToDo(disk: seq<Sector>, d: Sector, owner: Owners, ino: nat, length: int)
    requires 0 <= Length(d) <= INODE_SPAN && length <= Length(d)
    requires Placed(disk, owner, ino, d, SectorCount(Length(d)))
    requires ZeroFrom(disk, ino, d, Length(d), SectorCount(Length(d)))
    ensures Extended(disk, d, disk, d, owner, ino, length)
  {
    KeptRefl(disk, d, ino, SectorCount(Length(d)));
  }

  // ----- Files as a whole -----

  lemma WriteInode(disk: seq<Sector>, owner: Owners, ino: nat, d: Sector, n: nat, x: Sector)
    requires Placed(disk, owner, ino, d, n)
    ensures ino < |disk| && Kept(disk, d, disk[ino := x], d, ino, n)
  {
    InodePath(disk, ino, d, n);
    PlacedLeads(disk, owner, ino, d, n, Inode);
    hide Locate, Has, Pointer, Word;
    var disk' := disk[ino := x];
    forall p | Has(n, p) && p != Inode ensures Locate(disk, ino, d, p) != ino { assert Leads(disk, owner, ino, d, p); }
    forall p | Has(n, p) ensures PathSame(disk, d, disk', d, ino, p) {
      SamePointersSamePath(disk, d, disk', d, ino, n, p);
    }
    forall k: nat | k < n ensures DataSame(disk, disk', Locate(disk, ino, d, Data(k))) {
      assert Has(n, Data(k)) by { DataHas(n, k); }
    }
  }

  lemma FileKept(disk: seq<Sector>, owner: Owners, disk': seq<Sector>, owner': Owners, ino: nat)
    requires FileOk(disk, owner, ino) && |disk'| == |disk| && At(disk', ino) == At(disk, ino)
    requires forall s :: s in owner ==> s in owner' && owner'[s] == owner[s]
    requires Kept(disk, At(disk, ino), disk', At(disk, ino), ino, SectorCount(Length(At(disk, ino))))
    ensures FileOk(disk', owner', ino) && Contents(disk', ino) == Contents(disk, ino)
  {
    hide Locate, Kept, Placed, ZeroFrom, SectorCount;
    var d := At(disk, ino);
    var n := SectorCount(Length(d));
    KeptPlaced(disk, d, owner, disk', d, owner', ino, n);
    ZeroKept(disk, d, disk', d, ino, Length(d), n);
    KeptBytes(disk, d, disk', d, ino, n);
    CountCovers(Length(d));
  }

  /** BYTES, zero-padded up to LENGTH if that is longer. */
  function Padded(bytes: seq<byte>, length: int): (p: seq<byte>)
    ensures |p| == Max(|bytes|, length)
    ensures forall x :: 0 <= x < |p| ==> p[x] == if x < |bytes| then bytes[x] else 0
  {
    if length <= |bytes| then bytes else bytes + seq(length - |bytes|, _ => 0 as byte)
  }

  /** Storing the inode completes an extension. */
  lemma FileExtended(disk: seq<Sector>, owner: Owners, disk': seq<Sector>, e: Sector, owner': Owners, ino: nat, length: int)
    requires FileOk(disk, owner, ino) && |disk'| == |disk|
    requires Extended(disk, At(disk, ino), disk', e, owner', ino, length)
    ensures ino < |disk'| && FileOk(disk'[ino := e], owner', ino)
    ensures Contents(disk'[ino := e], ino) == Padded(Contents(disk, ino), length)
  {
    hide Locate, Kept, Placed, SectorCount, Word, Length;
    var d := At(disk, ino);
    var n0, n := SectorCount(Length(d)), SectorCount(Length(e));
    WriteInode(disk', owner', ino, e, n, e);
    var disk2 := disk'[ino := e];
    KeptPlaced(disk', e, owner', disk2, e, owner', ino, n);
    KeptBytes(disk, d, disk', e, ino, n0);
    KeptBytes(disk', e, disk2, e, ino, n);
    CountCovers(Length(e));
    CountCovers(Length(d));
  }

  lemma GrowsIs(disk: seq<Sector>, owner: Owners, free: seq<bool>,
                disk': seq<Sector>, owner': Owners, free': seq<bool>, ino: nat)
    requires Grows(disk, owner, free, disk', owner', free', ino)
    ensures Accounted(disk', owner', free') && |disk'| == |disk|
    ensures forall s :: s in owner ==> s in owner' && owner'[s] == owner[s]
    ensures ino in owner && owner[ino] == (ino, Inode) ==> At(disk', ino) == At(disk, ino)
  {
    if ino in owner && owner[ino] == (ino, Inode) { assert !Writable(owner, ino, ino); }
  }

  /** Adding sectors to one file, and storing its inode or not, is nothing to
      another. */
  lemma GrownElsewhere(disk: seq<Sector>, owner: Owners, free: seq<bool>,
                       disk': seq<Sector>, owner': Owners, free': seq<bool>, ino: nat, e: Sector, j: nat)
    requires Grows(disk, owner, free, disk', owner', free', ino) && j != ino
    requires FileOk(disk, owner, j) && ino in owner && owner[ino] == (ino, Inode)
    ensures FileOk(disk', owner', j) && Contents(disk', j) == Contents(disk, j)
    ensures ino < |disk'|
    ensures FileOk(disk'[ino := e], owner', j) && Contents(disk'[ino := e], j) == Contents(disk, j)
  {
    hide FileOk, Contents;
    assert forall s :: s in owner && owner[s].0 == j ==> !Writable(owner, ino, s);
    OtherFile(disk, owner, disk', owner', j);
    OtherFile(disk', owner', disk'[ino := e], owner', j);
  }

  /** What FileOk says, for proofs that keep it folded. */
  lemma FileIs(disk: seq<Sector>, owner: Owners, ino: nat)
    requires FileOk(disk, owner, ino)
    ensures var d := At(disk, ino);
            && ino < |disk| && ino in owner && owner[ino] == (ino, Inode)
            && 0 <= Length(d) <= INODE_SPAN && |Contents(disk, ino)| == Length(d)
            && Placed(disk, owner, ino, d, SectorCount(Length(d)))
            && ZeroFrom(disk, ino, d, Length(d), SectorCount(Length(d)))
  {
    var d := At(disk, ino);
    InodePath(disk, ino, d, SectorCount(Length(d)));
    PlacedLeads(disk, owner, ino, d, SectorCount(Length(d)), Inode);
  }

  // ----- Writing into a file -----

  /** The K'th data sector of a file, for proofs that keep FileOk folded. */
  lemma DataSector(disk: seq<Sector>, owner: Owners, ino: nat, k: nat)
    requires FileOk(disk, owner, ino) && k < SectorCount(Length(At(disk, ino)))
    ensures var s := Locate(disk, ino, At(disk, ino), Data(k));
            s < |disk| && s in owner && owner[s] == (ino, Data(k)) && s != ino
  {
    FileIs(disk, owner, ino);
    DataHas(SectorCount(Length(At(disk, ino))), k);
    PlacedLeads(disk, owner, ino, At(disk, ino), SectorCount(Length(At(disk, ino))), Data(k));
  }

  /** Every byte of the file but those of one sector is what it was. */
  lemma BytesAfterDataWrite(disk: seq<Sector>, owner: Owners, ino: nat, d: Sector, n: nat, k: nat, x: Sector)
    requires Placed(disk, owner, ino, d, n) && k < n
    ensures var s := Locate(disk, ino, d, Data(k));
            && s < |disk|
            && forall y: nat :: y < SECTOR_SIZE * n ==>
                 FileByte(disk[s := x], ino, d, y) ==
                   if y / SECTOR_SIZE == k then x[y % SECTOR_SIZE] else FileByte(disk, ino, d, y)
  {
    WriteData(disk, owner, ino, d, n, k, x);
    var s := Locate(disk, ino, d, Data(k));
    var disk' := disk[s := x];
    hide Locate, At, Placed;
    forall y: nat | y < SECTOR_SIZE * n
      ensures FileByte(disk', ino, d, y) ==
                if y / SECTOR_SIZE == k then x[y % SECTOR_SIZE] else FileByte(disk, ino, d, y)
    {
      var l := y / SECTOR_SIZE;
      DataHas(n, l);
      assert PathSame(disk, d, disk', d, ino, Data(l));
      assert l != k ==> DataSame(disk, disk', Locate(disk, ino, d, Data(l)));
    }
  }

  /** A chunk within one sector: byte X of the sector K is byte 512 K + X. */
  lemma ChunkByte(sector: seq<byte>, k: nat, ofs: nat, chunk: seq<byte>, y: nat)
    requires |sector| == SECTOR_SIZE && ofs + |chunk| <= SECTOR_SIZE && y / SECTOR_SIZE == k
    ensures var at := SECTOR_SIZE * k + ofs;
            Overlay(sector, ofs, chunk)[y % SECTOR_SIZE] ==
              if at <= y < at + |chunk| then chunk[y - at] else sector[y % SECTOR_SIZE]
  {
  }

  /** Writing part of a data sector writes that part of the file. */
  lemma FileWritten(disk: seq<Sector>, owner: Owners, ino: nat, offset: nat, chunk: seq<byte>)
    requires FileOk(disk, owner, ino) && offset + |chunk| <= |Contents(disk, ino)| && 0 < |chunk|
    requires offset % SECTOR_SIZE + |chunk| <= SECTOR_SIZE
    ensures var s := Locate(disk, ino, At(disk, ino), Data(offset / SECTOR_SIZE));
            && s < |disk|
            && var disk' := disk[s := Overlay(disk[s], offset % SECTOR_SIZE, chunk)];
               FileOk(disk', owner, ino) && Contents(disk', ino) == Overlay(Contents(disk, ino), offset, chunk)
  {
    hide Locate, Kept, Placed, SectorCount, Word, Length;
    var d := At(disk, ino);
    var length, k, ofs := Length(d), offset / SECTOR_SIZE, offset % SECTOR_SIZE;
    var n := SectorCount(length);
    FileIs(disk, owner, ino);
    CountCovers(length);
    DataSector(disk, owner, ino, k);
    var s := Locate(disk, ino, d, Data(k));
    var x: Sector := Overlay(disk[s], ofs, chunk);
    var disk' := disk[s := x];
    BytesAfterDataWrite(disk, owner, ino, d, n, k, x);
    DataWritePlaced(disk, owner, ino, d, n, k, x);
    assert At(disk', ino) == d;
    forall y: nat | y < SECTOR_SIZE * n
      ensures FileByte(disk', ino, d, y) ==
                if offset <= y < offset + |chunk| then chunk[y - offset] else FileByte(disk, ino, d, y)
    {
      if y / SECTOR_SIZE == k { ChunkByte(disk[s], k, ofs, chunk, y); }
    }
    var c, c' := Contents(disk, ino), Contents(disk', ino);
    forall y: nat | y < |c| ensures c'[y] == Overlay(c, offset, chunk)[y] {
    }
  }

  lemma DataWritePlaced(disk: seq<Sector>, owner: Owners, ino: nat, d: Sector, n: nat, k: nat, x: Sector)
    requires Placed(disk, owner, ino, d, n) && k < n
    ensures Locate(disk, ino, d, Data(k)) < |disk|
    ensures Placed(disk[Locate(disk, ino, d, Data(k)) := x], owner, ino, d, n)
  {
    WriteData(disk, owner, ino, d, n, k, x);
    hide Locate, Has;
    var disk' := disk[Locate(disk, ino, d, Data(k)) := x];
    forall p | Has(n, p) ensures Leads(disk', owner, ino, d, p) {
      assert Leads(disk, owner, ino, d, p) && PathSame(disk, d, disk', d, ino, p);
    }
  }

  /** A write of DATA at OFFSET: the file is extended to hold it, with zeroes,
      and DATA is laid over it. */
  function WrittenAt(old_: seq<byte>, offset: nat, data: seq<byte>): (c: seq<byte>)
    ensures |c| == Max(|old_|, offset + |data|)
  {
    Overlay(Padded(old_, offset + |data|), offset, data)
  }

  /** Byte by byte: the new bytes, then what was there, and zero in between. */
  lemma WrittenByte(old_: seq<byte>, offset: nat, data: seq<byte>, x: nat)
    requires x < Max(|old_|, offset + |data|)
    ensures WrittenAt(old_, offset, data)[x] ==
            if offset <= x < offset + |data| then data[x - offset]
            else if x < |old_| then old_[x] else 0
  {
  }

  lemma OverlayMore(c: seq<byte>, offset: nat, data: seq<byte>, w: nat, n: nat)
    requires w + n <= |data| && offset + w + n <= |c|
    ensures Overlay(Overlay(c, offset, data[..w]), offset + w, data[w..w + n]) == Overlay(c, offset, data[..w + n])
  {
    var a := Overlay(Overlay(c, offset, data[..w]), offset + w, data[w..w + n]);
    forall x: nat | x < |c| ensures a[x] == Overlay(c, offset, data[..w + n])[x] {
    }
  }

  lemma OverlayNothing(c: seq<byte>, offset: nat, data: seq<byte>)
    requires offset <= |c|
    ensures Overlay(c, offset, data[..0]) == c
  {
  }

  /** The tables on the way to the K'th data sector are on the disk. */
  lemma TablesOnDisk(disk: seq<Sector>, owner: Owners, ino: nat, k: nat)
    requires FileOk(disk, owner, ino) && k < SectorCount(Length(At(disk, ino)))
    ensures var d := At(disk, ino);
            && (k >= DIRECT_CNT ==> k >= DIRECT_CNT + WORDS || Pointer(d, INDIRECT_IDX) < |disk|)
            && (DIRECT_CNT + WORDS <= k < SPAN_SECTORS ==>
                  && Pointer(d, DBL_INDIRECT_IDX) < |disk|
                  && Word(disk[Pointer(d, DBL_INDIRECT_IDX)], (k - DIRECT_CNT - WORDS) / WORDS) < |disk|)
  {
    hide Word, Pointer;
    var d := At(disk, ino);
    var n := SectorCount(Length(d));
    if DIRECT_CNT <= k < DIRECT_CNT + WORDS {
      PlacedLeads(disk, owner, ino, d, n, Indirect);
    } else if DIRECT_CNT + WORDS <= k < SPAN_SECTORS {
      PlacedLeads(disk, owner, ino, d, n, DoublyIndirect);
      PlacedLeads(disk, owner, ino, d, n, Second((k - DIRECT_CNT - WORDS) / WORDS));
    }
  }

  /** A slice of a data sector is a slice of the file. */
  lemma SectorSlice(disk: seq<Sector>, owner: Owners, ino: nat, offset: nat, size: nat)
    requires FileOk(disk, owner, ino) && offset + size <= |Contents(disk, ino)|
    requires offset % SECTOR_SIZE + size <= SECTOR_SIZE
    ensures var s := At(disk, Locate(disk, ino, At(disk, ino), Data(offset / SECTOR_SIZE)));
            s[offset % SECTOR_SIZE..offset % SECTOR_SIZE + size] == Contents(disk, ino)[offset..offset + size]
  {
    hide Locate, FileOk, At, Length;
    var d := At(disk, ino);
    var k, ofs := offset / SECTOR_SIZE, offset % SECTOR_SIZE;
    var s := At(disk, Locate(disk, ino, d, Data(k)));
    forall x: nat | offset <= x < offset + size ensures Contents(disk, ino)[x] == s[ofs + (x - offset)] {
      assert x / SECTOR_SIZE == k && x % SECTOR_SIZE == ofs + (x - offset);
      assert FileByte(disk, ino, d, x) == s[ofs + (x - offset)];
    }
  }

  // ----- Creating and deleting -----

  /** A new inode in memory: no sectors yet, which is what length -1 says. */
  function NewInode(kind: nat): (d: Sector)
    requires kind < WORD_LIMIT
  {
    PutWord(WithLength(PutWord(Zeroes(), TYPE_WORD, kind), -1), MAGIC_WORD, INODE_MAGIC)
  }

  lemma NewInodeIs(kind: nat)
    requires kind < WORD_LIMIT
    ensures var d := NewInode(kind);
            Length(d) == -1 && Word(d, MAGIC_WORD) == INODE_MAGIC && Word(d, TYPE_WORD) == kind
  {
    var a := PutWord(Zeroes(), TYPE_WORD, kind);
    var b := WithLength(a, -1);
    WordAfterPut(Zeroes(), TYPE_WORD, kind, TYPE_WORD);
    WordAfterPut(a, LENGTH_WORD, WORD_LIMIT - 1, LENGTH_WORD);
    WordAfterPut(a, LENGTH_WORD, WORD_LIMIT - 1, TYPE_WORD);
    WordAfterPut(b, MAGIC_WORD, INODE_MAGIC, LENGTH_WORD);
    WordAfterPut(b, MAGIC_WORD, INODE_MAGIC, TYPE_WORD);
    WordAfterPut(b, MAGIC_WORD, INODE_MAGIC, MAGIC_WORD);
  }

  lemma NewInodePlaced(disk: seq<Sector>, owner: Owners, ino: nat, kind: nat)
    requires ino < |disk| && ino in owner && owner[ino] == (ino, Inode) && kind < WORD_LIMIT
    ensures var d := NewInode(kind);
            Length(d) == -1 && Placed(disk, owner, ino, d, 0) && ZeroFrom(disk, ino, d, 0, 0)
  {
    NewInodeIs(kind);
    hide NewInode;
  }

  lemma FileCreated(disk: seq<Sector>, kind: nat, disk': seq<Sector>, e: Sector, owner': Owners, ino: nat, length: int)
    requires kind < WORD_LIMIT && 0 <= length && Extended(disk, NewInode(kind), disk', e, owner', ino, length)
    ensures Word(e, TYPE_WORD) == kind
    ensures ino < |disk'| && FileOk(disk'[ino := e], owner', ino)
    ensures Contents(disk'[ino := e], ino) == Padded([], length)
  {
    NewInodeIs(kind);
    hide Locate, Kept, Placed, SectorCount, Word, Length, NewInode;
    var n := SectorCount(Length(e));
    WriteInode(disk', owner', ino, e, n, e);
    var disk2 := disk'[ino := e];
    KeptPlaced(disk', e, owner', disk2, e, owner', ino, n);
    KeptBytes(disk', e, disk2, e, ino, n);
    CountCovers(Length(e));
  }

  /** The first N data sectors of a file. */
  ghost function DataSectors(disk: seq<Sector>, ino: nat, n: nat): set<nat> {
    set k | 0 <= k < n :: Locate(disk, ino, At(disk, ino), Data(k))
  }

  /** Of the sectors that were taken, those of a file of LENGTH bytes are free
      exactly if all of them were released, or there are none. */
  lemma AllReleased(disk: seq<Sector>, ino: nat, before: seq<bool>, after: seq<bool>, count: nat, released: nat)
    requires |after| == |before| && released <= count
    requires forall s :: s in DataSectors(disk, ino, count) ==> s < |before| && before[s]
    requires forall s :: 0 <= s < |after| ==> (after[s] <==> before[s] && s !in DataSectors(disk, ino, released))
    requires released == count || released == 0 < count
    ensures (forall s :: s in DataSectors(disk, ino, count) ==> !after[s]) <==> released == count
  {
    if released == 0 < count {
      var s := Locate(disk, ino, At(disk, ino), Data(0));
      assert s in DataSectors(disk, ino, count);
      assert s !in DataSectors(disk, ino, 0);
    }
  }

  lemma DirectSector(disk: seq<Sector>, ino: nat, k: nat)
    requires k < DIRECT_CNT
    ensures Locate(disk, ino, At(disk, ino), Data(k)) == Pointer(At(disk, ino), k)
    ensures DataSectors(disk, ino, k + 1) == DataSectors(disk, ino, k) + {Pointer(At(disk, ino), k)}
  {
    var d := At(disk, ino);
    assert Locate(disk, ino, d, Data(k)) == Pointer(d, k);
    hide Locate, Pointer;
    forall s | s in DataSectors(disk, ino, k + 1) ensures s in DataSectors(disk, ino, k) || s == Pointer(d, k) {
      var i :| 0 <= i < k + 1 && s == Locate(disk, ino, d, Data(i));
    }
  }

}
