/** The write-back sector cache (filesys/cache.c), one operation at a time.

    The caller sees a plain array of sectors, `contents`: what every sector holds,
    wherever its newest copy is, in a slot or on the disk.  `newest` says which slot
    holds a sector that the disk does not have yet.  Operations run one after the
    other, so a slot's block_lock is either free or held by the operation itself,
    and the data_lock is never contended. */
module Cache {
  import opened Device

  const CACHE_CNT := 64
  const INVALID_SECTOR: nat := 0xffff_ffff

  type Hand = n: nat | n <= CACHE_CNT

  datatype LockType = NonExclusive | Exclusive

  class CacheBlock {
    var locked: bool
    var readers: int
    var readWaiters: int
    var writers: int
    var writeWaiters: int
    var sector: nat
    var upToDate: bool
    var dirty: bool
    const data: array<byte>

    constructor ()
      ensures sector == INVALID_SECTOR && !upToDate && !dirty && !locked && Idle()
      ensures data.Length == SECTOR_SIZE && fresh(data)
    {
      locked, upToDate, dirty := false, false, false;
      readers, readWaiters, writers, writeWaiters := 0, 0, 0, 0;
      sector := INVALID_SECTOR;
      data := new byte[SECTOR_SIZE];
    }

    predicate Idle()
      reads this`readers, this`readWaiters, this`writers, this`writeWaiters
    {
      readers == 0 && readWaiters == 0 && writers == 0 && writeWaiters == 0
    }

    /** Puts SIZE bytes of SRC at OFFSET, and marks the slot written. */
    method Store(src: array<byte>, size: nat, offset: nat)
      requires src != data && size <= src.Length && offset + size <= data.Length
      modifies this`upToDate, this`dirty, data
      ensures upToDate && dirty
      ensures data[..] == Overlay(old(data[..]), offset, src[..size])
    {
      upToDate := true;
      dirty := true;
      Memcpy(data, offset, src, 0, size);
      assert src[0..size] == src[..size];
    }

    /** The slot agrees with what the sectors are meant to hold. */
    ghost predicate Agrees(contents: seq<Sector>)
      reads this`sector, this`upToDate, this`dirty, data
    {
      && data.Length == SECTOR_SIZE
      && (sector == INVALID_SECTOR ==> !upToDate && !dirty)
      && (sector != INVALID_SECTOR ==> sector < |contents|)
      && (dirty ==> upToDate)
      && (upToDate ==> data[..] == contents[sector])
    }
  }

  class BufferCache {
    const blocks: seq<CacheBlock>
    var hand: Hand
    var disk: seq<Sector>
    ghost var contents: seq<Sector>
    ghost var newest: map<nat, nat>  // for each sector in a dirty slot, which slot
    ghost const Buffers: set<array<byte>>

    ghost predicate Shape()
    {
      && |blocks| == CACHE_CNT
      && (forall i :: 0 <= i < |blocks| ==> blocks[i].data in Buffers)
      && (forall i, j :: 0 <= i < j < |blocks| ==> blocks[i] != blocks[j] && blocks[i].data != blocks[j].data)
    }

    /** No sector occupies two slots. */
    ghost predicate NoDuplicates()
      reads blocks`sector
    {
      forall i, j :: 0 <= i < j < |blocks| && blocks[i].sector == blocks[j].sector ==>
        blocks[i].sector == INVALID_SECTOR
    }

    ghost predicate SlotsAgree()
      reads this`contents, Buffers, blocks`sector, blocks`upToDate, blocks`dirty
      requires Shape()
    {
      forall i :: 0 <= i < |blocks| ==> blocks[i].Agrees(contents)
    }

    ghost predicate NewestAreDirty()
      reads this`newest, blocks`sector, blocks`dirty
    {
      && (forall s :: s in newest ==>
            newest[s] < |blocks| && blocks[newest[s]].sector == s && blocks[newest[s]].dirty)
      && (forall i :: 0 <= i < |blocks| && blocks[i].dirty ==>
            blocks[i].sector in newest && newest[blocks[i].sector] == i)
    }

    /** What no dirty slot holds is on the disk as it should be. */
    ghost predicate RestOnDisk()
      reads this`disk, this`contents, this`newest
    {
      && |disk| == |contents| < INVALID_SECTOR
      && forall s :: 0 <= s < |contents| && s !in newest ==> disk[s] == contents[s]
    }

    ghost predicate Valid()
      reads this`disk, this`contents, this`newest, Buffers
      reads blocks`sector, blocks`upToDate, blocks`dirty
    {
      Shape() && SlotsAgree() && NoDuplicates() && NewestAreDirty() && RestOnDisk()
    }

    /** CB is the one slot whose block_lock is taken; none is if CB is null. */
    ghost predicate Locked(cb: CacheBlock?)
      reads blocks`locked
    {
      forall i :: 0 <= i < |blocks| ==> (blocks[i].locked <==> blocks[i] == cb)
    }

    /** No slot is locked or in use: the state between operations. */
    ghost predicate Quiet()
      reads blocks`locked, blocks`readers, blocks`readWaiters, blocks`writers, blocks`writeWaiters
    {
      Locked(null) && AllIdle()
    }

    ghost predicate AllIdle()
      reads blocks`readers, blocks`readWaiters, blocks`writers, blocks`writeWaiters
    {
      forall i :: 0 <= i < |blocks| ==> blocks[i].Idle()
    }

    /** One operation of kind T, on slot CB, is in the cache and no other. */
    ghost predicate InUse(cb: CacheBlock, t: LockType)
      reads blocks`readers, blocks`readWaiters, blocks`writers, blocks`writeWaiters
      reads cb`readers, cb`readWaiters, cb`writers, cb`writeWaiters
    {
      && cb in blocks && cb.readWaiters == 0 && cb.writeWaiters == 0
      && cb.readers == (if t.Exclusive? then 0 else 1) && cb.writers == (if t.Exclusive? then 1 else 0)
      && forall i :: 0 <= i < |blocks| && blocks[i] != cb ==> blocks[i].Idle()
    }

    ghost predicate Holds(sector: nat)
      reads blocks`sector
    {
      exists i :: 0 <= i < |blocks| && blocks[i].sector == sector
    }

    /** A clean slot that is up to date equals the disk. */
    lemma CleanSlotIsOnDisk(i: nat)
      requires Valid() && i < |blocks| && blocks[i].upToDate && !blocks[i].dirty
      ensures blocks[i].sector < |disk| && blocks[i].data[..] == disk[blocks[i].sector]
    {
      assert blocks[i].Agrees(contents);
      assert forall j :: 0 <= j < |blocks| && blocks[j].sector == blocks[i].sector ==> j == i;
    }

    constructor (disk: seq<Sector>)
      requires |disk| < INVALID_SECTOR
      ensures Valid() && Quiet() && contents == disk && fresh(Buffers) && fresh(blocks)
    {
      var bs: seq<CacheBlock> := [];
      ghost var r: set<array<byte>> := {};
      while |bs| < CACHE_CNT
        invariant |bs| <= CACHE_CNT && fresh(r)
        invariant forall i :: 0 <= i < |bs| ==> fresh(bs[i]) && bs[i].data in r && bs[i].data.Length == SECTOR_SIZE
        invariant forall i :: 0 <= i < |bs| ==> bs[i].sector == INVALID_SECTOR && !bs[i].upToDate && !bs[i].dirty
        invariant forall i :: 0 <= i < |bs| ==> bs[i].Idle() && !bs[i].locked
        invariant forall i, j :: 0 <= i < j < |bs| ==> bs[i] != bs[j] && bs[i].data != bs[j].data
      {
        var b := new CacheBlock();
        bs := bs + [b];
        r := r + {b.data};
      }
      blocks, hand, this.disk, contents, newest, Buffers := bs, 0, disk, disk, map[], r;
    }

    /** The slot that holds SECTOR, with its block_lock taken, or null. */
    method InCache(sector: nat) returns (cb: CacheBlock?)
      requires Valid() && Locked(null)
      modifies blocks`locked
      ensures Valid() && Locked(cb)
      ensures cb == null ==> !Holds(sector)
      ensures cb != null ==> cb in blocks && cb.sector == sector
    {
      hide Valid, NoDuplicates;
      ShapeHolds();
      for i := 0 to CACHE_CNT
        invariant Valid() && Locked(null)
        invariant forall j :: 0 <= j < i ==> blocks[j].sector != sector
      {
        cb := blocks[i];
        if !cb.locked {
          cb.locked := true;
          if cb.sector == sector { return; }
          cb.locked := false;
        }
      }
      cb := null;
    }

    /** A slot that holds nothing, with its block_lock taken, or null. */
    method FindEmpty() returns (cb: CacheBlock?)
      requires Valid() && Locked(null)
      modifies blocks`locked
      ensures Valid() && Locked(cb)
      ensures cb == null ==> !Holds(INVALID_SECTOR)
      ensures cb != null ==> cb in blocks && cb.sector == INVALID_SECTOR
    {
      hide Valid, NoDuplicates;
      ShapeHolds();
      for i := 0 to CACHE_CNT
        invariant Valid() && Locked(null)
        invariant forall j :: 0 <= j < i ==> blocks[j].sector != INVALID_SECTOR
      {
        cb := blocks[i];
        if !cb.locked {
          cb.locked := true;
          if cb.sector == INVALID_SECTOR { return; }
          cb.locked := false;
        }
      }
      cb := null;
    }

    /** Writes CB to the disk and empties it, if it is dirty. */
    method FlushBlock(cb: CacheBlock)
      requires Valid() && cb in blocks
      modifies this`disk, this`newest, cb`sector, cb`upToDate, cb`dirty
      ensures Valid() && !cb.dirty
      ensures cb.sector == if old(cb.dirty) then INVALID_SECTOR else old(cb.sector)
      ensures disk == if old(cb.dirty) then old(disk)[old(cb.sector) := contents[old(cb.sector)]] else old(disk)
    {
      hide NoDuplicates, NewestAreDirty, RestOnDisk;
      ghost var i := IndexOf(cb);
      assert cb.Agrees(contents);
      if cb.dirty && cb.sector != INVALID_SECTOR {
        WriteBack(cb, i);
        ClearBlock(cb, i);
      }
    }

    /** The index of a slot. */
    ghost function IndexOf(cb: CacheBlock): (i: nat)
      requires cb in blocks
      ensures i < |blocks| && blocks[i] == cb
    {
      var i :| 0 <= i < |blocks| && blocks[i] == cb;
      i
    }

    /** block_write of a dirty slot: from now on the disk has what the slot has. */
    method WriteBack(cb: CacheBlock, ghost i: nat)
      requires Valid() && i < |blocks| && blocks[i] == cb && cb.dirty && cb.sector != INVALID_SECTOR
      modifies this`disk, this`newest, cb`dirty
      ensures Valid() && !cb.dirty
      ensures disk == old(disk)[cb.sector := contents[cb.sector]]
    {
      hide NoDuplicates;
      Alone(i);
      assert cb.Agrees(contents);
      assert cb.sector in newest && newest[cb.sector] == i;
      disk := disk[cb.sector := cb.data[..]];
      newest := newest - {cb.sector};
      cb.dirty := false;
    }

    /** clear_block: a clean slot is emptied. */
    method ClearBlock(cb: CacheBlock, ghost i: nat)
      requires Valid() && i < |blocks| && blocks[i] == cb && !cb.dirty
      modifies cb`sector, cb`upToDate, cb`dirty
      ensures Valid() && cb.sector == INVALID_SECTOR && !cb.dirty
    {
      hide RestOnDisk;
      assert forall j :: 0 <= j < |blocks| && j != i ==> blocks[j] != cb;
      cb.sector := INVALID_SECTOR;
      cb.upToDate := false;
      cb.dirty := false;
    }

    /** Tries the slot under the clock hand: takes it, flushed, if it is idle. */
    method TryHand(ghost wanted: nat) returns (cb: CacheBlock?)
      requires Valid() && Locked(null) && hand < CACHE_CNT
      requires wanted != INVALID_SECTOR && !Holds(wanted)
      modifies this`disk, this`newest
      modifies blocks`locked, blocks`sector, blocks`upToDate, blocks`dirty
      ensures Valid() && Locked(cb)
      ensures cb == null ==> !blocks[hand].Idle()
      ensures cb != null ==> cb == blocks[hand] && cb.Idle() && !cb.dirty
      ensures !Holds(wanted)
    {
      hide Valid;
      ShapeHolds();
      cb := blocks[hand];
      assert cb == blocks[hand] && !cb.locked;
      if !cb.locked {
        cb.locked := true;
        if cb.readers == 0 && cb.readWaiters == 0 && cb.writers == 0 && cb.writeWaiters == 0 {
          FlushBlock(cb);
          return;
        }
        cb.locked := false;
      }
      cb := null;
    }

    /** Every slot from LO up to HI is in use. */
    ghost predicate Busy(lo: nat, hi: nat)
      reads blocks`readers, blocks`readWaiters, blocks`writers, blocks`writeWaiters
    {
      hi <= |blocks| && forall i :: lo <= i < hi ==> !blocks[i].Idle()
    }

    lemma NoneBusy(lo: nat)
      requires lo <= |blocks|
      ensures Busy(lo, lo)
    {
    }

    lemma BusyJoin(lo: nat, mid: nat, hi: nat)
      requires Busy(lo, mid) && Busy(mid, hi)
      ensures Busy(lo, hi)
    {
    }

    lemma BusyNext(lo: nat, hi: nat)
      requires Busy(lo, hi) && hi < |blocks| && !blocks[hi].Idle()
      ensures Busy(lo, hi + 1)
    {
    }

    /** The clock hand goes on to LIMIT, or to an idle slot before that, which is
        flushed. */
    method HandTo(limit: nat, ghost wanted: nat) returns (cb: CacheBlock?)
      requires Valid() && Locked(null) && hand <= limit <= CACHE_CNT
      requires wanted != INVALID_SECTOR && !Holds(wanted)
      modifies this`hand, this`disk, this`newest
      modifies blocks`locked, blocks`sector, blocks`upToDate, blocks`dirty
      ensures Valid() && Locked(cb) && !Holds(wanted)
      ensures cb == null ==> hand == limit && Busy(old(hand), limit)
      ensures cb != null ==> cb in blocks && cb.Idle() && !cb.dirty
      ensures cb != null ==> old(hand) <= hand < limit && limit <= |blocks| && cb == blocks[hand] && Busy(old(hand), hand)
    {
      hide Valid, Locked, Holds, Busy;
      assert |blocks| == CACHE_CNT by { ShapeHolds(); }
      NoneBusy(hand);
      while hand < limit
        invariant old(hand) <= hand <= limit && Valid() && Locked(null) && !Holds(wanted)
        invariant Busy(old(hand), hand)
        decreases limit - hand
      {
        cb := TryHand(wanted);
        if cb != null { return; }
        BusyNext(old(hand), hand);
        hand := hand + 1;
      }
      cb := null;
    }

    /** An idle slot, flushed, with its block_lock taken: the first one that is idle,
        going round from where the hand last stopped.  Null only if every slot is in
        use. */
    method TryToEmpty(ghost wanted: nat) returns (cb: CacheBlock?)
      requires Valid() && Locked(null)
      requires wanted != INVALID_SECTOR && !Holds(wanted)
      modifies this`hand, this`disk, this`newest
      modifies blocks`locked, blocks`sector, blocks`upToDate, blocks`dirty
      ensures Valid() && Locked(cb)
      ensures cb == null ==> Busy(0, CACHE_CNT)
      ensures cb != null ==> cb in blocks && cb.Idle() && !cb.dirty
      ensures cb != null ==>
                && hand < |blocks| && cb == blocks[hand]
                && (if old(hand) <= hand then Busy(old(hand), hand) else Busy(old(hand), CACHE_CNT) && Busy(0, hand))
      ensures !Holds(wanted)
    {
      hide Valid, Locked, Holds, Busy;
      var handStart := hand;
      assert |blocks| == CACHE_CNT by { ShapeHolds(); }
      cb := HandTo(CACHE_CNT, wanted);
      if cb != null { return; }
      hand := 0;
      cb := HandTo(handStart, wanted);
      if cb == null { BusyJoin(0, handStart, CACHE_CNT); }
    }

    lemma ShapeHolds()
      requires Valid()
      ensures Shape()
    {
    }

    /** Counts the operation in and, unless the lock is to be kept, lets go of
        the block_lock. */
    method AddLock(cb: CacheBlock, t: LockType)
      requires cb in blocks && Locked(cb)
      modifies cb`readers, cb`writers, cb`locked
      ensures Locked(if t.Exclusive? then cb else null)
      ensures cb.readers == old(cb.readers) + (if t.Exclusive? then 0 else 1)
      ensures cb.writers == old(cb.writers) + (if t.Exclusive? then 1 else 0)
      ensures old(AllIdle()) ==> InUse(cb, t)
    {
      if t == Exclusive {
        cb.writers := cb.writers + 1;
      } else {
        cb.readers := cb.readers + 1;
        cb.locked := false;
      }
    }

    /** Makes CB the slot for SECTOR, with nothing read into it yet. */
    method Claim(cb: CacheBlock, sector: nat)
      requires Valid() && cb in blocks && !cb.dirty && sector < |contents| && !Holds(sector)
      modifies cb`sector, cb`upToDate
      ensures Valid() && cb.sector == sector
    {
      cb.sector := sector;
      cb.upToDate := false;
    }

    /** One attempt to get SECTOR into a slot and lock that slot.  The attempt
        fails only if every slot is in use, which the caller answers by
        sleeping and trying again. */
    method CacheLock(sector: nat, t: LockType) returns (cb: CacheBlock?)
      requires Valid() && Locked(null) && sector < |contents|
      modifies this`hand, this`disk, this`newest
      modifies blocks`locked, blocks`sector, blocks`upToDate, blocks`dirty, blocks`readers, blocks`writers
      ensures Valid()
      ensures cb == null ==> Locked(null) && Busy(0, CACHE_CNT)
      ensures old(AllIdle()) ==> cb != null
      ensures cb != null ==> cb in blocks && cb.sector == sector
      ensures cb != null ==> Locked(if t.Exclusive? then cb else null)
      ensures cb != null ==> cb.readers == old(cb.readers) + (if t.Exclusive? then 0 else 1)
      ensures cb != null ==> cb.writers == old(cb.writers) + (if t.Exclusive? then 1 else 0)
      ensures cb != null && old(AllIdle()) ==> InUse(cb, t)
    {
      hide Valid, Locked, Holds, Busy, AllIdle, InUse;
      assert |contents| < INVALID_SECTOR by { InvalidIsNoSector(); }
      cb := InCache(sector);
      if cb == null {
        cb := FindEmpty();
        if cb == null {
          cb := TryToEmpty(sector);
          if cb == null {
            NotBusy();
            return;
          }
        } else {
          EmptyIsClean(cb);
        }
        Claim(cb, sector);
      }
      AddLock(cb, t);
    }

    lemma NotBusy()
      requires Valid()
      ensures !(Busy(0, CACHE_CNT) && AllIdle())
    {
      assert !AllIdle() || blocks[0].Idle();
    }

    lemma InvalidIsNoSector()
      requires Valid()
      ensures |contents| < INVALID_SECTOR
    {
    }

    lemma EmptyIsClean(cb: CacheBlock)
      requires Valid() && cb in blocks && cb.sector == INVALID_SECTOR
      ensures !cb.dirty && !cb.upToDate
    {
    }

    /** Brings CB up to date from the disk if it is not. */
    method CacheRead(cb: CacheBlock)
      requires Valid() && cb in blocks && cb.sector != INVALID_SECTOR
      modifies cb`upToDate, cb.data
      ensures Valid() && cb.upToDate
      ensures cb.sector < |contents| && cb.data[..] == contents[cb.sector]
    {
      if !cb.upToDate {
        StaleIsOnDisk(cb);
        var sector := disk[cb.sector];
        cb.upToDate := true;
        BlockRead(cb.data, sector);
      }
    }

    lemma StaleIsOnDisk(cb: CacheBlock)
      requires Valid() && cb in blocks && cb.sector != INVALID_SECTOR && !cb.upToDate
      ensures cb.sector < |disk| && disk[cb.sector] == contents[cb.sector]
      ensures cb.data.Length == SECTOR_SIZE
    {
      var i :| 0 <= i < |blocks| && blocks[i] == cb;
      assert forall j :: 0 <= j < |blocks| && blocks[j].sector == cb.sector ==> j == i;
    }

    lemma Filled(old_: seq<byte>, contents: seq<byte>, offset: nat, data: seq<byte>)
      requires |old_| == |contents| == SECTOR_SIZE && offset + |data| <= SECTOR_SIZE
      requires old_ == contents || (offset == 0 && |data| == SECTOR_SIZE)
      ensures Overlay(old_, offset, data) == Overlay(contents, offset, data)
    {
    }

    /** Puts SIZE bytes of SRC into CB at OFFSET.  Unless that fills the slot,
        it has to be up to date. */
    method CacheWrite(cb: CacheBlock, src: array<byte>, size: nat, offset: nat)
      requires Valid() && cb in blocks && cb.sector != INVALID_SECTOR
      requires size <= src.Length && offset + size <= SECTOR_SIZE && src !in Buffers
      requires cb.upToDate || (offset == 0 && size == SECTOR_SIZE)
      modifies this`contents, this`newest, cb`upToDate, cb`dirty, cb.data
      ensures Valid() && cb.sector < |contents|
      ensures contents == old(contents)[cb.sector := Overlay(old(contents)[cb.sector], offset, src[..size])]
    {
      hide Overlay, NoDuplicates, NewestAreDirty;
      SlotShape(cb);
      ghost var i := IndexOf(cb);
      Alone(i);
      ghost var now: Sector := Overlay(contents[cb.sector], offset, src[..size]);
      Filled(cb.data[..], contents[cb.sector], offset, src[..size]);
      cb.Store(src, size, offset);
      contents := contents[cb.sector := now];
      newest := newest[cb.sector := i];
      StillNewest(i);
    }

    /** Slot I has become the newest copy of its sector. */
    twostate lemma StillNewest(i: nat)
      requires i < |blocks| && old(NewestAreDirty()) && blocks[i].dirty
      requires newest == old(newest)[blocks[i].sector := i]
      requires forall j :: 0 <= j < |blocks| ==> blocks[j].sector == old(blocks[j].sector)
      requires forall j :: 0 <= j < |blocks| && j != i ==> blocks[j].dirty == old(blocks[j].dirty)
      requires forall j :: 0 <= j < |blocks| && j != i ==> blocks[j].sector != blocks[i].sector
      ensures NewestAreDirty()
    {
    }

    /** No other slot holds what slot I holds. */
    lemma Alone(i: nat)
      requires Shape() && NoDuplicates() && i < |blocks| && blocks[i].sector != INVALID_SECTOR
      ensures forall j :: 0 <= j < |blocks| && j != i ==> blocks[j].sector != blocks[i].sector
      ensures forall j :: 0 <= j < |blocks| && j != i ==> blocks[j] != blocks[i] && blocks[j].data != blocks[i].data
    {
    }

    lemma SlotShape(cb: CacheBlock)
      requires Valid() && cb in blocks && cb.sector != INVALID_SECTOR
      ensures cb.data.Length == SECTOR_SIZE && cb.sector < |contents| && cb.data in Buffers
      ensures cb.upToDate ==> cb.data[..] == contents[cb.sector]
    {
    }

    /** Counts the operation out.  The block_lock tells which kind it was. */
    method CacheUnlock(cb: CacheBlock)
      requires cb in blocks && (Locked(null) || Locked(cb))
      modifies cb`readers, cb`writers, cb`locked
      ensures Locked(null)
      ensures cb.readers == old(cb.readers) - (if old(cb.locked) then 0 else 1)
      ensures cb.writers == old(cb.writers) - (if old(cb.locked) then 1 else 0)
      ensures old(InUse(cb, if cb.locked then Exclusive else NonExclusive)) ==> AllIdle()
    {
      if !cb.locked {
        cb.locked := true;
        cb.readers := cb.readers - 1;
        cb.locked := false;
      } else {
        cb.writers := cb.writers - 1;
        cb.locked := false;
      }
    }

    /** Reads SIZE bytes of SECTOR from OFFSET on into BUFFER. */
    method FullRead(sector: nat, buffer: array<byte>, size: nat, offset: nat)
      requires Valid() && Quiet() && sector < |contents|
      requires size <= buffer.Length && offset + size <= SECTOR_SIZE && buffer !in Buffers
      modifies this`hand, this`disk, this`newest, Buffers, buffer
      modifies blocks`locked, blocks`sector, blocks`upToDate, blocks`dirty, blocks`readers, blocks`writers
      ensures Valid() && Quiet()
      ensures buffer[..] == Overlay(old(buffer[..]), 0, contents[sector][offset..offset + size])
    {
      hide Valid, Locked, Busy, AllIdle, InUse;
      var cb := CacheLock(sector, NonExclusive);
      InvalidIsNoSector();
      SlotShape(cb);
      CacheRead(cb);
      Memcpy(buffer, 0, cb.data, offset, size);
      WhoIsLocked(cb, null);
      CacheUnlock(cb);
    }

    /** Writes SIZE bytes of BUFFER into SECTOR at OFFSET. */
    method FullWrite(sector: nat, buffer: array<byte>, size: nat, offset: nat)
      requires Valid() && Quiet() && sector < |contents|
      requires size <= buffer.Length && offset + size <= SECTOR_SIZE && buffer !in Buffers
      modifies this`hand, this`disk, this`newest, this`contents, Buffers
      modifies blocks`locked, blocks`sector, blocks`upToDate, blocks`dirty, blocks`readers, blocks`writers
      ensures Valid() && Quiet()
      ensures contents == old(contents)[sector := Overlay(old(contents)[sector], offset, buffer[..size])]
    {
      hide Valid, Locked, Busy, AllIdle, InUse;
      var cb := CacheLock(sector, Exclusive);
      InvalidIsNoSector();
      SlotShape(cb);
      if offset == 0 && size == SECTOR_SIZE {
        CacheWrite(cb, buffer, SECTOR_SIZE, offset);
      } else {
        CacheRead(cb);
        CacheWrite(cb, buffer, size, offset);
      }
      WhoIsLocked(cb, cb);
      CacheUnlock(cb);
    }

    lemma WhoIsLocked(cb: CacheBlock, holder: CacheBlock?)
      requires Locked(holder) && cb in blocks
      ensures cb.locked <==> cb == holder
    {
    }

    ghost predicate Clean(n: nat)
      reads blocks`dirty
    {
      n <= |blocks| && forall i :: 0 <= i < n ==> !blocks[i].dirty
    }

    /** With no dirty slot the disk holds everything. */
    lemma CleanIsOnDisk()
      requires Valid() && Clean(CACHE_CNT)
      ensures disk == contents
    {
      assert newest.Keys == {};
    }

    /** Writes every dirty slot to the disk. */
    method CacheFlush()
      requires Valid()
      modifies this`disk, this`newest
      modifies blocks`sector, blocks`upToDate, blocks`dirty
      ensures Valid()
      ensures disk == contents
      ensures forall i :: 0 <= i < |blocks| ==> !blocks[i].dirty
    {
      hide Valid;
      ShapeHolds();
      for i := 0 to CACHE_CNT
        invariant Valid() && Clean(i)
      {
        FlushBlock(blocks[i]);
      }
      CleanIsOnDisk();
    }
  }

  // ----- Any run of operations -----

  datatype Op =
    | Read(sector: nat, offset: nat, size: nat)
    | Write(sector: nat, offset: nat, bytes: seq<byte>)
    | Flush

  ghost predicate Permitted(op: Op, sectors: nat) {
    match op
    case Read(s, o, n) => s < sectors && o + n <= SECTOR_SIZE
    case Write(s, o, b) => s < sectors && o + |b| <= SECTOR_SIZE
    case Flush => true
  }

  /** What an operation does to a plain array of sectors. */
  ghost function Step(op: Op, a: seq<Sector>): (b: seq<Sector>)
    requires Permitted(op, |a|)
    ensures |b| == |a|
  {
    match op
    case Write(s, o, d) => a[s := Overlay(a[s], o, d)]
    case _ => a
  }

  /** What it answers, of a plain array of sectors. */
  ghost function Answer(op: Op, a: seq<Sector>): seq<byte>
    requires Permitted(op, |a|)
  {
    match op
    case Read(s, o, n) => a[s][o..o + n]
    case _ => []
  }

  ghost function After(ops: seq<Op>, a: seq<Sector>): (b: seq<Sector>)
    requires forall i :: 0 <= i < |ops| ==> Permitted(ops[i], |a|)
    ensures |b| == |a|
  {
    if ops == [] then a else Step(ops[|ops| - 1], After(ops[..|ops| - 1], a))
  }

  ghost function Answers(ops: seq<Op>, a: seq<Sector>): (r: seq<seq<byte>>)
    requires forall i :: 0 <= i < |ops| ==> Permitted(ops[i], |a|)
    ensures |r| == |ops|
  {
    if ops == [] then []
    else var n := |ops| - 1;
      Answers(ops[..n], a) + [Answer(ops[n], After(ops[..n], a))]
  }

  lemma NothingDone(a: seq<Sector>)
    ensures After([], a) == a && Answers([], a) == []
  {
  }

  lemma OneMore(ops: seq<Op>, i: nat, a: seq<Sector>)
    requires i < |ops| && forall j :: 0 <= j < |ops| ==> Permitted(ops[j], |a|)
    ensures After(ops[..i + 1], a) == Step(ops[i], After(ops[..i], a))
    ensures Answers(ops[..i + 1], a) == Answers(ops[..i], a) + [Answer(ops[i], After(ops[..i], a))]
  {
    assert ops[..i + 1][..i] == ops[..i];
  }

  method Perform(cache: BufferCache, op: Op) returns (answer: seq<byte>)
    requires cache.Valid() && cache.Quiet() && Permitted(op, |cache.contents|)
    modifies cache`hand, cache`disk, cache`newest, cache`contents, cache.Buffers
    modifies cache.blocks`locked, cache.blocks`sector, cache.blocks`upToDate, cache.blocks`dirty
    modifies cache.blocks`readers, cache.blocks`writers
    ensures cache.Valid() && cache.Quiet()
    ensures cache.contents == Step(op, old(cache.contents))
    ensures answer == Answer(op, old(cache.contents))
    ensures op.Flush? ==> cache.disk == cache.contents
  {
    hide cache.Valid, cache.Quiet, Overlay;
    answer := [];
    match op
    case Read(s, o, n) =>
      var buffer := new byte[n];
      ghost var before := buffer[..];
      cache.FullRead(s, buffer, n, o);
      OverlayAll(before, cache.contents[s][o..o + n]);
      answer := buffer[..];
    case Write(s, o, b) =>
      var buffer := new byte[|b|](i requires 0 <= i < |b| => b[i]);
      assert buffer[..] == b && buffer[..|b|] == b;
      cache.FullWrite(s, buffer, |b|, o);
    case Flush =>
      cache.CacheFlush();
  }

  /** Whatever reads, writes and flushes are made, in whatever order, with the
      hits, misses and evictions that this entails, the cached device answers
      as a plain array of sectors would, and ends up holding what it would. */
  method Run(cache: BufferCache, ops: seq<Op>) returns (answers: seq<seq<byte>>)
    requires cache.Valid() && cache.Quiet()
    requires forall i :: 0 <= i < |ops| ==> Permitted(ops[i], |cache.contents|)
    modifies cache`hand, cache`disk, cache`newest, cache`contents, cache.Buffers
    modifies cache.blocks`locked, cache.blocks`sector, cache.blocks`upToDate, cache.blocks`dirty
    modifies cache.blocks`readers, cache.blocks`writers
    ensures cache.Valid() && cache.Quiet()
    ensures cache.contents == After(ops, old(cache.contents))
    ensures answers == Answers(ops, old(cache.contents))
    ensures ops != [] && ops[|ops| - 1].Flush? ==> cache.disk == cache.contents
  {
    hide cache.Valid, cache.Quiet, Step, Answer, After, Answers;
    assert After([], cache.contents) == cache.contents && Answers([], cache.contents) == [] by { NothingDone(cache.contents); }
    answers := [];
    for i := 0 to |ops|
      invariant cache.Valid() && cache.Quiet()
      invariant cache.contents == After(ops[..i], old(cache.contents))
      invariant answers == Answers(ops[..i], old(cache.contents))
      invariant i > 0 && ops[i - 1].Flush? ==> cache.disk == cache.contents
    {
      OneMore(ops, i, old(cache.contents));
      var answer := Perform(cache, ops[i]);
      answers := answers + [answer];
    }
    assert ops[..|ops|] == ops;
  }
}
