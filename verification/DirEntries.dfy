/** A directory file: fixed-size entries that stand for a map from names to
    inode sectors (filesys/directory.c). */
module DirEntries {
  import opened CStrings
  import opened Device
  import opened SectorWords

  const ENTRY_SIZE := 20       // sizeof (struct dir_entry)
  const NAME_MAX := 14
  const IN_USE_AT := 19

  /** An entry, as it lies in the file: sector, name, flag. */
  type DirEntry = e: seq<byte> | |e| == ENTRY_SIZE witness seq(ENTRY_SIZE, _ => 0)

  predicate InUse(e: DirEntry) { e[IN_USE_AT] != 0 }
  function EntryName(e: DirEntry): seq<byte> { CString(e[4..IN_USE_AT]) }
  function EntrySector(e: DirEntry): nat { FromBytes(e[0], e[1], e[2], e[3]) }

  function SlotCount(c: seq<byte>): nat { |c| / ENTRY_SIZE }

  function Slot(c: seq<byte>, i: nat): DirEntry
    requires i < SlotCount(c)
  {
    c[ENTRY_SIZE * i..ENTRY_SIZE * i + ENTRY_SIZE]
  }

  /** Slot I is in use, for NAME. */
  ghost predicate Named(c: seq<byte>, i: nat, name: seq<byte>) {
    i < SlotCount(c) && InUse(Slot(c, i)) && EntryName(Slot(c, i)) == name
  }

  /** Whole entries; names in use are valid, and each is in use once. */
  ghost predicate DirOk(c: seq<byte>) {
    && |c| % ENTRY_SIZE == 0
    && (forall i, name :: Named(c, i, name) ==> 0 < |name| <= NAME_MAX)
    && (forall i, j, name :: Named(c, i, name) && Named(c, j, name) ==> i == j)
  }

  /** The map that the first N slots stand for. */
  ghost function ListingTo(c: seq<byte>, n: nat): map<seq<byte>, nat>
    requires n <= SlotCount(c)
  {
    if n == 0 then map[]
    else
      var e := Slot(c, n - 1);
      if InUse(e) then ListingTo(c, n - 1)[EntryName(e) := EntrySector(e)] else ListingTo(c, n - 1)
  }

  ghost function Listing(c: seq<byte>): map<seq<byte>, nat> { ListingTo(c, SlotCount(c)) }

  ghost predicate NamedBelow(c: seq<byte>, n: nat, i: nat, name: seq<byte>) { i < n && Named(c, i, name) }

  lemma {:induction false} ListingHas(c: seq<byte>, n: nat, name: seq<byte>)
    requires n <= SlotCount(c) && DirOk(c)
    ensures name in ListingTo(c, n) <==> exists i :: NamedBelow(c, n, i, name)
    ensures forall i :: NamedBelow(c, n, i, name) ==> ListingTo(c, n)[name] == EntrySector(Slot(c, i))
  {
    if n > 0 {
      hide Slot, InUse, EntryName, EntrySector;
      ListingHas(c, n - 1, name);
      assert Named(c, n - 1, name) <==> InUse(Slot(c, n - 1)) && EntryName(Slot(c, n - 1)) == name;
      assert Named(c, n - 1, name) ==> NamedBelow(c, n, n - 1, name);
      forall i ensures NamedBelow(c, n, i, name) <==> NamedBelow(c, n - 1, i, name) || (i == n - 1 && Named(c, n - 1, name)) { }
      if name in ListingTo(c, n - 1) {
        var i :| NamedBelow(c, n - 1, i, name);
        assert NamedBelow(c, n, i, name);
      }
    }
  }

  /** A name is in the directory exactly if some slot is in use for it. */
  lemma InListing(c: seq<byte>, name: seq<byte>)
    requires DirOk(c)
    ensures name in Listing(c) <==> exists i :: Named(c, i, name)
    ensures forall i :: Named(c, i, name) ==> Listing(c)[name] == EntrySector(Slot(c, i))
  {
    hide DirOk, Slot, ListingTo;
    var n := SlotCount(c);
    ListingHas(c, n, name);
    forall i ensures Named(c, i, name) <==> NamedBelow(c, n, i, name) { }
  }

  // ----- Writing a slot -----

  /** C with the entry E in slot I, or behind the last one. */
  ghost function WithSlot(c: seq<byte>, i: nat, e: DirEntry): (d: seq<byte>)
    requires i <= SlotCount(c) && |c| % ENTRY_SIZE == 0
  {
    if i < SlotCount(c) then Overlay(c, ENTRY_SIZE * i, e) else c + e
  }

  lemma SlotWritten(c: seq<byte>, i: nat, e: DirEntry, j: nat)
    requires i <= SlotCount(c) && |c| % ENTRY_SIZE == 0
    ensures |WithSlot(c, i, e)| % ENTRY_SIZE == 0
    ensures SlotCount(WithSlot(c, i, e)) == if i < SlotCount(c) then SlotCount(c) else i + 1
    ensures j < SlotCount(WithSlot(c, i, e)) ==> Slot(WithSlot(c, i, e), j) == if j == i then e else Slot(c, j)
  {
    var d := WithSlot(c, i, e);
    if j < SlotCount(d) {
      var s := Slot(d, j);
      assert forall k :: 0 <= k < ENTRY_SIZE ==> s[k] == d[ENTRY_SIZE * j + k];
      if j != i { assert Slot(c, j) == s; } else { assert s == e; }
    }
  }

  lemma NamedAfter(c: seq<byte>, i: nat, e: DirEntry, j: nat, name: seq<byte>)
    requires i <= SlotCount(c) && |c| % ENTRY_SIZE == 0
    ensures Named(WithSlot(c, i, e), j, name) <==> if j == i then InUse(e) && EntryName(e) == name else Named(c, j, name)
  {
    hide InUse, EntryName, WithSlot, Slot;
    SlotWritten(c, i, e, j);
  }

  /** A valid new name in a slot that is free, or at the end. */
  lemma AddedOk(c: seq<byte>, i: nat, e: DirEntry)
    requires DirOk(c) && i <= SlotCount(c) && (i < SlotCount(c) ==> !InUse(Slot(c, i)))
    requires InUse(e) && 0 < |EntryName(e)| <= NAME_MAX && EntryName(e) !in Listing(c)
    ensures DirOk(WithSlot(c, i, e))
    ensures forall j, name :: Named(WithSlot(c, i, e), j, name) <==> Named(c, j, name) || (j == i && name == EntryName(e))
  {
    hide WithSlot, Slot, Listing, EntryName, InUse, Named;
    SlotWritten(c, i, e, 0);
    forall j, name
      ensures Named(WithSlot(c, i, e), j, name) <==> Named(c, j, name) || (j == i && name == EntryName(e))
    {
      NamedAfter(c, i, e, j, name);
      NamedUsed(c, j, name);
    }
    InListing(c, EntryName(e));
  }

  lemma NamedUsed(c: seq<byte>, j: nat, name: seq<byte>)
    ensures Named(c, j, name) ==> j < SlotCount(c) && InUse(Slot(c, j))
  {
  }

  lemma AddedListing(c: seq<byte>, i: nat, e: DirEntry)
    requires DirOk(c) && i <= SlotCount(c) && (i < SlotCount(c) ==> !InUse(Slot(c, i)))
    requires InUse(e) && 0 < |EntryName(e)| <= NAME_MAX && EntryName(e) !in Listing(c)
    ensures DirOk(WithSlot(c, i, e))
    ensures Listing(WithSlot(c, i, e)) == Listing(c)[EntryName(e) := EntrySector(e)]
  {
    hide WithSlot, Slot, Listing, EntryName, InUse, Named, EntrySector;
    var d := WithSlot(c, i, e);
    var m := Listing(c)[EntryName(e) := EntrySector(e)];
    AddedOk(c, i, e);
    forall name ensures name in Listing(d) <==> name in m
      ensures name in m ==> Listing(d)[name] == m[name]
    {
      AddedName(c, i, e, name);
    }
  }

  lemma AddedName(c: seq<byte>, i: nat, e: DirEntry, name: seq<byte>)
    requires DirOk(c) && i <= SlotCount(c) && (i < SlotCount(c) ==> !InUse(Slot(c, i)))
    requires DirOk(WithSlot(c, i, e)) && EntryName(e) !in Listing(c)
    requires forall j, name :: Named(WithSlot(c, i, e), j, name) <==> Named(c, j, name) || (j == i && name == EntryName(e))
    ensures var m := Listing(c)[EntryName(e) := EntrySector(e)];
            && (name in Listing(WithSlot(c, i, e)) <==> name in m)
            && (name in m ==> Listing(WithSlot(c, i, e))[name] == m[name])
  {
    hide WithSlot, Slot, Listing, EntryName, InUse, Named, EntrySector;
    var d := WithSlot(c, i, e);
    InListing(c, name);
    InListing(d, name);
    if name == EntryName(e) {
      assert Named(d, i, name);
      SlotWritten(c, i, e, i);
      SlotNamed(d, i, name);
    } else if name in Listing(c) {
      var j :| Named(c, j, name);
      assert Named(d, j, name);
      SlotWritten(c, i, e, j);
      SlotNamed(d, j, name);
      NamedUsed(c, j, name);
    }
  }

  lemma SlotNamed(c: seq<byte>, i: nat, name: seq<byte>)
    requires Named(c, i, name)
    ensures i < SlotCount(c)
  {
  }

  /** The entry of a name is no longer in use. */
  lemma RemovedListing(c: seq<byte>, i: nat, e: DirEntry, gone: seq<byte>)
    requires DirOk(c) && Named(c, i, gone) && !InUse(e)
    ensures DirOk(WithSlot(c, i, e)) && Listing(WithSlot(c, i, e)) == Listing(c) - {gone}
  {
    hide WithSlot, Slot, Listing, EntryName, InUse, Named, EntrySector;
    SlotNamed(c, i, gone);
    var d := WithSlot(c, i, e);
    SlotWritten(c, i, e, 0);
    forall j, name ensures Named(d, j, name) <==> Named(c, j, name) && j != i { NamedAfter(c, i, e, j, name); }
    forall name ensures name in Listing(d) <==> name in Listing(c) - {gone}
      ensures name in Listing(d) ==> Listing(d)[name] == Listing(c)[name]
    {
      RemovedName(c, i, e, gone, name);
    }
  }

  lemma RemovedName(c: seq<byte>, i: nat, e: DirEntry, gone: seq<byte>, name: seq<byte>)
    requires DirOk(c) && Named(c, i, gone) && i < SlotCount(c) && DirOk(WithSlot(c, i, e))
    requires forall j, name :: Named(WithSlot(c, i, e), j, name) <==> Named(c, j, name) && j != i
    ensures name in Listing(WithSlot(c, i, e)) <==> name in Listing(c) && name != gone
    ensures name in Listing(WithSlot(c, i, e)) ==> Listing(WithSlot(c, i, e))[name] == Listing(c)[name]
  {
    hide WithSlot, Slot, Listing, EntryName, InUse, Named, EntrySector;
    var d := WithSlot(c, i, e);
    InListing(c, name);
    InListing(d, name);
    if name in Listing(c) {
      var j :| Named(c, j, name);
      if name != gone {
        assert j != i by { OneName(c, i, gone, name); }
        assert Named(d, j, name);
        SlotWritten(c, i, e, j);
        SlotNamed(c, j, name);
        SlotNamed(d, j, name);
      }
    }
  }

  lemma OneName(c: seq<byte>, i: nat, a: seq<byte>, b: seq<byte>)
    ensures Named(c, i, a) && Named(c, i, b) ==> a == b
  {
  }
}
