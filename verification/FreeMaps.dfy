/** The free map (filesys/free-map.c): which sectors of the disk are taken, in a
    bitmap.  Its own file is not part of this model. */
module FreeMaps {
  import opened BitRuns
  import opened Bitmaps

  const FREE_MAP_SECTOR := 0
  const ROOT_DIR_SECTOR := 1

  class FreeMap {
    const bitmap: Bitmap

    ghost predicate Valid() { bitmap.Valid() }

    /** For each sector, whether it is taken. */
    ghost function Taken(): (b: seq<bool>)
      requires Valid()
      reads bitmap.words
    {
      bitmap.Bits()
    }

    /** free_map_init: the two sectors that are at a fixed place are taken. */
    constructor (sectors: nat)
      requires sectors >= 2
      ensures Valid() && fresh(bitmap.words) && |Taken()| == sectors
      ensures forall s :: 0 <= s < sectors ==> (Taken()[s] <==> s == FREE_MAP_SECTOR || s == ROOT_DIR_SECTOR)
    {
      bitmap := new Bitmap(sectors);
      new;
      bitmap.Mark(FREE_MAP_SECTOR);
      bitmap.Mark(ROOT_DIR_SECTOR);
    }

    /** free_map_allocate: the lowest CNT free sectors in a row, exactly if there
        are so many. */
    method Allocate(cnt: nat) returns (ok: bool, sector: nat)
      requires Valid()
      modifies bitmap.words
      ensures ok <==> exists s :: RunAt(old(Taken()), s, cnt, false)
      ensures ok ==> RunAt(old(Taken()), sector, cnt, false) && Taken() == SetRun(old(Taken()), sector, cnt, true)
      ensures ok ==> forall s :: 0 <= s < sector ==> !RunAt(old(Taken()), s, cnt, false)
      ensures !ok ==> Taken() == old(Taken())
    {
      ghost var before := Taken();
      var r := bitmap.ScanAndFlip(0, cnt, false);
      ok := r.Some?;
      if ok { sector := r.value; } else { sector := 0; }
      assert r == Scan(before, 0, cnt, false);
    }

    /** free_map_release: undoes the allocation of these sectors. */
    method Release(sector: nat, cnt: nat)
      requires Valid() && RunAt(Taken(), sector, cnt, true)
      modifies bitmap.words
      ensures Taken() == SetRun(old(Taken()), sector, cnt, false)
      ensures forall before :: RunAt(before, sector, cnt, false) && old(Taken()) == SetRun(before, sector, cnt, true) ==>
                                 Taken() == before
    {
      ghost var t := Taken();
      bitmap.SetMultiple(sector, cnt, false);
      forall before | RunAt(before, sector, cnt, false) && t == SetRun(before, sector, cnt, true)
        ensures Taken() == before
      {
        ReleaseUndoes(before, sector, cnt);
      }
    }
  }

  lemma ReleaseUndoes(before: seq<bool>, sector: nat, cnt: nat)
    requires RunAt(before, sector, cnt, false)
    ensures SetRun(SetRun(before, sector, cnt, true), sector, cnt, false) == before
  {
  }

  /** A run of one sector. */
  lemma OneSector(taken: seq<bool>, s: nat)
    ensures RunAt(taken, s, 1, false) <==> s < |taken| && !taken[s]
    ensures RunAt(taken, s, 1, true) <==> s < |taken| && taken[s]
    ensures s < |taken| ==> forall v :: SetRun(taken, s, 1, v) == taken[s := v]
  {
  }
}
