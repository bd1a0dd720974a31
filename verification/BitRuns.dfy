/** Runs of equal bits: what the bitmap searches of lib/kernel/bitmap.c find, on
    plain sequences of bits. */
module BitRuns {

  import opened Options

  /** CNT bits from I on are all VALUE. */
  ghost predicate RunAt(bits: seq<bool>, i: nat, cnt: nat, value: bool) {
    i + cnt <= |bits| && forall k :: i <= k < i + cnt ==> bits[k] == value
  }

  /** The first place at or after START where CNT bits are all VALUE. */
  ghost function Scan(bits: seq<bool>, start: nat, cnt: nat, value: bool): (r: Option<nat>)
    ensures r.Some? ==> start <= r.value && RunAt(bits, r.value, cnt, value)
    ensures r.Some? ==> forall j :: start <= j < r.value ==> !RunAt(bits, j, cnt, value)
    ensures r.None? ==> forall j :: start <= j ==> !RunAt(bits, j, cnt, value)
    decreases |bits| - start
  {
    if start + cnt > |bits| then None
    else if RunAt(bits, start, cnt, value) then Some(start)
    else Scan(bits, start + 1, cnt, value)
  }

  /** BITS with the CNT bits from START on set to VALUE. */
  function SetRun(bits: seq<bool>, start: nat, cnt: nat, value: bool): (b: seq<bool>)
    requires start + cnt <= |bits|
    ensures |b| == |bits|
    ensures forall k :: 0 <= k < |b| ==> b[k] == if start <= k < start + cnt then value else bits[k]
  {
    bits[..start] + seq(cnt, _ => value) + bits[start + cnt..]
  }
}
