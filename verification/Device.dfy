/** Bytes, sectors and the block device (devices/block.h).  block_read and
    block_write are primitives: they copy one whole sector.

    A sector is a sequence of exactly 512 bytes, a disk is a sequence of sectors, and
    laying bytes over a part of a sequence is what memcpy does to a buffer and what a
    write does to a file.  Everything above the device is stated with these. */
module Device {

  newtype byte = x: int | 0 <= x < 256

  const SECTOR_SIZE := 512

  type Sector = s: seq<byte> | |s| == SECTOR_SIZE witness seq(SECTOR_SIZE, _ => 0)

  /** OLD with DATA laid over it from OFFSET on. */
  function Overlay<E>(old_: seq<E>, offset: nat, data: seq<E>): (s: seq<E>)
    requires offset + |data| <= |old_|
    ensures |s| == |old_|
  {
    old_[..offset] + data + old_[offset + |data|..]
  }

  lemma OverlayAll<E>(old_: seq<E>, data: seq<E>)
    requires |data| == |old_|
    ensures Overlay(old_, 0, data) == data
  {
  }

  /** memcpy between two buffers that do not overlap. */
  method Memcpy(dst: array<byte>, to: nat, src: array<byte>, from_: nat, size: nat)
    requires dst != src && to + size <= dst.Length && from_ + size <= src.Length
    modifies dst
    ensures dst[..] == Overlay(old(dst[..]), to, src[from_..from_ + size])
  {
    forall k | 0 <= k < size { dst[to + k] := src[from_ + k]; }
  }

  /** block_read: a sector of the device into a buffer. */
  method BlockRead(dst: array<byte>, sector: Sector)
    requires dst.Length == SECTOR_SIZE
    modifies dst
    ensures dst[..] == sector
  {
    forall k | 0 <= k < SECTOR_SIZE { dst[k] := sector[k]; }
  }

  /** memcpy from a sector held in memory. */
  method CopyIn(dst: array<byte>, to: nat, data: seq<byte>)
    requires to + |data| <= dst.Length
    modifies dst
    ensures dst[..] == Overlay(old(dst[..]), to, data)
  {
    forall k | 0 <= k < |data| { dst[to + k] := data[k]; }
  }

  lemma OverlayParts<E>(old_: seq<E>, to: nat, data: seq<E>)
    requires to + |data| <= |old_|
    ensures var s := Overlay(old_, to, data);
            && s[..to] == old_[..to] && s[to..to + |data|] == data && s[to + |data|..] == old_[to + |data|..]
            && s[..to + |data|] == old_[..to] + data
  {
  }
}
