/** Loading the segments of an executable (userprog/process.c): from a program
    header that is valid to the bytes of the process's memory.

    A process's memory is a map from page numbers to pages.  Loading fills one page
    after the other, from the file and then with zeros; the checks on a program header
    are compared with the plain statement that the segment lies in user memory. */
module Segments {
  import opened Device
  import opened Pages

  const LIMIT := 0x1_0000_0000     // words have 32 bits

  /** The part of a program header that matters. */
  datatype Phdr = Phdr(offset: nat, vaddr: nat, filesz: nat, memsz: nat, writable: bool)

  predicate Words(p: Phdr) { p.offset < LIMIT && p.vaddr < LIMIT && p.filesz < LIMIT && p.memsz < LIMIT }

  /** validate_segment, its sums in 32-bit arithmetic. */
  predicate ValidateSegment(p: Phdr, fileLength: nat) {
    && p.offset % PGSIZE == p.vaddr % PGSIZE
    && p.offset <= fileLength
    && p.memsz >= p.filesz
    && p.memsz != 0
    && p.vaddr < PHYS_BASE
    && (p.vaddr + p.memsz) % LIMIT < PHYS_BASE
    && (p.vaddr + p.memsz) % LIMIT >= p.vaddr
    && p.vaddr >= PGSIZE
  }

  /** A valid segment lies in user memory, off page 0, without wrapping around. */
  lemma ValidInUserSpace(p: Phdr, fileLength: nat)
    requires Words(p)
    ensures ValidateSegment(p, fileLength) <==>
              && p.offset % PGSIZE == p.vaddr % PGSIZE && p.offset <= fileLength
              && p.filesz <= p.memsz && 0 < p.memsz
              && PGSIZE <= p.vaddr && p.vaddr + p.memsz < PHYS_BASE
  {
    if p.vaddr + p.memsz >= LIMIT {
      assert (p.vaddr + p.memsz) % LIMIT == p.vaddr + p.memsz - LIMIT;
    } else {
      assert (p.vaddr + p.memsz) % LIMIT == p.vaddr + p.memsz;
    }
  }

  type Page = s: seq<byte> | |s| == PGSIZE witness seq(PGSIZE, _ => 0)

  /** User memory: the pages that are installed, by page number, and whether the
      process may write to them. */
  type Memory = map<nat, Frame>

  datatype Frame = Frame(bytes: Page, writable: bool)

  ghost predicate ByteAt(mem: Memory, a: nat, value: byte) {
    a / PGSIZE in mem && mem[a / PGSIZE].bytes[a % PGSIZE] == value
  }

  /** What byte K of a segment has to be. */
  function SegmentByte(file: seq<byte>, ofs: nat, readBytes: nat, k: nat): byte {
    if k < readBytes && ofs + k < |file| then file[ofs + k] else 0
  }

  ghost predicate Loaded(mem: Memory, file: seq<byte>, ofs: nat, upage: nat, readBytes: nat, n: nat) {
    forall k :: 0 <= k < n ==> ByteAt(mem, upage + k, SegmentByte(file, ofs, readBytes, k))
  }

  /** One page: bytes of the file, then zeros. */
  function PageOf(file: seq<byte>, ofs: nat, n: nat): Page
    requires n <= PGSIZE && ofs + n <= |file|
  {
    file[ofs..ofs + n] + seq(PGSIZE - n, _ => 0)
  }

  /** The page that is filled from FILE when N bytes of it are left. */
  function Filled(file: seq<byte>, pos: nat, n: nat): Page
    requires n <= PGSIZE && (n == 0 || pos + n <= |file|)
  {
    if n == 0 then seq(PGSIZE, _ => 0) else PageOf(file, pos, n)
  }

  lemma NoBytes(file: seq<byte>, p: nat, q: nat)
    ensures Filled(file, p, 0) == Filled(file, q, 0)
  {
  }

  lemma FilledByte(file: seq<byte>, ofs: nat, readBytes: nat, done: nat, n: nat, j: nat)
    requires n == (if readBytes <= done then 0 else if readBytes - done < PGSIZE then readBytes - done else PGSIZE)
    requires (n == 0 || ofs + done + n <= |file|) && j < PGSIZE
    ensures Filled(file, ofs + done, n)[j] == SegmentByte(file, ofs, readBytes, done + j)
  {
  }

  lemma PageLoaded(mem: Memory, file: seq<byte>, ofs: nat, upage: nat, readBytes: nat, done: nat, n: nat, page: Frame)
    requires Loaded(mem, file, ofs, upage, readBytes, done) && upage % PGSIZE == 0 && done % PGSIZE == 0
    requires (upage + done) / PGSIZE !in mem
    requires n == (if readBytes <= done then 0 else if readBytes - done < PGSIZE then readBytes - done else PGSIZE)
    requires (n == 0 || ofs + done + n <= |file|) && page.bytes == Filled(file, ofs + done, n)
    ensures Loaded(mem[(upage + done) / PGSIZE := page], file, ofs, upage, readBytes, done + PGSIZE)
  {
    hide ByteAt, SegmentByte, Filled;
    var mem' := mem[(upage + done) / PGSIZE := page];
    forall k | 0 <= k < done + PGSIZE ensures ByteAt(mem', upage + k, SegmentByte(file, ofs, readBytes, k)) {
      if k < done {
        assert ByteAt(mem, upage + k, SegmentByte(file, ofs, readBytes, k));
        OtherPage(mem, (upage + done) / PGSIZE, page, upage + k, SegmentByte(file, ofs, readBytes, k));
      } else {
        FilledByte(file, ofs, readBytes, done, n, k - done);
        OwnPage(mem, upage + done, page, k - done);
      }
    }
  }

  lemma OtherPage(mem: Memory, p: nat, page: Frame, a: nat, value: byte)
    requires ByteAt(mem, a, value) && p !in mem
    ensures ByteAt(mem[p := page], a, value)
  {
  }

  lemma OwnPage(mem: Memory, base: nat, page: Frame, j: nat)
    requires base % PGSIZE == 0 && j < PGSIZE
    ensures ByteAt(mem[base / PGSIZE := page], base + j, page.bytes[j])
  {
  }

  ghost predicate Unused(mem: Memory, lo: nat, hi: nat) { forall q :: lo <= q < hi ==> q !in mem }

  /** The pages are not taken, the file is long enough, and there is memory. */
  ghost predicate CanLoad(mem: Memory, file: seq<byte>, ofs: nat, upage: nat, readBytes: nat, n: nat, budget: nat) {
    && Unused(mem, upage / PGSIZE, (upage + n) / PGSIZE)
    && (readBytes == 0 || ofs + readBytes <= |file|)
    && PGSIZE * budget >= n
  }

  /** file_read at POS. */
  function FileRead(length: nat, pos: nat, n: nat): nat {
    if pos >= length then 0 else if n < length - pos then n else length - pos
  }

  /** The pages from LO up to HI are installed, for writing or not. */
  ghost predicate Installed(mem: Memory, lo: nat, hi: nat, writable: bool) {
    forall q :: lo <= q < hi ==> q in mem && mem[q].writable == writable
  }

  /** NOW is BEFORE and nothing but pages from LO up to HI. */
  ghost predicate Grown(before: Memory, now: Memory, lo: nat, hi: nat) {
    && (forall q :: q in before ==> q in now && now[q] == before[q])
    && (forall q :: q in now ==> q in before || lo <= q < hi)
  }

  /** load_segment: the pages from UPAGE on get READBYTES bytes of the file from OFS
      on, and zeros.  BUDGET is the number of pages that can be had. */
  method LoadSegment(file: seq<byte>, ofs: nat, upage: nat, readBytes: nat, zeroBytes: nat, writable: bool,
                     mem: Memory, budget: nat)
    returns (ok: bool, mem': Memory)
    requires (readBytes + zeroBytes) % PGSIZE == 0 && upage % PGSIZE == 0 && ofs % PGSIZE == 0
    ensures ok ==> Loaded(mem', file, ofs, upage, readBytes, readBytes + zeroBytes)
    ensures ok ==> Installed(mem', upage / PGSIZE, (upage + readBytes + zeroBytes) / PGSIZE, writable)
    ensures Grown(mem, mem', upage / PGSIZE, (upage + readBytes + zeroBytes) / PGSIZE)
    ensures ok <==> CanLoad(mem, file, ofs, upage, readBytes, readBytes + zeroBytes, budget)
  {
    hide Loaded, Installed, Grown, Filled, Unused;
    mem' := mem;
    var pos: nat, readLeft: nat, zeroLeft: nat, at: nat, pagesLeft: nat := ofs, readBytes, zeroBytes, upage, budget;
    ghost var done: nat := 0;
    NoneLoaded(mem, file, ofs, upage, readBytes, writable);
    while readLeft > 0 || zeroLeft > 0
      invariant 0 <= readLeft && 0 <= zeroLeft && done + readLeft + zeroLeft == readBytes + zeroBytes
      invariant done % PGSIZE == 0 && at == upage + done && (readLeft + zeroLeft) % PGSIZE == 0
      invariant readLeft == if readBytes <= done then 0 else readBytes - done
      invariant readLeft > 0 ==> pos == ofs + done
      invariant readLeft == 0 ==> readBytes == 0 || ofs + readBytes <= |file|
      invariant 0 < readLeft < readBytes ==> ofs + done <= |file|
      invariant Loaded(mem', file, ofs, upage, readBytes, done)
      invariant Grown(mem, mem', upage / PGSIZE, (upage + done) / PGSIZE)
      invariant Installed(mem', upage / PGSIZE, (upage + done) / PGSIZE, writable)
      invariant Unused(mem, upage / PGSIZE, (upage + done) / PGSIZE)
      invariant pagesLeft * PGSIZE + done == budget * PGSIZE && 0 <= pagesLeft
      decreases readLeft + zeroLeft
    {
      var pageRead := if readLeft < PGSIZE then readLeft else PGSIZE;
      NextPage(upage, done, readBytes + zeroBytes);
      GrownInto(mem, mem', upage / PGSIZE, at / PGSIZE, (upage + readBytes + zeroBytes) / PGSIZE);
      if pagesLeft == 0 { return false, mem'; }
      if FileRead(|file|, pos, pageRead) != pageRead { return false, mem'; }
      var page := Filled(file, pos, pageRead);
      NotFilledYet(mem, mem', upage / PGSIZE, at / PGSIZE, (upage + readBytes + zeroBytes) / PGSIZE);
      if at / PGSIZE in mem' { return false, mem'; }
      if pageRead == 0 { NoBytes(file, pos, ofs + done); }
      PageLoaded(mem', file, ofs, upage, readBytes, done, pageRead, Frame(page, writable));
      OneMorePage(mem, mem', upage / PGSIZE, at / PGSIZE, Frame(page, writable));
      mem' := mem'[at / PGSIZE := Frame(page, writable)];
      pos := pos + pageRead;
      readLeft := readLeft - pageRead;
      zeroLeft := zeroLeft - (PGSIZE - pageRead);
      at := at + PGSIZE;
      pagesLeft := pagesLeft - 1;
      done := done + PGSIZE;
    }
    ok := true;
  }

  lemma NoneLoaded(mem: Memory, file: seq<byte>, ofs: nat, upage: nat, readBytes: nat, writable: bool)
    ensures Loaded(mem, file, ofs, upage, readBytes, 0)
    ensures forall q :: Grown(mem, mem, q, q) && Installed(mem, q, q, writable) && Unused(mem, q, q)
  {
  }

  lemma OneMorePage(before: Memory, mem: Memory, lo: nat, at: nat, page: Frame)
    requires Grown(before, mem, lo, at) && Installed(mem, lo, at, page.writable) && Unused(before, lo, at)
    requires at !in mem && lo <= at
    ensures Grown(before, mem[at := page], lo, at + 1) && Installed(mem[at := page], lo, at + 1, page.writable)
    ensures Unused(before, lo, at + 1)
  {
  }

  lemma NotFilledYet(before: Memory, mem: Memory, lo: nat, at: nat, hi: nat)
    requires Grown(before, mem, lo, at) && lo <= at < hi
    ensures at in mem ==> !Unused(before, lo, hi)
  {
  }

  /** What was there before pages up to HI could be filled is there anyway. */
  lemma GrownInto(before: Memory, now: Memory, lo: nat, mid: nat, hi: nat)
    requires Grown(before, now, lo, mid) && mid <= hi
    ensures Grown(before, now, lo, hi)
  {
  }

  function RoundUp(n: nat): nat { (n + PGSIZE - 1) / PGSIZE * PGSIZE }

  /** Byte K of the segment is in memory. */
  ghost predicate SegmentHas(mem: Memory, p: Phdr, file: seq<byte>, k: nat) {
    ByteAt(mem, p.vaddr + k, if k < p.filesz && p.offset + k < |file| then file[p.offset + k] else 0)
  }

  /** Pages are counted one by one. */
  lemma NextPage(upage: nat, done: nat, n: nat)
    requires upage % PGSIZE == 0 && done % PGSIZE == 0 && n % PGSIZE == 0 && done < n
    ensures (upage + done + PGSIZE) / PGSIZE == (upage + done) / PGSIZE + 1 <= (upage + n) / PGSIZE
  {
  }

  /** The first page behind a segment. */
  function EndPage(p: Phdr): nat { (p.vaddr + p.memsz + PGSIZE - 1) / PGSIZE }

  /** A segment can be loaded: its header is valid, its pages are not taken, the file
      has its bytes, and there are as many pages as it needs. */
  ghost predicate Loadable(p: Phdr, file: seq<byte>, mem: Memory, budget: nat) {
    && ValidateSegment(p, |file|)
    && Unused(mem, p.vaddr / PGSIZE, EndPage(p))
    && (p.filesz == 0 || p.offset + p.filesz <= |file|)
    && budget >= EndPage(p) - p.vaddr / PGSIZE
  }

  lemma PagesOfSegment(p: Phdr)
    ensures var base, n := p.vaddr - p.vaddr % PGSIZE, RoundUp(p.vaddr % PGSIZE + p.memsz);
            && base / PGSIZE == p.vaddr / PGSIZE && (base + n) / PGSIZE == EndPage(p)
            && n == PGSIZE * (EndPage(p) - p.vaddr / PGSIZE)
  {
  }

  lemma NothingGrown(mem: Memory, lo: nat, hi: nat)
    ensures Grown(mem, mem, lo, hi)
  {
  }

  /** Pages begin in front of the segment, in the file as in memory. */
  lemma BytesOfSegment(mem: Memory, p: Phdr, file: seq<byte>, readBytes: nat, n: nat)
    requires p.offset % PGSIZE == p.vaddr % PGSIZE && p.filesz <= p.memsz && p.vaddr % PGSIZE + p.memsz <= n
    requires readBytes == if p.filesz > 0 then p.vaddr % PGSIZE + p.filesz else 0
    requires Loaded(mem, file, p.offset - p.offset % PGSIZE, p.vaddr - p.vaddr % PGSIZE, readBytes, n)
    ensures forall k :: 0 <= k < p.memsz ==> SegmentHas(mem, p, file, k)
  {
    hide ByteAt;
    var skip := p.vaddr % PGSIZE;
    forall k | 0 <= k < p.memsz ensures SegmentHas(mem, p, file, k) {
      assert ByteAt(mem, p.vaddr - skip + (skip + k), SegmentByte(file, p.offset - skip, readBytes, skip + k));
    }
  }

  /** The part of load() that handles a segment: its bytes are those of the file,
      and zero beyond the size it has there. */
  method LoadPhdr(p: Phdr, file: seq<byte>, mem: Memory, budget: nat) returns (ok: bool, mem': Memory)
    requires Words(p)
    ensures ok <==> Loadable(p, file, mem, budget)
    ensures ok ==> forall k :: 0 <= k < p.memsz ==> SegmentHas(mem', p, file, k)
    ensures ok ==> Installed(mem', p.vaddr / PGSIZE, EndPage(p), p.writable)
    ensures Grown(mem, mem', p.vaddr / PGSIZE, EndPage(p))
  {
    hide Loaded, ByteAt, SegmentHas, Installed, Grown, Unused, SegmentByte;
    NothingGrown(mem, p.vaddr / PGSIZE, EndPage(p));
    if !ValidateSegment(p, |file|) { return false, mem; }
    ValidInUserSpace(p, |file|);
    var filePage := p.offset - p.offset % PGSIZE;
    var memPage := p.vaddr - p.vaddr % PGSIZE;
    var pageOffset := p.vaddr % PGSIZE;
    var readBytes, zeroBytes: int;
    if p.filesz > 0 {
      readBytes := pageOffset + p.filesz;
      zeroBytes := RoundUp(pageOffset + p.memsz) - readBytes;
    } else {
      readBytes := 0;
      zeroBytes := RoundUp(pageOffset + p.memsz);
    }
    PagesOfSegment(p);
    ok, mem' := LoadSegment(file, filePage, memPage, readBytes, zeroBytes, p.writable, mem, budget);
    if ok { BytesOfSegment(mem', p, file, readBytes, readBytes + zeroBytes); }
  }
}
