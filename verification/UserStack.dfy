/** The stack of a new process (userprog/process.c): the command line is copied to
    the top of a page, cut into tokens, and pointers to them are pushed.

    The page is an array of bytes and the stack pointer is an offset into it.  What
    the new program finds is stated by reading the page back from the final stack
    pointer: the return address, argc, argv, and the strings that argv's pointers
    lead to. */
module UserStack {
  import opened CStrings
  import opened Device
  import opened Pages
  import opened SectorWords
  import opened Tokens

  const USERPAGE := PHYS_BASE - PGSIZE
  const MAX_ARGS := 128

  // ----- Reading the stack -----

  function WordAt(b: seq<byte>, off: nat): (w: nat)
    requires off + 4 <= |b|
    ensures w < WORD_LIMIT
  {
    FromBytes(b[off], b[off + 1], b[off + 2], b[off + 3])
  }

  /** What a program that starts with ESP finds: a return address of 0, argc, argv,
      and the arguments; a pointer of 0 ends them. */
  ghost predicate Decodes(page: seq<byte>, esp: int, args: seq<seq<byte>>) {
    && |page| == PGSIZE && USERPAGE <= esp && esp + 12 <= PHYS_BASE
    && WordAt(page, esp - USERPAGE) == 0
    && WordAt(page, esp - USERPAGE + 4) == |args|
    && var argv := WordAt(page, esp - USERPAGE + 8);
       && USERPAGE <= argv && argv + 4 * (|args| + 1) <= PHYS_BASE
       && (forall i :: 0 <= i < |args| ==> ArgumentIs(page, WordAt(page, argv - USERPAGE + 4 * i), args[i]))
       && WordAt(page, argv - USERPAGE + 4 * |args|) == 0
  }

  ghost predicate ArgumentIs(page: seq<byte>, p: nat, arg: seq<byte>)
    requires |page| == PGSIZE
  {
    USERPAGE <= p < PHYS_BASE && CString(page[p - USERPAGE..]) == arg
  }

  lemma StringReads(b: seq<byte>, s: nat, str: seq<byte>)
    requires StringAt(b, s, str)
    ensures CString(b[s..]) == str
  {
    var rest := b[s + |str| + 1..];
    assert b[s..] == str + [0] + rest;
    CStringOf(str, rest);
  }

  // ----- Writing -----

  method StoreWord(page: array<byte>, off: nat, w: nat)
    requires off + 4 <= page.Length && w < WORD_LIMIT
    modifies page
    ensures page[..] == Overlay(old(page[..]), off, ToBytes(w))
  {
    var bytes := ToBytes(w);
    CopyIn(page, off, bytes);
  }

  lemma WordStored(b: seq<byte>, off: nat, w: nat, at: nat)
    requires off + 4 <= |b| && at + 4 <= |b| && w < WORD_LIMIT && (at == off || at + 4 <= off || off + 4 <= at)
    ensures WordAt(Overlay(b, off, ToBytes(w)), at) == if at == off then w else WordAt(b, at)
  {
    hide FromBytes, ToBytes;
    var c := Overlay(b, off, ToBytes(w));
    assert forall k :: 0 <= k < 4 ==> c[off + k] == ToBytes(w)[k];
  }

  lemma StringKept(b: seq<byte>, off: nat, data: seq<byte>, s: nat, str: seq<byte>)
    requires off + |data| <= |b| && off + |data| <= s && StringAt(b, s, str)
    ensures StringAt(Overlay(b, off, data), s, str)
  {
    hide Overlay;
    OverlayParts(b, off, data);
    var c := Overlay(b, off, data);
    assert forall k :: off + |data| <= k < |b| ==> c[k] == c[off + |data|..][k - off - |data|] == b[k];
  }

  // ----- Tokens in the page -----

  /** The tokens found so far lie at LOCS, between LO and HI, each with its null. */
  ghost predicate Found(b: seq<byte>, locs: seq<nat>, tokens: seq<seq<byte>>, lo: nat, hi: nat) {
    && |locs| == |tokens|
    && forall i :: 0 <= i < |locs| ==> Placed(b, locs[i], tokens[i], lo, hi)
  }

  ghost predicate Placed(b: seq<byte>, loc: nat, token: seq<byte>, lo: nat, hi: nat) {
    lo <= loc && loc + |token| <= hi && StringAt(b, loc, token)
  }

  /** The null behind the next token leaves those before it alone. */
  lemma FoundNext(b: seq<byte>, locs: seq<nat>, tokens: seq<seq<byte>>, lo: nat, s: nat, str: seq<byte>, save: nat)
    requires Found(b, locs, tokens, lo, s) && StringAt(b, s, str) && SkipLen(str) < |str| && lo <= s
    requires s + SkipLen(str) + |FirstToken(str)| <= save
    ensures var e := s + SkipLen(str) + |FirstToken(str)|;
            e < |b| && Found(b[e := 0], locs + [s + SkipLen(str)], tokens + [FirstToken(str)], lo, save)
  {
    var t := FirstToken(str);
    var loc := s + SkipLen(str);
    var e := loc + |t|;
    assert forall k :: 0 <= k < |t| ==> t[k] == str[SkipLen(str) + k];
    assert Placed(b[e := 0], loc, t, lo, save);
    forall i | 0 <= i < |locs| ensures Placed(b[e := 0], locs[i], tokens[i], lo, save) {
      assert Placed(b, locs[i], tokens[i], lo, s);
    }
  }

  /** The loop over strtok_r. */
  method FindTokens(page: array<byte>, cpy: nat, ghost cmd: seq<byte>) returns (locs: seq<nat>)
    requires page.Length == PGSIZE && StringAt(page[..], cpy, cmd)
    modifies page
    ensures Found(page[..], locs, Tokenize(cmd), cpy, PGSIZE)
  {
    hide StringAt, SkipLen, FirstToken, Rest, Found;
    locs := [];
    ghost var done: seq<seq<byte>> := [];
    ghost var str := cmd;
    NoneFound(page[..], cpy);
    var save := cpy;
    var more := true;
    while more
      invariant StringAt(page[..], save, str) && cpy <= save
      invariant Found(page[..], locs, done, cpy, save)
      invariant done + Tokenize(str) == Tokenize(cmd)
      invariant !more ==> Tokenize(str) == []
      decreases if more then |str| + 1 else 0
    {
      ghost var b := page[..];
      var token, next := StrtokR(page, save, str);
      if token.Some? {
        FoundNext(b, locs, done, cpy, save, str, next);
        locs := locs + [token.value];
        done := done + [FirstToken(str)];
        str := Rest(str);
        save := next;
      } else {
        more := false;
      }
    }
    assert done + [] == done;
    FoundIn(page[..], locs, done, cpy, save, str);
  }

  lemma NoneFound(b: seq<byte>, lo: nat)
    ensures Found(b, [], [], lo, lo)
  {
  }

  lemma FoundIn(b: seq<byte>, locs: seq<nat>, tokens: seq<seq<byte>>, lo: nat, hi: nat, str: seq<byte>)
    requires Found(b, locs, tokens, lo, hi) && StringAt(b, hi, str)
    ensures Found(b, locs, tokens, lo, |b|)
  {
    forall i | 0 <= i < |locs| ensures Placed(b, locs[i], tokens[i], lo, |b|) { assert Placed(b, locs[i], tokens[i], lo, hi); }
  }

  // ----- Pushing the pointers -----

  /** I words have been pushed below CPY: a null, and the last I - 1 pointers, the
      first of them on top. */
  ghost predicate Pushed(b: seq<byte>, cpy: nat, locs: seq<nat>, i: nat) {
    && i <= |locs| + 1 && 4 * i <= cpy <= |b|
    && (forall k :: 0 <= k < i ==> SlotIs(b, cpy, locs, k))
  }

  function Pointer(locs: seq<nat>, k: nat): int {
    if 0 < k <= |locs| then USERPAGE + locs[|locs| - k] else 0
  }

  /** The K'th word below CPY. */
  ghost predicate SlotIs(b: seq<byte>, cpy: nat, locs: seq<nat>, k: nat) {
    4 * (k + 1) <= cpy <= |b| && WordAt(b, cpy - 4 * (k + 1)) == Pointer(locs, k)
  }

  lemma PushNext(b: seq<byte>, cpy: nat, locs: seq<nat>, i: nat, w: nat)
    requires Pushed(b, cpy, locs, i) && i <= |locs| && 4 * (i + 1) <= cpy && w < WORD_LIMIT
    requires w == Pointer(locs, i)
    ensures Pushed(Overlay(b, cpy - 4 * (i + 1), ToBytes(w)), cpy, locs, i + 1)
  {
    hide WordAt, ToBytes, Overlay;
    var off := cpy - 4 * (i + 1);
    forall k | 0 <= k < i + 1
      ensures SlotIs(Overlay(b, off, ToBytes(w)), cpy, locs, k)
    {
      assert k < i ==> SlotIs(b, cpy, locs, k);
      WordStored(b, off, w, cpy - 4 * (k + 1));
    }
  }

  /** Words below the strings leave them alone. */
  lemma FoundKept(b: seq<byte>, locs: seq<nat>, tokens: seq<seq<byte>>, lo: nat, off: nat, w: nat)
    requires Found(b, locs, tokens, lo, |b|) && off + 4 <= lo <= |b| && w < WORD_LIMIT
    ensures Found(Overlay(b, off, ToBytes(w)), locs, tokens, lo, |b|)
  {
    hide ToBytes, Overlay, StringAt;
    forall i | 0 <= i < |locs| ensures Placed(Overlay(b, off, ToBytes(w)), locs[i], tokens[i], lo, |b|) {
      assert Placed(b, locs[i], tokens[i], lo, |b|);
      StringKept(b, off, ToBytes(w), locs[i], tokens[i]);
    }
  }

  method PushPointers(page: array<byte>, cpy: nat, locs: seq<nat>, ghost tokens: seq<seq<byte>>) returns (esp: nat)
    requires page.Length == PGSIZE && 4 * (|locs| + 1) <= cpy <= PGSIZE && |locs| <= MAX_ARGS
    requires Found(page[..], locs, tokens, cpy, PGSIZE)
    modifies page
    ensures esp == cpy - 4 * (|locs| + 1)
    ensures Found(page[..], locs, tokens, cpy, PGSIZE) && Pushed(page[..], cpy, locs, |locs| + 1)
  {
    hide Found, Overlay, ToBytes, Pushed;
    NonePushed(page[..], cpy, locs);
    esp := cpy;
    var argc := |locs|;
    var i := 0;
    while i <= argc
      invariant 0 <= i <= argc + 1 && esp == cpy - 4 * i
      invariant Found(page[..], locs, tokens, cpy, PGSIZE) && Pushed(page[..], cpy, locs, i)
    {
      esp := esp - 4;
      var w := if i == 0 then 0 else USERPAGE + locs[argc - i];
      if i > 0 { InPage(page[..], locs, tokens, cpy, argc - i); }
      PushNext(page[..], cpy, locs, i, w);
      FoundKept(page[..], locs, tokens, cpy, esp, w);
      StoreWord(page, esp, w);
      i := i + 1;
    }
  }

  lemma NonePushed(b: seq<byte>, cpy: nat, locs: seq<nat>)
    requires cpy <= |b|
    ensures Pushed(b, cpy, locs, 0)
  {
  }

  lemma InPage(b: seq<byte>, locs: seq<nat>, tokens: seq<seq<byte>>, lo: nat, i: nat)
    requires Found(b, locs, tokens, lo, PGSIZE) && i < |locs| && |b| == PGSIZE
    ensures lo <= locs[i] < PGSIZE && USERPAGE + locs[i] < WORD_LIMIT
    ensures i < |tokens| && StringAt(b, locs[i], tokens[i])
  {
    assert Placed(b, locs[i], tokens[i], lo, PGSIZE);
  }

  /** The last three words: argv, argc and the return address. */
  lemma PushedKept(b: seq<byte>, cpy: nat, locs: seq<nat>, off: nat, w: nat)
    requires Pushed(b, cpy, locs, |locs| + 1) && off + 4 <= cpy - 4 * (|locs| + 1) && w < WORD_LIMIT
    ensures Pushed(Overlay(b, off, ToBytes(w)), cpy, locs, |locs| + 1)
  {
    hide WordAt, ToBytes, Overlay;
    forall k | 0 <= k < |locs| + 1
      ensures SlotIs(Overlay(b, off, ToBytes(w)), cpy, locs, k)
    {
      assert SlotIs(b, cpy, locs, k);
      WordStored(b, off, w, cpy - 4 * (k + 1));
    }
  }

  lemma FrameDecodes(b: seq<byte>, cpy: nat, locs: seq<nat>, tokens: seq<seq<byte>>, esp: nat)
    requires |b| == PGSIZE && Found(b, locs, tokens, cpy, PGSIZE) && Pushed(b, cpy, locs, |locs| + 1)
    requires cpy <= PGSIZE && esp + 12 == cpy - 4 * (|locs| + 1)
    requires WordAt(b, esp) == 0 && WordAt(b, esp + 4) == |locs| && WordAt(b, esp + 8) == USERPAGE + esp + 12
    ensures Decodes(b, USERPAGE + esp, tokens)
  {
    hide WordAt, CString, StringAt;
    var n := |locs|;
    assert SlotIs(b, cpy, locs, 0);
    forall i | 0 <= i < n ensures ArgumentIs(b, WordAt(b, esp + 12 + 4 * i), tokens[i]) {
      assert SlotIs(b, cpy, locs, n - i);
      InPage(b, locs, tokens, cpy, i);
      StringReads(b, locs[i], tokens[i]);
    }
  }

  /** The last words of the frame. */
  method PushFrame(page: array<byte>, cpy: nat, locs: seq<nat>, ghost tokens: seq<seq<byte>>, argv: nat) returns (esp: nat)
    requires page.Length == PGSIZE && 12 <= argv == cpy - 4 * (|locs| + 1) && cpy <= PGSIZE && |locs| <= MAX_ARGS
    requires Found(page[..], locs, tokens, cpy, PGSIZE) && Pushed(page[..], cpy, locs, |locs| + 1)
    modifies page
    ensures esp + 12 == argv && Decodes(page[..], USERPAGE + esp, tokens)
  {
    hide Found, Overlay, ToBytes, Pushed, WordAt, Decodes;
    ghost var b0 := page[..];
    FoundKept(b0, locs, tokens, cpy, argv - 4, USERPAGE + argv);
    PushedKept(b0, cpy, locs, argv - 4, USERPAGE + argv);
    WordStored(b0, argv - 4, USERPAGE + argv, argv - 4);
    StoreWord(page, argv - 4, USERPAGE + argv);
    ghost var b1 := page[..];
    FoundKept(b1, locs, tokens, cpy, argv - 8, |locs|);
    PushedKept(b1, cpy, locs, argv - 8, |locs|);
    WordStored(b1, argv - 8, |locs|, argv - 4);
    WordStored(b1, argv - 8, |locs|, argv - 8);
    StoreWord(page, argv - 8, |locs|);
    ghost var b2 := page[..];
    FoundKept(b2, locs, tokens, cpy, argv - 12, 0);
    PushedKept(b2, cpy, locs, argv - 12, 0);
    WordStored(b2, argv - 12, 0, argv - 4);
    WordStored(b2, argv - 12, 0, argv - 8);
    WordStored(b2, argv - 12, 0, argv - 12);
    StoreWord(page, argv - 12, 0);
    esp := argv - 12;
    FrameDecodes(page[..], cpy, locs, tokens, esp);
  }

  /** What the command line takes up: itself, the pointers, and three words. */
  function FrameSize(cmd: seq<byte>): nat { |cmd| + 1 + 4 * (|Tokenize(cmd)| + 1) + 12 }

  /** setup_stack, once its page is installed.  A command line longer than the page
      is refused; the code relies on the rest to fit as well. */
  method SetupStack(page: array<byte>, fileName: seq<byte>) returns (ok: bool, esp: int)
    requires page.Length == PGSIZE && 0 !in fileName
    requires |fileName| + 1 <= PGSIZE ==> |Tokenize(fileName)| <= MAX_ARGS && FrameSize(fileName) <= PGSIZE
    modifies page
    ensures ok <==> |fileName| + 1 <= PGSIZE
    ensures ok ==> Decodes(page[..], esp, Tokenize(fileName)) && esp == PHYS_BASE - FrameSize(fileName)
  {
    hide Found, Pushed, Decodes, Tokenize, Overlay;
    var cmdLen := |fileName| + 1;
    if cmdLen > PGSIZE { return false, PHYS_BASE; }
    var cpy := PGSIZE - cmdLen;
    Copied(page[..], cpy, fileName);
    CopyIn(page, cpy, fileName + [0]);
    var locs := FindTokens(page, cpy, fileName);
    SameCount(page[..], locs, Tokenize(fileName), cpy);
    var argv := PushPointers(page, cpy, locs, Tokenize(fileName));
    var top := PushFrame(page, cpy, locs, Tokenize(fileName), argv);
    ok, esp := true, USERPAGE + top;
  }

  lemma SameCount(b: seq<byte>, locs: seq<nat>, tokens: seq<seq<byte>>, lo: nat)
    requires Found(b, locs, tokens, lo, PGSIZE)
    ensures |locs| == |tokens|
  {
  }

  lemma Copied(b: seq<byte>, cpy: nat, cmd: seq<byte>)
    requires cpy + |cmd| + 1 == |b| && 0 !in cmd
    ensures StringAt(Overlay(b, cpy, cmd + [0]), cpy, cmd)
  {
  }
}
