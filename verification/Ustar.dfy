/** Archive headers in the ustar format (lib/ustar.c): composing, parsing, and
    what comes back.  A C string is the sequence of its bytes before the null. */
module Ustar {
  import opened Options
  import opened CStrings
  import opened Device
  import opened Printf

  const HEADER_SIZE := 512
  const INT_MAX := 0x7fff_ffff
  const ULONG_MAX := 0xffff_ffff
  const SLASH: byte := 47
  const DOT: byte := 46

  const REGULAR: byte := 48        // '0'
  const DIRECTORY: byte := 53      // '5'

  datatype Header = Header(name: seq<byte>, mode: seq<byte>, uid: seq<byte>, gid: seq<byte>, size: seq<byte>,
                           mtime: seq<byte>, chksum: seq<byte>, typeflag: seq<byte>, linkname: seq<byte>,
                           magic: seq<byte>, version: seq<byte>, uname: seq<byte>, gname: seq<byte>,
                           devmajor: seq<byte>, devminor: seq<byte>, prefix: seq<byte>, padding: seq<byte>)

  predicate LayoutOk(h: Header) {
    && |h.name| == 100 && |h.mode| == 8 && |h.uid| == 8 && |h.gid| == 8 && |h.size| == 12 && |h.mtime| == 12
    && |h.chksum| == 8 && |h.typeflag| == 1 && |h.linkname| == 100 && |h.magic| == 6 && |h.version| == 2
    && |h.uname| == 32 && |h.gname| == 32 && |h.devmajor| == 8 && |h.devminor| == 8 && |h.prefix| == 155
    && |h.padding| == 12
  }

  /** The structure as it lies in memory, in four parts. */
  function Pack(h: Header): seq<byte> { Part1(h) + Part2(h) + Part3(h) + Part4(h) }

  function Part1(h: Header): seq<byte> { h.name + h.mode + h.uid + h.gid + h.size + h.mtime }
  function Part2(h: Header): seq<byte> { h.chksum + h.typeflag + h.linkname }
  function Part3(h: Header): seq<byte> { h.magic + h.version + h.uname + h.gname + h.devmajor + h.devminor }
  function Part4(h: Header): seq<byte> { h.prefix + h.padding }

  /** The structure that 512 bytes are seen as. */
  function Unpack(b: seq<byte>): (h: Header)
    requires |b| == HEADER_SIZE
    ensures LayoutOk(h)
  {
    var p, q, r, s := b[..148], b[148..257], b[257..345], b[345..];
    Header(p[..100], p[100..108], p[108..116], p[116..124], p[124..136], p[136..], q[..8], q[8..9], q[9..],
           r[..6], r[6..8], r[8..40], r[40..72], r[72..80], r[80..], s[..155], s[155..])
  }

  lemma UnpackParts(h: Header)
    requires LayoutOk(h)
    ensures |Part1(h)| == 148 && |Part2(h)| == 109 && |Part3(h)| == 88 && |Part4(h)| == 167
    ensures var p := Part1(h); p[..100] == h.name && p[100..108] == h.mode && p[108..116] == h.uid && p[116..124] == h.gid
    ensures var p := Part1(h); p[124..136] == h.size && p[136..] == h.mtime
    ensures var q := Part2(h); q[..8] == h.chksum && q[8..9] == h.typeflag && q[9..] == h.linkname
    ensures var s := Part4(h); s[..155] == h.prefix && s[155..] == h.padding
  {
  }

  lemma UnpackPart3(h: Header)
    requires LayoutOk(h)
    ensures var r := Part3(h); |r| == 88 && r[..6] == h.magic && r[6..8] == h.version && r[8..40] == h.uname
    ensures var r := Part3(h); r[40..72] == h.gname && r[72..80] == h.devmajor && r[80..] == h.devminor
  {
  }

  lemma FourParts(p: seq<byte>, q: seq<byte>, r: seq<byte>, s: seq<byte>)
    requires |p| == 148 && |q| == 109 && |r| == 88
    ensures var b := p + q + r + s; b[..148] == p && b[148..257] == q && b[257..345] == r && b[345..] == s
  {
  }

  lemma UnpackPack(h: Header)
    requires LayoutOk(h)
    ensures |Pack(h)| == HEADER_SIZE && Unpack(Pack(h)) == h
  {
    hide Part1, Part2, Part3, Part4, LayoutOk;
    UnpackParts(h);
    UnpackPart3(h);
    FourParts(Part1(h), Part2(h), Part3(h), Part4(h));
  }

  // ----- Names -----

  function CharAt(s: seq<byte>, k: nat): byte { if k < |s| then s[k] else 0 }

  /** S starts with "/", "./" or "../". */
  predicate Antisocial(s: seq<byte>) {
    || CharAt(s, 0) == SLASH
    || (CharAt(s, 0) == DOT && CharAt(s, 1) == SLASH)
    || (CharAt(s, 0) == DOT && CharAt(s, 1) == DOT && CharAt(s, 2) == SLASH)
  }

  /** What follows the first slash. */
  function PastSlash(s: seq<byte>): (t: seq<byte>)
    requires SLASH in s
    ensures |t| < |s| && t <= s[|s| - |t|..] && s[|s| - |t| - 1] == SLASH
  {
    if s[0] == SLASH then s[1..] else PastSlash(s[1..])
  }

  function Strip(s: seq<byte>): seq<byte>
    decreases |s|
  {
    if Antisocial(s) then
      HasSlash(s);
      Strip(PastSlash(s))
    else if s == [] || s == [DOT, DOT] then [DOT]
    else s
  }

  /** A stripped name has none of the prefixes, and is left alone if it is stripped
      again; a name without them is left alone at once. */
  lemma {:induction false} StripStrips(s: seq<byte>)
    ensures !Antisocial(Strip(s)) && Strip(s) != [] && Strip(s) != [DOT, DOT]
    ensures Strip(Strip(s)) == Strip(s)
    ensures !Antisocial(s) && s != [] && s != [DOT, DOT] ==> Strip(s) == s
    decreases |s|
  {
    if Antisocial(s) {
      HasSlash(s);
      hide Antisocial;
      StripStrips(PastSlash(s));
    }
  }

  lemma HasSlash(s: seq<byte>)
    requires Antisocial(s)
    ensures SLASH in s
  {
    assert s[0] == SLASH || s[1] == SLASH || s[2] == SLASH;
  }

  predicate IsSuffix(t: seq<byte>, s: seq<byte>) { |t| <= |s| && t == s[|s| - |t|..] }

  lemma SuffixOfSuffix(t: seq<byte>, u: seq<byte>, s: seq<byte>)
    requires IsSuffix(t, u) && IsSuffix(u, s)
    ensures IsSuffix(t, s)
  {
  }

  /** What is left is the end of the name, or ".". */
  lemma {:induction false} StripIsSuffix(s: seq<byte>)
    ensures Strip(s) == [DOT] || IsSuffix(Strip(s), s)
    decreases |s|
  {
    hide Antisocial, IsSuffix;
    if Antisocial(s) {
      HasSlash(s);
      StripIsSuffix(PastSlash(s));
      if Strip(s) != [DOT] { SuffixOfSuffix(Strip(s), PastSlash(s), s); }
    } else {
      WholeSuffix(s);
    }
  }

  lemma WholeSuffix(s: seq<byte>)
    ensures IsSuffix(s, s)
  {
  }

  predicate IsPrefix(p: seq<byte>) { p == [SLASH] || p == [DOT, SLASH] || p == [DOT, DOT, SLASH] }

  /** T consists of the prefixes "/", "./" and "../". */
  ghost predicate Prefixes(t: seq<byte>) {
    t == [] || exists j: nat :: 0 < j <= |t| && IsPrefix(t[..j]) && Prefixes(t[j..])
  }

  lemma {:induction false} FirstSlash(s: seq<byte>, j: nat)
    requires j < |s| && s[j] == SLASH && forall i :: 0 <= i < j ==> s[i] != SLASH
    ensures SLASH in s && PastSlash(s) == s[j + 1..]
  {
    if j > 0 {
      FirstSlash(s[1..], j - 1);
      assert s[1..][j..] == s[j + 1..];
    }
  }

  lemma OnePrefix(s: seq<byte>)
    requires Antisocial(s)
    ensures SLASH in s
    ensures var j := |s| - |PastSlash(s)|; PastSlash(s) == s[j..] && IsPrefix(s[..j])
  {
    hide PastSlash;
    if s[0] == SLASH {
      FirstSlash(s, 0);
      assert s[..1] == [SLASH];
    } else if s[1] == SLASH {
      FirstSlash(s, 1);
      assert s[..2] == [DOT, SLASH];
    } else {
      FirstSlash(s, 2);
      assert s[..3] == [DOT, DOT, SLASH];
    }
  }

  lemma PrefixesMore(s: seq<byte>, j: nat, m: nat)
    requires 0 < j <= |s| && m <= |s| - j && IsPrefix(s[..j]) && Prefixes(s[j..][..m])
    ensures Prefixes(s[..j + m]) && s[j + m..] == s[j..][m..]
  {
    hide IsPrefix;
    assert s[..j + m][..j] == s[..j] && s[..j + m][j..] == s[j..][..m];
  }

  /** Stripping removes such prefixes and nothing else; of a name that they leave
      empty or as "..", it makes ".". */
  lemma {:induction false} StripRemovesPrefixes(s: seq<byte>) returns (k: nat)
    ensures k <= |s| && Prefixes(s[..k])
    ensures Strip(s) == if s[k..] == [] || s[k..] == [DOT, DOT] then [DOT] else s[k..]
    decreases |s|
  {
    hide Antisocial, IsPrefix, Prefixes, PastSlash, Strip;
    StripStep(s);
    if Antisocial(s) {
      OnePrefix(s);
      var j := |s| - |PastSlash(s)|;
      var m := StripRemovesPrefixes(s[j..]);
      k := j + m;
      PrefixesMore(s, j, m);
    } else {
      k := 0;
      NoPrefixes();
      assert s[0..] == s && s[..0] == [];
    }
  }

  lemma StripStep(s: seq<byte>)
    ensures Antisocial(s) ==> SLASH in s && Strip(s) == Strip(PastSlash(s))
    ensures !Antisocial(s) ==> Strip(s) == if s == [] || s == [DOT, DOT] then [DOT] else s
  {
    hide Antisocial;
    if Antisocial(s) { HasSlash(s); }
  }

  lemma NoPrefixes()
    ensures Prefixes([])
  {
  }

  method StripAntisocialPrefixes(fileName: seq<byte>) returns (r: seq<byte>)
    ensures r == Strip(fileName)
  {
    r := fileName;
    while Antisocial(r)
      invariant Strip(r) == Strip(fileName)
      decreases |r|
    {
      HasSlash(r);
      r := PastSlash(r);
    }
    if r == [] || r == [DOT, DOT] { r := [DOT]; }
  }

  // ----- The checksum -----

  function Sum(b: seq<byte>): nat { if b == [] then 0 else Sum(b[..|b| - 1]) + b[|b| - 1] as int }

  /** B with the checksum field all spaces. */
  function Blanked(b: seq<byte>): seq<byte>
    requires |b| == HEADER_SIZE
  {
    b[..148] + Dup(SPACE, 8) + b[156..]
  }

  method CalculateChksum(b: seq<byte>) returns (chksum: nat)
    requires |b| == HEADER_SIZE
    ensures chksum == Sum(Blanked(b))
  {
    chksum := 0;
    for i := 0 to HEADER_SIZE
      invariant chksum == Sum(Blanked(b)[..i])
    {
      var inChksumField := 148 <= i < 156;
      chksum := chksum + if inChksumField then SPACE as int else b[i] as int;
      assert Blanked(b)[..i + 1][..i] == Blanked(b)[..i];
    }
    assert Blanked(b)[..HEADER_SIZE] == Blanked(b);
  }

  lemma {:induction false} SumBound(b: seq<byte>)
    ensures Sum(b) <= 255 * |b|
  {
    if b != [] { SumBound(b[..|b| - 1]); }
  }

  /** Changing one byte changes the sum by the difference. */
  lemma {:induction false} SumChange(b: seq<byte>, i: nat, x: byte)
    requires i < |b|
    ensures Sum(b[i := x]) == Sum(b) - b[i] as int + x as int
  {
    var n := |b| - 1;
    if i == n {
      assert b[i := x][..n] == b[..n];
    } else {
      SumChange(b[..n], i, x);
      assert b[i := x][..n] == b[..n][i := x];
    }
  }

  // ----- Octal fields -----

  /** parse_octal_field from OFS on, with VALUE read so far. */
  function ParseFrom(s: seq<byte>, ofs: nat, value: nat): Option<nat>
    requires ofs <= |s|
    decreases |s| - ofs
  {
    if ofs == |s| then None
    else if IsOctalDigit(s[ofs]) then
      if value > ULONG_MAX / 8 then None else ParseFrom(s, ofs + 1, value * 8 + DigitValue(s[ofs]))
    else if s[ofs] == SPACE || s[ofs] == 0 then
      if ofs > 0 then Some(value) else None
    else None
  }

  method ParseOctalField(s: seq<byte>) returns (r: Option<nat>)
    ensures r == ParseFrom(s, 0, 0)
  {
    var value: nat := 0;
    for ofs := 0 to |s|
      invariant ParseFrom(s, 0, 0) == ParseFrom(s, ofs, value)
    {
      var c := s[ofs];
      if IsOctalDigit(c) {
        if value > ULONG_MAX / 8 { return None; }
        value := c as int - 48 + value * 8;
      } else if c == SPACE || c == 0 {
        return if ofs > 0 then Some(value) else None;
      } else {
        return None;
      }
    }
    r := None;
  }

  lemma {:induction false} PrefixValue(s: seq<byte>, k: nat)
    requires k <= |s|
    ensures OctalValue(s[..k]) <= OctalValue(s)
    decreases |s| - k
  {
    if k == |s| {
      assert s[..k] == s;
    } else {
      PrefixValue(s, k + 1);
      assert s[..k + 1][..k] == s[..k];
    }
  }

  predicate EndsField(c: byte) { c == SPACE || c == 0 }

  /** Digits and a space or null are read back as their value, if it fits 32 bits. */
  lemma {:induction false} ParseDigits(s: seq<byte>, end: byte, rest: seq<byte>, ofs: nat)
    requires AllOctal(s) && s != [] && OctalValue(s) <= ULONG_MAX && ofs <= |s| && EndsField(end)
    ensures ParseFrom(s + [end] + rest, ofs, OctalValue(s[..ofs])) == Some(OctalValue(s))
    decreases |s| - ofs
  {
    if ofs < |s| {
      PrefixValue(s, ofs + 1);
      assert s[..ofs + 1][..ofs] == s[..ofs];
      ParseDigits(s, end, rest, ofs + 1);
    } else {
      assert s[..ofs] == s;
    }
  }

  /** The first K bytes of S are digits, at least one, of a number that fits 32
      bits, and a space or null ends them. */
  ghost predicate IsField(s: seq<byte>, k: nat) {
    0 < k < |s| && AllOctal(s[..k]) && EndsField(s[k]) && OctalValue(s[..k]) <= ULONG_MAX
  }

  /** S is an octal field with the value V. */
  ghost predicate FieldHas(s: seq<byte>, v: nat) { exists k: nat :: IsField(s, k) && v == OctalValue(s[..k]) }

  lemma {:induction false} ParsedIsField(s: seq<byte>, ofs: nat)
    requires ofs <= |s| && AllOctal(s[..ofs]) && OctalValue(s[..ofs]) <= ULONG_MAX
    ensures var r := ParseFrom(s, ofs, OctalValue(s[..ofs]));
            r.Some? ==> exists k: nat :: IsField(s, k) && r.value == OctalValue(s[..k])
    decreases |s| - ofs
  {
    if ofs < |s| {
      assert s[..ofs + 1][..ofs] == s[..ofs];
      if IsOctalDigit(s[ofs]) {
        if OctalValue(s[..ofs]) <= ULONG_MAX / 8 { ParsedIsField(s, ofs + 1); }
      } else if EndsField(s[ofs]) && ofs > 0 {
        assert IsField(s, ofs);
      }
    }
  }

  /** A field is accepted, with the value of its digits, exactly if it begins with
      digits that a space or a null ends, of a number that fits 32 bits. */
  lemma FieldAccepted(s: seq<byte>, v: nat)
    ensures ParseFrom(s, 0, 0) == Some(v) <==> FieldHas(s, v)
  {
    hide ParseFrom;
    assert s[..0] == [];
    ParsedIsField(s, 0);
    forall k: nat | IsField(s, k) ensures ParseFrom(s, 0, 0) == Some(OctalValue(s[..k])) {
      ParseDigits(s[..k], s[k], s[k + 1..], 0);
      assert s[..k][..0] == [];
      assert s[..k] + [s[k]] + s[k + 1..] == s;
    }
  }

  /** snprintf ("%0<width>o") into a field and parse_octal_field are inverse. */
  lemma OctalFieldRoundTrip(value: nat, width: nat)
    requires value < Power8(width) && value <= ULONG_MAX && width > 0
    ensures ParseFrom(Terminated(Rendered(value, false, false, Octal(), ZeroPadded(width)), width + 1), 0, 0) == Some(value)
  {
    hide Rendered, Power8;
    OctalFieldValue(value, width);
    var s := Rendered(value, false, false, Octal(), ZeroPadded(width));
    assert Terminated(s, width + 1) == s + [0] + [];
    assert s[..0] == [];
    ParseDigits(s, 0, [], 0);
  }

  // ----- Composing -----

  function Zeros(n: nat): seq<byte> { Dup(0, n) }

  function Magic(): seq<byte> { [117, 115, 116, 97, 114, 0] }

  function Root(): seq<byte> { [114, 111, 111, 116] }

  /** size_t and unsigned conversions of an int. */
  function Unsigned(n: int): nat
    requires -INT_MAX - 1 <= n <= INT_MAX
  {
    if n < 0 then n + ULONG_MAX + 1 else n
  }

  ghost function OctalField(value: nat, size: nat): seq<byte>
    requires size > 1
  {
    Terminated(Rendered(value, false, false, Octal(), ZeroPadded(size - 1)), size)
  }

  /** The header but for its checksum. */
  ghost function Unsummed(name: seq<byte>, type_: byte, size: int): (h: Header)
    requires -INT_MAX - 1 <= size <= INT_MAX
    ensures LayoutOk(h)
  {
    Header(Terminated(name, 100), OctalField(if type_ == REGULAR then 420 else 493, 8),
           OctalField(0, 8), OctalField(0, 8), OctalField(Unsigned(size), 12), OctalField(1136102400, 12),
           Zeros(8), [type_], Zeros(100), Magic(), [ZERO_DIGIT, ZERO_DIGIT],
           Terminated(Root(), 32), Terminated(Root(), 32), Zeros(8), Zeros(8), Zeros(155), Zeros(12))
  }

  ghost function Made(name: seq<byte>, type_: byte, size: int): (h: Header)
    requires -INT_MAX - 1 <= size <= INT_MAX
    ensures LayoutOk(h)
  {
    var h := Unsummed(name, type_, size);
    UnpackPack(h);
    h.(chksum := OctalField(Sum(Blanked(Pack(h))), 8))
  }

  /** What the other fields of a header say: the mode goes by the type; the owner is
      root, by number and by name; and the format is ustar, version 00. */
  lemma OtherFields(name: seq<byte>, type_: byte, size: int)
    requires -INT_MAX - 1 <= size <= INT_MAX
    ensures var h := Made(name, type_, size);
            && ParseFrom(h.mode, 0, 0) == Some(if type_ == REGULAR then 6 * 64 + 4 * 8 + 4 else 7 * 64 + 5 * 8 + 5)
            && ParseFrom(h.uid, 0, 0) == Some(0) && ParseFrom(h.gid, 0, 0) == Some(0)
            && ParseFrom(h.mtime, 0, 0) == Some(1136102400)
            && CString(h.uname) == ['r' as byte, 'o' as byte, 'o' as byte, 't' as byte] == CString(h.gname)
            && CString(h.magic) == ['u' as byte, 's' as byte, 't' as byte, 'a' as byte, 'r' as byte]
            && h.version == ['0' as byte, '0' as byte]
  {
    hide ParseFrom, Rendered, Terminated, Power8, Octal, ZeroPadded, Sum, Blanked, Pack, Zeros, CString;
    Powers();
    OctalFieldRoundTrip(if type_ == REGULAR then 420 else 493, 7);
    OctalFieldRoundTrip(0, 7);
    OctalFieldRoundTrip(1136102400, 11);
    RootName();
    CStringOf(UstarName(), []);
    assert UstarName() + [0] + [] == Magic();
  }

  lemma RootName()
    ensures CString(Terminated(Root(), 32)) == Root()
  {
    CStringOf(Root(), Dup(0, 27));
    assert Terminated(Root(), 32) == Root() + [0] + Dup(0, 27);
  }

  /** strlcpy into a field of SIZE bytes that was all zeros. */
  method Strlcpy(src: seq<byte>, size: nat) returns (f: seq<byte>)
    requires size > 0
    ensures f == Terminated(src, size)
  {
    var dstLen := size - 1;
    if |src| < dstLen { dstLen := |src|; }
    f := src[..dstLen] + [0] + Zeros(size - dstLen - 1);
  }

  /** snprintf (field, size, "%0<size - 1>o", value). */
  method PrintOctal(value: nat, size: nat) returns (f: seq<byte>)
    requires size > 1
    ensures f == OctalField(value, size)
  {
    var out := FormatInteger(value, false, false, Octal(), ZeroPadded(size - 1));
    f := Terminated(out, size);
  }

  /** Seven zeros, as strlcpy writes them, are what octal zero prints as. */
  lemma SevenZeros()
    ensures Terminated(Dup(ZERO_DIGIT, 7), 8) == OctalField(0, 8)
  {
    RenderedOctal(0, 7);
    assert Dup(ZERO_DIGIT, 6) + [ZERO_DIGIT] == Dup(ZERO_DIGIT, 7);
  }

  /** The part of ustar_make_header that fills in all but the checksum. */
  method FillHeader(name: seq<byte>, type_: byte, size: int) returns (h: Header)
    requires -INT_MAX - 1 <= size <= INT_MAX
    ensures h == Unsummed(name, type_, size)
  {
    hide Terminated, OctalField, Dup, Zeros, Magic, Root, LayoutOk, Unsigned;
    SevenZeros();
    UstarMagic();
    h := Header(Zeros(100), Zeros(8), Zeros(8), Zeros(8), Zeros(12), Zeros(12), Zeros(8), Zeros(1), Zeros(100), Zeros(6),
                Zeros(2), Zeros(32), Zeros(32), Zeros(8), Zeros(8), Zeros(155), Zeros(12));
    var f := Strlcpy(name, 100);
    h := h.(name := f);
    f := PrintOctal(if type_ == REGULAR then 420 else 493, 8);
    h := h.(mode := f);
    f := Strlcpy(Dup(ZERO_DIGIT, 7), 8);
    h := h.(uid := f);
    f := Strlcpy(Dup(ZERO_DIGIT, 7), 8);
    h := h.(gid := f);
    f := PrintOctal(Unsigned(size), 12);
    h := h.(size := f);
    f := PrintOctal(1136102400, 12);
    h := h.(mtime := f);
    h := h.(typeflag := [type_]);
    f := Strlcpy(UstarName(), 6);
    h := h.(magic := f);
    h := h.(version := [ZERO_DIGIT, ZERO_DIGIT]);
    f := Strlcpy(Root(), 32);
    h := h.(gname := f);
    f := Strlcpy(Root(), 32);
    h := h.(uname := f);
  }

  method MakeHeader(fileName: seq<byte>, type_: byte, size: int) returns (ok: bool, header: seq<byte>)
    requires (type_ == REGULAR || type_ == DIRECTORY) && -INT_MAX - 1 <= size <= INT_MAX
    ensures ok <==> |Strip(fileName)| <= 99
    ensures ok ==> header == Pack(Made(Strip(fileName), type_, size))
  {
    hide OctalField, Pack, Blanked, Strip, Unsummed;
    var name := StripAntisocialPrefixes(fileName);
    if |name| > 99 { return false, []; }
    var h := FillHeader(name, type_, size);
    UnpackPack(h);
    var chksum := CalculateChksum(Pack(h));
    var f := PrintOctal(chksum, 8);
    h := h.(chksum := f);
    ok, header := true, Pack(h);
  }

  function UstarName(): seq<byte> { [117, 115, 116, 97, 114] }

  lemma UstarMagic()
    ensures Terminated(UstarName(), 6) == Magic()
  {
  }

  // ----- Parsing -----

  datatype Error =
    | NotUstar | InvalidVersion | CorruptChksum | ChecksumMismatch | NameTooLong | UnimplementedType
    | CorruptSize | FileTooLarge

  datatype Parsed = Eof | Failed(error: Error) | Entry(name: seq<byte>, type_: byte, size: nat)

  function Parse(b: seq<byte>): Parsed
    requires |b| == HEADER_SIZE
  {
    var h := Unpack(b);
    if b == Zeros(HEADER_SIZE) then Eof
    else if h.magic != Magic() then Failed(NotUstar)
    else if h.version != [ZERO_DIGIT, ZERO_DIGIT] then Failed(InvalidVersion)
    else ParseSummed(h, ParseFrom(h.chksum, 0, 0), b)
  }

  function ParseSummed(h: Header, chksum: Option<nat>, b: seq<byte>): Parsed
    requires |b| == HEADER_SIZE && LayoutOk(h)
  {
    if chksum == None then Failed(CorruptChksum)
    else if Sum(Blanked(b)) != chksum.value then Failed(ChecksumMismatch)
    else if h.name[99] != 0 || h.prefix[0] != 0 then Failed(NameTooLong)
    else if h.typeflag == [REGULAR] then
      match ParseFrom(h.size, 0, 0)
      case None => Failed(CorruptSize)
      case Some(size) => if size > INT_MAX then Failed(FileTooLarge) else Entry(Strip(CString(h.name)), REGULAR, size)
    else if h.typeflag == [DIRECTORY] then Entry(Strip(CString(h.name)), DIRECTORY, 0)
    else Failed(UnimplementedType)
  }

  method ParseHeader(header: seq<byte>) returns (r: Parsed)
    requires |header| == HEADER_SIZE
    ensures r == Parse(header)
  {
    hide Blanked, Strip, CString, ParseFrom;
    var h := Unpack(header);
    if header == Zeros(HEADER_SIZE) { return Eof; }
    if h.magic != Magic() { return Failed(NotUstar); }
    if h.version[0] != ZERO_DIGIT || h.version[1] != ZERO_DIGIT { return Failed(InvalidVersion); }
    assert h.version == [ZERO_DIGIT, ZERO_DIGIT];
    var chksum := ParseOctalField(h.chksum);
    if chksum.None? { return Failed(CorruptChksum); }
    var sum := CalculateChksum(header);
    if chksum.value != sum { return Failed(ChecksumMismatch); }
    if h.name[99] != 0 || h.prefix[0] != 0 { return Failed(NameTooLong); }
    if h.typeflag[0] != REGULAR && h.typeflag[0] != DIRECTORY { return Failed(UnimplementedType); }
    var size: nat := 0;
    if h.typeflag[0] == REGULAR {
      var sizeUl := ParseOctalField(h.size);
      if sizeUl.None? { return Failed(CorruptSize); }
      if sizeUl.value > INT_MAX { return Failed(FileTooLarge); }
      size := sizeUl.value;
    }
    var name := StripAntisocialPrefixes(CString(h.name));
    assert h.typeflag == [h.typeflag[0]];
    r := Entry(name, h.typeflag[0], size);
  }

  // ----- Round trip -----

  lemma NameRoundTrip(name: seq<byte>)
    requires 0 !in name && |name| <= 99
    ensures CString(Terminated(name, 100)) == name && Terminated(name, 100)[99] == 0
  {
    assert Terminated(name, 100) == name + [0] + Dup(0, 99 - |name|);
    CStringOf(name, Dup(0, 99 - |name|));
  }

  lemma StripNoNull(s: seq<byte>)
    requires 0 !in s
    ensures 0 !in Strip(s)
  {
    StripIsSuffix(s);
  }

  lemma Powers()
    ensures Power8(7) == 2097152 && Power8(11) == 8589934592
  {
    assert Power8(2) == 64 && Power8(4) == 4096 && Power8(6) == 262144;
    assert Power8(8) == 16777216 && Power8(10) == 1073741824;
  }

  /** A header is the end of the archive exactly if it is all zeros, and an entry
      exactly if it says ustar, version 00, its checksum field has the sum of its
      bytes, its name ends within the field and has no prefix, and it is of a
      directory, or of a regular file with a size that an int can hold. */
  lemma ParsedExactly(b: seq<byte>)
    requires |b| == HEADER_SIZE
    ensures var h := Unpack(b);
            && (Parse(b).Eof? <==> forall i :: 0 <= i < |b| ==> b[i] == 0)
            && (Parse(b).Entry? <==>
                  && h.magic == ['u' as byte, 's' as byte, 't' as byte, 'a' as byte, 'r' as byte, 0]
                  && h.version == ['0' as byte, '0' as byte]
                  && FieldHas(h.chksum, Sum(Blanked(b)))
                  && h.name[99] == 0 && h.prefix[0] == 0
                  && (h.typeflag == ['5' as byte]
                      || (h.typeflag == ['0' as byte]
                          && exists v: nat :: v <= INT_MAX && FieldHas(h.size, v))))
            && (Parse(b).Entry? ==>
                  && Parse(b).name == Strip(CString(h.name)) && [Parse(b).type_] == h.typeflag
                  && (Parse(b).type_ == DIRECTORY ==> Parse(b).size == 0)
                  && (Parse(b).type_ == REGULAR ==> FieldHas(h.size, Parse(b).size)))
  {
    hide ParseFrom, Sum, Blanked, Strip, CString, FieldHas;
    var h := Unpack(b);
    AllZeros(b);
    FieldAccepted(h.chksum, Sum(Blanked(b)));
    forall v: nat ensures ParseFrom(h.size, 0, 0) == Some(v) <==> FieldHas(h.size, v) { FieldAccepted(h.size, v); }
  }

  lemma AllZeros(b: seq<byte>)
    requires |b| == HEADER_SIZE
    ensures b == Zeros(HEADER_SIZE) <==> forall i :: 0 <= i < |b| ==> b[i] == 0
    ensures b == Zeros(HEADER_SIZE) ==> Unpack(b).magic[0] == 0
  {
  }

  /** The checksum does not depend on its own field. */
  lemma BlankedChksum(h: Header, f: seq<byte>)
    requires LayoutOk(h) && |f| == 8
    ensures |Pack(h)| == |Pack(h.(chksum := f))| == HEADER_SIZE
    ensures Blanked(Pack(h.(chksum := f))) == Blanked(Pack(h))
  {
    hide Pack, Blanked, LayoutOk;
    Relaid(h, f);
    UnpackPack(h);
    UnpackPack(h.(chksum := f));
    SplitPack(h);
    SplitPack(h.(chksum := f));
    BlankedIs(Pack(h));
    BlankedIs(Pack(h.(chksum := f)));
  }

  lemma Relaid(h: Header, f: seq<byte>)
    requires LayoutOk(h) && |f| == 8
    ensures LayoutOk(h.(chksum := f)) && Part1(h.(chksum := f)) == Part1(h)
    ensures Part3(h.(chksum := f)) == Part3(h) && Part4(h.(chksum := f)) == Part4(h)
  {
  }

  lemma BlankedIs(b: seq<byte>)
    requires |b| == HEADER_SIZE
    ensures Blanked(b) == b[..148] + Dup(SPACE, 8) + b[156..]
  {
  }

  lemma SplitPack(h: Header)
    requires LayoutOk(h) && |Pack(h)| == HEADER_SIZE
    ensures Pack(h)[..148] == Part1(h)
    ensures Pack(h)[156..] == h.typeflag + h.linkname + Part3(h) + Part4(h)
  {
    hide Part1, Part3, Part4, LayoutOk;
    UnpackParts(h);
    UnpackPart3(h);
  }

  lemma ChksumFits(b: seq<byte>)
    requires |b| == HEADER_SIZE
    ensures Sum(Blanked(b)) < Power8(7) && Sum(Blanked(b)) <= ULONG_MAX
  {
    Powers();
    SumBound(Blanked(b));
  }

  /** Parsing a header that was composed gives back the stripped name, the type and
      the size; but a negative size of a regular file, which is printed as an
      unsigned number, is taken to be too large. */
  lemma RoundTrip(fileName: seq<byte>, type_: byte, size: int)
    requires 0 !in fileName && |Strip(fileName)| <= 99
    requires (type_ == REGULAR || type_ == DIRECTORY) && -INT_MAX - 1 <= size <= INT_MAX
    ensures |Pack(Made(Strip(fileName), type_, size))| == HEADER_SIZE
    ensures Parse(Pack(Made(Strip(fileName), type_, size))) ==
            if type_ == DIRECTORY then Entry(Strip(fileName), DIRECTORY, 0)
            else if size >= 0 then Entry(Strip(fileName), REGULAR, size)
            else Failed(FileTooLarge)
  {
    hide Strip, Rendered, ParseFrom, Blanked, Terminated, Pack, CString, Sum, Power8;
    var name := Strip(fileName);
    StripNoNull(fileName);
    StripStrips(fileName);
    NameRoundTrip(name);
    var u, h := Unsummed(name, type_, size), Made(name, type_, size);
    UnpackPack(u);
    UnpackPack(h);
    BlankedChksum(u, h.chksum);
    ChksumFits(Pack(u));
    OctalFieldRoundTrip(Sum(Blanked(Pack(u))), 7);
    Powers();
    OctalFieldRoundTrip(Unsigned(size), 11);
    NotAllZeros(Pack(h));
  }

  lemma NotAllZeros(b: seq<byte>)
    requires |b| == HEADER_SIZE && Unpack(b).magic == Magic()
    ensures b != Zeros(HEADER_SIZE)
  {
    assert b[257] == Unpack(b).magic[0];
  }

  // ----- Corruption -----

  /** One byte of B, outside the checksum field, becomes another. */
  lemma SumDetects(b: seq<byte>, i: nat, x: byte)
    requires |b| == HEADER_SIZE && i < HEADER_SIZE && !(148 <= i < 156) && x != b[i]
    ensures Sum(Blanked(b[i := x])) != Sum(Blanked(b))
  {
    assert Blanked(b[i := x]) == Blanked(b)[i := x];
    assert Blanked(b)[i] == b[i];
    SumChange(Blanked(b), i, x);
  }

  /** No change of a single byte outside the checksum field goes unnoticed: a header
      that parses as an entry does not parse any more. */
  lemma OneByteCorruption(b: seq<byte>, i: nat, x: byte)
    requires |b| == HEADER_SIZE && i < HEADER_SIZE && !(148 <= i < 156) && x != b[i]
    requires Parse(b).Entry?
    ensures Parse(b[i := x]).Failed?
  {
    hide Strip, ParseFrom, Blanked, CString, Sum;
    SumDetects(b, i, x);
    var c := b[i := x];
    assert Unpack(c).chksum == Unpack(b).chksum;
    assert b[257] == Unpack(b).magic[0] == 117 && b[258] == Unpack(b).magic[1] == 115;
    assert c[257] == 117 || c[258] == 115;
    assert c != Zeros(HEADER_SIZE);
  }
}
