/** Null-terminated strings. */
module CStrings {
  import opened Device

  /** The C string that a buffer starts with. */
  function CString(f: seq<byte>): seq<byte> { if f == [] || f[0] == 0 then [] else [f[0]] + CString(f[1..]) }

  lemma {:induction false} CStringOf(s: seq<byte>, rest: seq<byte>)
    requires 0 !in s
    ensures CString(s + [0] + rest) == s
  {
    if s != [] {
      assert (s + [0] + rest)[1..] == s[1..] + [0] + rest;
      CStringOf(s[1..], rest);
    }
  }

  /** A string without its null, as the buffer holds it. */
  lemma {:induction false} CStringIs(f: seq<byte>)
    ensures 0 !in CString(f) && |CString(f)| <= |f| && CString(f) == f[..|CString(f)|]
    ensures |CString(f)| < |f| ==> f[|CString(f)|] == 0
  {
    if f != [] && f[0] != 0 {
      CStringIs(f[1..]);
    }
  }
}
