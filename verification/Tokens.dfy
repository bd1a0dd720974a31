/** strtok_r with the delimiter " " (lib/string.c): the tokens of a command line,
    and what the code leaves in the buffer. */
module Tokens {
  import opened Options
  import opened Device

  const BLANK: byte := 32

  /** How many spaces S starts with. */
  function SkipLen(s: seq<byte>): (n: nat)
    ensures n <= |s| && (n < |s| ==> s[n] != BLANK) && forall k :: 0 <= k < n ==> s[k] == BLANK
  {
    if s == [] || s[0] != BLANK then 0 else 1 + SkipLen(s[1..])
  }

  /** How many other characters S starts with. */
  function TokenLen(s: seq<byte>): (n: nat)
    ensures n <= |s| && (n < |s| ==> s[n] == BLANK) && forall k :: 0 <= k < n ==> s[k] != BLANK
  {
    if s == [] || s[0] == BLANK then 0 else 1 + TokenLen(s[1..])
  }

  /** What follows the first token and the space behind it. */
  function Rest(s: seq<byte>): (r: seq<byte>)
    requires SkipLen(s) < |s|
    ensures |r| < |s|
  {
    var e := SkipLen(s) + TokenLen(s[SkipLen(s)..]);
    if e < |s| then s[e + 1..] else []
  }

  function FirstToken(s: seq<byte>): (t: seq<byte>)
    requires SkipLen(s) < |s|
    ensures t != []
  {
    s[SkipLen(s)..SkipLen(s) + TokenLen(s[SkipLen(s)..])]
  }

  function Tokenize(s: seq<byte>): (ts: seq<seq<byte>>)
    decreases |s|
  {
    if SkipLen(s) == |s| then [] else [FirstToken(s)] + Tokenize(Rest(s))
  }

  // ----- Tokens of lines -----

  function Blanks(n: nat): seq<byte> { seq(n, _ => BLANK) }

  predicate IsToken(t: seq<byte>) { t != [] && BLANK !in t }

  /** A line: each word with the spaces in front of it, and spaces at the end. */
  function Line(words: seq<seq<byte>>, gaps: seq<nat>, trailing: nat): seq<byte>
    requires |gaps| == |words|
  {
    if words == [] then Blanks(trailing) else Blanks(gaps[0]) + words[0] + Line(words[1..], gaps[1..], trailing)
  }

  lemma {:induction false} SkipBlanks(n: nat, s: seq<byte>)
    ensures SkipLen(Blanks(n) + s) == n + SkipLen(s)
  {
    if n == 0 {
      assert Blanks(0) + s == s;
    } else {
      SkipBlanks(n - 1, s);
      assert (Blanks(n) + s)[1..] == Blanks(n - 1) + s;
    }
  }

  lemma {:induction false} TokenAhead(t: seq<byte>, s: seq<byte>)
    requires BLANK !in t && (s == [] || s[0] == BLANK)
    ensures TokenLen(t + s) == |t|
  {
    if t == [] {
      assert t + s == s;
    } else {
      TokenAhead(t[1..], s);
      assert (t + s)[1..] == t[1..] + s;
    }
  }

  /** Spaces in front do not matter, nor how many come between words. */
  lemma FirstOfLine(n: nat, t: seq<byte>, s: seq<byte>)
    requires IsToken(t) && (s == [] || s[0] == BLANK)
    ensures var line := Blanks(n) + t + s;
            SkipLen(line) < |line| && FirstToken(line) == t && Rest(line) == if s == [] then [] else s[1..]
  {
    var line := Blanks(n) + t + s;
    assert line == Blanks(n) + (t + s);
    SkipBlanks(n, t + s);
    assert SkipLen(t + s) == 0;
    assert line[n..] == t + s;
    TokenAhead(t, s);
  }

  lemma BlankSplit(s: seq<byte>)
    requires s != [] && s[0] == BLANK && SkipLen(s[1..]) < |s[1..]|
    ensures SkipLen(s) < |s| && FirstToken(s) == FirstToken(s[1..]) && Rest(s) == Rest(s[1..])
  {
    hide TokenLen, SkipLen;
    var r := s[1..];
    var n := SkipLen(r);
    var e := n + TokenLen(r[n..]);
    ShiftedSlice(s, r, n, e);
    assert s[SkipLen(s)..] == r[n..];
    assert FirstToken(r) == r[n..e] && FirstToken(s) == s[1 + n..1 + e];
    assert Rest(r) == if e < |r| then r[e + 1..] else [];
    assert Rest(s) == if 1 + e < |s| then s[1 + (e + 1)..] else [];
    if e < |r| { ShiftedSlice(s, r, e + 1, |r|); }
  }

  lemma ShiftedSlice(s: seq<byte>, r: seq<byte>, i: nat, j: nat)
    requires s != [] && r == s[1..] && i <= j <= |r|
    ensures s[1 + i..1 + j] == r[i..j] && s[1 + i..] == r[i..]
  {
    var a, b, c, d := s[1 + i..1 + j], r[i..j], s[1 + i..], r[i..];
    assert |a| == |b| && forall k :: 0 <= k < |a| ==> a[k] == s[1 + i + k] == b[k];
    assert |c| == |d| && forall k :: 0 <= k < |c| ==> c[k] == s[1 + i + k] == d[k];
  }

  lemma OneBlankLess(s: seq<byte>)
    requires s != [] && s[0] == BLANK
    ensures Tokenize(s[1..]) == Tokenize(s)
  {
    hide TokenLen, SkipLen, FirstToken, Rest;
    if SkipLen(s[1..]) < |s[1..]| { BlankSplit(s); }
  }

  lemma LineStep(n: nat, t: seq<byte>, s: seq<byte>)
    requires IsToken(t) && (s == [] || s[0] == BLANK)
    ensures Tokenize(Blanks(n) + t + s) == [t] + Tokenize(s)
  {
    hide SkipLen, TokenLen, FirstToken, Rest;
    FirstOfLine(n, t, s);
    if s != [] { OneBlankLess(s); }
  }

  lemma BlankLine(n: nat)
    ensures Tokenize(Blanks(n)) == []
  {
    SkipBlanks(n, []);
    assert Blanks(n) + [] == Blanks(n);
  }

  /** Splitting a line gives back its words, however they are spaced. */
  lemma {:induction false} WordsComeBack(words: seq<seq<byte>>, gaps: seq<nat>, trailing: nat)
    requires |gaps| == |words| && (forall w :: w in words ==> IsToken(w))
    requires forall k :: 0 < k < |gaps| ==> gaps[k] > 0
    ensures Tokenize(Line(words, gaps, trailing)) == words
    decreases |words|
  {
    hide Tokenize, IsToken;
    if words == [] {
      BlankLine(trailing);
    } else {
      assert words[0] in words;
      assert forall k :: 0 < k < |gaps[1..]| ==> gaps[1..][k] == gaps[k + 1];
      WordsComeBack(words[1..], gaps[1..], trailing);
      LineStep(gaps[0], words[0], Line(words[1..], gaps[1..], trailing));
      assert words == [words[0]] + words[1..];
    }
  }

  // ----- The code -----

  /** The C string STR lies at S in the buffer. */
  ghost predicate StringAt(b: seq<byte>, s: nat, str: seq<byte>) {
    && s + |str| < |b| && b[s + |str|] == 0
    && (forall k {:trigger str[k]} :: 0 <= k < |str| ==> b[s + k] == str[k])
    && 0 !in str
  }

  /** The loop that skips delimiters; a null ends it as well. */
  method SkipDelimiters(b: array<byte>, s: nat, ghost str: seq<byte>) returns (p: nat)
    requires StringAt(b[..], s, str)
    ensures p == s + SkipLen(str) < b.Length
    ensures b[p] == 0 <==> SkipLen(str) == |str|
  {
    ghost var n := SkipLen(str);
    forall k | s <= k < s + n ensures b[k] == BLANK { assert str[k - s] == BLANK; }
    assert n < |str| ==> str[n] in str && b[s + n] == str[n];
    p := s;
    while p < b.Length && b[p] == BLANK
      invariant s <= p <= s + n
      decreases s + n - p
    {
      p := p + 1;
    }
  }

  /** The loop that finds the end of the token. */
  method SkipToken(b: array<byte>, t: nat, ghost str: seq<byte>) returns (p: nat)
    requires StringAt(b[..], t, str)
    ensures p == t + TokenLen(str) < b.Length
    ensures b[p] == 0 <==> TokenLen(str) == |str|
  {
    ghost var n := TokenLen(str);
    forall k | t <= k < t + n ensures b[k] != BLANK && b[k] != 0 { assert str[k - t] != BLANK && str[k - t] in str; }
    assert n < |str| ==> b[t + n] == str[n];
    p := t;
    while p < b.Length && b[p] != BLANK && b[p] != 0
      invariant t <= p <= t + n
      decreases t + n - p
    {
      p := p + 1;
    }
  }

  lemma StringSuffix(b: seq<byte>, s: nat, str: seq<byte>, n: nat)
    requires StringAt(b, s, str) && n <= |str|
    ensures StringAt(b, s + n, str[n..])
  {
    assert forall k :: 0 <= k < |str[n..]| ==> str[n..][k] == str[n + k];
  }

  /** strtok_r, from S on (S is the string, or what was saved the last time). */
  method StrtokR(b: array<byte>, s: nat, ghost str: seq<byte>) returns (token: Option<nat>, save: nat)
    requires StringAt(b[..], s, str)
    modifies b
    ensures SkipLen(str) == |str| ==> token == None && b[..] == old(b[..])
    ensures SkipLen(str) < |str| ==>
              var e := s + SkipLen(str) + |FirstToken(str)|;
              && token == Some(s + SkipLen(str)) && e < b.Length && b[..] == old(b[..])[e := 0]
              && e <= save && StringAt(b[..], save, Rest(str))
  {
    hide SkipLen, TokenLen, StringAt;
    StringFits(b[..], s, str);
    var t := SkipDelimiters(b, s, str);
    if b[t] == 0 { return None, t; }
    ghost var skip := SkipLen(str);
    StringSuffix(b[..], s, str, skip);
    var p := SkipToken(b, t, str[skip..]);
    ghost var len := TokenLen(str[skip..]);
    StringSuffix(b[..], t, str[skip..], len);
    assert str[skip..][len..] == str[skip + len..];
    if b[p] != 0 {
      StringSuffix(b[..], p, str[skip + len..], 1);
      assert str[skip + len..][1..] == Rest(str);
      StringBeyond(b[..], p, p + 1, Rest(str));
      b[p] := 0;
      save := p + 1;
    } else {
      save := p;
    }
    token := Some(t);
  }

  lemma StringFits(b: seq<byte>, s: nat, str: seq<byte>)
    requires StringAt(b, s, str)
    ensures s + |str| < |b|
  {
  }

  /** A null in front of a string does not touch it. */
  lemma StringBeyond(b: seq<byte>, p: nat, s: nat, str: seq<byte>)
    requires StringAt(b, s, str) && p < s
    ensures StringAt(b[p := 0], s, str)
  {
  }
}
