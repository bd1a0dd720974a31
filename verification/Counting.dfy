/** Counting the members of a sequence that satisfy a predicate, and sequences
    without repetitions. */
module Counting {

  ghost function Count<T>(s: seq<T>, p: T -> bool): nat {
    if s == [] then 0 else (if p(s[0]) then 1 else 0) + Count(s[1..], p)
  }

  lemma {:induction false} CountUpdate<T>(s: seq<T>, i: nat, x: T, p: T -> bool)
    requires i < |s|
    ensures Count(s[i := x], p) == Count(s, p) - (if p(s[i]) then 1 else 0) + (if p(x) then 1 else 0)
  {
    if i == 0 {
      assert s[0 := x][1..] == s[1..];
    } else {
      CountUpdate(s[1..], i - 1, x, p);
      assert s[i := x][1..] == s[1..][i - 1 := x];
    }
  }

  lemma {:induction false} CountSome<T>(s: seq<T>, p: T -> bool)
    ensures Count(s, p) == 0 <==> forall i :: 0 <= i < |s| ==> !p(s[i])
  {
    if s != [] {
      CountSome(s[1..], p);
      assert forall i :: 0 < i < |s| ==> s[i] == s[1..][i - 1];
    }
  }

  /** Two members that satisfy the predicate count as two. */
  lemma {:induction false} CountTwo<T>(s: seq<T>, i: nat, j: nat, p: T -> bool)
    requires i < j < |s| && p(s[i]) && p(s[j])
    ensures Count(s, p) >= 2
  {
    if i == 0 {
      CountSome(s[1..], p);
      assert s[j] == s[1..][j - 1];
    } else {
      CountTwo(s[1..], i - 1, j - 1, p);
    }
  }

  lemma {:induction false} CountSame<T>(s: seq<T>, s': seq<T>, p: T -> bool)
    requires |s'| == |s| && forall i :: 0 <= i < |s| ==> p(s'[i]) == p(s[i])
    ensures Count(s', p) == Count(s, p)
  {
    if s != [] {
      assert forall i :: 0 <= i < |s[1..]| ==> s'[1..][i] == s'[i + 1] && s[1..][i] == s[i + 1];
      CountSame(s[1..], s'[1..], p);
    }
  }

  lemma PopDistinct<T>(q: seq<T>)
    requires Distinct(q) && q != []
    ensures Distinct(q[1..]) && forall t :: t in q[1..] <==> t in q && t != q[0]
  {
    var w := q[1..];
    assert q == [q[0]] + w;
    forall i, j | 0 <= i < j < |w| ensures w[i] != w[j] { assert q[i + 1] != q[j + 1]; }
  }

  lemma PushDistinct<T>(q: seq<T>, x: T)
    requires Distinct(q) && x !in q
    ensures Distinct(q + [x]) && forall t :: t in q + [x] <==> t in q || t == x
  {
  }

  ghost predicate Distinct<T>(q: seq<T>) { forall i, j :: 0 <= i < j < |q| ==> q[i] != q[j] }
}
