/** Integer conversions of printf (lib/stdio.c), and what snprintf leaves in its
    buffer. */
module Printf {
  import opened Device

  /** The conversion's flags, width and precision; a negative precision means that
      none was given. */
  datatype Conversion = Conversion(minus: bool, plus: bool, space: bool, pound: bool, zero: bool, group: bool,
                                   width: int, precision: int)

  /** A base: its digits, the letter of its prefix or 0, and the size of groups. */
  datatype IntegerBase = IntegerBase(base: nat, digits: seq<byte>, x: byte, group: nat)

  const ZERO_DIGIT: byte := 48
  const SPACE: byte := 32
  const COMMA: byte := 44
  const BUF_SIZE := 64

  ghost predicate BaseOk(b: IntegerBase) { b.base >= 2 && |b.digits| == b.base && b.group > 0 }

  function Dup(ch: byte, cnt: nat): (s: seq<byte>)
    ensures |s| == cnt
    ensures forall k :: 0 <= k < |s| ==> s[k] == ch
  {
    seq(cnt, _ => ch)
  }

  function Reverse(s: seq<byte>): (r: seq<byte>)
    ensures |r| == |s|
  {
    if s == [] then [] else Reverse(s[1..]) + [s[0]]
  }

  /** The digits of VALUE, the last one first, with commas if asked for; CNT digits
      come before them. */
  ghost function DigitsOf(value: nat, b: IntegerBase, grouped: bool, cnt: nat): seq<byte>
    requires BaseOk(b)
    decreases value
  {
    if value == 0 then []
    else (if grouped && cnt > 0 && Remainder(cnt, b.group) == 0 then [COMMA] else [])
         + [b.digits[Remainder(value, b.base)]] + DigitsOf(Quotient(value, b.base), b, grouped, cnt + 1)
  }

  function Remainder(n: nat, m: nat): (r: nat)
    requires m > 0
    ensures r < m
  {
    n % m
  }

  function Quotient(value: nat, base: nat): (q: nat)
    requires base >= 2
    ensures value > 0 ==> q < value
  {
    QuotientSmaller(value, base);
    value / base
  }

  lemma QuotientSmaller(value: nat, base: nat)
    requires base >= 2
    ensures value > 0 ==> value / base < value
  {
    var q := value / base;
    assert value == base * q + value % base;
    TwiceAtMost(base, q);
  }

  lemma TwiceAtMost(base: nat, q: nat)
    requires base >= 2
    ensures base * q >= 2 * q
  {
  }

  /** The buffer when all digits are in it, still backwards. */
  ghost function Buffered(value: nat, b: IntegerBase, c: Conversion): seq<byte>
    requires BaseOk(b)
  {
    var digits := DigitsOf(value, b, c.group, 0);
    var precision := if c.precision < 0 then 1 else c.precision;
    var least := if precision < BUF_SIZE - 1 then precision else BUF_SIZE - 1;
    var padded := digits + Dup(ZERO_DIGIT, Clamped(least - |digits|));
    if c.pound && b.base == 8 && (padded == [] || padded[|padded| - 1] != ZERO_DIGIT) then padded + [ZERO_DIGIT] else padded
  }

  ghost function SignOf(isSigned: bool, negative: bool, c: Conversion): seq<byte> {
    if !isSigned then []
    else if negative then [45]
    else if c.plus then [43]
    else if c.space then [SPACE]
    else []
  }

  function PrefixOf(value: nat, b: IntegerBase, c: Conversion): seq<byte> {
    if c.pound && value != 0 && b.x != 0 then [ZERO_DIGIT, b.x] else []
  }

  /** What format_integer outputs: padding, sign, prefix, zeros, digits, padding. */
  ghost function Rendered(value: nat, isSigned: bool, negative: bool, b: IntegerBase, c: Conversion): seq<byte>
    requires BaseOk(b)
  {
    var digits := Buffered(value, b, c);
    var sign, prefix := SignOf(isSigned, negative, c), PrefixOf(value, b, c);
    var pad := Clamped(c.width - |digits| - |prefix| - |sign|);
    Front(sign, prefix, pad, c) + Reverse(digits) + (if c.minus then Dup(SPACE, pad) else [])
  }

  function Clamped(n: int): nat { if n < 0 then 0 else n }

  function Front(sign: seq<byte>, prefix: seq<byte>, pad: nat, c: Conversion): seq<byte> {
    (if !c.minus && !c.zero then Dup(SPACE, pad) else []) + sign + prefix + (if c.zero then Dup(ZERO_DIGIT, pad) else [])
  }

  /** The sign character, or 0 if none. */
  method ChooseSign(isSigned: bool, negative: bool, c: Conversion) returns (sign: byte)
    ensures SignOf(isSigned, negative, c) == if sign != 0 then [sign] else []
  {
    sign := 0;
    if isSigned {
      if c.plus {
        sign := if negative then 45 else 43;
      } else if c.space {
        sign := if negative then 45 else SPACE;
      } else if negative {
        sign := 45;
      }
    }
  }

  /** The buffer's contents, back to front. */
  method OutputBackwards(out: seq<byte>, buf: seq<byte>) returns (r: seq<byte>)
    ensures r == out + Reverse(buf)
  {
    r := out;
    var cp := |buf|;
    assert buf[..cp] == buf;
    while cp > 0
      invariant 0 <= cp <= |buf| && r + Reverse(buf[..cp]) == out + Reverse(buf)
    {
      cp := cp - 1;
      LastFirst(buf[..cp + 1]);
      assert buf[..cp + 1][..cp] == buf[..cp];
      r := r + [buf[cp]];
    }
  }

  method FormatInteger(value: nat, isSigned: bool, negative: bool, b: IntegerBase, c: Conversion)
    returns (out: seq<byte>)
    requires BaseOk(b)
    ensures out == Rendered(value, isSigned, negative, b, c)
  {
    hide Buffered, Reverse, SignOf, Dup, Front;
    var sign := ChooseSign(isSigned, negative, c);
    var x: byte := if c.pound && value != 0 then b.x else 0;
    var buf := Digits(value, b, c);
    var padCnt := c.width - |buf| - (if x != 0 then 2 else 0) - (if sign != 0 then 1 else 0);
    if padCnt < 0 { padCnt := 0; }
    ghost var prefix := PrefixOf(value, b, c);
    assert prefix == if x != 0 then [ZERO_DIGIT, x] else [];
    out := OutputFront(sign, x, padCnt, c);
    out := OutputBackwards(out, buf);
    if c.minus { out := out + Dup(SPACE, padCnt); } else { assert out + [] == out; }
  }

  /** What comes before the digits. */
  method OutputFront(sign: byte, x: byte, padCnt: nat, c: Conversion) returns (out: seq<byte>)
    ensures out == Front(if sign != 0 then [sign] else [], if x != 0 then [ZERO_DIGIT, x] else [], padCnt, c)
  {
    hide Dup;
    out := [];
    if !c.minus && !c.zero { out := out + Dup(SPACE, padCnt); }
    if sign != 0 { out := out + [sign]; }
    if x != 0 { out := out + [ZERO_DIGIT, x]; }
    if c.zero { out := out + Dup(ZERO_DIGIT, padCnt); }
  }

  lemma {:induction false} LastFirst(s: seq<byte>)
    requires s != []
    ensures Reverse(s) == [s[|s| - 1]] + Reverse(s[..|s| - 1])
  {
    if |s| > 1 {
      LastFirst(s[1..]);
      assert s[1..][..|s| - 2] == s[..|s| - 1][1..];
    }
  }

  /** The buffer with the digits in it. */
  method Accumulate(value: nat, b: IntegerBase, c: Conversion) returns (buf: seq<byte>)
    requires BaseOk(b)
    ensures buf == DigitsOf(value, b, c.group, 0)
  {
    hide Quotient, Remainder;
    buf := [];
    var digitCnt: nat, v: nat := 0, value;
    while v > 0
      invariant buf + DigitsOf(v, b, c.group, digitCnt) == DigitsOf(value, b, c.group, 0)
      decreases v
    {
      ghost var rest := DigitsOf(Quotient(v, b.base), b, c.group, digitCnt + 1);
      var comma := if c.group && digitCnt > 0 && Remainder(digitCnt, b.group) == 0 then [COMMA] else [];
      Regroup(buf, comma, [b.digits[Remainder(v, b.base)]], rest);
      buf := buf + comma;
      buf := buf + [b.digits[Remainder(v, b.base)]];
      v := Quotient(v, b.base);
      digitCnt := digitCnt + 1;
    }
  }

  lemma Regroup(a: seq<byte>, b: seq<byte>, c: seq<byte>, d: seq<byte>)
    ensures a + (b + c + d) == a + b + c + d
  {
  }

  /** The buffer's contents: the digits, and zeros to match the precision. */
  method Digits(value: nat, b: IntegerBase, c: Conversion) returns (buf: seq<byte>)
    requires BaseOk(b)
    ensures buf == Buffered(value, b, c)
  {
    hide DigitsOf;
    buf := Accumulate(value, b, c);
    ghost var digits := buf;
    var precision := if c.precision < 0 then 1 else c.precision;
    while |buf| < precision && |buf| < BUF_SIZE - 1
      invariant |digits| <= |buf| && buf == digits + Dup(ZERO_DIGIT, |buf| - |digits|)
      invariant |buf| == |digits| || (|buf| <= precision && |buf| <= BUF_SIZE - 1)
      decreases precision - |buf|
    {
      buf := buf + [ZERO_DIGIT];
    }
    if c.pound && b.base == 8 && (|buf| == 0 || buf[|buf| - 1] != ZERO_DIGIT) { buf := buf + [ZERO_DIGIT]; }
  }

  /** The field of SIZE bytes after snprintf put OUT in it, all zeros before. */
  function Terminated(out: seq<byte>, size: nat): (f: seq<byte>)
    requires size > 0
    ensures |f| == size
  {
    if |out| < size then out + Dup(0, size - |out|) else out[..size - 1] + [0]
  }

  // ----- The value of the output -----

  /** A base whose digits can be told apart from each other and from commas. */
  ghost predicate Readable(b: IntegerBase) {
    && BaseOk(b) && b.digits[0] == ZERO_DIGIT && COMMA !in b.digits
    && forall i, j :: 0 <= i < j < b.base ==> b.digits[i] != b.digits[j]
  }

  /** Which digit C is. */
  ghost function DigitIn(c: byte, b: IntegerBase): (d: nat)
    requires c in b.digits
    ensures d < |b.digits| && b.digits[d] == c
  {
    var d :| 0 <= d < |b.digits| && b.digits[d] == c;
    d
  }

  /** The number that S stands for, commas left out. */
  ghost function ReadAs(s: seq<byte>, b: IntegerBase): nat {
    if s == [] then 0
    else
      var before, c := ReadAs(s[..|s| - 1], b), s[|s| - 1];
      if c == COMMA || c !in b.digits then before else Appended(before, b.base, DigitIn(c, b))
  }

  ghost function Appended(before: nat, base: nat, digit: nat): nat { base * before + digit }

  lemma DivisionBack(value: nat, base: nat)
    requires base >= 2
    ensures Appended(Quotient(value, base), base, Remainder(value, base)) == value
  {
  }

  /** One more digit, in front of it a comma or not: it is behind, reversed. */
  lemma OneMoreDigit(comma: seq<byte>, digit: byte, rest: seq<byte>, b: IntegerBase)
    requires Readable(b) && digit in b.digits && (comma == [] || comma == [COMMA])
    ensures ReadAs(Reverse(comma + [digit] + rest), b) == Appended(ReadAs(Reverse(rest), b), b.base, DigitIn(digit, b))
  {
    hide Appended;
    var r := Reverse(rest);
    assert ([digit] + rest)[1..] == rest;
    assert Reverse([digit] + rest) == r + [digit];
    assert (r + [digit])[..|r|] == r;
    if comma == [COMMA] {
      assert (comma + [digit] + rest)[1..] == [digit] + rest;
      assert Reverse(comma + [digit] + rest) == r + [digit] + [COMMA];
      assert (r + [digit] + [COMMA])[..|r| + 1] == r + [digit];
    } else {
      assert comma + [digit] + rest == [digit] + rest;
    }
  }

  /** The digits that the loop leaves backwards are those of the value. */
  lemma {:induction false} DigitsReadBack(value: nat, b: IntegerBase, grouped: bool, cnt: nat)
    requires Readable(b)
    ensures ReadAs(Reverse(DigitsOf(value, b, grouped, cnt)), b) == value
    decreases value
  {
    hide Reverse, Appended, Quotient, Remainder, ReadAs;
    if value == 0 {
      ReadNothing(b);
    } else {
      var q := Quotient(value, b.base);
      var digit := b.digits[Remainder(value, b.base)];
      DigitsReadBack(q, b, grouped, cnt + 1);
      var comma := if grouped && cnt > 0 && Remainder(cnt, b.group) == 0 then [COMMA] else [];
      OneMoreDigit(comma, digit, DigitsOf(q, b, grouped, cnt + 1), b);
      assert DigitIn(digit, b) == Remainder(value, b.base);
      DivisionBack(value, b.base);
    }
  }

  lemma ReadNothing(b: IntegerBase)
    ensures ReadAs(Reverse([]), b) == 0
  {
  }

  /** Zeros in front do not change the value. */
  lemma {:induction false} ZerosInFront(n: nat, s: seq<byte>, b: IntegerBase)
    requires Readable(b)
    ensures ReadAs(Dup(ZERO_DIGIT, n) + s, b) == ReadAs(s, b)
  {
    var t := Dup(ZERO_DIGIT, n) + s;
    if s != [] {
      ZerosInFront(n, s[..|s| - 1], b);
      assert t[..|t| - 1] == Dup(ZERO_DIGIT, n) + s[..|s| - 1];
    } else if n > 0 {
      ZerosInFront(n - 1, [], b);
      assert t[..n - 1] == Dup(ZERO_DIGIT, n - 1) + [];
      assert DigitIn(ZERO_DIGIT, b) == 0;
    }
  }

  /** Zeros behind, reversed, are zeros in front. */
  lemma {:induction false} ReverseZeros(s: seq<byte>, n: nat)
    ensures Reverse(s + Dup(ZERO_DIGIT, n)) == Dup(ZERO_DIGIT, n) + Reverse(s)
    decreases n
  {
    var t := s + Dup(ZERO_DIGIT, n);
    if n == 0 {
      assert t == s;
    } else {
      LastFirst(t);
      assert t[..|t| - 1] == s + Dup(ZERO_DIGIT, n - 1);
      ReverseZeros(s, n - 1);
      assert [ZERO_DIGIT] + Dup(ZERO_DIGIT, n - 1) == Dup(ZERO_DIGIT, n);
    }
  }

  /** In every base, with or without commas, whatever the flags: the digits that are
      put out have the value. */
  lemma RenderedValue(value: nat, isSigned: bool, negative: bool, b: IntegerBase, c: Conversion)
    requires Readable(b)
    ensures var digits := Reverse(Buffered(value, b, c));
            && ReadAs(digits, b) == value
            && exists before, after :: Rendered(value, isSigned, negative, b, c) == before + digits + after
  {
    hide Reverse, ReadAs, Dup, Front;
    var digits := DigitsOf(value, b, c.group, 0);
    var n := |Buffered(value, b, c)| - |digits|;
    BufferedIs(value, b, c);
    ReverseZeros(digits, n);
    DigitsReadBack(value, b, c.group, 0);
    ZerosInFront(n, Reverse(digits), b);
    var sign, prefix := SignOf(isSigned, negative, c), PrefixOf(value, b, c);
    var pad := Clamped(c.width - |Buffered(value, b, c)| - |prefix| - |sign|);
    var before, after := Front(sign, prefix, pad, c), if c.minus then Dup(SPACE, pad) else [];
    assert Rendered(value, isSigned, negative, b, c) == before + Reverse(Buffered(value, b, c)) + after;
  }

  /** How many characters since the last comma, when CNT digits have been put out. */
  ghost function Since(cnt: nat, group: nat): nat
    requires group > 0
  {
    if cnt == 0 then 0 else Remainder(cnt - 1, group) + 1
  }

  lemma SinceNext(cnt: nat, group: nat)
    requires group > 0
    ensures Since(cnt, group) <= group
    ensures Since(cnt, group) == group <==> cnt > 0 && Remainder(cnt, group) == 0
    ensures Since(cnt + 1, group) == if Since(cnt, group) == group then 1 else Since(cnt, group) + 1
  {
    if cnt > 0 { RemainderNext(cnt - 1, group); }
  }

  lemma RemainderNext(n: nat, m: nat)
    requires m > 0
    ensures Remainder(n + 1, m) == if Remainder(n, m) + 1 == m then 0 else Remainder(n, m) + 1
  {
    var q, r := n / m, n % m;
    if r + 1 == m {
      assert n + 1 == m * (q + 1);
      RemainderIs(n + 1, m, q + 1, 0);
    } else {
      RemainderIs(n + 1, m, q, r + 1);
    }
  }

  lemma RemainderIs(n: nat, m: nat, q: nat, r: nat)
    requires n == m * q + r && r < m
    ensures Remainder(n, m) == r
  {
    var d := n / m - q;
    assert m * d == r - n % m;
    assert d >= 1 ==> m * d >= m;
    assert d <= -1 ==> m * d + m <= 0;
  }

  /** A comma is behind each group of digits, counted from the last digit, and
      nowhere else; and there is no zero in front. */
  ghost predicate Arrayed(s: seq<byte>, b: IntegerBase, grouped: bool, since: nat)
    requires BaseOk(b)
  {
    && (forall k :: 0 <= k < |s| ==> (s[k] == COMMA <==> grouped && Remainder(k + since, b.group + 1) == b.group))
    && (s != [] ==> s[|s| - 1] != b.digits[0] && s[|s| - 1] != COMMA)
  }

  lemma SmallRemainder(k: nat, m: nat)
    requires k < m
    ensures Remainder(k, m) == k && Remainder(k + m, m) == k
  {
    RemainderIs(k, m, 0, k);
    RemainderIs(k + m, m, 1, k);
  }

  lemma RoundAgain(k: nat, m: nat)
    requires m > 0
    ensures Remainder(k + m, m) == Remainder(k, m)
  {
    RemainderIs(k + m, m, k / m + 1, k % m);
  }

  /** One more digit in front of the others, which had one more since the comma. */
  lemma ArrayedMore(digit: byte, rest: seq<byte>, b: IntegerBase, grouped: bool, since: nat)
    requires Readable(b) && digit in b.digits && Arrayed(rest, b, grouped, since + 1) && since < b.group
    requires rest == [] ==> digit != b.digits[0]
    ensures Arrayed([digit] + rest, b, grouped, since)
  {
    hide Remainder;
    SmallRemainder(since, b.group + 1);
    forall k | 0 <= k < |[digit] + rest|
      ensures ([digit] + rest)[k] == COMMA <==> grouped && Remainder(k + since, b.group + 1) == b.group
    {
      if k > 0 { assert rest[k - 1] == COMMA <==> grouped && Remainder(k - 1 + (since + 1), b.group + 1) == b.group; }
    }
  }

  /** Without commas the count does not matter; with them, a full group starts over. */
  lemma ArrayedAnew(rest: seq<byte>, b: IntegerBase, grouped: bool)
    requires Readable(b) && Arrayed(rest, b, grouped, 0)
    ensures !grouped ==> forall since :: Arrayed(rest, b, grouped, since)
    ensures grouped && rest != [] ==> Arrayed([COMMA] + rest, b, grouped, b.group)
  {
    hide Remainder;
    if grouped && rest != [] {
      SmallRemainder(b.group, b.group + 1);
      forall k | 0 <= k < |[COMMA] + rest|
        ensures ([COMMA] + rest)[k] == COMMA <==> Remainder(k + b.group, b.group + 1) == b.group
      {
        if k > 0 {
          RoundAgain(k - 1, b.group + 1);
          assert rest[k - 1] == COMMA <==> Remainder(k - 1 + 0, b.group + 1) == b.group;
        }
      }
    }
  }

  lemma {:induction false} DigitsArrayed(value: nat, b: IntegerBase, grouped: bool, cnt: nat)
    requires Readable(b)
    ensures Arrayed(DigitsOf(value, b, grouped, cnt), b, grouped, Since(cnt, b.group))
    ensures DigitsOf(value, b, grouped, cnt) == [] <==> value == 0
    decreases value
  {
    hide Arrayed, Since, Remainder, Quotient;
    if value == 0 {
      NoneArrayed(b, grouped, Since(cnt, b.group));
    } else {
      var q, digit := Quotient(value, b.base), b.digits[Remainder(value, b.base)];
      var rest := DigitsOf(q, b, grouped, cnt + 1);
      DigitsArrayed(q, b, grouped, cnt + 1);
      SinceNext(cnt, b.group);
      LeadingDigit(value, b);
      if Since(cnt, b.group) == b.group {
        ArrayedMore(digit, rest, b, grouped, 0);
        ArrayedAnew([digit] + rest, b, grouped);
        assert [COMMA] + [digit] + rest == [COMMA] + ([digit] + rest);
      } else {
        ArrayedMore(digit, rest, b, grouped, Since(cnt, b.group));
      }
      assert [] + [digit] + rest == [digit] + rest;
    }
  }

  lemma NoneArrayed(b: IntegerBase, grouped: bool, since: nat)
    requires BaseOk(b)
    ensures Arrayed([], b, grouped, since)
  {
  }

  lemma LeadingDigit(value: nat, b: IntegerBase)
    requires Readable(b) && value > 0
    ensures Quotient(value, b.base) == 0 ==> b.digits[Remainder(value, b.base)] != b.digits[0]
  {
    DivisionBack(value, b.base);
  }

  /** What is in the buffer, backwards: N characters are the digits, with a comma
      behind each group of them if asked for, and no zero in front; zeros follow, up
      to the precision, or one if none is given; and an octal number with the # flag
      has a zero in front, one more if there is none. */
  lemma BufferedShape(value: nat, b: IntegerBase, c: Conversion) returns (n: nat)
    requires Readable(b)
    ensures var s := Buffered(value, b, c);
            var least := if c.precision < 0 then 1 else if c.precision < 63 then c.precision else 63;
            && n <= |s| && (n == 0 <==> value == 0)
            && (forall k :: 0 <= k < n ==> (s[k] == COMMA <==> c.group && k % (b.group + 1) == b.group))
            && (n > 0 ==> s[n - 1] != ZERO_DIGIT && s[n - 1] != COMMA)
            && (forall k :: n <= k < |s| ==> s[k] == ZERO_DIGIT)
            && |s| == (if n < least then least else n)
                      + (if c.pound && b.base == 8 && n >= least then 1 else 0)
  {
    hide DigitsOf;
    DigitsArrayed(value, b, c.group, 0);
    n := |DigitsOf(value, b, c.group, 0)|;
  }

  /** The shape of the output, for conversions that are not both left-justified and
      zero-padded: a negative number has a minus sign; the whole is as wide as asked
      for, or as it has to be; and the padding is in front, between prefix and
      digits, or behind. */
  lemma RenderedShape(value: nat, isSigned: bool, negative: bool, b: IntegerBase, c: Conversion)
    requires BaseOk(b) && !(c.minus && c.zero)
    ensures var digits := Reverse(Buffered(value, b, c));
            var sign: seq<byte> := if isSigned && negative then ['-' as byte] else if isSigned && c.plus then ['+' as byte]
                                   else if isSigned && c.space then [' ' as byte] else [];
            var prefix := if c.pound && value != 0 && b.x != 0 then ['0' as byte, b.x] else [];
            var wide := |sign| + |prefix| + |digits|;
            var pad := if c.width > wide then c.width - wide else 0;
            var r := Rendered(value, isSigned, negative, b, c);
            && (c.minus ==> r == sign + prefix + digits + Dup(' ' as byte, pad))
            && (c.zero ==> r == sign + prefix + Dup('0' as byte, pad) + digits)
            && (!c.minus && !c.zero ==> r == Dup(' ' as byte, pad) + sign + prefix + digits)
            && |r| == wide + pad
  {
    hide Buffered, Reverse, Dup, Front;
    ReverseLength(Buffered(value, b, c));
    var sign, prefix := SignOf(isSigned, negative, c), PrefixOf(value, b, c);
    var pad := Clamped(c.width - |Buffered(value, b, c)| - |prefix| - |sign|);
    Arranged(sign, prefix, Reverse(Buffered(value, b, c)), pad, c);
  }

  /** The parts of the output in their order. */
  lemma Arranged(sign: seq<byte>, prefix: seq<byte>, digits: seq<byte>, pad: nat, c: Conversion)
    requires !(c.minus && c.zero)
    ensures var r := Front(sign, prefix, pad, c) + digits + (if c.minus then Dup(SPACE, pad) else []);
            && (c.minus ==> r == sign + prefix + digits + Dup(SPACE, pad))
            && (c.zero ==> r == sign + prefix + Dup(ZERO_DIGIT, pad) + digits)
            && (!c.minus && !c.zero ==> r == Dup(SPACE, pad) + sign + prefix + digits)
            && |r| == |sign| + |prefix| + |digits| + pad
  {
    hide Dup;
    var front := (if !c.minus && !c.zero then Dup(SPACE, pad) else []) + sign + prefix;
    assert front + [] == front && [] + sign == sign;
    assert Front(sign, prefix, pad, c) + digits + [] == Front(sign, prefix, pad, c) + digits;
  }

  lemma BufferedIs(value: nat, b: IntegerBase, c: Conversion)
    requires BaseOk(b)
    ensures var digits := DigitsOf(value, b, c.group, 0);
            && |Buffered(value, b, c)| >= |digits|
            && Buffered(value, b, c) == digits + Dup(ZERO_DIGIT, |Buffered(value, b, c)| - |digits|)
  {
  }

  // ----- Zero-padded octal -----

  function Octal(): IntegerBase { IntegerBase(8, [48, 49, 50, 51, 52, 53, 54, 55], 0, 3) }

  /** The conversion "%0<width>o". */
  function ZeroPadded(width: nat): Conversion { Conversion(false, false, false, false, true, false, width, -1) }

  predicate IsOctalDigit(c: byte) { 48 <= c <= 55 }

  /** The number that octal digits stand for. */
  ghost function OctalValue(s: seq<byte>): nat {
    if s == [] then 0 else 8 * OctalValue(s[..|s| - 1]) + DigitValue(s[|s| - 1])
  }

  function DigitValue(c: byte): nat { if IsOctalDigit(c) then c as int - 48 else 0 }

  ghost predicate AllOctal(s: seq<byte>) { forall k :: 0 <= k < |s| ==> IsOctalDigit(s[k]) }

  function Power8(n: nat): nat { if n == 0 then 1 else 8 * Power8(n - 1) }

  /** One more octal digit at the front of the backward digits. */
  lemma OctalStep(digit: byte, rest: seq<byte>)
    requires IsOctalDigit(digit) && AllOctal(Reverse(rest))
    ensures var r := Reverse([digit] + rest);
            |r| == |Reverse(rest)| + 1 && AllOctal(r) && OctalValue(r) == 8 * OctalValue(Reverse(rest)) + DigitValue(digit)
  {
    var r := Reverse(rest) + [digit];
    assert ([digit] + rest)[1..] == rest;
    assert r[..|r| - 1] == Reverse(rest);
  }

  lemma DividedBy8(value: nat, n: nat)
    requires 0 < value < Power8(n)
    ensures n > 0 && Quotient(value, 8) < Power8(n - 1) && value == 8 * Quotient(value, 8) + Remainder(value, 8)
  {
  }

  /** Digits that come out of the loop backwards have the value that went in. */
  lemma {:induction false} DigitsValue(value: nat, cnt: nat, n: nat)
    requires value < Power8(n)
    ensures var r := Reverse(DigitsOf(value, Octal(), false, cnt)); AllOctal(r) && OctalValue(r) == value && |r| <= n
    decreases value
  {
    hide Quotient, Remainder, AllOctal, Power8;
    if value > 0 {
      var q := Quotient(value, 8);
      DividedBy8(value, n);
      DigitsValue(q, cnt + 1, n - 1);
      var digit := Octal().digits[Remainder(value, 8)];
      var rest := DigitsOf(q, Octal(), false, cnt + 1);
      OctalStep(digit, rest);
      assert DigitsOf(value, Octal(), false, cnt) == [digit] + rest;
    } else {
      assert AllOctal([]) by { NoDigits(); }
    }
  }

  lemma NoDigits()
    ensures AllOctal([])
  {
  }

  lemma {:induction false} LeadingZeros(n: nat, s: seq<byte>)
    requires AllOctal(s)
    ensures AllOctal(Dup(ZERO_DIGIT, n) + s) && OctalValue(Dup(ZERO_DIGIT, n) + s) == OctalValue(s)
  {
    var t := Dup(ZERO_DIGIT, n) + s;
    if s != [] {
      LeadingZeros(n, s[..|s| - 1]);
      assert t[..|t| - 1] == Dup(ZERO_DIGIT, n) + s[..|s| - 1];
    } else if n > 0 {
      LeadingZeros(n - 1, []);
      assert t[..n - 1] == Dup(ZERO_DIGIT, n - 1) + [];
    }
  }

  /** The significant digits of VALUE: 0 has one. */
  ghost function Significant(value: nat): seq<byte> {
    if value == 0 then [ZERO_DIGIT] else Reverse(DigitsOf(value, Octal(), false, 0))
  }

  lemma SignificantValue(value: nat, width: nat)
    requires value < Power8(width) && width > 0
    ensures var d := Significant(value); AllOctal(d) && OctalValue(d) == value && |d| <= width
  {
    DigitsValue(value, 0, width);
    assert OctalValue([ZERO_DIGIT]) == 8 * OctalValue([ZERO_DIGIT][..0]);
  }

  lemma BufferedOctal(value: nat, width: nat)
    ensures Reverse(Buffered(value, Octal(), ZeroPadded(width))) == Significant(value)
  {
    hide Remainder, Quotient;
    var digits := DigitsOf(value, Octal(), false, 0);
    var buf := Buffered(value, Octal(), ZeroPadded(width));
    if value == 0 {
      assert buf == [ZERO_DIGIT];
      assert Reverse(buf) == Reverse(buf[1..]) + [ZERO_DIGIT] == [ZERO_DIGIT];
    } else {
      assert buf == digits;
    }
  }

  lemma RenderedOctal(value: nat, width: nat)
    ensures Rendered(value, false, false, Octal(), ZeroPadded(width))
            == Dup(ZERO_DIGIT, Clamped(width - |Significant(value)|)) + Significant(value)
  {
    hide Buffered, Reverse, Significant, Dup;
    BufferedOctal(value, width);
    ReverseLength(Buffered(value, Octal(), ZeroPadded(width)));
  }

  lemma ReverseLength(s: seq<byte>)
    ensures |Reverse(s)| == |s|
  {
  }

  /** A number that fits is rendered as WIDTH octal digits with its value. */
  lemma OctalFieldValue(value: nat, width: nat)
    requires value < Power8(width) && width > 0
    ensures var s := Rendered(value, false, false, Octal(), ZeroPadded(width));
            |s| == width && AllOctal(s) && OctalValue(s) == value
  {
    hide Rendered, Significant, AllOctal, OctalValue;
    RenderedOctal(value, width);
    SignificantValue(value, width);
    LeadingZeros(width - |Significant(value)|, Significant(value));
  }
}
