/** The string operations of the modelled code: decimal text, `int()`, `str.split`, `str.join`,
    `str.strip`, and the code-point order of strings. */
module Text {
  import opened Prelude

  // ---- Decimal numerals ----

  predicate IsDigit(c: char) {
    '0' <= c <= '9'
  }

  predicate AllDigits(s: string) {
    forall i :: 0 <= i < |s| ==> IsDigit(s[i])
  }

  function DigitValue(c: char): (d: nat)
    requires IsDigit(c)
    ensures d < 10
  {
    c as int - '0' as int
  }

  function DigitChar(d: nat): (c: char)
    requires d < 10
    ensures IsDigit(c) && DigitValue(c) == d
  {
    ('0' as int + d) as char
  }

  /** `str(n)` for a natural number. */
  function Decimal(n: nat): (s: string)
    ensures s != [] && AllDigits(s)
    ensures |s| > 1 ==> s[0] != '0'
  {
    if n < 10 then [DigitChar(n)] else Decimal(n / 10) + [DigitChar(n % 10)]
  }

  /** The number that a string of digits denotes; the empty string denotes 0. */
  function DigitsValue(s: string): nat
    requires AllDigits(s)
  {
    if s == [] then 0 else DigitsValue(s[..|s| - 1]) * 10 + DigitValue(s[|s| - 1])
  }

  lemma {:induction false} DecimalRoundTrip(n: nat)
    ensures DigitsValue(Decimal(n)) == n
  {
    var s := Decimal(n);
    if n >= 10 {
      DecimalRoundTrip(n / 10);
      assert s[..|s| - 1] == Decimal(n / 10);
    } else {
      assert s[..|s| - 1] == [];
    }
  }

  lemma DecimalInjective(m: nat, n: nat)
    ensures Decimal(m) == Decimal(n) <==> m == n
  {
    DecimalRoundTrip(m);
    DecimalRoundTrip(n);
  }

  /** Appending digits never lowers the number. */
  lemma {:induction false} DigitsValueExtend(s: string, t: string)
    requires AllDigits(s) && AllDigits(t)
    ensures AllDigits(s + t) && DigitsValue(s + t) >= DigitsValue(s)
    decreases |t|
  {
    if t == [] {
      assert s + t == s;
    } else {
      var u := t[..|t| - 1];
      DigitsValueExtend(s, u);
      assert (s + t)[..|s + t| - 1] == s + u;
    }
  }

  // ---- Python's int() on text ----

  /** White space that `int()` and the C library's isspace accept. */
  predicate IsAsciiSpace(c: char) {
    c == ' ' || 9 <= c as int <= 13
  }

  /** White space of `str.strip()`. */
  predicate IsSpace(c: char) {
    var u := c as int;
    || 9 <= u <= 13 || 28 <= u <= 32 || u == 0x85 || u == 0xA0 || u == 0x1680
    || 0x2000 <= u <= 0x200A || u == 0x2028 || u == 0x2029 || u == 0x202F || u == 0x205F || u == 0x3000
  }

  function StripLeft(space: char -> bool, s: string): (r: string)
    ensures |r| <= |s| && r == s[|s| - |r|..]
    ensures r != [] ==> !space(r[0])
    ensures s != [] && !space(s[0]) ==> r == s
  {
    if s != [] && space(s[0]) then StripLeft(space, s[1..]) else s
  }

  function StripRight(space: char -> bool, s: string): (r: string)
    ensures r <= s
    ensures r != [] ==> !space(r[|r| - 1])
    ensures s != [] && !space(s[|s| - 1]) ==> r == s
  {
    if s != [] && space(s[|s| - 1]) then StripRight(space, s[..|s| - 1]) else s
  }

  function StripBy(space: char -> bool, s: string): (r: string)
    ensures r != [] ==> !space(r[0]) && !space(r[|r| - 1])
    ensures s != [] && !space(s[0]) && !space(s[|s| - 1]) ==> r == s
  {
    StripRight(space, StripLeft(space, s))
  }

  /** `s.strip()`. */
  function Strip(s: string): (r: string)
    ensures r != [] ==> !IsSpace(r[0]) && !IsSpace(r[|r| - 1])
    ensures s != [] && !IsSpace(s[0]) && !IsSpace(s[|s| - 1]) ==> r == s
  {
    hide StripBy, IsSpace;
    StripBy(IsSpace, s)
  }

  /** Digits, with single underscores allowed between two digits. */
  predicate IsDigitGroup(s: string) {
    && s != [] && IsDigit(s[0]) && IsDigit(s[|s| - 1])
    && (forall i :: 0 <= i < |s| ==> IsDigit(s[i]) || s[i] == '_')
    && (forall i :: 0 <= i < |s| - 1 ==> IsDigit(s[i]) || IsDigit(s[i + 1]))
  }

  function GroupValue(s: string): nat
    requires IsDigitGroup(s)
  {
    DigitsValue(Filter(IsDigit, s))
  }

  /** An optional sign and a group of digits. */
  function SignedGroup(t: string): Option<int> {
    if t != [] && (t[0] == '-' || t[0] == '+') then
      if !IsDigitGroup(t[1..]) then None
      else if t[0] == '-' then Some(0 - GroupValue(t[1..]))
      else Some(GroupValue(t[1..]))
    else if IsDigitGroup(t) then Some(GroupValue(t))
    else None
  }

  /** `int(s)` in base 10; None is the ValueError. */
  function PyInt(s: string): Option<int> {
    SignedGroup(StripBy(IsAsciiSpace, s))
  }

  lemma DigitsAreGroup(s: string)
    requires s != [] && AllDigits(s)
    ensures IsDigitGroup(s) && GroupValue(s) == DigitsValue(s)
  {
    FilterAllDigits(s);
  }

  lemma {:induction false} FilterAllDigits(s: string)
    requires AllDigits(s)
    ensures Filter(IsDigit, s) == s
  {
    if s != [] { FilterAllDigits(s[1..]); }
  }

  lemma PyIntOfDigits(s: string)
    requires s != [] && AllDigits(s)
    ensures PyInt(s) == Some(DigitsValue(s))
  {
    hide IsDigitGroup, GroupValue, DigitsValue, StripBy;
    DigitsAreGroup(s);
    assert IsDigit(s[0]) && IsDigit(s[|s| - 1]);
  }

  lemma PyIntOfDecimal(n: nat)
    ensures PyInt(Decimal(n)) == Some(n)
  {
    PyIntOfDigits(Decimal(n));
    DecimalRoundTrip(n);
  }

  /** `str(n)` for an integer. */
  function IntText(n: int): (s: string)
    ensures forall i :: 0 <= i < |s| ==> s[i] == '-' || IsDigit(s[i])
  {
    if n < 0 then "-" + Decimal(0 - n) else Decimal(n)
  }

  lemma PyIntOfIntText(n: int)
    ensures PyInt(IntText(n)) == Some(n)
  {
    hide PyInt, Decimal;
    if n < 0 { PyIntOfNegative(0 - n); } else { PyIntOfDecimal(n); }
  }

  lemma PyIntOfNegative(n: nat)
    ensures PyInt("-" + Decimal(n)) == Some(0 - n)
  {
    hide Decimal, IsDigitGroup, GroupValue, DigitsValue, StripBy;
    var d := Decimal(n);
    var t := "-" + d;
    DigitsAreGroup(d);
    DecimalRoundTrip(n);
    assert t[|t| - 1] == d[|d| - 1] && IsDigit(d[|d| - 1]);
    assert t[0] == '-' && t[1..] == d;
  }

  // ---- split and join ----

  /** `s.split(sep)` for a one-character separator. */
  function Split(s: string, sep: char): (parts: seq<string>)
    ensures parts != []
    ensures forall p :: p in parts ==> sep !in p
  {
    if s == [] then [[]]
    else
      var rest := Split(s[1..], sep);
      if s[0] == sep then [[]] + rest
      else [[s[0]] + rest[0]] + rest[1..]
  }

  /** `sep.join(parts)` for a one-character separator. */
  function Join(parts: seq<string>, sep: char): string {
    if parts == [] then []
    else if |parts| == 1 then parts[0]
    else parts[0] + [sep] + Join(parts[1..], sep)
  }

  lemma {:induction false} JoinOfSplit(s: string, sep: char)
    ensures Join(Split(s, sep), sep) == s
  {
    if s != [] {
      JoinOfSplit(s[1..], sep);
      var rest := Split(s[1..], sep);
      if s[0] == sep {
        assert Split(s, sep)[1..] == rest;
      } else {
        assert Split(s, sep)[1..] == rest[1..];
      }
    }
  }

  lemma {:induction false} SplitOfPart(p: string, sep: char)
    requires sep !in p
    ensures Split(p, sep) == [p]
  {
    if p != [] {
      assert p[0] in p;
      SplitOfPart(p[1..], sep);
      assert [p[0]] + p[1..] == p;
    }
  }

  lemma {:induction false} SplitAtSeparator(p: string, rest: string, sep: char)
    requires sep !in p
    ensures Split(p + [sep] + rest, sep) == [p] + Split(rest, sep)
  {
    var s := p + [sep] + rest;
    if p == [] {
      assert s[1..] == rest;
    } else {
      assert s[0] == p[0] && p[0] in p;
      assert s[1..] == p[1..] + [sep] + rest;
      SplitAtSeparator(p[1..], rest, sep);
      assert [p[0]] + p[1..] == p;
      assert ([p[1..]] + Split(rest, sep))[1..] == Split(rest, sep);
    }
  }

  lemma {:induction false} SplitOfJoin(parts: seq<string>, sep: char)
    requires parts != [] && forall p :: p in parts ==> sep !in p
    ensures Split(Join(parts, sep), sep) == parts
  {
    if |parts| == 1 {
      SplitOfPart(parts[0], sep);
    } else {
      SplitOfJoin(parts[1..], sep);
      SplitAtSeparator(parts[0], Join(parts[1..], sep), sep);
    }
  }

  // ---- Lexicographic order ----

  /** The order of Python tuples and lists of integers. */
  predicate LexLe(a: seq<int>, b: seq<int>) {
    if a == [] then true
    else if b == [] then false
    else if a[0] != b[0] then a[0] < b[0]
    else LexLe(a[1..], b[1..])
  }

  predicate LexLt(a: seq<int>, b: seq<int>) {
    !LexLe(b, a)
  }

  lemma LexTotal(a: seq<int>, b: seq<int>)
    ensures LexLe(a, b) || LexLe(b, a)
  {}

  lemma {:induction false} LexAntisymmetric(a: seq<int>, b: seq<int>)
    requires LexLe(a, b) && LexLe(b, a)
    ensures a == b
  {
    if a != [] {
      LexAntisymmetric(a[1..], b[1..]);
      assert a == [a[0]] + a[1..] && b == [b[0]] + b[1..];
    }
  }

  lemma {:induction false} LexTransitive(a: seq<int>, b: seq<int>, c: seq<int>)
    requires LexLe(a, b) && LexLe(b, c)
    ensures LexLe(a, c)
  {
    if a != [] && a[0] == b[0] == c[0] {
      LexTransitive(a[1..], b[1..], c[1..]);
    }
  }

  lemma {:induction false} LexPrefix(a: seq<int>, b: seq<int>)
    ensures LexLe(a, a + b)
  {
    if a != [] {
      assert (a + b)[1..] == a[1..] + b;
      LexPrefix(a[1..], b);
    }
  }

  /** Code points of a string; strings are ordered by these. */
  function Codes(s: string): (r: seq<int>)
    ensures |r| == |s|
  {
    seq(|s|, i requires 0 <= i < |s| => s[i] as int)
  }

  lemma CodesInjective(s: string, t: string)
    requires Codes(s) == Codes(t)
    ensures s == t
  {
    forall i | 0 <= i < |s| ensures s[i] == t[i] {
      assert Codes(s)[i] == Codes(t)[i];
    }
  }

  predicate StringLe(s: string, t: string) {
    LexLe(Codes(s), Codes(t))
  }

  lemma StringAntisymmetric(s: string, t: string)
    requires StringLe(s, t) && StringLe(t, s)
    ensures s == t
  {
    LexAntisymmetric(Codes(s), Codes(t));
    CodesInjective(s, t);
  }

  // ---- Letters ----

  /** `c.lower()` on ASCII letters. */
  function LowerChar(c: char): char {
    if 'A' <= c <= 'Z' then (c as int + 32) as char else c
  }

  function Lower(s: string): (r: string)
    ensures |r| == |s|
  {
    seq(|s|, i requires 0 <= i < |s| => LowerChar(s[i]))
  }

  predicate StartsWith(s: string, prefix: string) {
    prefix <= s
  }

  /** The longest leading run of digits. */
  function LeadingDigits(s: string): (r: string)
    ensures r <= s && AllDigits(r)
    ensures |r| < |s| ==> !IsDigit(s[|r|])
  {
    if s != [] && IsDigit(s[0]) then [s[0]] + LeadingDigits(s[1..]) else []
  }

  lemma {:induction false} LeadingDigitsOf(digits: string, rest: string)
    requires AllDigits(digits) && (rest == [] || !IsDigit(rest[0]))
    ensures LeadingDigits(digits + rest) == digits
  {
    if digits == [] {
      assert digits + rest == rest;
    } else {
      assert (digits + rest)[1..] == digits[1..] + rest;
      LeadingDigitsOf(digits[1..], rest);
    }
  }

  // ---- The same operations, said in other words ----

  /** Numerals are written with the ten digits, the most significant first. */
  lemma DecimalSpelled(n: nat)
    ensures Decimal(n) == (if n < 10 then [] else Decimal(n / 10)) + ["0123456789"[n % 10]]
  {}

  lemma LowerSpelled(s: string)
    ensures forall k :: 0 <= k < |s| ==>
              Lower(s)[k] == if s[k] in "ABCDEFGHIJKLMNOPQRSTUVWXYZ" then s[k] + (32 as char) else s[k]
  {
    forall c: char ensures c in "ABCDEFGHIJKLMNOPQRSTUVWXYZ" <==> 'A' <= c <= 'Z' {
      assert 'A' <= c <= 'Z' ==> "ABCDEFGHIJKLMNOPQRSTUVWXYZ"[c as int - 65] == c;
    }
  }

  /** Lexicographic order: a prefix, or smaller at the first difference. */
  lemma {:induction false} LexLeIff(a: seq<int>, b: seq<int>)
    ensures LexLe(a, b) <==> a <= b || exists k :: 0 <= k < |a| && k < |b| && a[..k] == b[..k] && a[k] < b[k]
  {
    if a != [] && b != [] {
      LexLeIff(a[1..], b[1..]);
      if a[0] < b[0] {
        assert a[..0] == b[..0];
      } else if a[0] == b[0] {
        assert a == [a[0]] + a[1..] && b == [b[0]] + b[1..];
        if k :| 0 <= k < |a[1..]| && k < |b[1..]| && a[1..][..k] == b[1..][..k] && a[1..][k] < b[1..][k] {
          assert a[..k + 1] == [a[0]] + a[1..][..k] && b[..k + 1] == [b[0]] + b[1..][..k];
          assert a[k + 1] < b[k + 1];
        }
        if k :| 0 <= k < |a| && k < |b| && a[..k] == b[..k] && a[k] < b[k] {
          assert a[1..][..k - 1] == a[..k][1..] && b[1..][..k - 1] == b[..k][1..];
          assert a[1..][k - 1] < b[1..][k - 1];
        }
      } else {
        SamePrefixSameHead(a, b);
      }
    }
  }

  lemma SamePrefixSameHead(a: seq<int>, b: seq<int>)
    ensures forall k :: 0 < k <= |a| && k <= |b| && a[..k] == b[..k] ==> a[0] == b[0]
  {
    forall k | 0 < k <= |a| && k <= |b| && a[..k] == b[..k] ensures a[0] == b[0] {
      assert a[..k][0] == a[0] && b[..k][0] == b[0];
    }
  }

  /** The order of strings is that of the code points at the first difference. */
  lemma StringLeIff(s: string, t: string)
    ensures StringLe(s, t) <==> s <= t || exists k :: 0 <= k < |s| && k < |t| && s[..k] == t[..k] && s[k] as int < t[k] as int
  {
    var a, b := Codes(s), Codes(t);
    LexLeIff(a, b);
    if a <= b {
      assert forall i :: 0 <= i < |s| ==> a[i] == b[i] && a[i] == s[i] as int && b[i] == t[i] as int;
    }
    if s <= t {
      assert forall i :: 0 <= i < |a| ==> a[i] == b[i];
    }
    if k :| 0 <= k < |a| && k < |b| && a[..k] == b[..k] && a[k] < b[k] {
      forall i | 0 <= i < k ensures s[i] == t[i] { assert a[..k][i] == b[..k][i]; }
      assert s[..k] == t[..k];
    }
    if k :| 0 <= k < |s| && k < |t| && s[..k] == t[..k] && s[k] as int < t[k] as int {
      forall i | 0 <= i < k ensures a[i] == b[i] { assert s[..k][i] == t[..k][i]; }
      assert a[..k] == b[..k];
    }
  }

  /** The 29 characters that `str.strip()` takes for white space. */
  const SPACES := [9, 10, 11, 12, 13, 28, 29, 30, 31, 32, 0x85, 0xA0, 0x1680, 0x2000, 0x2001, 0x2002, 0x2003, 0x2004,
                   0x2005, 0x2006, 0x2007, 0x2008, 0x2009, 0x200A, 0x2028, 0x2029, 0x202F, 0x205F, 0x3000]

  lemma IsSpaceIff(c: char)
    ensures IsSpace(c) <==> c as int in SPACES
  {
    var u := c as int;
    assert 9 <= u <= 13 ==> SPACES[u - 9] == u;
    assert 28 <= u <= 32 ==> SPACES[u - 23] == u;
    assert 0x2000 <= u <= 0x200A ==> SPACES[u - 0x2000 + 13] == u;
    assert SPACES[10] == 0x85 && SPACES[11] == 0xA0 && SPACES[12] == 0x1680;
    assert SPACES[24] == 0x2028 && SPACES[25] == 0x2029 && SPACES[26] == 0x202F && SPACES[27] == 0x205F && SPACES[28] == 0x3000;
  }

  lemma {:induction false} StripLeftOf(space: char -> bool, pre: string, rest: string)
    requires (forall c :: c in pre ==> space(c)) && (rest == [] || !space(rest[0]))
    ensures StripLeft(space, pre + rest) == rest
  {
    if pre == [] {
      assert pre + rest == rest;
    } else {
      assert pre[0] in pre && (pre + rest)[1..] == pre[1..] + rest;
      StripLeftOf(space, pre[1..], rest);
    }
  }

  lemma {:induction false} StripRightOf(space: char -> bool, rest: string, post: string)
    requires (forall c :: c in post ==> space(c)) && (rest == [] || !space(rest[|rest| - 1]))
    ensures StripRight(space, rest + post) == rest
  {
    if post == [] {
      assert rest + post == rest;
    } else {
      var last := |post| - 1;
      assert post[last] in post && (rest + post)[..|rest + post| - 1] == rest + post[..last];
      StripRightOf(space, rest, post[..last]);
    }
  }

  lemma {:induction false} StripLeftAll(space: char -> bool, s: string)
    requires forall c :: c in s ==> space(c)
    ensures StripLeft(space, s) == []
  {
    if s != [] {
      assert s[0] in s;
      StripLeftAll(space, s[1..]);
    }
  }

  lemma StripByOf(space: char -> bool, pre: string, core: string, post: string)
    requires (forall c :: c in pre + post ==> space(c)) && core != [] && !space(core[0]) && !space(core[|core| - 1])
    ensures StripBy(space, pre + core + post) == core
  {
    hide StripLeft, StripRight;
    assert forall c :: c in pre ==> c in pre + post;
    assert forall c :: c in post ==> c in pre + post;
    assert pre + core + post == pre + (core + post);
    StripLeftOf(space, pre, core + post);
    StripRightOf(space, core, post);
  }

  /** White space around a text is taken off, and nothing else; a text of white space becomes empty. */
  lemma StripTakesSpaces(pre: string, core: string, post: string)
    requires forall c :: c in pre + post ==> c as int in SPACES
    requires core == [] || (core[0] as int !in SPACES && core[|core| - 1] as int !in SPACES)
    ensures Strip(pre + core + post) == core
  {
    hide SPACES, IsSpace, StripLeft, StripRight, StripBy;
    forall c: char ensures IsSpace(c) <==> c as int in SPACES { IsSpaceIff(c); }
    if core == [] {
      assert pre + core + post == pre + post;
      StripOfSpaces(pre + post);
    } else {
      StripByOf(IsSpace, pre, core, post);
    }
  }

  lemma StripOfSpaces(s: string)
    requires forall c :: c in s ==> IsSpace(c)
    ensures Strip(s) == []
  {
    hide IsSpace, StripLeft;
    StripLeftAll(IsSpace, s);
  }

  lemma IsAsciiSpaceIff(c: char)
    ensures IsAsciiSpace(c) <==> c as int in [9, 10, 11, 12, 13, 32]
  {}

  lemma StripAround(pre: string, sign: string, text: string, post: string)
    requires forall c :: c in pre + post ==> IsAsciiSpace(c)
    requires IsDigitGroup(text) && (sign == "" || sign == "+" || sign == "-")
    ensures StripBy(IsAsciiSpace, pre + (sign + text) + post) == sign + text
  {
    GroupEnds(text);
    var core := sign + text;
    assert core[|core| - 1] == text[|text| - 1];
    assert core[0] == (if sign == "" then text[0] else sign[0]);
    hide IsDigitGroup, StripBy;
    StripByOf(IsAsciiSpace, pre, core, post);
  }

  /** What `int()` reads: a sign, if any, and digits with single underscores between them, with ASCII white
      space around. */
  lemma PyIntOfText(pre: string, sign: string, text: string, post: string)
    requires forall c :: c in pre + post ==> IsAsciiSpace(c)
    requires IsDigitGroup(text) && (sign == "" || sign == "+" || sign == "-")
    ensures PyInt(pre + (sign + text) + post) == Some(if sign == "-" then 0 - GroupValue(text) else GroupValue(text))
  {
    hide IsDigitGroup, GroupValue, StripBy, SignedGroup;
    StripAround(pre, sign, text, post);
    SignedText(sign, text);
  }

  lemma GroupEnds(text: string)
    requires IsDigitGroup(text)
    ensures text != [] && IsDigit(text[0]) && IsDigit(text[|text| - 1])
  {}

  lemma SignedText(sign: string, text: string)
    requires IsDigitGroup(text) && (sign == "" || sign == "+" || sign == "-")
    ensures SignedGroup(sign + text) == Some(if sign == "-" then 0 - GroupValue(text) else GroupValue(text))
  {
    hide IsDigitGroup, GroupValue, SignedGroup;
    if sign == "" {
      assert sign + text == text;
      UnsignedText(text);
    } else {
      assert sign == [sign[0]];
      AfterSign(sign[0], text);
    }
  }

  lemma UnsignedText(text: string)
    requires IsDigitGroup(text)
    ensures SignedGroup(text) == Some(GroupValue(text))
  {
    GroupEnds(text);
    hide IsDigitGroup, GroupValue;
  }

  lemma AfterSign(c: char, text: string)
    requires IsDigitGroup(text) && (c == '+' || c == '-')
    ensures SignedGroup([c] + text) == Some(if c == '-' then 0 - GroupValue(text) else GroupValue(text))
  {
    hide IsDigitGroup, GroupValue;
    assert ([c] + text)[0] == c && ([c] + text)[1..] == text;
  }

  lemma ConcatIsAssociative(a: string, b: string, c: string)
    ensures a + b + c == a + (b + c)
  {
  }

  lemma {:induction false} JoinedDigits(groups: seq<string>)
    requires groups != [] && forall g :: g in groups ==> g != "" && AllDigits(g)
    ensures IsDigitGroup(Join(groups, '_'))
  {
    var g := groups[0];
    assert g in groups && IsDigit(g[0]) && IsDigit(g[|g| - 1]);
    if |groups| > 1 {
      assert forall h :: h in groups[1..] ==> h in groups;
      JoinedDigits(groups[1..]);
      var rest := Join(groups[1..], '_');
      var s := g + ['_'] + rest;
      assert Join(groups, '_') == s && s[|g|] == '_' && s[|s| - 1] == rest[|rest| - 1];
      forall i | 0 <= i < |s| - 1 ensures IsDigit(s[i]) || IsDigit(s[i + 1]) {
        if i > |g| { assert s[i] == rest[i - |g| - 1] && s[i + 1] == rest[i - |g|]; }
      }
    } else {
      assert Join(groups, '_') == g;
    }
  }

  /** And nothing else: no empty group, no sign alone, no other character. */
  lemma PyIntOnlyOf(s: string)
    requires PyInt(s).Some?
    ensures exists c :: c in s && IsDigit(c)
    ensures forall c :: c in s ==> IsDigit(c) || c == '_' || c == '+' || c == '-' || IsAsciiSpace(c)
    ensures !exists k :: 0 <= k < |s| - 1 && s[k] == '_' && s[k + 1] == '_'
  {
    var t := StripBy(IsAsciiSpace, s);
    var pre, post := StripByParts(IsAsciiSpace, s);
    hide StripBy, IsDigitGroup, DigitsValue;
    GroupOf(t);
    forall c | c in s ensures IsDigit(c) || c == '_' || c == '+' || c == '-' || IsAsciiSpace(c) {
      assert c in pre + post || c in t;
    }
    forall k | 0 <= k < |s| - 1 && s[k] == '_' ensures s[k + 1] != '_' {
      InMiddle(pre, t, post, k);
      InMiddle(pre, t, post, k + 1);
    }
  }

  lemma InMiddle(pre: string, t: string, post: string, k: nat)
    requires (forall c :: c in pre + post ==> IsAsciiSpace(c)) && k < |pre + t + post|
    ensures (pre + t + post)[k] == '_' ==> |pre| <= k < |pre| + |t| && t[k - |pre|] == '_'
  {
    var s := pre + t + post;
    assert k < |pre| ==> s[k] == pre[k] && pre[k] in pre + post;
    assert k >= |pre| + |t| ==> s[k] == post[k - |pre| - |t|] && post[k - |pre| - |t|] in pre + post;
  }

  lemma GroupOf(t: string)
    requires SignedGroup(t).Some?
    ensures exists c :: c in t && IsDigit(c)
    ensures forall c :: c in t ==> IsDigit(c) || c == '_' || c == '+' || c == '-'
    ensures forall k :: 0 <= k < |t| - 1 && t[k] == '_' ==> t[k + 1] != '_'
  {
    if t != [] && (t[0] == '-' || t[0] == '+') {
      assert IsDigit(t[1..][0]) && t[1..][0] == t[1];
      assert forall i :: 1 <= i < |t| ==> t[i] == t[1..][i - 1];
    } else {
      assert IsDigit(t[0]);
    }
  }

  lemma SuffixSplit(s: string, t: string)
    requires |t| <= |s| && t == s[|s| - |t|..]
    ensures s == s[..|s| - |t|] + t
  {}

  lemma PrefixSplit(t: string, core: string)
    requires core <= t
    ensures t == core + t[|core|..]
  {}

  lemma AllOfBoth(space: char -> bool, a: string, b: string)
    requires (forall c :: c in a ==> space(c)) && forall c :: c in b ==> space(c)
    ensures forall c :: c in a + b ==> space(c)
  {}

  lemma StripByParts(space: char -> bool, s: string) returns (pre: string, post: string)
    ensures s == pre + StripBy(space, s) + post && forall c :: c in pre + post ==> space(c)
  {
    var t := StripLeft(space, s);
    var core := StripRight(space, t);
    StripLeftParts(space, s);
    StripRightParts(space, t);
    SuffixSplit(s, t);
    PrefixSplit(t, core);
    pre, post := s[..|s| - |t|], t[|core|..];
    assert core == StripBy(space, s);
    hide StripLeft, StripRight, StripBy;
    ConcatIsAssociative(pre, core, post);
    AllOfBoth(space, pre, post);
  }

  lemma {:induction false} StripLeftParts(space: char -> bool, s: string)
    ensures forall c :: c in s[..|s| - |StripLeft(space, s)|] ==> space(c)
  {
    if s != [] && space(s[0]) {
      var tail := s[1..];
      var n := |tail| - |StripLeft(space, tail)|;
      StripLeftParts(space, tail);
      assert StripLeft(space, s) == StripLeft(space, tail);
      hide StripLeft;
      assert s[..n + 1] == [s[0]] + tail[..n];
      AllOfBoth(space, [s[0]], tail[..n]);
    }
  }

  lemma {:induction false} StripRightParts(space: char -> bool, s: string)
    ensures forall c :: c in s[|StripRight(space, s)|..] ==> space(c)
  {
    if s != [] && space(s[|s| - 1]) {
      var init := s[..|s| - 1];
      StripRightParts(space, init);
      assert s[|StripRight(space, s)|..] == init[|StripRight(space, init)|..] + [s[|s| - 1]];
    }
  }
}
