/**
 * The JavaScript string built-ins the site's helpers rely on, restated on
 * `string` (a sequence of Unicode scalar values): truthiness of a nullable
 * string, the `\s` character class, ASCII case mapping, `trim`, `split`,
 * `indexOf`, a code-point `localeCompare`, and the decimal text of a number.
 */
module Text {
  import opened Wrappers

  /** `!!s` for a nullable string: null, undefined and '' are falsy. */
  predicate Truthy(s: Option<string>) {
    s.Some? && s.value != ""
  }

  /** `s || fallback` for a nullable string. */
  function OrElse(s: Option<string>, fallback: string): string {
    if Truthy(s) then s.value else fallback
  }

  /** The characters of the ECMAScript WhiteSpace and LineTerminator productions,
      which both the regular-expression class `\s` and `String.prototype.trim` use. */
  predicate IsWhitespace(c: char) {
    || c == '\t' || c == '\n' || c == '\U{B}' || c == '\U{C}' || c == '\r' || c == ' '
    || c == '\U{A0}' || c == '\U{1680}' || ('\U{2000}' <= c <= '\U{200A}')
    || c == '\U{2028}' || c == '\U{2029}' || c == '\U{202F}' || c == '\U{205F}'
    || c == '\U{3000}' || c == '\U{FEFF}'
  }

  predicate IsLowerAlnum(c: char) {
    ('a' <= c <= 'z') || ('0' <= c <= '9')
  }

  function LowerChar(c: char): (d: char)
    ensures 'A' <= c <= 'Z' ==> 'a' <= d <= 'z' && d as int == c as int + 32
    ensures !('A' <= c <= 'Z') ==> d == c
  {
    if 'A' <= c <= 'Z' then (c as int + 32) as char else c
  }

  function UpperChar(c: char): (d: char)
    ensures 'a' <= c <= 'z' ==> 'A' <= d <= 'Z' && d as int == c as int - 32
    ensures !('a' <= c <= 'z') ==> d == c
  {
    if 'a' <= c <= 'z' then (c as int - 32) as char else c
  }

  /** `s.toLowerCase()`, for the ASCII letters. */
  function ToLower(s: string): (r: string)
    ensures |r| == |s|
    ensures forall i :: 0 <= i < |s| ==> r[i] == LowerChar(s[i])
  {
    seq(|s|, i requires 0 <= i < |s| => LowerChar(s[i]))
  }

  /** `s.toUpperCase()`, for the ASCII letters. */
  function ToUpper(s: string): (r: string)
    ensures |r| == |s|
    ensures forall i :: 0 <= i < |s| ==> r[i] == UpperChar(s[i])
  {
    seq(|s|, i requires 0 <= i < |s| => UpperChar(s[i]))
  }

  /** `a.localeCompare(b)` as a code-point lexicographic comparison:
      negative, zero or positive as `a` sorts before, with or after `b`. */
  function CompareStrings(a: string, b: string): (c: int)
    ensures -1 <= c <= 1
    ensures c == 0 <==> a == b
  {
    if a == [] && b == [] then 0
    else if a == [] then -1
    else if b == [] then 1
    else if a[0] < b[0] then -1
    else if b[0] < a[0] then 1
    else
      assert a == [a[0]] + a[1..] && b == [b[0]] + b[1..];
      CompareStrings(a[1..], b[1..])
  }

  /** `a` sorts no later than `b`. */
  predicate StringLe(a: string, b: string) {
    CompareStrings(a, b) <= 0
  }

  /** Swapping the arguments of `localeCompare` negates the answer. */
  lemma {:induction false} CompareAntisymmetric(a: string, b: string)
    ensures CompareStrings(b, a) == -CompareStrings(a, b)
  {
    if a != [] && b != [] && a[0] == b[0] {
      CompareAntisymmetric(a[1..], b[1..]);
    }
  }

  lemma StringLeTotal(a: string, b: string)
    ensures StringLe(a, b) || StringLe(b, a)
  {
    CompareAntisymmetric(a, b);
  }

  lemma {:induction false} StringLeTransitive(a: string, b: string, c: string)
    requires StringLe(a, b) && StringLe(b, c)
    ensures StringLe(a, c)
  {
    if a != [] && b != [] && c != [] && a[0] == b[0] == c[0] {
      StringLeTransitive(a[1..], b[1..], c[1..]);
    }
  }

  /** `a` is a proper prefix of `b`. */
  predicate IsProperPrefix(a: string, b: string) {
    |a| < |b| && a == b[..|a|]
  }

  /** `a` and `b` agree before position k and `a` has the smaller character at k. */
  predicate SmallerAt(a: string, b: string, k: int) {
    0 <= k < |a| && k < |b| && a[..k] == b[..k] && a[k] < b[k]
  }

  /** Lexicographic order, defined directly: `a` is a proper prefix of `b`, or
      at the first position where they differ `a` has the smaller character. */
  ghost predicate LexLess(a: string, b: string) {
    IsProperPrefix(a, b) || exists k :: SmallerAt(a, b, k)
  }

  /** `localeCompare` answers negative exactly in lexicographic order. */
  lemma {:induction false} CompareStringsIsLexicographic(a: string, b: string)
    ensures CompareStrings(a, b) < 0 <==> LexLess(a, b)
  {
    if a == [] || b == [] {
      assert !SmallerAt(a, b, 0);
    } else if a[0] < b[0] {
      assert SmallerAt(a, b, 0);
    } else if b[0] < a[0] {
      forall k | 0 < k <= |a| && k <= |b|
        ensures a[..k] != b[..k]
      {
        assert a[..k][0] != b[..k][0];
      }
    } else {
      CompareStringsIsLexicographic(a[1..], b[1..]);
      LexLessTail(a, b);
    }
  }

  /** Past an equal first character, lexicographic order is decided by the tails. */
  lemma LexLessTail(a: string, b: string)
    requires a != [] && b != [] && a[0] == b[0]
    ensures LexLess(a, b) <==> LexLess(a[1..], b[1..])
  {
    if k :| SmallerAt(a, b, k) {
      assert a[1..][..k - 1] == a[..k][1..] && b[1..][..k - 1] == b[..k][1..];
      assert SmallerAt(a[1..], b[1..], k - 1);
    }
    if k :| SmallerAt(a[1..], b[1..], k) {
      assert a[..k + 1] == [a[0]] + a[1..][..k] && b[..k + 1] == [b[0]] + b[1..][..k];
      assert SmallerAt(a, b, k + 1);
    }
    assert IsProperPrefix(a, b) <==> IsProperPrefix(a[1..], b[1..]) by {
      assert a == [a[0]] + a[1..];
      if |a| < |b| {
        assert b[..|a|] == [b[0]] + b[1..][..|a| - 1];
      }
    }
  }

  /** The empty string sorts before every other string. */
  lemma EmptyIsLeast(s: string)
    ensures StringLe("", s)
    ensures StringLe(s, "") ==> s == ""
  {
  }

  /** `s.trimStart()`: drops the leading white space. */
  function TrimStart(s: string): (r: string)
    ensures |r| <= |s| && r == s[|s| - |r|..]
    ensures r == [] || !IsWhitespace(r[0])
    ensures forall k :: 0 <= k < |s| - |r| ==> IsWhitespace(s[k])
  {
    if s != [] && IsWhitespace(s[0]) then TrimStart(s[1..]) else s
  }

  /** `s.trimEnd()`: drops the trailing white space. */
  function TrimEnd(s: string): (r: string)
    ensures |r| <= |s| && r == s[..|r|]
    ensures r == [] || !IsWhitespace(r[|r| - 1])
    ensures forall k :: |r| <= k < |s| ==> IsWhitespace(s[k])
  {
    if s != [] && IsWhitespace(s[|s| - 1]) then TrimEnd(s[..|s| - 1]) else s
  }

  /** The number of white-space characters `s` starts with. */
  function LeadingWhitespace(s: string): (n: nat)
    ensures n <= |s|
    ensures forall k :: 0 <= k < n ==> IsWhitespace(s[k])
    ensures n < |s| ==> !IsWhitespace(s[n])
  {
    |s| - |TrimStart(s)|
  }

  /** `s.trim()`: the slice of `s` left once the white space at both ends is dropped. */
  function Trim(s: string): (r: string)
    ensures r == [] || (!IsWhitespace(r[0]) && !IsWhitespace(r[|r| - 1]))
    ensures var i := LeadingWhitespace(s);
            && i + |r| <= |s| && r == s[i..i + |r|]
            && (forall k :: 0 <= k < i ==> IsWhitespace(s[k]))
            && (forall k :: i + |r| <= k < |s| ==> IsWhitespace(s[k]))
  {
    TrimEnd(TrimStart(s))
  }

  /** The first position at or after `from` that holds `c`. */
  function IndexFrom(s: string, c: char, from: nat): (r: Option<nat>)
    requires from <= |s|
    ensures r.None? <==> forall k :: from <= k < |s| ==> s[k] != c
    ensures r.Some? ==> from <= r.value < |s| && s[r.value] == c
                        && forall k :: from <= k < r.value ==> s[k] != c
    decreases |s| - from
  {
    if from == |s| then None
    else if s[from] == c then Some(from)
    else IndexFrom(s, c, from + 1)
  }

  /** `s.indexOf(c)`, with -1 read as `None`. */
  function IndexOf(s: string, c: char): (r: Option<nat>)
    ensures r.None? <==> c !in s
    ensures r.Some? ==> r.value < |s| && s[r.value] == c && forall k :: 0 <= k < r.value ==> s[k] != c
  {
    IndexFrom(s, c, 0)
  }

  /** The last position before `end` that holds `c`. */
  function IndexBefore(s: string, c: char, end: nat): (r: Option<nat>)
    requires end <= |s|
    ensures r.None? <==> forall k :: 0 <= k < end ==> s[k] != c
    ensures r.Some? ==> r.value < end && s[r.value] == c
                        && forall k :: r.value < k < end ==> s[k] != c
  {
    if end == 0 then None
    else if s[end - 1] == c then Some(end - 1)
    else IndexBefore(s, c, end - 1)
  }

  /** `s.lastIndexOf(c)`, with -1 read as `None`. */
  function LastIndexOf(s: string, c: char): (r: Option<nat>)
    ensures r.None? <==> c !in s
    ensures r.Some? ==> r.value < |s| && s[r.value] == c && forall k :: r.value < k < |s| ==> s[k] != c
  {
    IndexBefore(s, c, |s|)
  }

  /** A position holding `c` with no `c` after it is the last index of `c`. */
  lemma LastIndexOfUnique(s: string, c: char, p: nat)
    requires p < |s| && s[p] == c && forall k :: p < k < |s| ==> s[k] != c
    ensures LastIndexOf(s, c) == Some(p)
  {
    var q := LastIndexOf(s, c).value;
    assert s[q] == c;
  }

  /** `Array.prototype.join`: the parts with the separator between neighbours;
      no parts join to the empty text. With a one-character separator it is
      the inverse of `Split`. */
  function Join(parts: seq<string>, sep: string): (r: string)
    ensures parts == [] ==> r == ""
    ensures parts != [] ==> |parts[0]| <= |r| && r[..|parts[0]|] == parts[0]
  {
    if parts == [] then ""
    else if |parts| == 1 then parts[0]
    else parts[0] + sep + Join(parts[1..], sep)
  }

  /** The pieces of `s[from..]` between separators. */
  function SplitFrom(s: string, sep: char, from: nat): (parts: seq<string>)
    requires from <= |s|
    ensures |parts| >= 1
    ensures |parts| == 1 <==> IndexFrom(s, sep, from).None?
    ensures forall k :: 0 <= k < |parts| ==> sep !in parts[k]
    decreases |s| - from
  {
    match IndexFrom(s, sep, from)
    case None => [s[from..]]
    case Some(i) => [s[from..i]] + SplitFrom(s, sep, i + 1)
  }

  /** Joining a first piece in front of the join of the rest. */
  lemma JoinInFront(parts: seq<string>, first: string, rest: seq<string>, sep: char, tail: string, whole: string)
    requires |rest| >= 1 && parts == [first] + rest
    requires Join(rest, [sep]) == tail && whole == first + [sep] + tail
    ensures Join(parts, [sep]) == whole
  {
    assert parts[1..] == rest;
  }

  /** Joining the pieces of `s[from..]` gives `s[from..]` back. */
  lemma {:induction false} JoinSplitFrom(s: string, sep: char, from: nat)
    requires from <= |s|
    ensures Join(SplitFrom(s, sep, from), [sep]) == s[from..]
    decreases |s| - from
  {
    match IndexFrom(s, sep, from)
    case None =>
      assert SplitFrom(s, sep, from) == [s[from..]];
    case Some(i) =>
      JoinSplitFrom(s, sep, i + 1);
      JoinSplitFromStep(s, sep, from, i);
  }

  /** The inductive step of `JoinSplitFrom`. */
  lemma JoinSplitFromStep(s: string, sep: char, from: nat, i: nat)
    requires from <= i < |s| && IndexFrom(s, sep, from) == Some(i)
    requires Join(SplitFrom(s, sep, i + 1), [sep]) == s[i + 1..]
    ensures Join(SplitFrom(s, sep, from), [sep]) == s[from..]
  {
    SplitFromUnfold(s, sep, from, i);
    SliceAround(s, from, i);
    JoinInFront(SplitFrom(s, sep, from), s[from..i], SplitFrom(s, sep, i + 1), sep, s[i + 1..], s[from..]);
  }

  /** One step of `SplitFrom` past a found separator. */
  lemma SplitFromUnfold(s: string, sep: char, from: nat, i: nat)
    requires from <= i < |s| && IndexFrom(s, sep, from) == Some(i)
    ensures SplitFrom(s, sep, from) == [s[from..i]] + SplitFrom(s, sep, i + 1)
  {
  }

  /** A solver step: a suffix is the text before position i, the character at
      i, and the rest. */
  lemma SliceAround(s: string, from: nat, i: nat)
    requires from <= i < |s|
    ensures s[from..] == s[from..i] + [s[i]] + s[i + 1..]
  {
  }

  /** `s.split(sep)` for a one-character separator: the maximal separator-free
      pieces of `s`, including the empty pieces at either end or between two
      adjacent separators. */
  function Split(s: string, sep: char): (parts: seq<string>)
    ensures |parts| >= 1
    ensures |parts| == 1 <==> sep !in s
    ensures forall k :: 0 <= k < |parts| ==> sep !in parts[k]
  {
    SplitFrom(s, sep, 0)
  }

  /** `s.split(sep).join(sep) == s`. */
  lemma JoinSplit(s: string, sep: char)
    ensures Join(Split(s, sep), [sep]) == s
  {
    JoinSplitFrom(s, sep, 0);
    assert s[0..] == s;
  }

  /** With a separator present, the first piece of a split is the text before
      the first separator. */
  lemma SplitFirstPart(s: string, sep: char)
    requires sep in s
    ensures Split(s, sep)[0] == s[..IndexOf(s, sep).value]
  {
    var i := IndexOf(s, sep).value;
    assert s[0..i] == s[..i];
  }

  /** A join of two parts or more ends with a separator and then the last part. */
  lemma {:induction false} JoinEndsWithLast(parts: seq<string>, sep: char)
    requires |parts| >= 2
    ensures Join(parts, [sep]) == Join(parts[..|parts| - 1], [sep]) + [sep] + parts[|parts| - 1]
  {
    var n := |parts|;
    if n > 2 {
      JoinEndsWithLast(parts[1..], sep);
      assert parts[1..][..n - 2] == parts[..n - 1][1..];
    }
  }

  /** A text that ends with a separator and a piece without one has its last
      separator just before that piece. */
  lemma LastSeparatorBefore(s: string, head: string, sep: char, last: string)
    requires s == head + [sep] + last && sep !in last
    ensures LastIndexOf(s, sep) == Some(|head|) && s[|head| + 1..] == last
  {
    forall k | |head| < k < |s|
      ensures s[k] != sep
    {
      assert s[k] == last[k - |head| - 1];
    }
    LastIndexOfUnique(s, sep, |head|);
    assert s[|head| + 1..] == last;
  }

  /** With a separator present, the last piece of a split is the text after
      the last separator. */
  lemma SplitLastPart(s: string, sep: char)
    requires sep in s
    ensures var parts := Split(s, sep);
            parts[|parts| - 1] == s[LastIndexOf(s, sep).value + 1..]
  {
    var parts := Split(s, sep);
    JoinSplit(s, sep);
    JoinEndsWithLast(parts, sep);
    LastSeparatorBefore(s, Join(parts[..|parts| - 1], [sep]), sep, parts[|parts| - 1]);
  }

  predicate IsDigit(c: char) {
    '0' <= c <= '9'
  }

  function DigitChar(d: nat): (c: char)
    requires d < 10
    ensures IsDigit(c) && c as int - '0' as int == d
  {
    ('0' as int + d) as char
  }

  /** `${n}` for a non-negative integer: its decimal digits, without leading zeros. */
  function NatToString(n: nat): (s: string)
    ensures |s| >= 1
    ensures forall i :: 0 <= i < |s| ==> IsDigit(s[i])
    ensures |s| > 1 ==> s[0] != '0'
  {
    if n < 10 then [DigitChar(n)] else NatToString(n / 10) + [DigitChar(n % 10)]
  }

  function DigitValue(c: char): nat
    requires IsDigit(c)
  {
    c as int - '0' as int
  }

  /** The number a string of decimal digits denotes. */
  function DigitsValue(s: string): nat
    requires forall i :: 0 <= i < |s| ==> IsDigit(s[i])
  {
    if s == [] then 0
    else DigitsValue(s[..|s| - 1]) * 10 + DigitValue(s[|s| - 1])
  }

  /** Reading back the decimal text of `n` gives `n`: distinct counts are
      printed differently. */
  lemma {:induction false} NatToStringRoundTrip(n: nat)
    ensures DigitsValue(NatToString(n)) == n
  {
    if n >= 10 {
      var s := NatToString(n);
      assert s[..|s| - 1] == NatToString(n / 10);
      NatToStringRoundTrip(n / 10);
    }
  }

  /** `${i}` for an integer: a minus sign before the digits of a negative value. */
  function IntToString(i: int): (s: string)
    ensures |s| >= 1
    ensures i < 0 <==> s[0] == '-'
    ensures i >= 0 ==> s == NatToString(i)
    ensures i < 0 ==> s[1..] == NatToString(-i)
  {
    if i < 0 then "-" + NatToString(-i) else NatToString(i)
  }
}
