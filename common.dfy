/**
 * Shared vocabulary for the model of the LLAC tooling scripts: the Python
 * exceptions the scripts raise, Option/Result wrappers, and the handful of
 * `str` operations (prefix tests, case folding, strip, split/join, find,
 * decimal digits) whose Python semantics the scripts depend on.
 */
module Common {

  datatype Option<T> = None | Some(value: T)

  /** The Python exception classes that the modelled code raises. */
  datatype PyError =
    | ValueError
    | TypeError
    | NameError
    | AttributeError
    | FileExistsError
    | ArgumentTypeError
    | KeyError
    | ExpectedIntParse
    | ExpectedPosIntParse
    | ExpectedFloatParse
    | ExpectedPosFloatParse

  /** A Python call that either returns a value or raises. */
  datatype Result<T> = Ok(value: T) | Err(error: PyError)

  // ---------------------------------------------------------------- powers

  function Pow2(k: nat): (r: nat)
    ensures r >= 1
  {
    if k == 0 then 1 else 2 * Pow2(k - 1)
  }

  lemma {:induction false} Pow2Add(a: nat, b: nat)
    ensures Pow2(a + b) == Pow2(a) * Pow2(b)
  {
    if a > 0 {
      Pow2Add(a - 1, b);
    }
  }

  lemma {:induction false} Pow2Monotone(a: nat, b: nat)
    requires a <= b
    ensures Pow2(a) <= Pow2(b)
  {
    if a < b {
      Pow2Monotone(a, b - 1);
    }
  }

  // ------------------------------------------------------ prefix / suffix

  predicate StartsWith(s: string, p: string) {
    |p| <= |s| && s[..|p|] == p
  }

  predicate EndsWith(s: string, suf: string) {
    |suf| <= |s| && s[|s| - |suf|..] == suf
  }

  function Repeat(c: char, n: nat): (r: string)
    ensures |r| == n
    ensures forall k :: 0 <= k < n ==> r[k] == c
  {
    if n == 0 then "" else [c] + Repeat(c, n - 1)
  }

  // ------------------------------------------------------------ case folding

  /** `str.lower` restricted to ASCII letters. */
  function LowerChar(c: char): char {
    if 'A' <= c <= 'Z' then (c as int + 32) as char else c
  }

  /** `str.upper` restricted to ASCII letters. */
  function UpperChar(c: char): char {
    if 'a' <= c <= 'z' then (c as int - 32) as char else c
  }

  function Lower(s: string): (r: string)
    ensures |r| == |s| && forall k :: 0 <= k < |s| ==> r[k] == LowerChar(s[k])
  {
    if s == "" then "" else [LowerChar(s[0])] + Lower(s[1..])
  }

  /** `t` is the upper case of `s` when it is so character by character. */
  lemma UpperIs(s: string, t: string)
    requires |s| == |t| && forall k :: 0 <= k < |s| ==> UpperChar(s[k]) == t[k]
    ensures Upper(s) == t
  {
  }

  /** Text without capital letters is its own lower case. */
  lemma LowerWithoutCapitals(s: string)
    requires forall k :: 0 <= k < |s| ==> !('A' <= s[k] <= 'Z')
    ensures Lower(s) == s
  {
  }

  function Upper(s: string): (r: string)
    ensures |r| == |s| && forall k :: 0 <= k < |s| ==> r[k] == UpperChar(s[k])
  {
    if s == "" then "" else [UpperChar(s[0])] + Upper(s[1..])
  }

  // ------------------------------------------------------------- strip

  /** The ASCII characters for which Python's `str.isspace` holds. */
  const Whitespace: set<char> := {' ', '\t', '\n', '\r', '\U{0b}', '\U{0c}', '\U{1c}', '\U{1d}', '\U{1e}', '\U{1f}'}

  /** `s.lstrip(chars)`: drop the longest prefix made of characters in `cs`. */
  function LStripSet(s: string, cs: set<char>): (r: string)
    ensures |r| <= |s|
    ensures r == "" || r[0] !in cs
    ensures forall k :: 0 <= k < |s| - |r| ==> s[k] in cs
  {
    if s == "" || s[0] !in cs then s else LStripSet(s[1..], cs)
  }

  /** `s.rstrip(chars)`: drop the longest suffix made of characters in `cs`. */
  function RStripSet(s: string, cs: set<char>): (r: string)
    ensures |r| <= |s|
    ensures r == "" || r[|r| - 1] !in cs
    ensures forall k :: |r| <= k < |s| ==> s[k] in cs
  {
    if s == "" || s[|s| - 1] !in cs then s else RStripSet(s[..|s| - 1], cs)
  }

  /** What `lstrip` leaves is a suffix of its input. */
  lemma {:induction false} LStripSetSuffix(s: string, cs: set<char>)
    ensures LStripSet(s, cs) == s[|s| - |LStripSet(s, cs)|..]
  {
    if s != "" && s[0] in cs {
      LStripSetSuffix(s[1..], cs);
    }
  }

  /** What `rstrip` leaves is a prefix of its input. */
  lemma {:induction false} RStripSetPrefix(s: string, cs: set<char>)
    ensures RStripSet(s, cs) == s[..|RStripSet(s, cs)|]
  {
    if s != "" && s[|s| - 1] in cs {
      RStripSetPrefix(s[..|s| - 1], cs);
    }
  }

  /** Every character of `s` is in `cs`. */
  predicate AllIn(s: string, cs: set<char>) {
    forall k :: 0 <= k < |s| ==> s[k] in cs
  }

  /** What `lstrip` drops is made of characters of the set. */
  lemma LStripSetDropped(s: string, cs: set<char>)
    ensures AllIn(s[..|s| - |LStripSet(s, cs)|], cs)
  {
  }

  /** What `rstrip` drops is made of characters of the set. */
  lemma RStripSetDropped(s: string, cs: set<char>)
    ensures AllIn(s[|RStripSet(s, cs)|..], cs)
  {
    var r := RStripSet(s, cs);
    forall k | 0 <= k < |s| - |r|
      ensures s[|r|..][k] in cs
    {
      assert s[|r|..][k] == s[|r| + k];
    }
  }

  /** `s.strip(chars)`. */
  function StripSet(s: string, cs: set<char>): string {
    RStripSet(LStripSet(s, cs), cs)
  }

  /** Dropping trailing characters of `cs` from `a + w`, where `w` is all `cs` and `a` does not end in `cs`, leaves `a`. */
  lemma {:induction false} RStripSetOff(a: string, w: string, cs: set<char>)
    requires forall k :: 0 <= k < |w| ==> w[k] in cs
    requires a == "" || a[|a| - 1] !in cs
    ensures RStripSet(a + w, cs) == a
  {
    if w == [] {
      assert a + w == a;
    } else {
      assert (a + w)[..|a + w| - 1] == a + w[..|w| - 1];
      RStripSetOff(a, w[..|w| - 1], cs);
    }
  }

  /** `s.strip()` with no argument: strip whitespace. */
  function Strip(s: string): string {
    StripSet(s, Whitespace)
  }

  /** `s.lstrip()` with no argument. */
  function LStrip(s: string): string {
    LStripSet(s, Whitespace)
  }

  /** A stripped string neither starts nor ends with a character of the set. */
  lemma StripSetEnds(s: string, cs: set<char>)
    ensures var r := StripSet(s, cs); r == "" || (r[0] !in cs && r[|r| - 1] !in cs)
  {
    var l := LStripSet(s, cs);
    var r := RStripSet(l, cs);
    RStripSetPrefix(l, cs);
    if r != "" {
      assert r[0] == l[0];
    }
  }

  /** The elements of `s` in the opposite order. */
  function Reverse<T>(s: seq<T>): (r: seq<T>)
    ensures |r| == |s| && forall k :: 0 <= k < |s| ==> r[k] == s[|s| - 1 - k]
  {
    if s == [] then [] else Reverse(s[1..]) + [s[0]]
  }

  lemma ReverseReverse<T>(s: seq<T>)
    ensures Reverse(Reverse(s)) == s
  {
  }

  // -------------------------------------------------------- split / join

  /** `s.split(sep)` for a one-character separator. */
  function Split(s: string, sep: char): (r: seq<string>)
    ensures |r| >= 1
    ensures forall k :: 0 <= k < |r| ==> sep !in r[k]
  {
    if s == "" then [""]
    else if s[0] == sep then [""] + Split(s[1..], sep)
    else
      var rest := Split(s[1..], sep);
      [[s[0]] + rest[0]] + rest[1..]
  }

  /** `sep.join(parts)` for a one-character separator. */
  function Join(parts: seq<string>, sep: char): string {
    if |parts| == 0 then ""
    else if |parts| == 1 then parts[0]
    else parts[0] + [sep] + Join(parts[1..], sep)
  }

  /** Joining what was split gives the original string back. */
  lemma {:induction false} JoinSplit(s: string, sep: char)
    ensures Join(Split(s, sep), sep) == s
  {
    if s != "" {
      var t := s[1..];
      JoinSplit(t, sep);
      var rest := Split(t, sep);
      if s[0] == sep {
        JoinCons("", rest, sep);
      } else {
        JoinHeadGrows(s[0], rest, sep);
      }
      assert s == [s[0]] + t;
    }
  }

  /** Joining a part in front of a non-empty list adds it and one separator. */
  lemma JoinCons(p: string, parts: seq<string>, sep: char)
    requires |parts| >= 1
    ensures Join([p] + parts, sep) == p + [sep] + Join(parts, sep)
  {
    assert ([p] + parts)[1..] == parts;
  }

  /** Growing the first part by one character grows the joined text by it. */
  lemma JoinHeadGrows(c: char, parts: seq<string>, sep: char)
    requires |parts| >= 1
    ensures Join([[c] + parts[0]] + parts[1..], sep) == [c] + Join(parts, sep)
  {
    if |parts| > 1 {
      var j := Join(parts[1..], sep);
      assert Join([[c] + parts[0]] + parts[1..], sep) == ([c] + parts[0]) + [sep] + j;
      SnocAssoc3(c, parts[0], sep, j);
    }
  }

  lemma SnocAssoc3<T>(c: T, a: seq<T>, x: T, b: seq<T>)
    ensures ([c] + a) + [x] + b == [c] + (a + [x] + b)
  {
  }

  /** Splitting what was joined gives the parts back, when no part holds the separator. */
  lemma {:induction false} SplitJoin(parts: seq<string>, sep: char)
    requires |parts| >= 1
    requires forall k :: 0 <= k < |parts| ==> sep !in parts[k]
    ensures Split(Join(parts, sep), sep) == parts
  {
    if |parts| == 1 {
      SplitNoSep(parts[0], sep);
    } else {
      SplitJoin(parts[1..], sep);
      SplitPrefix(parts[0], Join(parts[1..], sep), sep);
      assert [parts[0]] + parts[1..] == parts;
    }
  }

  lemma {:induction false} SplitNoSep(s: string, sep: char)
    requires sep !in s
    ensures Split(s, sep) == [s]
  {
    if s != "" {
      assert sep !in s[1..];
      SplitNoSep(s[1..], sep);
      assert [s[0]] + s[1..] == s;
    }
  }

  lemma {:induction false} SplitPrefix(a: string, b: string, sep: char)
    requires sep !in a
    ensures Split(a + [sep] + b, sep) == [a] + Split(b, sep)
  {
    if a == "" {
      assert a + [sep] + b == [sep] + b;
      assert ([sep] + b)[1..] == b;
    } else {
      var s := a + [sep] + b;
      assert s[0] == a[0];
      assert s[1..] == a[1..] + [sep] + b;
      assert sep !in a[1..];
      SplitPrefix(a[1..], b, sep);
      assert [a[0]] + a[1..] == a;
    }
  }

  /** Splitting a joined prefix, a separator and any rest gives the prefix's parts first. */
  lemma {:induction false} SplitJoinPrefix(parts: seq<string>, rest: string, sep: char)
    requires |parts| >= 1
    requires forall k :: 0 <= k < |parts| ==> sep !in parts[k]
    ensures Split(Join(parts, sep) + [sep] + rest, sep) == parts + Split(rest, sep)
  {
    if |parts| == 1 {
      SplitPrefix(parts[0], rest, sep);
    } else {
      var tail := parts[1..];
      var j := Join(tail, sep) + [sep] + rest;
      SplitJoinPrefix(tail, rest, sep);
      JoinPrefixAssoc(parts[0], Join(tail, sep), rest, sep);
      assert Join(parts, sep) == parts[0] + [sep] + Join(tail, sep);
      SplitPrefix(parts[0], j, sep);
      ConsTailConcat(parts, Split(rest, sep));
    }
  }

  lemma JoinPrefixAssoc(a: string, b: string, rest: string, sep: char)
    ensures (a + [sep] + b) + [sep] + rest == a + [sep] + (b + [sep] + rest)
  {
  }

  /** A non-empty sequence is its front followed by its last element. */
  lemma FrontLast<T>(s: seq<T>)
    requires |s| > 0
    ensures s[..|s| - 1] + [s[|s| - 1]] == s
  {
  }

  lemma ConsTailConcat<T>(s: seq<T>, t: seq<T>)
    requires |s| >= 1
    ensures [s[0]] + (s[1..] + t) == s + t
  {
  }

  /** Joining two non-empty lists puts one separator between their joined texts. */
  lemma {:induction false} JoinConcat(a: seq<string>, b: seq<string>, sep: char)
    requires |a| >= 1 && |b| >= 1
    ensures Join(a + b, sep) == Join(a, sep) + [sep] + Join(b, sep)
  {
    if |a| == 1 {
      assert (a + b)[1..] == b;
    } else {
      JoinConcat(a[1..], b, sep);
      assert (a + b)[1..] == a[1..] + b;
    }
  }

  /** A joined text ends with its last part. */
  lemma {:induction false} JoinEndsWithLast(parts: seq<string>, sep: char)
    requires |parts| >= 1
    ensures EndsWith(Join(parts, sep), parts[|parts| - 1])
  {
    if |parts| > 1 {
      JoinEndsWithLast(parts[1..], sep);
    }
  }

  // ------------------------------------------------------------- find

  /** The slice bound Python uses for `find(sub, start, end)`: `end` clamped to the length. */
  function ClampEnd(text: string, end: Option<nat>): nat {
    match end
    case None => |text|
    case Some(e) => if e < |text| then e else |text|
  }

  predicate OccursAt(text: string, sub: string, i: nat) {
    i + |sub| <= |text| && text[i..i + |sub|] == sub
  }

  /**
   * `text.find(sub, start, end)` for non-negative `start` and `end`: the least
   * index `i >= start` at which `sub` occurs wholly before the clamped end, or
   * `None` where Python returns -1.
   */
  function Find(text: string, sub: string, start: nat, end: Option<nat>): (r: Option<nat>)
    ensures r.Some? ==> start <= r.value && r.value + |sub| <= ClampEnd(text, end)
                        && OccursAt(text, sub, r.value)
    ensures r.Some? ==> forall j :: start <= j < r.value ==> !OccursAt(text, sub, j)
    ensures r.None? ==> forall j :: start <= j && j + |sub| <= ClampEnd(text, end)
                                    ==> !OccursAt(text, sub, j)
    decreases ClampEnd(text, end) - start
  {
    if start + |sub| > ClampEnd(text, end) then None
    else if text[start..start + |sub|] == sub then Some(start)
    else Find(text, sub, start + 1, end)
  }

  /** `s.rfind(c)`, with -1 for "absent". */
  function RFind(s: string, c: char): (r: int)
    ensures -1 <= r < |s|
    ensures r >= 0 ==> s[r] == c
    ensures forall k :: r < k < |s| ==> s[k] != c
  {
    if s == "" then -1
    else if s[|s| - 1] == c then |s| - 1
    else RFind(s[..|s| - 1], c)
  }

  // ------------------------------------------------------ decimal digits

  predicate IsDigitChar(c: char) {
    '0' <= c <= '9'
  }

  /** `str.isdigit()` on ASCII text: non-empty and every character a digit. */
  predicate IsDigits(s: string) {
    |s| > 0 && forall k :: 0 <= k < |s| ==> IsDigitChar(s[k])
  }

  function DigitValue(c: char): nat
    requires IsDigitChar(c)
  {
    c as int - '0' as int
  }

  /** `int(s)` for a string of ASCII digits (most significant first). */
  function DigitsValue(s: string): nat
    requires forall k :: 0 <= k < |s| ==> IsDigitChar(s[k])
  {
    if s == "" then 0 else 10 * DigitsValue(s[..|s| - 1]) + DigitValue(s[|s| - 1])
  }

  function DigitChar(d: nat): (c: char)
    requires d < 10
    ensures IsDigitChar(c) && DigitValue(c) == d
  {
    ('0' as int + d) as char
  }

  /** `str(n)` for a natural number. */
  function NatToString(n: nat): (s: string)
    ensures IsDigits(s)
  {
    if n < 10 then [DigitChar(n)] else NatToString(n / 10) + [DigitChar(n % 10)]
  }

  /** `str(i)` for a Python int. */
  function IntToString(i: int): string {
    if i < 0 then "-" + NatToString(-i) else NatToString(i)
  }

  /** A decimal rendering has no line break in it. */
  lemma NoNewlineInInt(i: int)
    ensures '\n' !in IntToString(i)
  {
    var s := NatToString(if i < 0 then -i else i);
    assert forall k :: 0 <= k < |s| ==> IsDigitChar(s[k]);
  }

  /** `int(str(n)) == n`. */
  lemma {:induction false} NatToStringValue(n: nat)
    ensures DigitsValue(NatToString(n)) == n
  {
    if n >= 10 {
      NatToStringValue(n / 10);
      var s := NatToString(n);
      assert s[..|s| - 1] == NatToString(n / 10);
    }
  }
}
