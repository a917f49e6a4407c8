/** Shared vocabulary: an Option type and the Python `str` operations the
    discovery code leans on (`strip`, `lower`, `split`, `in`, `replace`,
    `str(int)` and `int(str)`), written out over `seq<char>`. */
module Common {

  datatype Option<+T> = None | Some(value: T) {
    function GetOr(default: T): T {
      match this
      case Some(v) => v
      case None => default
    }
  }

  /** Python truthiness of an optional string: `None` and `""` are falsy. */
  predicate Truthy(s: Option<string>) {
    s.Some? && s.value != ""
  }

  /** Python's `a or b` on optional strings. */
  function Or(a: Option<string>, b: Option<string>): (r: Option<string>)
    ensures Truthy(a) ==> r == a
    ensures !Truthy(a) ==> r == b
  {
    if Truthy(a) then a else b
  }

  // ---------------------------------------------------------------------
  // Characters
  // ---------------------------------------------------------------------

  /** The characters for which Python's `str.isspace()` holds; `strip()`,
      `split()` with no separator and the regex class `\s` use this set. */
  predicate IsSpace(c: char) {
    || c == ' '
    || ('\t' <= c <= '\r')
    || ('\U{001C}' <= c <= '\U{001F}')
    || c == '\U{0085}' || c == '\U{00A0}' || c == '\U{1680}'
    || ('\U{2000}' <= c <= '\U{200A}')
    || c == '\U{2028}' || c == '\U{2029}' || c == '\U{202F}' || c == '\U{205F}' || c == '\U{3000}'
  }

  predicate IsDigit(c: char) { '0' <= c <= '9' }

  function DigitValue(c: char): nat
    requires IsDigit(c)
  {
    c as nat - '0' as nat
  }

  function LowerChar(c: char): char {
    if 'A' <= c <= 'Z' then (c as int + 32) as char else c
  }

  function UpperChar(c: char): char {
    if 'a' <= c <= 'z' then (c as int - 32) as char else c
  }

  function Lower(s: string): (r: string)
    ensures |r| == |s|
    ensures forall i :: 0 <= i < |s| ==> r[i] == LowerChar(s[i])
  {
    if |s| == 0 then "" else [LowerChar(s[0])] + Lower(s[1..])
  }

  function Upper(s: string): (r: string)
    ensures |r| == |s|
    ensures forall i :: 0 <= i < |s| ==> r[i] == UpperChar(s[i])
  {
    if |s| == 0 then "" else [UpperChar(s[0])] + Upper(s[1..])
  }

  /** Python's `str.capitalize()` on the ASCII range: first character upper,
      the rest lower. */
  function Capitalize(s: string): (r: string)
    ensures |r| == |s|
    ensures |s| > 0 ==> r[0] == UpperChar(s[0]) && r[1..] == Lower(s[1..])
  {
    if |s| == 0 then "" else [UpperChar(s[0])] + Lower(s[1..])
  }

  // ---------------------------------------------------------------------
  // Stripping
  // ---------------------------------------------------------------------

  function TrimLeft(s: string): (r: string)
    ensures |r| <= |s| && r == s[|s| - |r|..]
    ensures |r| > 0 ==> !IsSpace(r[0])
    ensures forall i :: 0 <= i < |s| - |r| ==> IsSpace(s[i])
  {
    if |s| > 0 && IsSpace(s[0]) then TrimLeft(s[1..]) else s
  }

  function TrimRight(s: string): (r: string)
    ensures |r| <= |s| && r == s[..|r|]
    ensures |r| > 0 ==> !IsSpace(r[|r| - 1])
    ensures forall i :: |r| <= i < |s| ==> IsSpace(s[i])
  {
    if |s| > 0 && IsSpace(s[|s| - 1]) then TrimRight(s[..|s| - 1]) else s
  }

  /** Python's `str.strip()`. */
  function Strip(s: string): (r: string)
    ensures |r| <= |s|
    ensures |r| > 0 ==> !IsSpace(r[0]) && !IsSpace(r[|r| - 1])
  {
    TrimRight(TrimLeft(s))
  }

  /** Stripping leaves nothing exactly when the text is all whitespace. */
  lemma StripBlank(s: string)
    ensures Strip(s) == "" <==> forall i :: 0 <= i < |s| ==> IsSpace(s[i])
  {
    var l := TrimLeft(s);
    if |l| > 0 {
      assert s[|s| - |l|] == l[0];
      assert |TrimRight(l)| > 0;
    }
  }

  /** Python's `str.strip(c)` for a single character `c`. */
  function StripChar(s: string, c: char): (r: string)
    ensures |r| <= |s|
    ensures |r| > 0 ==> r[0] != c && r[|r| - 1] != c
    decreases |s|
  {
    if |s| > 0 && s[0] == c then StripChar(s[1..], c)
    else if |s| > 0 && s[|s| - 1] == c then StripChar(s[..|s| - 1], c)
    else s
  }

  // ---------------------------------------------------------------------
  // Searching
  // ---------------------------------------------------------------------

  /** `sub` occurs in `s` starting at index `i`. */
  predicate OccursAt(s: string, sub: string, i: nat) {
    i + |sub| <= |s| && s[i..i + |sub|] == sub
  }

  /** Python's `s.find(sub)` as an option: the first index where `sub` occurs. */
  function IndexOf(s: string, sub: string): (r: Option<nat>)
    ensures r.Some? ==> OccursAt(s, sub, r.value)
    ensures r.Some? ==> forall j :: 0 <= j < r.value ==> !OccursAt(s, sub, j)
    ensures r.None? ==> forall j :: 0 <= j <= |s| ==> !OccursAt(s, sub, j)
    decreases |s|
  {
    if |s| < |sub| then None
    else if s[..|sub|] == sub then Some(0)
    else
      match IndexOf(s[1..], sub)
      case None =>
        assert forall j :: 1 <= j <= |s| ==> (OccursAt(s, sub, j) <==> OccursAt(s[1..], sub, j - 1));
        None
      case Some(k) =>
        assert forall j :: 1 <= j <= |s| ==> (OccursAt(s, sub, j) <==> OccursAt(s[1..], sub, j - 1));
        Some(k + 1)
  }

  /** Python's `sub in s`. */
  predicate Contains(s: string, sub: string) {
    IndexOf(s, sub).Some?
  }

  function IndexOfChar(s: string, c: char): (r: Option<nat>)
    ensures r.Some? ==> r.value < |s| && s[r.value] == c && c !in s[..r.value]
    ensures r.None? ==> c !in s
  {
    if |s| == 0 then None
    else if s[0] == c then Some(0)
    else match IndexOfChar(s[1..], c)
      case None => None
      case Some(k) => Some(k + 1)
  }

  predicate StartsWith(s: string, prefix: string) {
    |prefix| <= |s| && s[..|prefix|] == prefix
  }

  // ---------------------------------------------------------------------
  // Splitting and joining
  // ---------------------------------------------------------------------

  /** Python's `s.split(sep)` for a non-empty separator. */
  function SplitOn(s: string, sep: string): (r: seq<string>)
    requires |sep| > 0
    ensures |r| >= 1
    decreases |s|
  {
    match IndexOf(s, sep)
    case None => [s]
    case Some(i) => [s[..i]] + SplitOn(s[i + |sep|..], sep)
  }

  function Join(parts: seq<string>, sep: string): (r: string)
  {
    if |parts| == 0 then ""
    else if |parts| == 1 then parts[0]
    else parts[0] + sep + Join(parts[1..], sep)
  }

  /** Text found in a part is found around it. */
  lemma ContainsWithin(pre: string, s: string, post: string, sub: string)
    requires Contains(s, sub)
    ensures Contains(pre + s + post, sub)
  {
    var i := IndexOf(s, sub).value;
    var t := pre + s + post;
    assert t[|pre| + i..|pre| + i + |sub|] == s[i..i + |sub|];
    assert OccursAt(t, sub, |pre| + i);
  }

  lemma ContainsSelf(s: string)
    ensures Contains(s, s)
  {
    assert OccursAt(s, s, 0);
  }

  /** Every part occurs in the joined text. */
  lemma {:induction false} JoinContainsPart(parts: seq<string>, sep: string, k: nat)
    requires k < |parts|
    ensures Contains(Join(parts, sep), parts[k])
    decreases |parts|
  {
    if |parts| == 1 {
      ContainsSelf(parts[0]);
    } else if k == 0 {
      ContainsSelf(parts[0]);
      ContainsWithin("", parts[0], sep + Join(parts[1..], sep), parts[0]);
      assert "" + parts[0] + (sep + Join(parts[1..], sep)) == Join(parts, sep);
    } else {
      JoinContainsPart(parts[1..], sep, k - 1);
      ContainsWithin(parts[0] + sep, Join(parts[1..], sep), "", parts[k]);
      assert parts[0] + sep + Join(parts[1..], sep) + "" == Join(parts, sep);
    }
  }

  /** Splitting and re-joining with the same separator gives back the text. */
  lemma {:induction false} JoinSplitOn(s: string, sep: string)
    requires |sep| > 0
    ensures Join(SplitOn(s, sep), sep) == s
    decreases |s|
  {
    var found := IndexOf(s, sep);
    if found.Some? {
      var i := found.value;
      var rest := s[i + |sep|..];
      JoinSplitOn(rest, sep);
      SplitOnUnfold(s, sep, i);
      JoinCons(s[..i], SplitOn(rest, sep), sep);
      OccursAtSplit(s, sep, i);
    }
  }

  /** The first occurrence is the one `find` reports. */
  lemma {:induction false} IndexOfFirst(s: string, sub: string, i: nat)
    requires OccursAt(s, sub, i)
    requires forall j :: 0 <= j < i ==> !OccursAt(s, sub, j)
    ensures IndexOf(s, sub) == Some(i)
    decreases i
  {
    if i > 0 {
      assert !OccursAt(s, sub, 0);
      assert s[1..][i - 1..i - 1 + |sub|] == s[i..i + |sub|];
      forall j | 0 <= j < i - 1 ensures !OccursAt(s[1..], sub, j) {
        assert s[1..][j..j + |sub|] == s[j + 1..j + 1 + |sub|] by {
          if j + |sub| <= |s| - 1 { }
        }
        assert !OccursAt(s, sub, j + 1);
      }
      IndexOfFirst(s[1..], sub, i - 1);
    }
  }

  lemma SplitOnUnfold(s: string, sep: string, i: nat)
    requires |sep| > 0 && IndexOf(s, sep) == Some(i)
    ensures i + |sep| <= |s|
    ensures SplitOn(s, sep) == [s[..i]] + SplitOn(s[i + |sep|..], sep)
  {
    assert OccursAt(s, sep, i);
  }

  lemma OccursAtSplit(s: string, sub: string, i: nat)
    requires OccursAt(s, sub, i)
    ensures s == s[..i] + sub + s[i + |sub|..]
  {
    assert s == s[..i] + s[i..i + |sub|] + s[i + |sub|..];
  }

  lemma JoinCons(head: string, tail: seq<string>, sep: string)
    requires |tail| >= 1
    ensures Join([head] + tail, sep) == head + sep + Join(tail, sep)
  {
    assert ([head] + tail)[1..] == tail;
  }

  /** Joining with one more part at the end adds the separator and the
      part. */
  lemma {:induction false} JoinSnoc(init: seq<string>, last: string, sep: string)
    ensures Join(init + [last], sep) == if |init| == 0 then last else Join(init, sep) + sep + last
    decreases |init|
  {
    if |init| == 0 {
      assert init + [last] == [last];
    } else if |init| == 1 {
      assert init + [last] == [init[0]] + [last];
      JoinCons(init[0], [last], sep);
    } else {
      assert init + [last] == [init[0]] + (init[1..] + [last]);
      JoinCons(init[0], init[1..] + [last], sep);
      JoinSnoc(init[1..], last, sep);
      JoinCons(init[0], init[1..], sep);
      assert [init[0]] + init[1..] == init;
    }
  }

  /** Joining two or more parts: everything before the next-to-last part,
      that part, the separator and the last part. */
  lemma JoinLastTwo(parts: seq<string>, sep: string)
    requires |parts| >= 2
    ensures var n := |parts|;
      Join(parts, sep) == (if n == 2 then "" else Join(parts[..n - 2], sep) + sep) + parts[n - 2] + sep + parts[n - 1]
  {
    var n := |parts|;
    var init := parts[..n - 2];
    assert parts == (init + [parts[n - 2]]) + [parts[n - 1]];
    JoinSnoc(init + [parts[n - 2]], parts[n - 1], sep);
    JoinSnoc(init, parts[n - 2], sep);
  }

  /** Every piece of a split is free of the separator. */
  lemma {:induction false} SplitOnPiecesAvoidSep(s: string, sep: string)
    requires |sep| > 0
    ensures forall k :: 0 <= k < |SplitOn(s, sep)| ==> !Contains(SplitOn(s, sep)[k], sep)
    decreases |s|
  {
    match IndexOf(s, sep)
    case None =>
    case Some(i) =>
      var rest := s[i + |sep|..];
      SplitOnPiecesAvoidSep(rest, sep);
      var head := s[..i];
      assert forall j :: 0 <= j <= |head| ==> !OccursAt(head, sep, j) by {
        forall j | 0 <= j <= |head|
          ensures !OccursAt(head, sep, j)
        {
          OccursInPrefix(s, sep, i, j);
        }
      }
  }

  /** An occurrence in a prefix is an occurrence in the whole. */
  lemma OccursInPrefix(s: string, sub: string, i: nat, j: nat)
    requires i <= |s|
    ensures OccursAt(s[..i], sub, j) ==> OccursAt(s, sub, j)
  {
    if OccursAt(s[..i], sub, j) {
      assert s[..i][j..j + |sub|] == s[j..j + |sub|];
    }
  }

  /** The text after the last occurrence of `sep`, i.e. Python's
      `s.split(sep)[-1]`; all of `s` when `sep` does not occur. */
  function LastPiece(s: string, sep: string): (r: string)
    requires |sep| > 0
    ensures !Contains(r, sep)
    ensures |r| <= |s| && r == s[|s| - |r|..]
    ensures !Contains(s, sep) ==> r == s
    ensures Contains(s, sep) ==> |r| + |sep| <= |s| && s[|s| - |r| - |sep|..|s| - |r|] == sep
  {
    var parts := SplitOn(s, sep);
    var r := parts[|parts| - 1];
    LastPieceFacts(s, sep, parts, r);
    r
  }

  /** The last piece `r` of the split `parts` of `s` avoids the separator
      and is a suffix of `s`; when the separator occurs, an occurrence
      directly precedes `r`. */
  lemma LastPieceFacts(s: string, sep: string, parts: seq<string>, r: string)
    requires |sep| > 0 && parts == SplitOn(s, sep) && r == parts[|parts| - 1]
    ensures !Contains(r, sep)
    ensures |r| <= |s| && r == s[|s| - |r|..]
    ensures !Contains(s, sep) ==> r == s
    ensures Contains(s, sep) ==> |r| + |sep| <= |s| && s[|s| - |r| - |sep|..|s| - |r|] == sep
  {
    SplitOnPiecesAvoidSep(s, sep);
    assert !Contains(parts[|parts| - 1], sep);
    match IndexOf(s, sep)
    case None =>
      assert parts == [s];
      assert s[0..] == s;
    case Some(i) =>
      SplitOnSplits(s, sep, i);
      JoinSplitOn(s, sep);
      LastOfJoin(parts, sep, s, r);
  }

  /** A separator that occurs splits the text in at least two pieces. */
  lemma SplitOnSplits(s: string, sep: string, i: nat)
    requires |sep| > 0 && IndexOf(s, sep) == Some(i)
    ensures |SplitOn(s, sep)| >= 2
  {
    SplitOnUnfold(s, sep, i);
  }

  /** Joining two or more parts ends in the separator and the last part. */
  lemma LastOfJoin(parts: seq<string>, sep: string, s: string, r: string)
    requires |parts| >= 2 && Join(parts, sep) == s && r == parts[|parts| - 1]
    ensures |r| + |sep| <= |s| && r == s[|s| - |r|..]
    ensures s[|s| - |r| - |sep|..|s| - |r|] == sep
  {
    var n := |parts|;
    assert parts == parts[..n - 1] + [r];
    JoinSnoc(parts[..n - 1], r, sep);
    SuffixAfterSep(Join(parts[..n - 1], sep), sep, r, s);
  }

  /** In `a + sep + b`, `b` is the suffix right after an occurrence of
      `sep`. */
  lemma SuffixAfterSep(a: string, sep: string, b: string, s: string)
    requires s == a + sep + b
    ensures |b| + |sep| <= |s| && b == s[|s| - |b|..]
    ensures s[|s| - |b| - |sep|..|s| - |b|] == sep
  {
    assert s[|s| - |b|..] == b;
    assert s[|a|..|a| + |sep|] == sep;
  }

  /** Python's `s.replace(pat, repl)` for a non-empty `pat`. */
  function ReplaceAll(s: string, pat: string, repl: string): (r: string)
    requires |pat| > 0
    ensures !Contains(s, pat) ==> r == s
    decreases |s|
  {
    match IndexOf(s, pat)
    case None => s
    case Some(i) => s[..i] + repl + ReplaceAll(s[i + |pat|..], pat, repl)
  }

  /** Every occurrence is replaced: text that is `parts` joined by `pat`,
      where no part holds `pat`'s first character, becomes the same parts
      joined by `repl`. */
  lemma {:induction false} ReplaceJoin(parts: seq<string>, pat: string, repl: string)
    requires |pat| > 0 && |parts| > 0
    requires forall k :: 0 <= k < |parts| ==> pat[0] !in parts[k]
    ensures ReplaceAll(Join(parts, pat), pat, repl) == Join(parts, repl)
    decreases |parts|
  {
    var p := parts[0];
    if |parts| == 1 {
      forall j | 0 <= j <= |p| ensures !OccursAt(p, pat, j) {
        if j + |pat| <= |p| {
          assert p[j..j + |pat|][0] == p[j];
        }
      }
    } else {
      var rest := Join(parts[1..], pat);
      var s := p + pat + rest;
      assert Join(parts, pat) == s;
      assert OccursAt(s, pat, |p|) by {
        assert s[|p|..|p| + |pat|] == pat;
      }
      forall j | 0 <= j < |p| ensures !OccursAt(s, pat, j) {
        assert s[j] == p[j];
        if j + |pat| <= |s| {
          assert s[j..j + |pat|][0] == s[j];
        }
      }
      IndexOfFirst(s, pat, |p|);
      assert s[..|p|] == p && s[|p| + |pat|..] == rest;
      forall k | 0 <= k < |parts[1..]| ensures pat[0] !in parts[1..][k] {
        assert parts[1..][k] == parts[k + 1];
      }
      ReplaceJoin(parts[1..], pat, repl);
    }
  }

  /** Python's `s.split()` with no argument: maximal runs of non-space. */
  function SplitWhitespace(s: string): (r: seq<string>)
    ensures forall k :: 0 <= k < |r| ==> |r[k]| > 0
    decreases |s|
  {
    var t := TrimLeft(s);
    if |t| == 0 then []
    else
      var n := WordLength(t);
      [t[..n]] + SplitWhitespace(t[n..])
  }

  /** Length of the longest prefix of `t` without whitespace. */
  function WordLength(t: string): (n: nat)
    ensures n <= |t|
    ensures forall j :: 0 <= j < n ==> !IsSpace(t[j])
    ensures n < |t| ==> IsSpace(t[n])
    ensures |t| > 0 && !IsSpace(t[0]) ==> n > 0
  {
    if |t| == 0 || IsSpace(t[0]) then 0 else 1 + WordLength(t[1..])
  }

  // ---------------------------------------------------------------------
  // Integers and their decimal text
  // ---------------------------------------------------------------------

  function DigitChar(d: nat): (c: char)
    requires d < 10
    ensures IsDigit(c) && DigitValue(c) == d
  {
    ('0' as int + d) as char
  }

  function NatToString(n: nat): (r: string)
    ensures |r| > 0
    ensures forall i :: 0 <= i < |r| ==> IsDigit(r[i])
  {
    if n < 10 then [DigitChar(n)] else NatToString(n / 10) + [DigitChar(n % 10)]
  }

  /** Python's `str(n)` for an integer. */
  function IntToString(n: int): (r: string)
  {
    if n < 0 then "-" + NatToString(-n) else NatToString(n)
  }

  /** Python's `int(s)` in base 10: surrounding whitespace is ignored, an
      optional sign, then digits with single underscores allowed between
      them. `None` stands for the `ValueError`. */
  function ParseInt(s: string): (r: Option<int>)
  {
    var t := Strip(s);
    var signed := |t| > 0 && (t[0] == '-' || t[0] == '+');
    var digits := if signed then t[1..] else t;
    if !WellFormedDigits(digits) then None
    else if signed && t[0] == '-' then Some(0 - DigitsValue(digits) as int)
    else Some(DigitsValue(digits))
  }

  /** Digits, possibly with single underscores between two digits. */
  predicate WellFormedDigits(d: string) {
    && |d| > 0
    && IsDigit(d[0]) && IsDigit(d[|d| - 1])
    && (forall i :: 0 <= i < |d| ==> IsDigit(d[i]) || d[i] == '_')
    && (forall i :: 0 <= i < |d| - 1 ==> d[i] == '_' ==> d[i + 1] != '_')
  }

  /** The number the digits of `d` spell, underscores ignored. */
  function DigitsValue(d: string): nat
    requires forall i :: 0 <= i < |d| ==> IsDigit(d[i]) || d[i] == '_'
  {
    if |d| == 0 then 0
    else if d[|d| - 1] == '_' then DigitsValue(d[..|d| - 1])
    else DigitsValue(d[..|d| - 1]) * 10 + DigitValue(d[|d| - 1])
  }

  lemma {:induction false} NatToStringValue(n: nat)
    ensures DigitsValue(NatToString(n)) == n
  {
    if n >= 10 {
      NatToStringValue(n / 10);
      var p := NatToString(n / 10);
      var r := NatToString(n);
      assert r == p + [DigitChar(n % 10)];
      assert r[..|r| - 1] == p;
    }
  }

  lemma NoSpaceStrip(s: string)
    requires |s| > 0 && !IsSpace(s[0]) && !IsSpace(s[|s| - 1])
    ensures Strip(s) == s
  {
  }

  /** The decimal text of a natural number is well-formed digits that
      `int()` reads back. */
  lemma NatToStringParses(m: nat)
    ensures WellFormedDigits(NatToString(m))
    ensures DigitsValue(NatToString(m)) == m
  {
    NatToStringValue(m);
  }

  /** `int(str(n)) == n`: the decimal rendering reads back as the same number. */
  lemma IntToStringRoundTrip(n: int)
    ensures ParseInt(IntToString(n)) == Some(n)
  {
    var m: nat := if n < 0 then -n else n;
    NatToStringParses(m);
    if n < 0 {
      SignedDigitsParse(NatToString(m));
    } else {
      DigitsParse(NatToString(m));
    }
  }

  /** Well-formed digits are read as the number they spell. */
  lemma DigitsParse(digits: string)
    requires WellFormedDigits(digits)
    ensures ParseInt(digits) == Some(DigitsValue(digits))
  {
    NoSpaceStrip(digits);
  }

  /** A minus sign in front of well-formed digits negates their value. */
  lemma SignedDigitsParse(digits: string)
    requires WellFormedDigits(digits)
    ensures ParseInt("-" + digits) == Some(0 - DigitsValue(digits))
  {
    var s := "-" + digits;
    assert s[1..] == digits && s[|s| - 1] == digits[|digits| - 1];
    NoSpaceStrip(s);
  }

  /** Distinct integers render to distinct decimal text. */
  lemma IntToStringDistinct(a: int, b: int)
    requires a != b
    ensures IntToString(a) != IntToString(b)
  {
    IntToStringRoundTrip(a);
    IntToStringRoundTrip(b);
  }

  lemma IntToStringInjective(a: int, b: int)
    requires IntToString(a) == IntToString(b)
    ensures a == b
  {
    IntToStringRoundTrip(a);
    IntToStringRoundTrip(b);
  }

  /** `a` is `b` with some elements left out, the rest in their order. */
  predicate Subsequence<T(==)>(a: seq<T>, b: seq<T>)
    decreases |b|
  {
    if |a| == 0 then true
    else if |b| == 0 then false
    else if a[0] == b[0] then Subsequence(a[1..], b[1..])
    else Subsequence(a, b[1..])
  }

  /** Putting an element in front of `b` keeps every subsequence of `b`
      a subsequence. */
  lemma {:induction false} SubsequenceSkip<T>(a: seq<T>, b: seq<T>, x: T)
    requires Subsequence(a, b)
    ensures Subsequence(a, [x] + b)
    decreases |b|, 1
  {
    if |a| > 0 && a[0] == x {
      SubsequenceDrop(a, b);
      assert ([x] + b)[1..] == b;
    } else {
      assert ([x] + b)[1..] == b;
    }
  }

  /** Leaving out the first element of a subsequence keeps it one. */
  lemma {:induction false} SubsequenceDrop<T>(a: seq<T>, b: seq<T>)
    requires |a| > 0 && Subsequence(a, b)
    ensures Subsequence(a[1..], b)
    decreases |b|, 0
  {
    if a[0] == b[0] {
      SubsequenceSkip(a[1..], b[1..], b[0]);
    } else {
      SubsequenceDrop(a, b[1..]);
      SubsequenceSkip(a[1..], b[1..], b[0]);
    }
    assert [b[0]] + b[1..] == b;
  }

  // ---------------------------------------------------------------------
  // Sequences
  // ---------------------------------------------------------------------

  /** No element occurs twice. */
  predicate NoDup<T(==)>(s: seq<T>) {
    forall i, j :: 0 <= i < j < |s| ==> s[i] != s[j]
  }

  /** The loop `if x not in out: out.append(x)` over `xs`. */
  function Dedupe<T(==, !new)>(xs: seq<T>): (r: seq<T>)
    ensures NoDup(r)
    ensures forall x :: x in r <==> x in xs
    decreases |xs|
  {
    if |xs| == 0 then []
    else
      var init := xs[..|xs| - 1];
      var d := Dedupe(init);
      assert xs == init + [xs[|xs| - 1]];
      if xs[|xs| - 1] in d then d else d + [xs[|xs| - 1]]
  }

  /** Index of the first occurrence of `x`. */
  function FirstIndex<T(==)>(xs: seq<T>, x: T): (i: nat)
    requires x in xs
    ensures i < |xs| && xs[i] == x && x !in xs[..i]
  {
    if xs[0] == x then 0 else 1 + FirstIndex(xs[1..], x)
  }

  lemma {:induction false} FirstIndexAppend<T>(p: seq<T>, q: seq<T>, x: T)
    requires x in p + q
    ensures x in p ==> FirstIndex(p + q, x) == FirstIndex(p, x)
    ensures x !in p ==> FirstIndex(p + q, x) >= |p|
    decreases |p|
  {
    if |p| > 0 {
      assert (p + q)[0] == p[0];
      if p[0] != x {
        assert (p + q)[1..] == p[1..] + q;
        FirstIndexAppend(p[1..], q, x);
      }
    } else {
      assert p + q == q;
    }
  }

  /** De-duplication keeps first-seen order: kept elements appear in the
      order of their first occurrences. */
  lemma {:induction false} DedupeFirstSeen<T(!new)>(xs: seq<T>)
    ensures forall i, j :: 0 <= i < j < |Dedupe(xs)| ==> FirstIndex(xs, Dedupe(xs)[i]) < FirstIndex(xs, Dedupe(xs)[j])
    decreases |xs|
  {
    if |xs| > 0 {
      var init := xs[..|xs| - 1];
      var z := xs[|xs| - 1];
      assert xs == init + [z];
      DedupeFirstSeen(init);
      var d := Dedupe(init);
      var r := Dedupe(xs);
      assert r == (if z in d then d else d + [z]);
      forall i, j | 0 <= i < j < |r| ensures FirstIndex(xs, r[i]) < FirstIndex(xs, r[j]) {
        assert i < |d| && r[i] == d[i];
        assert d[i] in init;
        FirstIndexAppend(init, [z], d[i]);
        if j < |d| {
          assert r[j] == d[j] && d[j] in init;
          FirstIndexAppend(init, [z], d[j]);
          assert FirstIndex(init, d[i]) < FirstIndex(init, d[j]);
        } else {
          assert r[j] == z && z !in init;
          FirstIndexAppend(init, [z], z);
        }
      }
    }
  }

  /** The present values, in order: what a filter on `is not None` keeps. */
  function Somes<T>(xs: seq<Option<T>>): (r: seq<T>)
    ensures |r| <= |xs|
    ensures forall k :: 0 <= k < |r| ==> exists i :: 0 <= i < |xs| && xs[i] == Some(r[k])
  {
    if |xs| == 0 then []
    else if xs[0].Some? then
      var rest := Somes(xs[1..]);
      assert forall k :: 0 <= k < |rest| ==> exists i :: 0 <= i < |xs| && xs[i] == Some(rest[k]) by {
        forall k | 0 <= k < |rest| ensures exists i :: 0 <= i < |xs| && xs[i] == Some(rest[k]) {
          var i :| 0 <= i < |xs[1..]| && xs[1..][i] == Some(rest[k]);
          assert xs[i + 1] == Some(rest[k]);
        }
      }
      [xs[0].value] + rest
    else
      var rest := Somes(xs[1..]);
      assert forall k :: 0 <= k < |rest| ==> exists i :: 0 <= i < |xs| && xs[i] == Some(rest[k]) by {
        forall k | 0 <= k < |rest| ensures exists i :: 0 <= i < |xs| && xs[i] == Some(rest[k]) {
          var i :| 0 <= i < |xs[1..]| && xs[1..][i] == Some(rest[k]);
          assert xs[i + 1] == Some(rest[k]);
        }
      }
      rest
  }

  /** Keeping the present values distributes over concatenation. */
  lemma {:induction false} SomesAppend<T>(a: seq<Option<T>>, b: seq<Option<T>>)
    ensures Somes(a + b) == Somes(a) + Somes(b)
    decreases |a|
  {
    if |a| > 0 {
      SomesAppend(a[1..], b);
      assert (a + b)[0] == a[0];
      assert (a + b)[1..] == a[1..] + b;
    } else {
      assert a + b == b;
    }
  }

  /** When every value is present, keeping the present values loses none
      and keeps them in place. */
  lemma {:induction false} SomesAll<T>(xs: seq<Option<T>>)
    requires forall i :: 0 <= i < |xs| ==> xs[i].Some?
    ensures |Somes(xs)| == |xs|
    ensures forall i :: 0 <= i < |xs| ==> Somes(xs)[i] == xs[i].value
    decreases |xs|
  {
    if |xs| > 0 {
      SomesAll(xs[1..]);
      assert Somes(xs) == [xs[0].value] + Somes(xs[1..]);
      forall i | 1 <= i < |xs| ensures Somes(xs)[i] == xs[i].value {
        assert xs[1..][i - 1] == xs[i];
      }
    }
  }
}
