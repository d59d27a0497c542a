/** Python `str` operations used by the scripts, on `seq<char>`.
    Character classes and case mappings cover ASCII and the Latin-1 letters; every other
    character is treated as uncased, non-word and non-space. */
module Text {

  import Base

  // ---------------------------------------------------------------- character classes

  predicate IsDigit(c: char) { '0' <= c <= '9' }

  predicate IsAsciiLetter(c: char) { 'a' <= c <= 'z' || 'A' <= c <= 'Z' }

  /** Latin-1 letters: U+C0-U+D6, U+D8-U+F6, U+F8-U+FF. */
  predicate IsLatin1Letter(c: char) {
    ('\U{C0}' <= c <= '\U{D6}') || ('\U{D8}' <= c <= '\U{F6}') || ('\U{F8}' <= c <= '\U{FF}')
  }

  /** Characters that have an upper and a lower case form for `title()`. */
  predicate IsCased(c: char) { IsAsciiLetter(c) || IsLatin1Letter(c) }

  /** `str.isspace()` and the regex class `\s`. */
  predicate IsSpace(c: char) {
    c == ' ' || ('\t' <= c <= '\r') || ('\U{1C}' <= c <= '\U{1F}') || c == '\U{85}' || c == '\U{A0}'
    || c == '\U{1680}' || ('\U{2000}' <= c <= '\U{200A}') || c == '\U{2028}' || c == '\U{2029}'
    || c == '\U{202F}' || c == '\U{205F}' || c == '\U{3000}'
  }

  /** The regex class `\w`: letters, digits (including the Latin-1 numeric signs) and '_'. */
  predicate IsWordChar(c: char) {
    IsAsciiLetter(c) || IsDigit(c) || c == '_' || IsLatin1Letter(c)
    || c == '\U{AA}' || c == '\U{B2}' || c == '\U{B3}' || c == '\U{B5}' || c == '\U{B9}'
    || c == '\U{BA}' || ('\U{BC}' <= c <= '\U{BE}')
  }

  /** `str.lower` on one character, for ASCII and Latin-1 letters; other characters are kept. */
  function Lower(c: char): (r: char)
    ensures IsCased(c) <==> IsCased(r)
    ensures IsWordChar(c) <==> IsWordChar(r)
  {
    if 'A' <= c <= 'Z' then (c as int + 32) as char
    else if '\U{C0}' <= c <= '\U{DE}' && c != '\U{D7}' then (c as int + 32) as char
    else c
  }

  /** `str.upper` on one character, for ASCII and Latin-1 letters other than U+DF and U+FF, whose
      upper-case forms lie outside Latin-1; other characters are kept. */
  function Upper(c: char): (r: char)
    ensures IsCased(c) <==> IsCased(r)
  {
    if 'a' <= c <= 'z' then (c as int - 32) as char
    else if '\U{E0}' <= c <= '\U{FE}' && c != '\U{F7}' then (c as int - 32) as char
    else c
  }

  function LowerStr(s: string): (r: string)
    ensures |r| == |s| && forall i :: 0 <= i < |s| ==> r[i] == Lower(s[i])
  {
    seq(|s|, i requires 0 <= i < |s| => Lower(s[i]))
  }

  function UpperStr(s: string): (r: string)
    ensures |r| == |s| && forall i :: 0 <= i < |s| ==> r[i] == Upper(s[i])
  {
    seq(|s|, i requires 0 <= i < |s| => Upper(s[i]))
  }

  lemma {:induction false} LowerIdempotent(s: string)
    ensures LowerStr(LowerStr(s)) == LowerStr(s)
  {
    forall i | 0 <= i < |s| ensures Lower(Lower(s[i])) == Lower(s[i]) {
      var c := s[i];
      if 'A' <= c <= 'Z' {
      } else if '\U{C0}' <= c <= '\U{DE}' && c != '\U{D7}' {
        assert Lower(c) as int == c as int + 32;
      }
    }
  }

  /** `str.title()`: a cased character is upper-cased when it follows an uncased one (or starts
      the string), and lower-cased otherwise. */
  function Title(s: string): (r: string)
    ensures |r| == |s|
    ensures forall i :: 0 <= i < |s| && !IsCased(s[i]) ==> r[i] == s[i]
    ensures forall i :: 0 <= i < |s| && IsCased(s[i]) && (i == 0 || !IsCased(s[i - 1])) ==> r[i] == Upper(s[i])
    ensures forall i :: 0 < i < |s| && IsCased(s[i]) && IsCased(s[i - 1]) ==> r[i] == Lower(s[i])
  {
    seq(|s|, i requires 0 <= i < |s| =>
      if !IsCased(s[i]) then s[i]
      else if i == 0 || !IsCased(s[i - 1]) then Upper(s[i])
      else Lower(s[i]))
  }

  // ---------------------------------------------------------------- whitespace

  /** Number of whitespace characters at the start of `s`. */
  function LeadingSpaces(s: string): (n: nat)
    ensures n <= |s|
    ensures forall i :: 0 <= i < n ==> IsSpace(s[i])
    ensures n == |s| || !IsSpace(s[n])
  {
    if |s| > 0 && IsSpace(s[0]) then 1 + LeadingSpaces(s[1..]) else 0
  }

  /** Number of whitespace characters at the end of `s`. */
  function TrailingSpaces(s: string): (n: nat)
    ensures n <= |s|
    ensures forall i :: |s| - n <= i < |s| ==> IsSpace(s[i])
    ensures n == |s| || !IsSpace(s[|s| - n - 1])
  {
    if |s| > 0 && IsSpace(s[|s| - 1]) then 1 + TrailingSpaces(s[..|s| - 1]) else 0
  }

  /** `str.strip()`: `s` without its leading and trailing whitespace. */
  function Strip(s: string): (r: string)
    ensures r == [] || (!IsSpace(r[0]) && !IsSpace(r[|r| - 1]))
    ensures var k := LeadingSpaces(s);
      && k + |r| <= |s| && r == s[k..k + |r|]
      && (forall i :: k + |r| <= i < |s| ==> IsSpace(s[i]))
  {
    var k := LeadingSpaces(s);
    if k == |s| then []
    else
      var t := TrailingSpaces(s);
      s[k..|s| - t]
  }

  lemma StripNoSpace(s: string)
    requires forall i :: 0 <= i < |s| ==> !IsSpace(s[i])
    ensures Strip(s) == s
  {
  }

  /** Text that neither starts nor ends with whitespace is its own strip. */
  lemma StripTrimmed(s: string)
    requires s == [] || (!IsSpace(s[0]) && !IsSpace(s[|s| - 1]))
    ensures Strip(s) == s
  {
    if s != [] {
      assert LeadingSpaces(s) == 0;
      assert TrailingSpaces(s) == 0;
    }
  }

  lemma StripIdempotent(s: string)
    ensures Strip(Strip(s)) == Strip(s)
  {
    StripTrimmed(Strip(s));
  }

  // ---------------------------------------------------------------- substrings

  predicate OccursAt(s: string, sub: string, i: int) {
    0 <= i && i + |sub| <= |s| && s[i..i + |sub|] == sub
  }

  /** `sub in s`. */
  predicate Contains(s: string, sub: string) {
    exists i :: 0 <= i <= |s| - |sub| && OccursAt(s, sub, i)
  }

  /** Case-insensitive `str.contains(sub, case=False)` for a literal pattern. */
  predicate ContainsIgnoreCase(s: string, sub: string) {
    Contains(LowerStr(s), LowerStr(sub))
  }

  predicate StartsWith(s: string, prefix: string) {
    |prefix| <= |s| && s[..|prefix|] == prefix
  }

  predicate EndsWith(s: string, suffix: string) {
    |suffix| <= |s| && s[|s| - |suffix|..] == suffix
  }

  lemma ContainsSplit(a: string, b: string, sub: string)
    requires !Contains(a, sub) && !Contains(b, sub)
    requires Contains(a + b, sub)
    ensures exists i :: 0 <= i < |a| && i + |sub| > |a| && OccursAt(a + b, sub, i)
  {
    var i :| 0 <= i <= |a + b| - |sub| && OccursAt(a + b, sub, i);
    if i + |sub| <= |a| {
      assert (a + b)[i..i + |sub|] == a[i..i + |sub|];
      assert OccursAt(a, sub, i);
      assert false;
    } else if i >= |a| {
      assert (a + b)[i..i + |sub|] == b[i - |a|..i - |a| + |sub|];
      assert OccursAt(b, sub, i - |a|);
      assert false;
    }
  }

  /** `sep.join(parts)`. */
  function Join(parts: seq<string>, sep: string): string {
    if parts == [] then ""
    else if |parts| == 1 then parts[0]
    else parts[0] + sep + Join(parts[1..], sep)
  }

  /** A text contains what follows any prefix of it. */
  lemma ContainsShift(pre: string, s: string, sub: string)
    requires Contains(s, sub)
    ensures Contains(pre + s, sub)
  {
    var i :| 0 <= i <= |s| - |sub| && OccursAt(s, sub, i);
    assert (pre + s)[|pre| + i..|pre| + i + |sub|] == s[i..i + |sub|];
    assert OccursAt(pre + s, sub, |pre| + i);
  }

  /** Each part occurs in the joined text. */
  lemma {:induction false} JoinContains(parts: seq<string>, sep: string, k: nat)
    requires k < |parts|
    ensures Contains(Join(parts, sep), parts[k])
  {
    var t := Join(parts, sep);
    if k == 0 {
      assert t[..|parts[0]|] == parts[0];
      assert OccursAt(t, parts[0], 0);
    } else {
      JoinContains(parts[1..], sep, k - 1);
      ContainsShift(parts[0] + sep, Join(parts[1..], sep), parts[k]);
    }
  }

  // ---------------------------------------------------------------- replacement

  /** `str.replace(a, b)` for one-character arguments. */
  function ReplaceChar(s: string, a: char, b: char): (r: string)
    ensures |r| == |s|
    ensures forall i :: 0 <= i < |s| ==> r[i] == (if s[i] == a then b else s[i])
  {
    seq(|s|, i requires 0 <= i < |s| => if s[i] == a then b else s[i])
  }

  /** `str.replace(a, '')` for a one-character argument. */
  function RemoveChar(s: string, a: char): (r: string)
    ensures forall c :: c in r <==> c in s && c != a
    ensures |r| <= |s|
  {
    if s == [] then []
    else if s[0] == a then RemoveChar(s[1..], a)
    else [s[0]] + RemoveChar(s[1..], a)
  }

  lemma {:induction false} RemoveAbsentChar(s: string, a: char)
    requires a !in s
    ensures RemoveChar(s, a) == s
  {
    if s != [] {
      RemoveAbsentChar(s[1..], a);
    }
  }

  lemma {:induction false} RemoveCharAppend(a: string, b: string, c: char)
    ensures RemoveChar(a + b, c) == RemoveChar(a, c) + RemoveChar(b, c)
    decreases |a|
  {
    if a == [] {
      assert a + b == b;
    } else {
      assert (a + b)[1..] == a[1..] + b;
      RemoveCharAppend(a[1..], b, c);
    }
  }

  /** `str.replace(target, repl)` with a non-empty `target`: every non-overlapping occurrence, found
      left to right, is replaced. */
  function Replace(s: string, target: string, repl: string): (r: string)
    requires |target| > 0
    decreases |s|
  {
    if |s| < |target| then s
    else if s[..|target|] == target then repl + Replace(s[|target|..], target, repl)
    else [s[0]] + Replace(s[1..], target, repl)
  }

  lemma {:induction false} ReplaceAbsent(s: string, target: string, repl: string)
    requires |target| > 0
    requires !Contains(s, target)
    ensures Replace(s, target, repl) == s
    decreases |s|
  {
    if |s| >= |target| {
      assert !OccursAt(s, target, 0);
      if !Contains(s[1..], target) {
        ReplaceAbsent(s[1..], target, repl);
      } else {
        var i :| 0 <= i <= |s[1..]| - |target| && OccursAt(s[1..], target, i);
        assert s[i + 1..i + 1 + |target|] == s[1..][i..i + |target|];
        assert OccursAt(s, target, i + 1);
        assert false;
      }
    }
  }

  /** `replace` of a text that ends in `target` and has no earlier occurrence of it. */
  lemma {:induction false} ReplaceSuffix(a: string, target: string, repl: string)
    requires |target| > 0
    requires forall i :: 0 <= i < |a| ==> !OccursAt(a + target, target, i)
    ensures Replace(a + target, target, repl) == a + repl
    decreases |a|
  {
    var s := a + target;
    if |a| == 0 {
      assert s == target;
      assert s[|target|..] == [];
    } else {
      assert !OccursAt(s, target, 0);
      assert s[1..] == a[1..] + target;
      forall i | 0 <= i < |a[1..]| ensures !OccursAt(a[1..] + target, target, i) {
        assert !OccursAt(s, target, i + 1);
        assert (a[1..] + target)[i..i + |target|] == s[i + 1..i + 1 + |target|];
      }
      ReplaceSuffix(a[1..], target, repl);
      assert [a[0]] + (a[1..] + repl) == a + repl;
    }
  }

  /** Removing a suffix with `replace`: when the first character of `target` does not occur in
      `a`, the only occurrence of `target` in `a + target` is the appended one. */
  lemma {:induction false} ReplaceAppend(a: string, target: string, repl: string)
    requires |target| > 0
    requires target[0] !in a
    ensures Replace(a + target, target, repl) == a + repl
    decreases |a|
  {
    var s := a + target;
    if |a| == 0 {
      assert s == target;
      assert s[|target|..] == [];
    } else {
      assert s[..|target|][0] == a[0] != target[0];
      assert s[1..] == a[1..] + target;
      ReplaceAppend(a[1..], target, repl);
      assert [a[0]] + (a[1..] + repl) == a + repl;
    }
  }

  // ---------------------------------------------------------------- padding and splitting

  function Repeat(c: char, n: nat): (r: string)
    ensures |r| == n && forall i :: 0 <= i < n ==> r[i] == c
  {
    seq(n, _ => c)
  }

  /** `str.zfill(width)`: left-pads with '0' up to `width`, keeping a leading sign in front. */
  function ZFill(s: string, width: nat): (r: string)
    ensures |r| == if |s| >= width then |s| else width
    ensures |s| >= width ==> r == s
    ensures |s| < width && (s == [] || (s[0] != '+' && s[0] != '-')) ==>
      r == Repeat('0', width - |s|) + s
    ensures |s| < width && s != [] && (s[0] == '+' || s[0] == '-') ==>
      r == [s[0]] + Repeat('0', width - |s|) + s[1..]
  {
    if |s| >= width then s
    else if s != [] && (s[0] == '+' || s[0] == '-') then [s[0]] + Repeat('0', width - |s|) + s[1..]
    else Repeat('0', width - |s|) + s
  }

  /** `s.split(c)[-1]`: the text after the last `c`, or all of `s` when there is none. */
  function LastSegment(s: string, c: char): (r: string)
    ensures c !in r
    ensures |r| <= |s| && r == s[|s| - |r|..]
    ensures |r| < |s| ==> s[|s| - |r| - 1] == c
  {
    if s == [] then []
    else if s[|s| - 1] == c then []
    else LastSegment(s[..|s| - 1], c) + [s[|s| - 1]]
  }

  /** `s.split(c)[0]`: the text before the first `c`, or all of `s` when there is none. */
  function FirstSegment(s: string, c: char): (r: string)
    ensures c !in r
    ensures |r| <= |s| && r == s[..|r|]
    ensures |r| < |s| ==> s[|r|] == c
  {
    if s == [] then []
    else if s[0] == c then []
    else [s[0]] + FirstSegment(s[1..], c)
  }

  lemma {:induction false} LastSegmentAppend(a: string, c: char, b: string)
    requires c !in b
    ensures LastSegment(a + [c] + b, c) == b
    decreases |b|
  {
    var s := a + [c] + b;
    if b == [] {
      assert s[|s| - 1] == c;
    } else {
      assert s[..|s| - 1] == a + [c] + b[..|b| - 1];
      assert b[|b| - 1] in b;
      LastSegmentAppend(a, c, b[..|b| - 1]);
      assert b[..|b| - 1] + [b[|b| - 1]] == b;
    }
  }

  lemma {:induction false} FirstSegmentAppend(a: string, c: char, b: string)
    requires c !in a
    ensures FirstSegment(a + [c] + b, c) == a
    decreases |a|
  {
    var s := a + [c] + b;
    if a != [] {
      assert a[0] in a;
      assert s[1..] == a[1..] + [c] + b;
      FirstSegmentAppend(a[1..], c, b);
    }
  }

  lemma {:induction false} LastSegmentAbsent(s: string, c: char)
    requires c !in s
    ensures LastSegment(s, c) == s
  {
    if s != [] {
      assert s[|s| - 1] in s;
      LastSegmentAbsent(s[..|s| - 1], c);
      assert s[..|s| - 1] + [s[|s| - 1]] == s;
    }
  }

  lemma {:induction false} FirstSegmentAbsent(s: string, c: char)
    requires c !in s
    ensures FirstSegment(s, c) == s
  {
    if s != [] {
      assert s[0] in s;
      FirstSegmentAbsent(s[1..], c);
    }
  }

  /** `os.path.basename`: the text after the last '/'. */
  function Basename(path: string): (r: string)
    ensures '/' !in r
  {
    LastSegment(path, '/')
  }

  /** The characters of `s` that are ASCII decimal digits, in order: `re.sub('[^0-9]', '', s)`,
      and `filter(str.isdigit, s)` on text whose only digits are ASCII ones (`str.isdigit`
      also accepts other Unicode digits). */
  function DigitsOnly(s: string): (r: string)
    ensures r == Base.Filter(s, IsDigit)
    ensures forall i :: 0 <= i < |r| ==> IsDigit(r[i])
    ensures |r| <= |s|
  {
    if s == [] then []
    else if IsDigit(s[0]) then [s[0]] + DigitsOnly(s[1..])
    else DigitsOnly(s[1..])
  }

  /** The digits kept are those of the input, in their original order. */
  lemma DigitsOnlyInOrder(s: string)
    ensures Base.Subsequence(DigitsOnly(s), s)
    ensures forall c :: c in DigitsOnly(s) <==> c in s && IsDigit(c)
  {
    Base.FilterSubsequence(s, IsDigit);
  }

  lemma {:induction false} DigitsOnlyAppend(a: string, b: string)
    ensures DigitsOnly(a + b) == DigitsOnly(a) + DigitsOnly(b)
    decreases |a|
  {
    if a == [] {
      assert a + b == b;
    } else {
      assert (a + b)[1..] == a[1..] + b;
      DigitsOnlyAppend(a[1..], b);
    }
  }

  lemma {:induction false} DigitsOnlyOfDigits(s: string)
    requires forall i :: 0 <= i < |s| ==> IsDigit(s[i])
    ensures DigitsOnly(s) == s
  {
    if s != [] {
      DigitsOnlyOfDigits(s[1..]);
    }
  }

  lemma {:induction false} DigitsOnlyNoDigits(s: string)
    requires forall i :: 0 <= i < |s| ==> !IsDigit(s[i])
    ensures DigitsOnly(s) == []
  {
    if s != [] {
      DigitsOnlyNoDigits(s[1..]);
    }
  }
}
