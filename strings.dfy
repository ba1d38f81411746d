/** The few operations on Python `str` that the modelled code uses, on `seq<char>`. */
module Strings {

  predicate StartsWith(s: string, prefix: string)
  {
    |prefix| <= |s| && s[..|prefix|] == prefix
  }

  predicate EndsWith(s: string, suffix: string)
  {
    |suffix| <= |s| && s[|s| - |suffix|..] == suffix
  }

  /** `needle` occurs in `hay` starting at index `i`. */
  predicate OccursAt(hay: string, needle: string, i: int)
  {
    0 <= i <= |hay| - |needle| && hay[i..i + |needle|] == needle
  }

  /** Python's `needle in hay`, scanning from the left. */
  predicate Contains(hay: string, needle: string)
    decreases |hay|
  {
    StartsWith(hay, needle) || (|hay| > 0 && Contains(hay[1..], needle))
  }

  /** An occurrence at any index is found by `Contains`. */
  lemma {:induction false} OccursImpliesContains(hay: string, needle: string, i: int)
    requires OccursAt(hay, needle, i)
    ensures Contains(hay, needle)
    decreases |hay|
  {
    if i > 0 {
      assert hay[1..][i - 1..i - 1 + |needle|] == hay[i..i + |needle|];
      OccursImpliesContains(hay[1..], needle, i - 1);
    }
  }

  /** `Contains` only succeeds on a real occurrence. */
  lemma {:induction false} ContainsImpliesOccurs(hay: string, needle: string)
    requires Contains(hay, needle)
    ensures exists i :: OccursAt(hay, needle, i)
    decreases |hay|
  {
    if StartsWith(hay, needle) {
      assert OccursAt(hay, needle, 0);
    } else {
      ContainsImpliesOccurs(hay[1..], needle);
      var j :| OccursAt(hay[1..], needle, j);
      assert hay[1..][j..j + |needle|] == hay[j + 1..j + 1 + |needle|];
      assert OccursAt(hay, needle, j + 1);
    }
  }

  /** A string that appears inside a concatenation is found by `Contains`. */
  lemma ContainsInfix(a: string, needle: string, b: string)
    ensures Contains(a + needle + b, needle)
  {
    var s := a + needle + b;
    assert s[|a|..|a| + |needle|] == needle;
    OccursImpliesContains(s, needle, |a|);
  }

  /** Python's `s.split(sep)` for a one-character separator. */
  function Split(s: string, sep: char): (parts: seq<string>)
    ensures |parts| >= 1
    ensures forall i :: 0 <= i < |parts| ==> sep !in parts[i]
    decreases |s|
  {
    if s == [] then [[]]
    else if s[0] == sep then [[]] + Split(s[1..], sep)
    else
      var rest := Split(s[1..], sep);
      [[s[0]] + rest[0]] + rest[1..]
  }

  /** Python's `sep.join(parts)`. */
  function Join(parts: seq<string>, sep: char): string
    requires |parts| >= 1
    decreases |parts|
  {
    if |parts| == 1 then parts[0] else parts[0] + [sep] + Join(parts[1..], sep)
  }

  /** Joining the pieces of a split gives back the original string. */
  lemma {:induction false} JoinSplit(s: string, sep: char)
    ensures Join(Split(s, sep), sep) == s
    decreases |s|
  {
    if s == [] {
    } else if s[0] == sep {
      JoinSplit(s[1..], sep);
      assert s == [sep] + s[1..];
    } else {
      JoinSplit(s[1..], sep);
      var rest := Split(s[1..], sep);
      if |rest| == 1 {
        assert s == [s[0]] + rest[0];
      } else {
        assert rest[1..][1..] == rest[2..];
        assert Join(rest, sep) == rest[0] + [sep] + Join(rest[1..], sep);
        assert s == [s[0]] + rest[0] + [sep] + Join(rest[1..], sep);
      }
    }
  }

  /** Splitting a string `a + sep + b` splits `a` and `b` independently. */
  lemma {:induction false} SplitConcat(a: string, sep: char, b: string)
    ensures Split(a + [sep] + b, sep) == Split(a, sep) + Split(b, sep)
    decreases |a|
  {
    var s := a + [sep] + b;
    if a == [] {
      assert s[1..] == b;
    } else if a[0] == sep {
      assert s[1..] == a[1..] + [sep] + b;
      SplitConcat(a[1..], sep, b);
    } else {
      assert s[1..] == a[1..] + [sep] + b;
      SplitConcat(a[1..], sep, b);
    }
  }

  /** A split has one more piece than there are separators. */
  lemma {:induction false} SplitLength(s: string, sep: char)
    ensures |Split(s, sep)| == 1 + multiset(s)[sep]
    decreases |s|
  {
    if s != [] {
      assert s == [s[0]] + s[1..];
      SplitLength(s[1..], sep);
    }
  }

  /** For a separator-free prefix `x` of a joined string, the parts ending the join. */
  lemma {:induction false} JoinLastTwo(parts: seq<string>, sep: char)
    requires |parts| >= 2
    ensures var n := |parts|;
            EndsWith(Join(parts, sep), parts[n - 2] + [sep] + parts[n - 1])
    ensures var n := |parts|;
            var tail := parts[n - 2] + [sep] + parts[n - 1];
            |Join(parts, sep)| == |tail| || Join(parts, sep)[|Join(parts, sep)| - |tail| - 1] == sep
    decreases |parts|
  {
    var n := |parts|;
    if n > 2 {
      JoinLastTwo(parts[1..], sep);
      assert parts[1..][n - 3] == parts[n - 2] && parts[1..][n - 2] == parts[n - 1];
      var j := Join(parts, sep);
      var tail := parts[n - 2] + [sep] + parts[n - 1];
      assert j == parts[0] + [sep] + Join(parts[1..], sep);
      var jr := Join(parts[1..], sep);
      assert j[|j| - |tail|..] == jr[|jr| - |tail|..];
      if |jr| == |tail| {
        assert j[|j| - |tail| - 1] == sep;
      } else {
        assert j[|j| - |tail| - 1] == jr[|jr| - |tail| - 1];
      }
    } else {
      assert parts[1..] == [parts[1]];
    }
  }

  /** The text after the last `sep`: the whole string when it has none. This is
      `os.path.basename` for `sep == '/'` and `s.split(sep)[-1]` in general. */
  function LastSegment(s: string, sep: char): (r: string)
    ensures sep !in r
    ensures EndsWith(s, r)
    ensures |r| == |s| || s[|s| - |r| - 1] == sep
    decreases |s|
  {
    if s == [] then []
    else if s[|s| - 1] == sep then []
    else
      var r' := LastSegment(s[..|s| - 1], sep);
      LastSegmentStep(s, sep, r');
      r' + [s[|s| - 1]]
  }

  /** The step of `LastSegment`: a last character other than `sep` extends the
      segment of the rest. */
  lemma LastSegmentStep(s: string, sep: char, r': string)
    requires s != [] && s[|s| - 1] != sep
    requires sep !in r' && EndsWith(s[..|s| - 1], r')
    requires |r'| == |s| - 1 || s[..|s| - 1][|s| - 1 - |r'| - 1] == sep
    ensures var r := r' + [s[|s| - 1]];
            sep !in r && EndsWith(s, r) && (|r| == |s| || s[|s| - |r| - 1] == sep)
  {
    var s' := s[..|s| - 1];
    var r := r' + [s[|s| - 1]];
    assert s[|s| - |r|..] == s'[|s'| - |r'|..] + [s[|s| - 1]];
    assert |r'| < |s'| ==> s[|s| - |r| - 1] == s'[|s'| - |r'| - 1];
  }

  /** A string without a separator is its own last segment. */
  lemma {:induction false} NoSepIsOwnSegment(s: string, sep: char)
    requires sep !in s
    ensures LastSegment(s, sep) == s
    decreases |s|
  {
    if s != [] {
      NoSepIsOwnSegment(s[..|s| - 1], sep);
    }
  }

  /** The last segment of `x + sep + b` is `b` when `b` has no separator. */
  lemma {:induction false} SegmentAfterSep(x: string, sep: char, b: string)
    requires sep !in b
    ensures LastSegment(x + [sep] + b, sep) == b
    decreases |b|
  {
    var s := x + [sep] + b;
    if b != [] {
      assert s[..|s| - 1] == x + [sep] + b[..|b| - 1];
      SegmentAfterSep(x, sep, b[..|b| - 1]);
    }
  }

  /** Python's `s.replace(pat, "")`: occurrences are removed left to right,
      without overlap. */
  function RemoveAll(s: string, pat: string): (r: string)
    requires |pat| > 0
    ensures |r| <= |s|
    ensures forall c :: c in r ==> c in s
    decreases |s|
  {
    if StartsWith(s, pat) then RemoveAll(s[|pat|..], pat)
    else if s == [] then []
    else [s[0]] + RemoveAll(s[1..], pat)
  }

  /** A string without any occurrence of `pat` is left as it is. */
  lemma {:induction false} RemoveAllAbsent(s: string, pat: string)
    requires |pat| > 0 && !Contains(s, pat)
    ensures RemoveAll(s, pat) == s
    decreases |s|
  {
    if s != [] {
      RemoveAllAbsent(s[1..], pat);
      assert s == [s[0]] + s[1..];
    }
  }

  /** The characters Python's `str.isspace()` accepts, which are the ones that
      `strip()`, `split()` and `int()` skip: the ASCII controls 9 to 13, the
      controls 28 to 31 and the space, then U+0085, U+00A0, U+1680, U+2000 to
      U+200A, U+2028, U+2029, U+202F, U+205F and U+3000. */
  predicate IsSpace(c: char)
  {
    if c < '\U{0085}' then '\U{0009}' <= c <= '\U{000D}' || '\U{001C}' <= c <= '\U{0020}'
    else if c < '\U{2000}' then c == '\U{0085}' || c == '\U{00A0}' || c == '\U{1680}'
    else c <= '\U{200A}' || c == '\U{2028}' || c == '\U{2029}' || c == '\U{202F}' || c == '\U{205F}' || c == '\U{3000}'
  }

  /** The printable ASCII characters after the space (digits, signs, letters)
      are not whitespace. */
  lemma PrintableNotSpace(c: char)
    requires '\U{0020}' < c <= '\U{007E}'
    ensures !IsSpace(c)
  {
  }

  /** The space is whitespace. */
  lemma SpaceIsSpace()
    ensures IsSpace(' ')
  {
  }

  predicate IsDigit(c: char)
  {
    '0' <= c <= '9'
  }

  /** The ASCII part of Python's `str.lower()`. */
  function LowerChar(c: char): char
  {
    if 'A' <= c <= 'Z' then (c as int - 'A' as int + 'a' as int) as char else c
  }

  function Lower(s: string): (r: string)
    ensures |r| == |s|
    ensures forall i :: 0 <= i < |s| ==> r[i] == LowerChar(s[i])
  {
    seq(|s|, i requires 0 <= i < |s| => LowerChar(s[i]))
  }

  /** Python's `s.strip()`. */
  function Strip(s: string): (r: string)
    ensures |r| <= |s|
    ensures r != [] ==> !IsSpace(r[0]) && !IsSpace(r[|r| - 1])
    decreases |s|
  {
    if s == [] then []
    else if IsSpace(s[0]) then Strip(s[1..])
    else if IsSpace(s[|s| - 1]) then Strip(s[..|s| - 1])
    else s
  }

  /** Text without any whitespace is left unchanged. */
  lemma StripUnchanged(s: string)
    requires forall i :: 0 <= i < |s| ==> !IsSpace(s[i])
    ensures Strip(s) == s
  {
  }

  /** `r` is `s[i..j]`, with only whitespace before `i` and from `j` on. */
  ghost predicate StrippedAt(s: string, r: string, i: int, j: int)
  {
    && 0 <= i <= j <= |s| && r == s[i..j]
    && (forall k :: 0 <= k < i ==> IsSpace(s[k]))
    && (forall k :: j <= k < |s| ==> IsSpace(s[k]))
  }

  /** Text made only of whitespace strips to the empty string. */
  lemma {:induction false} StripBlank(s: string)
    requires forall i :: 0 <= i < |s| ==> IsSpace(s[i])
    ensures Strip(s) == []
    decreases |s|
  {
    if s != [] {
      StripBlank(s[1..]);
    }
  }

  /** The stripped string is the part of `s` between a leading and a trailing
      run of whitespace. */
  lemma {:induction false} StripIsSlice(s: string)
    ensures exists i, j :: StrippedAt(s, Strip(s), i, j)
    decreases |s|
  {
    if s == [] {
      assert StrippedAt(s, Strip(s), 0, 0);
    } else if IsSpace(s[0]) {
      StripIsSlice(s[1..]);
      var i, j :| StrippedAt(s[1..], Strip(s[1..]), i, j);
      StrippedAfterFront(s, i, j);
    } else if IsSpace(s[|s| - 1]) {
      StripIsSlice(s[..|s| - 1]);
      var i, j :| StrippedAt(s[..|s| - 1], Strip(s[..|s| - 1]), i, j);
      StrippedAfterBack(s, i, j);
    } else {
      assert s[0..|s|] == s;
      assert StrippedAt(s, Strip(s), 0, |s|);
    }
  }

  /** A leading whitespace character moves the slice one place right. */
  lemma StrippedAfterFront(s: string, i: int, j: int)
    requires s != [] && IsSpace(s[0]) && StrippedAt(s[1..], Strip(s[1..]), i, j)
    ensures StrippedAt(s, Strip(s), i + 1, j + 1)
  {
    StripDropsFirst(s);
    SliceAfterFront(s, Strip(s[1..]), i, j);
  }

  /** A trailing whitespace character leaves the slice where it is. */
  lemma StrippedAfterBack(s: string, i: int, j: int)
    requires s != [] && !IsSpace(s[0]) && IsSpace(s[|s| - 1])
    requires StrippedAt(s[..|s| - 1], Strip(s[..|s| - 1]), i, j)
    ensures StrippedAt(s, Strip(s), i, j)
  {
    StripDropsLast(s);
    SliceAfterBack(s, Strip(s[..|s| - 1]), i, j);
  }

  lemma StripKeeps(s: string)
    requires s != [] && !IsSpace(s[0]) && !IsSpace(s[|s| - 1])
    ensures Strip(s) == s
  {
  }

  lemma StripDropsFirst(s: string)
    requires s != [] && IsSpace(s[0])
    ensures Strip(s) == Strip(s[1..])
  {
  }

  lemma StripDropsLast(s: string)
    requires s != [] && !IsSpace(s[0]) && IsSpace(s[|s| - 1])
    ensures Strip(s) == Strip(s[..|s| - 1])
  {
  }

  /** A slice of `s[1..]` between whitespace runs is one of `s` when `s[0]`
      is whitespace too. */
  lemma SliceAfterFront(s: string, r: string, i: int, j: int)
    requires s != [] && IsSpace(s[0]) && StrippedAt(s[1..], r, i, j)
    ensures StrippedAt(s, r, i + 1, j + 1)
  {
    var t := s[1..];
    assert s[i + 1..j + 1] == t[i..j];
    assert forall k :: 1 <= k < |s| ==> s[k] == t[k - 1];
  }

  /** A slice of `s` without its last character between whitespace runs is
      one of `s` when that character is whitespace. */
  lemma SliceAfterBack(s: string, r: string, i: int, j: int)
    requires s != [] && IsSpace(s[|s| - 1]) && StrippedAt(s[..|s| - 1], r, i, j)
    ensures StrippedAt(s, r, i, j)
  {
    var t := s[..|s| - 1];
    assert s[i..j] == t[i..j];
    assert forall k :: 0 <= k < |t| ==> s[k] == t[k];
  }

  function DigitChar(d: nat): char
    requires d < 10
  {
    ('0' as int + d) as char
  }

  function DigitValue(c: char): nat
    requires IsDigit(c)
  {
    c as int - '0' as int
  }

  /** Decimal digits of `n` without leading zeros: Python's `str(n)` for `n >= 0`. */
  function NatToString(n: nat): (r: string)
    ensures r != [] && forall i :: 0 <= i < |r| ==> IsDigit(r[i])
    decreases n
  {
    if n < 10 then [DigitChar(n)] else NatToString(n / 10) + [DigitChar(n % 10)]
  }

  /** Python's `str(n)`. */
  function IntToString(n: int): string
  {
    if n < 0 then "-" + NatToString(-n) else NatToString(n)
  }

  /** The value of a string of decimal digits, most significant first. */
  function DigitsValue(s: string): nat
    requires forall i :: 0 <= i < |s| ==> IsDigit(s[i])
    decreases |s|
  {
    if s == [] then 0 else DigitsValue(s[..|s| - 1]) * 10 + DigitValue(s[|s| - 1])
  }

  lemma {:induction false} DigitsOfNat(n: nat)
    ensures DigitsValue(NatToString(n)) == n
    decreases n
  {
    if n >= 10 {
      DigitsOfNat(n / 10);
      var s := NatToString(n);
      assert s[..|s| - 1] == NatToString(n / 10);
    }
  }
}
