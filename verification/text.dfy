/** Python `str` operations the application relies on: character classes of
    the `re` module and `str.isspace`, `strip`, `split`, `join`, `in`, and the
    decimal rendering `str(int)`. Strings are sequences of Unicode scalar values. */
module Text {

  /** `str.isspace()`, which is also what `\s` matches in a `str` pattern. */
  predicate IsSpace(c: char) {
    || c == ' '
    || ('\t' <= c <= '\r')
    || ('\U{1c}' <= c <= '\U{1f}')
    || c == '\U{85}' || c == '\U{a0}' || c == '\U{1680}'
    || ('\U{2000}' <= c <= '\U{200a}')
    || c == '\U{2028}' || c == '\U{2029}' || c == '\U{202f}' || c == '\U{205f}' || c == '\U{3000}'
  }

  predicate IsAsciiLetter(c: char) {
    ('A' <= c <= 'Z') || ('a' <= c <= 'z')
  }

  predicate IsAsciiDigit(c: char) {
    '0' <= c <= '9'
  }

  /** `\d` on a `str` pattern: ASCII digits and the fullwidth digits used in Japanese text. */
  predicate IsDecimalDigit(c: char) {
    IsAsciiDigit(c) || ('\U{ff10}' <= c <= '\U{ff19}')
  }

  /** `\w` on a `str` pattern: ASCII letters, digits and `_`, plus the letter
      blocks that occur in Japanese and Western bibliographic text (Latin-1 and
      Latin Extended letters, hiragana, katakana, CJK ideographs, fullwidth
      letters and digits). */
  predicate IsWordChar(c: char) {
    || IsAsciiLetter(c) || IsAsciiDigit(c) || c == '_'
    || ('\U{c0}' <= c <= '\U{24f}' && c != '\U{d7}' && c != '\U{f7}')
    || ('\U{3041}' <= c <= '\U{3096}')
    || ('\U{30a1}' <= c <= '\U{30fa}') || c == '\U{30fc}'
    || ('\U{3400}' <= c <= '\U{4dbf}') || ('\U{4e00}' <= c <= '\U{9fff}')
    || ('\U{ff10}' <= c <= '\U{ff19}') || ('\U{ff21}' <= c <= '\U{ff3a}') || ('\U{ff41}' <= c <= '\U{ff5a}')
    || ('\U{ff66}' <= c <= '\U{ff9f}')
  }

  /** ASCII lower-casing, the case folding the model uses for `re.IGNORECASE`. */
  function LowerChar(c: char): (r: char)
    ensures IsAsciiLetter(c) ==> 'a' <= r <= 'z'
    ensures !('A' <= c <= 'Z') ==> r == c
  {
    if 'A' <= c <= 'Z' then (c as int + 32) as char else c
  }

  function Lower(s: string): (r: string)
    ensures |r| == |s|
    ensures forall i :: 0 <= i < |s| ==> r[i] == LowerChar(s[i])
  {
    if |s| == 0 then "" else [LowerChar(s[0])] + Lower(s[1..])
  }

  /** `pat` occurs in `s` at position `i`. */
  predicate OccursAt(s: string, pat: string, i: int) {
    0 <= i && i + |pat| <= |s| && s[i..i + |pat|] == pat
  }

  /** Python's `pat in s` for strings. */
  predicate Contains(s: string, pat: string) {
    exists i :: 0 <= i <= |s| - |pat| && OccursAt(s, pat, i)
  }

  /** Case-insensitive containment, as `str.contains(..., case=False)`. */
  predicate ContainsIgnoreCase(s: string, pat: string) {
    Contains(Lower(s), Lower(pat))
  }

  lemma ContainsChar(s: string, c: char)
    ensures Contains(s, [c]) <==> c in s
  {
    if c in s {
      var i :| 0 <= i < |s| && s[i] == c;
      assert OccursAt(s, [c], i);
    }
    if Contains(s, [c]) {
      var i :| 0 <= i <= |s| - 1 && OccursAt(s, [c], i);
      assert s[i..i + 1][0] == s[i];
    }
  }

  /** Removes leading whitespace. */
  function TrimStart(s: string): (r: string)
    ensures |r| <= |s| && r == s[|s| - |r|..]
    ensures forall k :: 0 <= k < |s| - |r| ==> IsSpace(s[k])
    ensures |r| > 0 ==> !IsSpace(r[0])
  {
    if |s| > 0 && IsSpace(s[0]) then TrimStart(s[1..]) else s
  }

  /** Removes trailing whitespace. */
  function TrimEnd(s: string): (r: string)
    ensures |r| <= |s| && r == s[..|r|]
    ensures forall k :: |r| <= k < |s| ==> IsSpace(s[k])
    ensures |r| > 0 ==> !IsSpace(r[|r| - 1])
  {
    if |s| > 0 && IsSpace(s[|s| - 1]) then TrimEnd(s[..|s| - 1]) else s
  }

  /** `str.strip()`: the longest middle part of `s` that neither starts nor ends with whitespace. */
  function Strip(s: string): (r: string)
    ensures exists i :: OccursAt(s, r, i)
    ensures |r| > 0 ==> !IsSpace(r[0]) && !IsSpace(r[|r| - 1])
    ensures (forall k :: 0 <= k < |s| ==> IsSpace(s[k])) ==> r == ""
  {
    var t := TrimStart(s);
    var r := TrimEnd(t);
    assert OccursAt(s, r, |s| - |t|);
    r
  }

  /** Python's `s.split(sep)` for a non-empty separator: cut at each
      occurrence of `sep`, searching left to right without overlaps. */
  function SplitOn(s: string, sep: string): (parts: seq<string>)
    requires |sep| > 0
    ensures |parts| >= 1
    decreases |s|
  {
    if |s| < |sep| then [s]
    else if s[..|sep|] == sep then [""] + SplitOn(s[|sep|..], sep)
    else
      var rest := SplitOn(s[1..], sep);
      [[s[0]] + rest[0]] + rest[1..]
  }

  /** Python's `sep.join(parts)`. */
  function Join(parts: seq<string>, sep: string): string
  {
    if |parts| == 0 then ""
    else if |parts| == 1 then parts[0]
    else parts[0] + sep + Join(parts[1..], sep)
  }

  function Last<T>(xs: seq<T>): T
    requires |xs| > 0
  {
    xs[|xs| - 1]
  }

  /** `s.split(sep)[-1]`: the text after the last `sep`, all of `s` when
      there is none. */
  function AfterLast(s: string, sep: string): (r: string)
    requires |sep| > 0
    ensures !Contains(r, sep)
  {
    LastPieceHasNoSeparator(s, sep);
    Last(SplitOn(s, sep))
  }

  /** `s.split(sep)[-1]` is the suffix of `s` after an occurrence of `sep`,
      or all of `s`; it holds no `sep` itself. */
  lemma AfterLastIsSuffix(s: string, sep: string)
    requires |sep| > 0
    ensures var r := AfterLast(s, sep);
      && |r| <= |s| && r == s[|s| - |r|..]
      && (r == s || OccursAt(s, sep, |s| - |r| - |sep|))
  {
    LastPieceIsSuffix(s, sep);
  }

  /** `r` is a suffix of `s`: all of it, or the text right after an
      occurrence of `sep`. */
  predicate SuffixAfterCut(s: string, sep: string, r: string) {
    && |r| <= |s| && r == s[|s| - |r|..]
    && (r == s || OccursAt(s, sep, |s| - |r| - |sep|))
  }

  /** The last piece of a split is a suffix of the string: all of it, or
      the text right after an occurrence of the separator. */
  lemma LastPieceIsSuffix(s: string, sep: string)
    requires |sep| > 0
    ensures SuffixAfterCut(s, sep, Last(SplitOn(s, sep)))
  {
    var parts := SplitOn(s, sep);
    JoinSplit(s, sep);
    if |parts| >= 2 {
      JoinSnoc(parts, sep);
      var front := Join(parts[..|parts| - 1], sep);
      assert s == front + sep + Last(parts);
      assert s[|front|..|front| + |sep|] == sep;
    }
  }

  /** Joining the pieces of a split with the same separator gives back the string. */
  lemma {:induction false} JoinSplit(s: string, sep: string)
    requires |sep| > 0
    ensures Join(SplitOn(s, sep), sep) == s
    decreases |s|
  {
    if |s| < |sep| {
    } else if s[..|sep|] == sep {
      var tail := SplitOn(s[|sep|..], sep);
      JoinSplit(s[|sep|..], sep);
      assert SplitOn(s, sep) == [""] + tail;
      assert ([""] + tail)[1..] == tail;
      assert s == s[..|sep|] + s[|sep|..];
    } else {
      var rest := SplitOn(s[1..], sep);
      JoinSplit(s[1..], sep);
      assert SplitOn(s, sep) == [[s[0]] + rest[0]] + rest[1..];
      JoinGlued(s[0], rest, sep);
      assert s == [s[0]] + s[1..];
    }
  }

  /** Gluing a character to the first piece glues it to the joined string. */
  lemma JoinGlued(c: char, rest: seq<string>, sep: string)
    requires |rest| >= 1
    ensures Join([[c] + rest[0]] + rest[1..], sep) == [c] + Join(rest, sep)
  {
    var parts := [[c] + rest[0]] + rest[1..];
    if |rest| > 1 {
      assert parts[1..] == rest[1..];
    }
  }

  /** A string in which `sep` does not occur splits into itself alone. */
  lemma {:induction false} SplitWithoutSeparator(s: string, sep: string)
    requires |sep| > 0
    requires !Contains(s, sep)
    ensures SplitOn(s, sep) == [s]
    decreases |s|
  {
    if |s| >= |sep| {
      assert !OccursAt(s, sep, 0);
      assert s[..|sep|] != sep;
      forall i | 0 <= i <= |s[1..]| - |sep|
        ensures !OccursAt(s[1..], sep, i)
      {
        assert !OccursAt(s, sep, i + 1);
        assert s[1..][i..i + |sep|] == s[i + 1..i + 1 + |sep|];
      }
      SplitWithoutSeparator(s[1..], sep);
      assert s == [s[0]] + s[1..];
    }
  }

  /** A prefix in which no occurrence of `sep` starts is cut off whole by the
      first occurrence that follows it. */
  lemma {:induction false} SplitAfterPrefix(x: string, sep: string, d: string)
    requires |sep| > 0
    requires forall i :: 0 <= i < |x| ==> !OccursAt(x + sep + d, sep, i)
    ensures SplitOn(x + sep + d, sep) == [x] + SplitOn(d, sep)
    decreases |x|
  {
    var s := x + sep + d;
    if |x| == 0 {
      assert s[..|sep|] == sep;
      assert s[|sep|..] == d;
    } else {
      assert !OccursAt(s, sep, 0);
      var t := x[1..] + sep + d;
      assert s[1..] == t;
      forall i | 0 <= i < |x[1..]|
        ensures !OccursAt(t, sep, i)
      {
        assert !OccursAt(s, sep, i + 1);
        if i + |sep| <= |t| {
          assert t[i..i + |sep|] == s[i + 1..i + 1 + |sep|];
        }
      }
      SplitAfterPrefix(x[1..], sep, d);
      assert [s[0]] + x[1..] == x;
    }
  }

  /** After such a prefix and one separator, a text without the separator is
      exactly the last piece. */
  lemma LastAfterPrefix(x: string, sep: string, d: string)
    requires |sep| > 0
    requires forall i :: 0 <= i < |x| ==> !OccursAt(x + sep + d, sep, i)
    requires !Contains(d, sep)
    ensures Last(SplitOn(x + sep + d, sep)) == d
  {
    SplitAfterPrefix(x, sep, d);
    SplitWithoutSeparator(d, sep);
  }

  /** No occurrence of `sep` starts inside a prefix lacking its first character. */
  lemma NoOccurrenceInPrefix(x: string, sep: string, d: string)
    requires |sep| > 0 && sep[0] !in x
    ensures forall i :: 0 <= i < |x| ==> !OccursAt(x + sep + d, sep, i)
  {
    forall i | 0 <= i < |x|
      ensures !OccursAt(x + sep + d, sep, i)
    {
      assert (x + sep + d)[i] == x[i];
    }
  }

  /** The last piece of a split never contains the separator: it is the text
      after the final cut. */
  lemma {:induction false} LastPieceHasNoSeparator(s: string, sep: string)
    requires |sep| > 0
    ensures !Contains(Last(SplitOn(s, sep)), sep)
    decreases |s|
  {
    var parts := SplitOn(s, sep);
    if |s| < |sep| {
      assert parts == [s];
    } else if s[..|sep|] == sep {
      var tail := SplitOn(s[|sep|..], sep);
      LastPieceHasNoSeparator(s[|sep|..], sep);
      assert parts == [""] + tail;
      assert Last(parts) == Last(tail);
    } else {
      var rest := SplitOn(s[1..], sep);
      LastPieceHasNoSeparator(s[1..], sep);
      assert parts == [[s[0]] + rest[0]] + rest[1..];
      if |rest| == 1 {
        JoinSplit(s[1..], sep);
        assert Last(parts) == s;
        NoOccurrenceExtends(s, sep);
      } else {
        assert Last(parts) == Last(rest);
      }
    }
  }

  lemma NoOccurrenceExtends(s: string, sep: string)
    requires 1 <= |sep| <= |s| && s[..|sep|] != sep
    requires !Contains(s[1..], sep)
    ensures !Contains(s, sep)
  {
    forall i | 0 <= i <= |s| - |sep|
      ensures !OccursAt(s, sep, i)
    {
      if i > 0 {
        assert !OccursAt(s[1..], sep, i - 1);
        assert s[1..][i - 1..i - 1 + |sep|] == s[i..i + |sep|];
      }
    }
  }

  /** For `|parts| >= 2`, the join ends with the separator and the last part. */
  lemma {:induction false} JoinSnoc(parts: seq<string>, sep: string)
    requires |parts| >= 2
    ensures Join(parts, sep) == Join(parts[..|parts| - 1], sep) + sep + Last(parts)
    decreases |parts|
  {
    if |parts| > 2 {
      JoinSnoc(parts[1..], sep);
      assert parts[1..][..|parts| - 2] == parts[..|parts| - 1][1..];
      assert Last(parts[1..]) == Last(parts);
    }
  }

  /** Splitting a joined list at a one-character separator that no part
      contains gives back the list. */
  lemma {:induction false} SplitJoin(parts: seq<string>, c: char)
    requires |parts| >= 1
    requires forall i :: 0 <= i < |parts| ==> c !in parts[i]
    ensures SplitOn(Join(parts, [c]), [c]) == parts
    decreases |parts|
  {
    if |parts| == 1 {
      ContainsChar(parts[0], c);
      SplitWithoutSeparator(parts[0], [c]);
    } else {
      SplitJoin(parts[1..], c);
      SplitAfterCleanPiece(parts[0], c, Join(parts[1..], [c]));
      assert parts == [parts[0]] + parts[1..];
    }
  }

  lemma {:induction false} SplitAfterCleanPiece(p: string, c: char, rest: string)
    requires c !in p
    ensures SplitOn(p + [c] + rest, [c]) == [p] + SplitOn(rest, [c])
    decreases |p|
  {
    var s := p + [c] + rest;
    if |p| == 0 {
      assert s[..1] == [c];
      assert s[1..] == rest;
    } else {
      assert s[0] == p[0];
      assert s[..1] != [c];
      assert s[1..] == p[1..] + [c] + rest;
      SplitAfterCleanPiece(p[1..], c, rest);
      assert [p[0]] + p[1..] == p;
    }
  }

  /** The first piece of a split at `c` is the text before the first `c`
      (the whole string when there is none). */
  lemma FirstPiece(s: string, c: char)
    ensures var p := SplitOn(s, [c])[0];
      && c !in p
      && |p| <= |s| && p == s[..|p|]
      && (|p| == |s| || s[|p|] == c)
  {
    var parts := SplitOn(s, [c]);
    JoinSplit(s, [c]);
    if |parts| == 1 {
      LastPieceHasNoSeparator(s, [c]);
      ContainsChar(parts[0], c);
    } else {
      FirstPieceClean(s, c);
      assert Join(parts, [c]) == parts[0] + [c] + Join(parts[1..], [c]);
    }
  }

  lemma {:induction false} FirstPieceClean(s: string, c: char)
    ensures c !in SplitOn(s, [c])[0]
    decreases |s|
  {
    if |s| >= 1 && s[..1] != [c] {
      FirstPieceClean(s[1..], c);
      assert s[0] != c;
    }
  }

  /** The last piece of a split at `c` is the text after the last `c`
      (the whole string when there is none). */
  lemma LastPiece(s: string, c: char)
    ensures var l := Last(SplitOn(s, [c]));
      && c !in l
      && |l| <= |s| && l == s[|s| - |l|..]
      && (|l| == |s| || s[|s| - |l| - 1] == c)
  {
    var parts := SplitOn(s, [c]);
    JoinSplit(s, [c]);
    LastPieceHasNoSeparator(s, [c]);
    ContainsChar(Last(parts), c);
    if |parts| >= 2 {
      JoinSnoc(parts, [c]);
    }
  }

  function DigitChar(d: nat): (c: char)
    requires d < 10
    ensures IsAsciiDigit(c)
  {
    "0123456789"[d]
  }

  /** `str(n)` for a non-negative integer. */
  function NatToString(n: nat): (r: string)
    ensures |r| >= 1
    ensures forall i :: 0 <= i < |r| ==> IsAsciiDigit(r[i])
    decreases n
  {
    if n < 10 then [DigitChar(n)] else NatToString(n / 10) + [DigitChar(n % 10)]
  }

  /** `str(n)` for any integer. */
  function IntToString(n: int): string
  {
    if n < 0 then "-" + NatToString(-n) else NatToString(n)
  }
}
