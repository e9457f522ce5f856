/** The DOI pattern of `function.py` and `backup_app.py`,

      (?i)\b(?:doi[:\s]*|DOI[:\s]*|https?://(?:dx\.doi\.org/|doi\.org/))?(10\.\d{4,9}/[-._;()/:A-Z0-9]+\b)

    written as a scanner that follows the backtracking matcher step by step,
    and `extract_doi`, which returns the capture group of the first match. */
module DoiPattern {
  import opened Wrappers
  import opened Text

  /** The class `[-._;()/:A-Z0-9]` under IGNORECASE. */
  predicate IsSuffixChar(c: char) {
    c in "-._;()/:" || IsAsciiLetter(c) || IsAsciiDigit(c)
  }

  /** The class `[:\s]`. */
  predicate IsColonOrSpace(c: char) {
    c == ':' || IsSpace(c)
  }

  predicate IsWordAt(t: string, i: int) {
    0 <= i < |t| && IsWordChar(t[i])
  }

  /** `\b` at position `i`: exactly one of the characters around `i` is a
      word character (outside the string counts as a non-word character). */
  predicate BoundaryAt(t: string, i: int) {
    IsWordAt(t, i - 1) != IsWordAt(t, i)
  }

  /** The lower-case literal `lit` occurs at `i`, ignoring ASCII case. */
  predicate LiteralAt(t: string, i: nat, lit: string) {
    i + |lit| <= |t| && Lower(t[i..i + |lit|]) == lit
  }

  /** The length of the longest run of characters satisfying `p` from `i`:
      what a greedy `p*` consumes. */
  function RunLength(t: string, i: nat, p: char -> bool): (n: nat)
    requires i <= |t|
    ensures i + n <= |t|
    ensures forall k :: i <= k < i + n ==> p(t[k])
    ensures i + n == |t| || !p(t[i + n])
    decreases |t| - i
  {
    if i < |t| && p(t[i]) then 1 + RunLength(t, i + 1, p) else 0
  }

  /** A run is determined by where it stops. */
  lemma {:induction false} RunLengthUnique(t: string, i: nat, p: char -> bool, n: nat)
    requires i + n <= |t|
    requires forall k :: i <= k < i + n ==> p(t[k])
    requires i + n == |t| || !p(t[i + n])
    ensures RunLength(t, i, p) == n
    decreases n
  {
    if n > 0 {
      RunLengthUnique(t, i + 1, p, n - 1);
    }
  }

  /** A well-formed DOI as the capture group defines it: `10.`, four to nine
      decimal digits, `/`, then at least one character of the suffix class. */
  predicate IsDoi(d: string) {
    && |d| >= 3 && d[..3] == "10."
    && var n := RunLength(d, 3, IsDecimalDigit);
    && 4 <= n <= 9 && 4 + n < |d| && d[3 + n] == '/'
    && forall k :: 4 + n <= k < |d| ==> IsSuffixChar(d[k])
  }

  /** Backtracking of the greedy `[...]+` before the final `\b`: the largest
      end position in `s+1..e` at which a word boundary holds. */
  function BacktrackEnd(t: string, s: nat, e: nat): (r: Option<nat>)
    requires s <= e <= |t|
    ensures r.Some? ==> s < r.value <= e && BoundaryAt(t, r.value)
    ensures r.Some? ==> forall j :: r.value < j <= e ==> !BoundaryAt(t, j)
    ensures r.None? ==> forall j :: s < j <= e ==> !BoundaryAt(t, j)
    decreases e - s
  {
    if e == s then None
    else if BoundaryAt(t, e) then Some(e)
    else BacktrackEnd(t, s, e - 1)
  }

  /** The capture group `10\.\d{4,9}/[-._;()/:A-Z0-9]+\b` tried at `q`.
      Giving back digits of the greedy `\d{4,9}` never helps, since the next
      character would then be a digit and not `/`. */
  function GroupAt(t: string, q: nat): (r: Option<string>)
    requires q <= |t|
    ensures r.Some? ==> IsDoi(r.value) && OccursAt(t, r.value, q)
  {
    if !LiteralAt(t, q, "10.") then None
    else
      var n := RunLength(t, q + 3, IsDecimalDigit);
      if !(4 <= n <= 9) || q + 3 + n >= |t| || t[q + 3 + n] != '/' then None
      else SuffixGroup(t, q, n)
  }

  /** The rest of the group once `10.`, the `n` digits and `/` matched at
      `q`: the suffix run, given back to the last word boundary. */
  function SuffixGroup(t: string, q: nat, n: nat): (r: Option<string>)
    requires q + 3 <= |t| && LiteralAt(t, q, "10.")
    requires n == RunLength(t, q + 3, IsDecimalDigit)
    requires 4 <= n <= 9 && q + 3 + n < |t| && t[q + 3 + n] == '/'
    ensures r.Some? ==> IsDoi(r.value) && OccursAt(t, r.value, q)
  {
    var s := q + 4 + n;
    var m := RunLength(t, s, IsSuffixChar);
    match BacktrackEnd(t, s, s + m)
    case None => None
    case Some(e) =>
      GroupIsDoi(t, q, n, e - s, t[q..e]);
      Some(t[q..e])
  }

  /** Lower-casing leaves digits and `.` alone, so `10.` matches only itself. */
  lemma TenDotPrefix(t: string, q: nat)
    requires LiteralAt(t, q, "10.")
    ensures t[q..q + 3] == "10."
  {
    var x := t[q..q + 3];
    assert LowerChar(x[0]) == '1' && LowerChar(x[1]) == '0' && LowerChar(x[2]) == '.';
  }

  lemma GroupIsDoi(t: string, q: nat, n: nat, k: nat, d: string)
    requires q + 3 <= |t| && LiteralAt(t, q, "10.")
    requires n == RunLength(t, q + 3, IsDecimalDigit)
    requires 4 <= n <= 9 && q + 3 + n < |t| && t[q + 3 + n] == '/'
    requires 1 <= k <= RunLength(t, q + 4 + n, IsSuffixChar)
    requires d == t[q..q + 4 + n + k]
    ensures IsDoi(d) && OccursAt(t, d, q)
  {
    TenDotPrefix(t, q);
    assert d[..3] == t[q..q + 3];
    assert OccursAt(t, d, q);
    forall j | 3 <= j < 3 + n
      ensures IsDecimalDigit(d[j])
    {
      assert d[j] == t[q + j];
    }
    assert d[3 + n] == '/';
    RunLengthUnique(d, 3, IsDecimalDigit, n);
    forall j | 4 + n <= j < |d|
      ensures IsSuffixChar(d[j])
    {
      assert d[j] == t[q + j];
    }
  }

  /** The URL prefixes of `https?://(?:dx\.doi\.org/|doi\.org/)`, in the
      order the matcher tries them (greedy `s?` first, then the alternation
      left to right). */
  const UrlPrefixes: seq<string> :=
    ["https://dx.doi.org/", "https://doi.org/", "http://dx.doi.org/", "http://doi.org/"]

  /** The first URL prefix at `p` after which the capture group matches. */
  function UrlPrefixGroup(t: string, p: nat, prefixes: seq<string>): (r: Option<string>)
    requires p <= |t|
    ensures r.Some? ==> IsDoi(r.value) && exists q :: p <= q <= |t| && OccursAt(t, r.value, q)
  {
    if |prefixes| == 0 then None
    else
      var pre := prefixes[0];
      var g := if LiteralAt(t, p, pre) then GroupAt(t, p + |pre|) else None;
      if g.Some? then g else UrlPrefixGroup(t, p, prefixes[1..])
  }

  /** The capture group of a match of the whole pattern starting at `p`.
      The alternatives `doi[:\s]*` and `DOI[:\s]*` are the same under
      IGNORECASE; giving back characters of the greedy `[:\s]*` never helps,
      since the group must start with `1`. When a prefix is present but the
      group does not follow it, the matcher falls back to the empty prefix. */
  function MatchAt(t: string, p: nat): (r: Option<string>)
    requires p <= |t|
    ensures r.Some? ==> IsDoi(r.value) && exists q :: p <= q <= |t| && OccursAt(t, r.value, q)
  {
    if !BoundaryAt(t, p) then None
    else
      var viaDoi :=
        if LiteralAt(t, p, "doi") then GroupAt(t, p + 3 + RunLength(t, p + 3, IsColonOrSpace)) else None;
      if viaDoi.Some? then viaDoi
      else
        var viaUrl := UrlPrefixGroup(t, p, UrlPrefixes);
        if viaUrl.Some? then viaUrl else GroupAt(t, p)
  }

  /** The scan of `findall`: the first `m(q)` that is a match, for `q` from
      `p` to `end`. */
  function FirstMatch(m: nat -> Option<string>, p: nat, end: nat): (r: Option<string>)
    requires p <= end
    ensures r.Some? <==> exists q :: p <= q <= end && m(q).Some?
    ensures r.Some? ==> exists q :: p <= q <= end && m(q) == r && forall q' :: p <= q' < q ==> m(q').None?
    decreases end - p
  {
    if m(p).Some? then m(p)
    else if p == end then None
    else
      var r := FirstMatch(m, p + 1, end);
      assert r.Some? ==> exists q :: p <= q <= end && m(q) == r && forall q' :: p <= q' < q ==> m(q').None?
      by {
        if r.Some? {
          var q :| p + 1 <= q <= end && m(q) == r && forall q' :: p + 1 <= q' < q ==> m(q').None?;
          assert forall q' :: p <= q' < q ==> m(q').None?;
        }
      }
      r
  }

  /** The match of the pattern at each position of `t`. */
  function MatcherOf(t: string): nat -> Option<string> {
    (q: nat) => if q <= |t| then MatchAt(t, q) else None
  }

  /** `extract_doi(text)`: the capture group of the first match in text
      order, or `None` when the pattern matches nowhere. */
  function ExtractDoi(text: string): (r: Option<string>)
    ensures r.Some? ==> IsDoi(r.value) && Contains(text, r.value)
    ensures r.None? <==> forall p :: 0 <= p <= |text| ==> MatchAt(text, p).None?
    ensures r.Some? ==>
      exists p :: 0 <= p <= |text| && MatchAt(text, p) == r && forall q :: 0 <= q < p ==> MatchAt(text, q).None?
  {
    var m := MatcherOf(text);
    assert forall q :: 0 <= q <= |text| ==> m(q) == MatchAt(text, q);
    FirstMatch(m, 0, |text|)
  }
}
