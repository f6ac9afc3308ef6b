/** The .NET string operations the migrator relies on, as ordinal comparisons over
    `seq<char>`: StartsWith, Contains, IndexOf, LastIndexOf, Replace and Trim. */
module Text {
  import opened Wrappers

  /** `s.StartsWith(p)` with ordinal comparison. */
  predicate StartsWith(s: string, p: string) {
    |p| <= |s| && s[..|p|] == p
  }

  /** The pattern `p` occurs in `s` starting at index `i`. */
  predicate OccursAt(s: string, p: string, i: nat) {
    i + |p| <= |s| && s[i..i + |p|] == p
  }

  /** `s.Contains(p)` with ordinal comparison. */
  ghost predicate Contains(s: string, p: string) {
    exists i: nat :: OccursAt(s, p, i)
  }

  /** A pattern holding a character the text lacks does not occur in it. */
  lemma MissingChar(s: string, p: string, k: nat)
    requires k < |p| && p[k] !in s
    ensures !Contains(s, p)
  {
  }

  /** An occurrence inside the tail `s[1..]` is an occurrence in `s`, one index later. */
  lemma OccursInTail(s: string, p: string, j: nat)
    requires |s| > 0
    ensures OccursAt(s[1..], p, j) <==> OccursAt(s, p, j + 1)
  {
    if j + 1 + |p| <= |s| {
      assert s[1..][j..j + |p|] == s[j + 1..j + 1 + |p|];
    }
  }

  /** `s.IndexOf(p)` (ordinal): the first index at which `p` occurs, or None for -1. */
  function IndexOf(s: string, p: string): (r: Option<nat>)
    ensures r.Some? ==> OccursAt(s, p, r.value)
    ensures r.Some? ==> forall j: nat :: j < r.value ==> !OccursAt(s, p, j)
    ensures r.None? <==> !Contains(s, p)
    decreases |s|
  {
    if StartsWith(s, p) then
      assert OccursAt(s, p, 0);
      Some(0)
    else if |s| == 0 then
      assert forall j: nat :: !OccursAt(s, p, j);
      None
    else
      var tail := IndexOf(s[1..], p);
      assert !OccursAt(s, p, 0);
      forall j: nat | j >= 1 ensures OccursAt(s, p, j) <==> OccursAt(s[1..], p, j - 1) {
        OccursInTail(s, p, j - 1);
      }
      match tail
      case None =>
        None
      case Some(k) =>
        Some(k + 1)
  }

  /** When `p` first occurs at a later index than 0, `s` does not start with it and its
      first occurrence in the tail `s[1..]` is one index earlier. */
  lemma IndexOfInTail(s: string, p: string, i: nat)
    requires IndexOf(s, p) == Some(i) && i > 0
    ensures |s| > 0 && !StartsWith(s, p)
    ensures IndexOf(s[1..], p) == Some(i - 1)
  {
    assert !OccursAt(s, p, 0);
  }

  /** `s.LastIndexOf(c)`: the last index holding `c`, or -1 when there is none. */
  function LastIndexOf(s: string, c: char): (r: int)
    ensures -1 <= r < |s|
    ensures r >= 0 ==> s[r] == c
    ensures forall j :: r < j < |s| ==> s[j] != c
  {
    if |s| == 0 then -1
    else if s[|s| - 1] == c then |s| - 1
    else LastIndexOf(s[..|s| - 1], c)
  }

  /** `s.Replace(pat, rep)`: a left-to-right scan that replaces every non-overlapping
      occurrence of `pat` by `rep`. .NET refuses an empty `pat`. Every character of the
      result comes from `s` or from `rep`. */
  function ReplaceAll(s: string, pat: string, rep: string): (r: string)
    requires |pat| > 0
    ensures forall c :: c in r ==> c in s || c in rep
    decreases |s|
  {
    if |s| == 0 then s
    else if StartsWith(s, pat) then rep + ReplaceAll(s[|pat|..], pat, rep)
    else [s[0]] + ReplaceAll(s[1..], pat, rep)
  }

  /** Replace leaves a string without any occurrence of the pattern as it is. */
  lemma {:induction false} ReplaceAllAbsent(s: string, pat: string, rep: string)
    requires |pat| > 0
    requires !Contains(s, pat)
    ensures ReplaceAll(s, pat, rep) == s
  {
    if |s| > 0 {
      assert !OccursAt(s, pat, 0);
      forall j: nat ensures !OccursAt(s[1..], pat, j) {
        OccursInTail(s, pat, j);
      }
      ReplaceAllAbsent(s[1..], pat, rep);
    }
  }

  /** Replace rewrites the first occurrence of the pattern and everything before it is
      kept: the text before index `i` is copied, the occurrence becomes `rep`, and the
      scan resumes right after it. With `ReplaceAllAbsent` this pins down every
      non-overlapping occurrence, left to right. */
  lemma ReplaceAllFirst(s: string, pat: string, rep: string, i: nat)
    requires |pat| > 0 && IndexOf(s, pat) == Some(i)
    ensures ReplaceAll(s, pat, rep) == s[..i] + rep + ReplaceAll(s[i + |pat|..], pat, rep)
  {
    ReplaceAllSkip(s, pat, rep, i);
  }

  /** The induction behind `ReplaceAllFirst`, over the number of characters before the
      first occurrence. */
  lemma {:induction false} ReplaceAllSkip(s: string, pat: string, rep: string, i: nat)
    requires |pat| > 0 && OccursAt(s, pat, i)
    requires forall j: nat :: j < i ==> !OccursAt(s, pat, j)
    ensures ReplaceAll(s, pat, rep) == s[..i] + rep + ReplaceAll(s[i + |pat|..], pat, rep)
  {
    if i > 0 {
      FirstOccurrenceInTail(s, pat, i);
      ReplaceAllSkip(s[1..], pat, rep, i - 1);
      ReplaceBefore(s, pat, rep, i);
    } else {
      assert StartsWith(s, pat);
      ReplaceAt(s, pat, rep);
      AppendEmpty(s[..i], rep, ReplaceAll(s[i + |pat|..], pat, rep));
    }
  }

  /** The first occurrence, when it is not at the start, is the first occurrence in the
      tail, one position earlier. */
  lemma FirstOccurrenceInTail(s: string, pat: string, i: nat)
    requires 0 < i && OccursAt(s, pat, i)
    requires forall j: nat :: j < i ==> !OccursAt(s, pat, j)
    ensures |s| > 0 && !StartsWith(s, pat)
    ensures OccursAt(s[1..], pat, i - 1)
    ensures forall j: nat :: j < i - 1 ==> !OccursAt(s[1..], pat, j)
  {
    assert !OccursAt(s, pat, 0);
    forall j: nat | j < i - 1 ensures !OccursAt(s[1..], pat, j) {
      OccursInTail(s, pat, j);
    }
    OccursInTail(s, pat, i - 1);
  }

  /** A character before the first occurrence is kept, and the rewrite of the tail
      carries over to the whole string. */
  lemma ReplaceBefore(s: string, pat: string, rep: string, i: nat)
    requires |pat| > 0 && 1 <= i && i + |pat| <= |s| && !StartsWith(s, pat)
    requires ReplaceAll(s[1..], pat, rep)
      == s[1..][..i - 1] + rep + ReplaceAll(s[1..][i - 1 + |pat|..], pat, rep)
    ensures ReplaceAll(s, pat, rep) == s[..i] + rep + ReplaceAll(s[i + |pat|..], pat, rep)
  {
    var rest := ReplaceAll(s[i + |pat|..], pat, rep);
    SuffixOfTail(s, i - 1 + |pat|);
    assert ReplaceAll(s[1..][i - 1 + |pat|..], pat, rep) == rest;
    ReplaceKeeps(s, pat, rep);
    ConsPrefix(s, i, ReplaceAll(s[1..], pat, rep), rep, rest);
  }

  /** Putting back the first character of `s` extends a prefix of its tail. */
  lemma ConsPrefix(s: string, i: nat, t: string, rep: string, rest: string)
    requires 1 <= i <= |s| && t == s[1..][..i - 1] + rep + rest
    ensures [s[0]] + t == s[..i] + rep + rest
  {
    SliceOfTail(s, i, i);
    AppendAssoc4([s[0]], s[1..][..i - 1], rep, rest);
  }

  /** A suffix of the tail is a suffix of the whole string. */
  lemma SuffixOfTail(s: string, j: nat)
    requires |s| > 0 && j <= |s| - 1
    ensures s[1..][j..] == s[j + 1..]
  {
  }

  /** A string that does not start with the pattern keeps its first character. */
  lemma ReplaceKeeps(s: string, pat: string, rep: string)
    requires |pat| > 0 && |s| > 0 && !StartsWith(s, pat)
    ensures ReplaceAll(s, pat, rep) == [s[0]] + ReplaceAll(s[1..], pat, rep)
  {
  }

  /** A string that starts with the pattern has it replaced. */
  lemma ReplaceAt(s: string, pat: string, rep: string)
    requires |pat| > 0 && StartsWith(s, pat)
    ensures ReplaceAll(s, pat, rep) == rep + ReplaceAll(s[|pat|..], pat, rep)
  {
  }

  /** Replacing a one-character pattern by a one-character string maps the string
      character by character: it keeps the length and substitutes `b` for each `a`. */
  lemma {:induction false} ReplaceCharPointwise(s: string, a: char, b: char)
    ensures |ReplaceAll(s, [a], [b])| == |s|
    ensures forall i :: 0 <= i < |s| ==>
      ReplaceAll(s, [a], [b])[i] == (if s[i] == a then b else s[i])
  {
    if |s| > 0 {
      ReplaceCharPointwise(s[1..], a, b);
      var r := ReplaceAll(s, [a], [b]);
      assert r == [if s[0] == a then b else s[0]] + ReplaceAll(s[1..], [a], [b]);
    }
  }

  /** The characters `Char.IsWhiteSpace` accepts: the Unicode space separators,
      line and paragraph separators, and U+0009-U+000D, U+0085. */
  predicate IsWhiteSpace(c: char) {
    || c == ' '
    || '\t' <= c <= '\r'
    || c == '\U{85}'
    || c == '\U{A0}'
    || c == '\U{1680}'
    || '\U{2000}' <= c <= '\U{200A}'
    || c == '\U{2028}'
    || c == '\U{2029}'
    || c == '\U{202F}'
    || c == '\U{205F}'
    || c == '\U{3000}'
  }

  predicate AllWhiteSpace(s: string) {
    forall i :: 0 <= i < |s| ==> IsWhiteSpace(s[i])
  }

  /** A white-space head extends the white-space prefix of the tail by one. */
  lemma WhiteSpaceHead(s: string, r: string)
    requires |s| > 0 && IsWhiteSpace(s[0])
    requires |r| <= |s[1..]| && r == s[1..][|s[1..]| - |r|..] && AllWhiteSpace(s[1..][..|s[1..]| - |r|])
    ensures r == s[|s| - |r|..] && AllWhiteSpace(s[..|s| - |r|])
  {
    var i := |s| - |r|;
    SliceOfTail(s, i, |s|);
    forall k | 1 <= k < i ensures IsWhiteSpace(s[..i][k]) {
      assert s[..i][k] == s[1..][..i - 1][k - 1];
    }
  }

  /** A white-space last character extends the white-space suffix of the rest by one. */
  lemma WhiteSpaceLast(s: string, r: string)
    requires |s| > 0 && IsWhiteSpace(s[|s| - 1])
    requires |r| <= |s[..|s| - 1]| && r == s[..|s| - 1][..|r|] && AllWhiteSpace(s[..|s| - 1][|r|..])
    ensures r == s[..|r|] && AllWhiteSpace(s[|r|..])
  {
    var k := |r|;
    SliceOfInit(s, k);
    forall m | k <= m < |s| - 1 ensures IsWhiteSpace(s[m]) {
      assert s[m] == s[..|s| - 1][k..][m - k];
    }
  }

  /** Strips leading white space: the result is the suffix of `s` that starts at its
      first non-white-space character. */
  function TrimStart(s: string): (r: string)
    ensures |r| <= |s| && r == s[|s| - |r|..]
    ensures AllWhiteSpace(s[..|s| - |r|])
    ensures |r| > 0 ==> !IsWhiteSpace(r[0])
  {
    if |s| > 0 && IsWhiteSpace(s[0]) then
      var r := TrimStart(s[1..]);
      WhiteSpaceHead(s, r);
      r
    else s
  }

  /** Strips trailing white space: the result is the prefix of `s` that ends at its
      last non-white-space character. */
  function TrimEnd(s: string): (r: string)
    ensures |r| <= |s| && r == s[..|r|]
    ensures AllWhiteSpace(s[|r|..])
    ensures |r| > 0 ==> !IsWhiteSpace(r[|r| - 1])
  {
    if |s| > 0 && IsWhiteSpace(s[|s| - 1]) then
      var r := TrimEnd(s[..|s| - 1]);
      WhiteSpaceLast(s, r);
      r
    else s
  }

  lemma SliceOfInit(s: string, k: nat)
    requires k < |s|
    ensures s[..|s| - 1][..k] == s[..k]
    ensures s[k..] == s[..|s| - 1][k..] + [s[|s| - 1]]
  {
  }

  lemma SliceOfSuffix(s: string, i: nat, k: nat)
    requires i + k <= |s|
    ensures s[i..][..k] == s[i..i + k] && s[i..][k..] == s[i + k..]
  {
  }

  /** `s.Trim()`: `s` with white space stripped from both ends. The result is a slice
      of `s` with only white space outside it, and it neither starts nor ends with
      white space. */
  function Trim(s: string): (r: string)
    ensures exists i, j ::
              && 0 <= i <= j <= |s| && r == s[i..j]
              && AllWhiteSpace(s[..i]) && AllWhiteSpace(s[j..])
    ensures |r| > 0 ==> !IsWhiteSpace(r[0]) && !IsWhiteSpace(r[|r| - 1])
  {
    var t := TrimStart(s);
    var r := TrimEnd(t);
    var i := |s| - |t|;
    SliceOfSuffix(s, i, |r|);
    r
  }

  /** White space in front of a string does not survive TrimStart. */
  lemma {:induction false} TrimStartPadding(w: string, s: string)
    requires AllWhiteSpace(w)
    ensures TrimStart(w + s) == TrimStart(s)
  {
    if |w| > 0 {
      assert (w + s)[0] == w[0];
      assert (w + s)[1..] == w[1..] + s;
      TrimStartPadding(w[1..], s);
    } else {
      assert w + s == s;
    }
  }

  /** White space behind a string does not survive TrimEnd. */
  lemma {:induction false} TrimEndPadding(s: string, w: string)
    requires AllWhiteSpace(w)
    ensures TrimEnd(s + w) == TrimEnd(s)
  {
    if |w| > 0 {
      assert (s + w)[|s + w| - 1] == w[|w| - 1];
      assert (s + w)[..|s + w| - 1] == s + w[..|w| - 1];
      TrimEndPadding(s, w[..|w| - 1]);
    } else {
      assert s + w == s;
    }
  }

  /** White space appended to a string survives TrimStart, unless the string itself
      is nothing but white space. */
  lemma {:induction false} TrimStartAppend(s: string, w: string)
    requires AllWhiteSpace(w)
    ensures TrimStart(s + w) == if TrimStart(s) == [] then [] else TrimStart(s) + w
  {
    if |s| == 0 {
      TrimStartPadding(w, []);
      assert w + [] == w;
      assert s + w == w;
    } else if IsWhiteSpace(s[0]) {
      assert (s + w)[1..] == s[1..] + w;
      TrimStartAppend(s[1..], w);
    }
  }

  lemma AppendAssoc<T>(a: seq<T>, b: seq<T>, c: seq<T>)
    ensures a + b + c == a + (b + c)
  {
  }

  lemma AppendAssoc4<T>(c: seq<T>, a: seq<T>, f: seq<T>, r: seq<T>)
    ensures c + (a + f + r) == c + a + f + r
  {
  }

  lemma AppendEmpty<T>(e: seq<T>, f: seq<T>, r: seq<T>)
    requires |e| == 0
    ensures e + f + r == f + r
  {
  }

  lemma AppendEmptyLeft<T>(a: seq<T>, rest: seq<T>)
    requires |a| == 0
    ensures a + rest == rest
  {
  }

  lemma AppendEmptyRight<T>(a: seq<T>)
    ensures a + [] == a
  {
  }

  /** Each of four concatenated parts can be sliced back out of the whole. */
  lemma FourParts<T>(a: seq<T>, b: seq<T>, c: seq<T>, d: seq<T>)
    ensures var r := a + b + c + d;
      && |r| == |a| + |b| + |c| + |d|
      && r[..|a|] == a
      && r[|a|..|a| + |b|] == b
      && r[|a| + |b|..|r| - |d|] == c
      && r[|r| - |d|..] == d
  {
    var r := a + b + c + d;
    var n := |a| + |b|;
    assert r[..n] == a + b;
    assert r[n..] == c + d;
    assert r[..|a|] == r[..n][..|a|];
    assert r[|a|..n] == r[..n][|a|..];
    assert r[n..|r| - |d|] == r[n..][..|c|];
    assert r[|r| - |d|..] == r[n..][|c|..];
  }

  /** A concatenation with a non-empty left part starts with that part's head, and its
      tail is the left part's tail followed by the right part. */
  lemma HeadTailAppend<T>(a: seq<T>, b: seq<T>)
    requires |a| > 0
    ensures |a + b| > 0 && (a + b)[0] == a[0] && (a + b)[1..] == a[1..] + b
  {
  }

  /** A non-empty string is its first character followed by its tail. */
  lemma ConsTail(s: string)
    requires |s| > 0
    ensures [s[0]] + s[1..] == s
  {
  }

  /** Slices of the tail `s[1..]` are slices of `s`, one index later. */
  lemma SliceOfTail(s: string, i: nat, j: nat)
    requires 1 <= i <= j <= |s|
    ensures s[1..][i - 1..] == s[i..]
    ensures s[1..][i - 1..j - 1] == s[i..j]
    ensures s[..i] == [s[0]] + s[1..][..i - 1]
  {
    assert |s[1..][i - 1..]| == |s[i..]|;
    forall k | 0 <= k < |s| - i ensures s[1..][i - 1..][k] == s[i..][k] {
      assert s[1..][i - 1..][k] == s[1..][i - 1 + k];
    }
    assert |s[1..][i - 1..j - 1]| == |s[i..j]|;
    forall k | 0 <= k < j - i ensures s[1..][i - 1..j - 1][k] == s[i..j][k] {
      assert s[1..][i - 1..j - 1][k] == s[1..][i - 1 + k];
    }
    var h := [s[0]] + s[1..][..i - 1];
    assert |h| == i;
    forall k | 0 <= k < i ensures s[..i][k] == h[k] {
      if k > 0 {
        assert h[k] == s[1..][k - 1];
      }
    }
  }

  /** A string that neither starts nor ends with white space is its own trim. */
  lemma TrimUnpadded(s: string)
    requires |s| > 0 ==> !IsWhiteSpace(s[0]) && !IsWhiteSpace(s[|s| - 1])
    ensures Trim(s) == s
  {
  }

  /** Surrounding white space does not change `Trim`. */
  lemma TrimPadding(w1: string, s: string, w2: string)
    requires AllWhiteSpace(w1) && AllWhiteSpace(w2)
    ensures Trim(w1 + s + w2) == Trim(s)
  {
    AppendAssoc(w1, s, w2);
    TrimStartPadding(w1, s + w2);
    TrimStartAppend(s, w2);
    var t := TrimStart(s);
    if t != [] {
      TrimEndPadding(t, w2);
    }
  }

  /** The decimal value of a digit character. */
  predicate IsDigit(c: char) {
    '0' <= c <= '9'
  }

  function DigitValue(c: char): (v: nat)
    requires IsDigit(c)
    ensures v < 10
  {
    (c - '0') as nat
  }

  function DigitChar(v: nat): (c: char)
    requires v < 10
    ensures IsDigit(c) && DigitValue(c) == v
  {
    ('0' as int + v) as char
  }

  predicate AllDigits(s: string) {
    forall i :: 0 <= i < |s| ==> IsDigit(s[i])
  }

  /** The value of a string of decimal digits, most significant first. */
  function ParseDigits(s: string): nat
    requires AllDigits(s)
  {
    if |s| == 0 then 0
    else 10 * ParseDigits(s[..|s| - 1]) + DigitValue(s[|s| - 1])
  }
}
