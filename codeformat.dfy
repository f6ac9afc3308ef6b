/** The code-block reformatter: every region `~~~~ {.csharpcode}` ... `~~~~` in the
    converter's Markdown becomes a triple-backtick block tagged with a guessed language.
    The source does this with the non-greedy regular expression
    `~~~~ \{\.csharpcode\}(?<code>.*?)~~~~` in single-line mode, where `.` also matches a
    line break; here it is an explicit left-to-right scan over any characters. */
module CodeFormat {
  import opened Wrappers
  import opened Text

  const Opener := "~~~~ {.csharpcode}"
  const Closer := "~~~~"
  const Fence := "```"

  const AspxTag := "aspx-cs"
  const HtmlTag := "html"
  const CSharpTag := "csharp"

  /** The trimmed code holds an ASP.NET expression marker `<%= ` or `<%: `. */
  ghost predicate HasExpressionMarker(t: string) {
    Contains(t, "<%= ") || Contains(t, "<%: ")
  }

  /** The trimmed code opens with a `<script` or `<table` tag. */
  predicate OpensHtmlTag(t: string) {
    StartsWith(t, "<script") || StartsWith(t, "<table")
  }

  /** Guesses the language of a code region from its trimmed text, first match wins:
      an expression marker anywhere makes it `aspx-cs`, even when the code also opens
      with a `<script` or `<table` tag; otherwise such a tag makes it `html`; anything
      else is `csharp`. */
  function GetLanguage(code: string): (tag: string)
    ensures tag in {AspxTag, HtmlTag, CSharpTag}
    ensures tag == AspxTag <==> HasExpressionMarker(Trim(code))
    ensures tag == HtmlTag <==> !HasExpressionMarker(Trim(code)) && OpensHtmlTag(Trim(code))
    ensures tag == CSharpTag <==> !HasExpressionMarker(Trim(code)) && !OpensHtmlTag(Trim(code))
  {
    var t := Trim(code);
    if IndexOf(t, "<%= ").Some? || IndexOf(t, "<%: ").Some? then AspxTag
    else if OpensHtmlTag(t) then HtmlTag
    else CSharpTag
  }

  /** White space around a code region never changes the guessed language. */
  lemma GetLanguagePadding(w1: string, code: string, w2: string)
    requires AllWhiteSpace(w1) && AllWhiteSpace(w2)
    ensures GetLanguage(w1 + code + w2) == GetLanguage(code)
  {
    TrimPadding(w1, code, w2);
  }

  /** Code with an expression marker is `aspx-cs`. */
  lemma GetLanguageAspxExample(code: string)
    requires code == "<%= Foo() %>"
    ensures GetLanguage(code) == AspxTag
  {
    TrimUnpadded(code);
    assert code[0..4] == "<%= ";
    assert OccursAt(code, "<%= ", 0);
  }

  /** Code opening with a table is `html`. */
  lemma GetLanguageHtmlExample(code: string)
    requires code == "<table>"
    ensures GetLanguage(code) == HtmlTag
  {
    assert code[..6] == "<table";
    MissingChar(code, "<%= ", 1);
    MissingChar(code, "<%: ", 1);
    TrimUnpadded(code);
  }

  /** Plain C# is `csharp`. */
  lemma GetLanguageCSharpExample(code: string)
    requires code == "x++;"
    ensures GetLanguage(code) == CSharpTag
  {
    MissingChar(code, "<%= ", 1);
    MissingChar(code, "<%: ", 1);
    TrimUnpadded(code);
  }

  /** The replacement text of one matched region: the code, verbatim, between fences,
      the opening fence followed directly by the language tag. */
  function Fenced(code: string): string {
    Fence + GetLanguage(code) + code + Fence
  }

  /** A fenced block opens with the fence and the language tag, keeps the code verbatim
      and closes with the fence. */
  lemma FencedParts(code: string)
    ensures var r := Fenced(code); var lang := GetLanguage(code);
      && |r| == |Fence| + |lang| + |code| + |Fence|
      && r[..|Fence|] == Fence
      && r[|Fence|..|Fence| + |lang|] == lang
      && r[|Fence| + |lang|..|r| - |Fence|] == code
      && r[|r| - |Fence|..] == Fence
  {
    FourParts(Fence, GetLanguage(code), code, Fence);
  }

  /** `FormatCode`: scans left to right. At an opener, the region runs up to the nearest
      following closer; it is replaced and the scan resumes after that closer. An opener
      with no closer after it ends the scan: no later opener can have one either, so the
      rest of the text is kept as it is. */
  function FormatCode(s: string): (r: string)
    decreases |s|
  {
    if |s| == 0 then s
    else if StartsWith(s, Opener) then
      var tail := s[|Opener|..];
      match IndexOf(tail, Closer)
      case None => s
      case Some(k) => Fenced(tail[..k]) + FormatCode(tail[k + |Closer|..])
    else [s[0]] + FormatCode(s[1..])
  }

  /** Text without any opener passes through unchanged. */
  lemma {:induction false} FormatCodeIdentity(s: string)
    requires !Contains(s, Opener)
    ensures FormatCode(s) == s
  {
    if |s| > 0 {
      assert !OccursAt(s, Opener, 0);
      forall j: nat ensures !OccursAt(s[1..], Opener, j) {
        OccursInTail(s, Opener, j);
      }
      FormatCodeIdentity(s[1..]);
    }
  }

  /** A region that ends at the first closer after the opener holds no closer itself:
      the pairing is non-greedy. */
  lemma NoCloserBefore(tail: string, k: nat)
    requires k <= |tail|
    requires forall j: nat :: j < k ==> !OccursAt(tail, Closer, j)
    ensures !Contains(tail[..k], Closer)
  {
    forall j: nat | OccursAt(tail[..k], Closer, j)
      ensures false
    {
      assert tail[..k][j..j + |Closer|] == tail[j..j + |Closer|];
      assert OccursAt(tail, Closer, j);
    }
  }

  /** An opener without a closer after it: the text is kept whole. */
  lemma {:induction false} FormatCodeUnpaired(s: string, p: nat)
    requires IndexOf(s, Opener) == Some(p)
    requires IndexOf(s[p + |Opener|..], Closer) == None
    ensures FormatCode(s) == s
  {
    if p > 0 {
      UnpairedInTail(s, p);
      FormatCodeUnpaired(s[1..], p - 1);
      FormatCodeKeepsHead(s);
    } else {
      FormatCodeAtUnpaired(s, p);
    }
  }

  /** An unpaired first opener past the start is the unpaired first opener of the tail. */
  lemma UnpairedInTail(s: string, p: nat)
    requires p > 0 && IndexOf(s, Opener) == Some(p)
    requires IndexOf(s[p + |Opener|..], Closer) == None
    ensures |s| > 0 && !StartsWith(s, Opener) && IndexOf(s[1..], Opener) == Some(p - 1)
    ensures IndexOf(s[1..][p - 1 + |Opener|..], Closer) == None
  {
    IndexOfInTail(s, Opener, p);
    SliceOfTail(s, p + |Opener|, |s|);
  }

  /** At an opener without a closer after it the scan stops. */
  lemma FormatCodeAtUnpaired(s: string, p: nat)
    requires p == 0 && IndexOf(s, Opener) == Some(p)
    requires IndexOf(s[p + |Opener|..], Closer) == None
    ensures FormatCode(s) == s
  {
    assert StartsWith(s, Opener) by { assert OccursAt(s, Opener, 0); }
  }

  /** Away from an opener, a kept tail means a kept text. */
  lemma FormatCodeKeepsHead(s: string)
    requires |s| > 0 && !StartsWith(s, Opener) && FormatCode(s[1..]) == s[1..]
    ensures FormatCode(s) == s
  {
    FormatCodeStep(s);
    ConsTail(s);
  }

  /** Away from an opener the scan copies one character and moves on. */
  lemma FormatCodeStep(s: string)
    requires |s| > 0 && !StartsWith(s, Opener)
    ensures FormatCode(s) == [s[0]] + FormatCode(s[1..])
  {
  }

  /** The first opener, at `p`, pairs with the first closer after it, `k` characters
      further into the text `tail` that follows the opener. */
  lemma {:induction false} FormatCodePaired(s: string, p: nat, k: nat)
    requires IndexOf(s, Opener) == Some(p)
    requires IndexOf(s[p + |Opener|..], Closer) == Some(k)
    ensures var tail := s[p + |Opener|..];
      FormatCode(s) == s[..p] + Fenced(tail[..k]) + FormatCode(tail[k + |Closer|..])
  {
    var tail := s[p + |Opener|..];
    if p > 0 {
      IndexOfInTail(s, Opener, p);
      SliceOfTail(s, p + |Opener|, |s|);
      SliceOfTail(s, p, p);
      FormatCodePaired(s[1..], p - 1, k);
      FormatCodeStep(s);
      AppendAssoc4([s[0]], s[1..][..p - 1], Fenced(tail[..k]), FormatCode(tail[k + |Closer|..]));
    } else {
      assert StartsWith(s, Opener) by { assert OccursAt(s, Opener, 0); }
      AppendEmpty(s[..p], Fenced(tail[..k]), FormatCode(tail[k + |Closer|..]));
    }
  }

  /** A matched region: it holds no closer, and it is replaced in place. */
  lemma FormatCodeMatch(s: string, p: nat, k: nat)
    requires IndexOf(s, Opener) == Some(p)
    requires IndexOf(s[p + |Opener|..], Closer) == Some(k)
    ensures var tail := s[p + |Opener|..];
      && !Contains(tail[..k], Closer)
      && FormatCode(s) == s[..p] + Fenced(tail[..k]) + FormatCode(tail[k + |Closer|..])
  {
    NoCloserBefore(s[p + |Opener|..], k);
    FormatCodePaired(s, p, k);
  }

  /** The reference reading of `FormatCode`, one match at a time, as `Regex.Replace`
      finds them: the first opener in the text pairs with the nearest closer after it
      (the closer may be the first four characters of a later opener). The text before
      the opener is kept, the region becomes `Fenced(code)` with `code` copied verbatim
      and holding no closer, and the rest is reformatted from just after the closer.
      With no opener, or no closer after the first opener, the text is kept whole. */
  lemma FormatCodeFirstMatch(s: string)
    ensures match IndexOf(s, Opener)
      case None => FormatCode(s) == s
      case Some(p) =>
        var tail := s[p + |Opener|..];
        match IndexOf(tail, Closer)
        case None => FormatCode(s) == s
        case Some(k) =>
          && !Contains(tail[..k], Closer)
          && FormatCode(s) == s[..p] + Fenced(tail[..k]) + FormatCode(tail[k + |Closer|..])
  {
    match IndexOf(s, Opener)
    case None =>
      FormatCodeIdentity(s);
    case Some(p) =>
      var tail := s[p + |Opener|..];
      match IndexOf(tail, Closer)
      case None =>
        FormatCodeUnpaired(s, p);
      case Some(k) =>
        FormatCodeMatch(s, p, k);
  }
}
