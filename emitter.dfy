/** The post emitter: the front-matter template filled by `string.Format`, and the name
    of the file the post is written to. */
module Emitter {
  import opened Wrappers
  import opened Text

  /** The line break of the verbatim template: that of the source file, LF or CRLF. */
  predicate IsNewline(nl: string) {
    nl == "\n" || nl == "\r\n"
  }

  /** Puts `a` in front of a formatted text; a format error stays an error. */
  function Prepend(a: string, r: Option<string>): (q: Option<string>)
    ensures q.Some? <==> r.Some?
    ensures q.Some? ==> q.value == a + r.value
  {
    match r
    case None => None
    case Some(t) => Some(a + t)
  }

  /** The number of decimal digits at the start of `s`. */
  function DigitRun(s: string): (k: nat)
    ensures k <= |s| && AllDigits(s[..k])
    ensures k < |s| ==> !IsDigit(s[k])
  {
    if |s| > 0 && IsDigit(s[0]) then 1 + DigitRun(s[1..]) else 0
  }

  /** `string.Format(fmt, args)`, composite formatting: `{{` and `}}` stand for single
      braces, `{n}` for the n-th argument, and every other character is copied. A brace
      that starts no such item, or an index past the arguments, is the FormatException
      (None). */
  function Format(fmt: string, args: seq<string>): (r: Option<string>)
    decreases |fmt|
  {
    if |fmt| == 0 then Some("")
    else if fmt[0] == '{' then
      if |fmt| > 1 && fmt[1] == '{' then Prepend("{", Format(fmt[2..], args))
      else
        var k := DigitRun(fmt[1..]);
        var index := ParseDigits(fmt[1..][..k]);
        if 0 < k && k + 1 < |fmt| && fmt[k + 1] == '}' && index < |args|
        then Prepend(args[index], Format(fmt[k + 2..], args))
        else None
    else if fmt[0] == '}' then
      if |fmt| > 1 && fmt[1] == '}' then Prepend("}", Format(fmt[2..], args)) else None
    else Prepend([fmt[0]], Format(fmt[1..], args))
  }

  /** `s` holds no brace, so composite formatting copies it. */
  predicate NoBrace(s: string) {
    forall i :: 0 <= i < |s| ==> s[i] != '{' && s[i] != '}'
  }

  lemma NoBraceAppend(a: string, b: string)
    requires NoBrace(a) && NoBrace(b)
    ensures NoBrace(a + b)
  {
  }

  /** Text without braces is copied as it is. */
  lemma {:induction false} FormatLiteral(a: string, rest: string, args: seq<string>)
    requires NoBrace(a)
    ensures Format(a + rest, args) == Prepend(a, Format(rest, args))
  {
    if |a| == 0 {
      AppendEmptyLeft(a, rest);
      match Format(rest, args)
      case None =>
      case Some(t) => AppendEmptyLeft(a, t);
    } else {
      HeadTailAppend(a, rest);
      FormatLiteral(a[1..], rest, args);
      match Format(rest, args)
      case None =>
      case Some(t) =>
        AppendAssoc([a[0]], a[1..], t);
        ConsTail(a);
    }
  }


  /** The one-digit item `{i}`. */
  function Hole(i: nat): string
    requires i < 10
  {
    "{" + [DigitChar(i)] + "}"
  }

  lemma HoleShape(i: nat, rest: string)
    requires i < 10
    ensures var s := Hole(i) + rest;
      |s| >= 3 && s[0] == '{' && s[1] == DigitChar(i) && s[2] == '}'
      && s[1..][..1] == [DigitChar(i)] && s[3..] == rest
  {
  }

  /** An item `{i}` is replaced by the i-th argument. */
  lemma FormatHole(i: nat, rest: string, args: seq<string>)
    requires i < 10 && i < |args|
    ensures Format(Hole(i) + rest, args) == Prepend(args[i], Format(rest, args))
  {
    var s := Hole(i) + rest;
    HoleShape(i, rest);
    assert DigitRun(s[1..]) == 1;
    assert ParseDigits(s[1..][..1]) == i by {
      assert ParseDigits([DigitChar(i)]) == i by {
        assert [DigitChar(i)][..0] == [];
      }
    }
  }

  lemma Prepend2(a: string, b: string, r: Option<string>)
    ensures Prepend(a, Prepend(b, r)) == Prepend(a + b, r)
  {
    match r
    case None =>
    case Some(t) => AppendAssoc(a, b, t);
  }

  /** `postFormat`, the verbatim template: the front matter with the items `{0}` (title),
      `{1}` (date) and `{2}` (category), a blank line, then `{3}` (body) and a final line
      break. */
  function PostTemplate(nl: string): string {
    TitleLead(nl) + (Hole(0) + (DateLead(nl) + (Hole(1) + (CategoryLead(nl)
      + (Hole(2) + (BodyLead(nl) + (Hole(3) + nl)))))))
  }

  function TitleLead(nl: string): string { "---" + nl + "layout: post" + nl + "title: \"" }
  function DateLead(nl: string): string { "\"" + nl + "date: " }
  function CategoryLead(nl: string): string { nl + "comments: true" + nl + "categories: " }
  function BodyLead(nl: string): string { nl + "---" + nl + nl }

  lemma NoBraces(nl: string)
    requires IsNewline(nl)
    ensures NoBrace(TitleLead(nl)) && NoBrace(DateLead(nl))
    ensures NoBrace(CategoryLead(nl)) && NoBrace(BodyLead(nl)) && NoBrace(nl)
  {
    assert NoBrace(nl);
    assert NoBrace("---") && NoBrace("layout: post") && NoBrace("title: \"");
    assert NoBrace("\"") && NoBrace("date: ");
    assert NoBrace("comments: true") && NoBrace("categories: ");
    NoBraceAppend("---", nl);
    NoBraceAppend("---" + nl, "layout: post");
    NoBraceAppend("---" + nl + "layout: post", nl);
    NoBraceAppend("---" + nl + "layout: post" + nl, "title: \"");
    NoBraceAppend("\"", nl);
    NoBraceAppend("\"" + nl, "date: ");
    NoBraceAppend(nl, "comments: true");
    NoBraceAppend(nl + "comments: true", nl);
    NoBraceAppend(nl + "comments: true" + nl, "categories: ");
    NoBraceAppend(nl, "---");
    NoBraceAppend(nl + "---", nl);
    NoBraceAppend(nl + "---" + nl, nl);
  }

  /** The filled-in template, item by item, in the order the template lists them. */
  function Filled(nl: string, title: string, date: string, category: string, body: string): string {
    TitleLead(nl) + (title + (DateLead(nl) + (date + (CategoryLead(nl)
      + (category + (BodyLead(nl) + (body + nl)))))))
  }

  /** Filling the template never fails, and puts each argument in its place. */
  lemma FormatPostTemplate(nl: string, title: string, date: string, category: string, body: string)
    requires IsNewline(nl)
    ensures Format(PostTemplate(nl), [title, date, category, body])
              == Some(Filled(nl, title, date, category, body))
  {
    var args := [title, date, category, body];
    NoBraces(nl);
    FormatLiteral(nl, [], args);
    AppendEmptyRight(nl);
    FormatHole(3, nl, args);
    Prepend2(body, nl, Some([]));
    AppendEmptyRight(body + nl);
    var t3 := Hole(3) + nl;
    FormatLiteral(BodyLead(nl), t3, args);
    var t2 := BodyLead(nl) + t3;
    FormatHole(2, t2, args);
    var t1 := Hole(2) + t2;
    FormatLiteral(CategoryLead(nl), t1, args);
    var u1 := CategoryLead(nl) + t1;
    FormatHole(1, u1, args);
    var u2 := Hole(1) + u1;
    FormatLiteral(DateLead(nl), u2, args);
    var u3 := DateLead(nl) + u2;
    FormatHole(0, u3, args);
    var u4 := Hole(0) + u3;
    FormatLiteral(TitleLead(nl), u4, args);
  }

  /** The rendered post: the front matter lines `---`, `layout: post`, `title: "<title>"`,
      `date: <date>`, `comments: true`, `categories: <category>`, `---`, then a blank
      line, the Markdown body verbatim and a line break; each lead is the literal text
      the template holds between two items. */
  function RenderPost(nl: string, title: string, date: string, category: string, body: string): (doc: string)
    requires IsNewline(nl)
    ensures doc == TitleLead(nl) + title + DateLead(nl) + date + CategoryLead(nl) + category
                   + BodyLead(nl) + body + nl
  {
    FormatPostTemplate(nl, title, date, category, body);
    Flatten9(TitleLead(nl), title, DateLead(nl), date, CategoryLead(nl), category, BodyLead(nl), body, nl);
    Format(PostTemplate(nl), [title, date, category, body]).value
  }

  lemma Flatten9(a: string, b: string, c: string, d: string, e: string, f: string, g: string, h: string, i: string)
    ensures a + (b + (c + (d + (e + (f + (g + (h + i))))))) == a + b + c + d + e + f + g + h + i
  {
  }

  /** `string.Join(", ", firstCategory)` with a single string: the category itself, or
      the empty string for a null one. */
  function CategoryText(category: Option<string>): (t: string)
    ensures category.None? ==> t == ""
    ensures category.Some? ==> t == category.value
  {
    match category
    case None => ""
    case Some(c) => c
  }

  const OutputDir := "output\\"
  const Extension := ".markdown"

  /** `"output\\" + date + "-" + slug + ".markdown"`. */
  function FileName(date: string, slug: string): string {
    OutputDir + date + "-" + slug + Extension
  }

  lemma FileNameParts(date: string, slug: string)
    ensures var f := FileName(date, slug);
      && |f| == |OutputDir| + |date| + 1 + |slug| + |Extension|
      && f[|OutputDir|..|OutputDir| + |date|] == date
      && f[|OutputDir| + |date| + 1..|f| - |Extension|] == slug
  {
  }

  /** The file name gives back the date and slug it was built from, so posts whose
      dates print with the same width share a file exactly when they share both date
      and slug. */
  lemma FileNameInjective(d1: string, s1: string, d2: string, s2: string)
    requires |d1| == |d2|
    requires FileName(d1, s1) == FileName(d2, s2)
    ensures d1 == d2 && s1 == s2
  {
    FileNameParts(d1, s1);
    FileNameParts(d2, s2);
  }
}
