# BlogMLToMarkdown, modelled in Dafny

BlogMLToMarkdown is a one-shot migrator. It reads a BlogML export and writes one
Markdown file per post for a static-site generator. Each file holds YAML-like front
matter (title, date, one category) followed by the post body. An external converter
turns the HTML body into Markdown. Its code regions are then re-fenced and tagged with
a guessed language.

This project models the string and sequence pipeline inside that program as Dafny
functions and proves what it promises:

- `Text`: ordinal `StartsWith`, `Contains`/`IndexOf` and `LastIndexOf`.
  `ReplaceAll` models .NET `String.Replace`: a single left-to-right pass that replaces
  non-overlapping occurrences. `Trim` strips the `Char.IsWhiteSpace` characters.
  Decimal digits are also here.
- `CodeFormat`: `GetLanguage`, the three-way first-match-wins classifier on the trimmed
  code. `FormatCode` is an explicit left-to-right scan. It does what `Regex.Replace`
  does with the non-greedy, single-line-mode pattern `~~~~ \{\.csharpcode\}(?<code>.*?)~~~~`.
  `FormatCodeFirstMatch` connects the scan to the match-at-a-time reading: the first
  opener, the nearest closer after it, and the region in between.
- `Categories`: the category resolver. Its result is the first category, in declaration
  order, whose id is among the post's references, with spaces turned into hyphens. It
  is absent (`null`) when no id matches.
- `Slugs`: the slug. It is the text after the last `/` of the post URL, with every
  `.aspx` removed.
- `Dates`: the `yyyy-MM-dd` rendering of a calendar date. `ParseDate` reads it back.
- `Emitter`: composite formatting (`string.Format`) applied to the verbatim front-matter
  template. Also `string.Join(", ", firstCategory)` and the output file name
  `"output\\" + date + "-" + slug + ".markdown"`.
- `Posts`: one post's file name and file text, assembled from the pieces above.

`string.Join(", ", firstCategory)` has a single string argument. C# resolves it to the
`params string[]` overload, so the result is the category itself, or the empty string
when the category is `null`. `CategoryText` models exactly that.

The verbatim template takes its line breaks from the program text. The model therefore
takes the line break as a parameter `nl`, which is `"\n"` or `"\r\n"`.

Two behaviours of the code are easy to misread:

- The slug loses every `.aspx` in the last segment, not only a trailing one.
- Every space of a category name becomes a hyphen, not only the interior ones.

## Model

| member | source | states |
|---|---|---|
| `Text.IndexOf` | Program.cs:126 | The first occurrence of a pattern. When present, the pattern occurs there and at no earlier index. It is absent exactly when the text does not contain the pattern, which is ordinal `Contains`. |
| `Text.LastIndexOf` | Program.cs:61 | The index of the last `/`, or -1. That index holds the character and no later index does. |
| `Text.ReplaceAll` | Program.cs:61 | `String.Replace`: every character of the result comes from the text or the replacement. Its full value is fixed by `Text.ReplaceAllFirst` and `Text.ReplaceAllAbsent`. |
| `Text.ReplaceAllAbsent` | Program.cs:61 | A text without the pattern is returned unchanged by `Replace`. |
| `Text.ReplaceAllFirst` | Program.cs:61 | `Replace` copies the text before the first occurrence, puts the replacement in its place and carries on right after it. With `Text.ReplaceAllAbsent` this fixes the result: every non-overlapping occurrence is replaced, left to right. |
| `Text.ReplaceCharPointwise` | Program.cs:73 | Replacing one character by another keeps the length and maps the text position by position. |
| `Text.Trim` | Program.cs:125 | `Trim()` returns a slice of the text. Only white space lies outside the slice, and the slice neither starts nor ends with white space. |
| `Text.TrimPadding` | Program.cs:125 | White space added on either side does not change `Trim()`. |
| `Text.TrimUnpadded` | Program.cs:125 | A text with no white space at either end is its own `Trim()`. |
| `Text.MissingChar` | Program.cs:126 | A pattern containing a character the text lacks is not contained in the text. |
| `CodeFormat.GetLanguage` | Program.cs:123-129 | The tag is always `aspx-cs`, `html` or `csharp`. It is `aspx-cs` exactly when the trimmed code contains `<%= ` or `<%: `, even if the code also opens with a tag. It is `html` exactly when there is no marker and the trimmed code starts with `<script` or `<table`. Otherwise it is `csharp`. |
| `CodeFormat.GetLanguagePadding` | Program.cs:125 | White space around a code region never changes its tag. |
| `CodeFormat.GetLanguageAspxExample` | Program.cs:126 | `<%= Foo() %>` is tagged `aspx-cs`. |
| `CodeFormat.GetLanguageHtmlExample` | Program.cs:127 | `<table>` is tagged `html`. |
| `CodeFormat.GetLanguageCSharpExample` | Program.cs:128 | `x++;`, with neither a marker nor an opening tag, is tagged `csharp`. |
| `CodeFormat.Fenced` | Program.cs:119 | The replacement of one region. `CodeFormat.FencedParts` reads it back: the fence, the language tag of the code, the code verbatim, and the fence again. |
| `CodeFormat.FencedParts` | Program.cs:119 | A fenced block has the length of its four parts. The fence, the tag, the code and the closing fence can each be read back from it. |
| `CodeFormat.FormatCode` | Program.cs:112-121 | `_codeRegex.Replace` with the evaluator of Program.cs:117-120. Its value on every text is fixed by `CodeFormat.FormatCodeFirstMatch`, together with `FormatCodeIdentity`, `FormatCodeUnpaired` and `FormatCodePaired`. |
| `CodeFormat.FormatCodeIdentity` | Program.cs:112-121 | A text without `~~~~ {.csharpcode}` is returned unchanged. |
| `CodeFormat.NoCloserBefore` | Program.cs:112 | Pairing is non-greedy: a region that ends at the first closer after its opener contains no closer. |
| `CodeFormat.FormatCodeUnpaired` | Program.cs:112-116 | If the first opener has no `~~~~` after it, the whole text, including everything after the opener, is kept as it is. |
| `CodeFormat.FormatCodeAtUnpaired` | Program.cs:112-116 | An opener at the very start with no closer after it leaves the text unchanged. |
| `CodeFormat.FormatCodePaired` | Program.cs:112-120 | The text before the first opener is kept. The region up to the nearest closer becomes "```" + tag + code + "```" with the code verbatim. Reformatting resumes just after that closer. |
| `CodeFormat.FormatCodeMatch` | Program.cs:116-120 | A matched region holds no closer and is replaced in place by its fenced, tagged form. |
| `CodeFormat.FormatCodeFirstMatch` | Program.cs:112-121 | The scan agrees with matching one region at a time. The first opener pairs with the nearest following closer, which may be the first four characters of a later opener. With no opener, or no closer after the first opener, the text is kept. |
| `Categories.Referenced` | Program.cs:67 | The `Where` filter: it keeps exactly the categories whose id is among the references, and never more than there are. |
| `Categories.ReferencedAppend` | Program.cs:67 | The filter keeps order and duplicates: filtering a concatenation gives the concatenation of the filtered parts. |
| `Categories.ReferencedSingle` | Program.cs:67 | One category is kept exactly when its id is among the references. |
| `Categories.FirstName` | Program.cs:68-70 | `Select(...).FirstOrDefault()`: the first name, absent exactly when nothing was selected. |
| `Categories.SelectCategory` | Program.cs:67-70 | `Where(...).Select(...).ToArray().FirstOrDefault()`. `Categories.SelectCategoryFirst` proves it is the name of the first declared category the post references, and absent exactly when there is none. |
| `Categories.SelectCategoryFirst` | Program.cs:63-70 | The selection is the name of the first category in declaration order whose id the post references. It is absent exactly when the post references none of them. |
| `Categories.SelectCategoryIgnoresReferenceOrder` | Program.cs:63-67 | Only which ids are referenced matters, not their order or repetition. |
| `Categories.Hyphenate` | Program.cs:72-73 | Every space becomes a hyphen and nothing else changes. The length is kept and no space remains. |
| `Categories.ResolveCategory` | Program.cs:67-73 | The resolved category is absent exactly when the selection is. Otherwise it is the hyphenated selected name, with the same length and no space. |
| `Slugs.LastSegment` | Program.cs:61 | `Substring(LastIndexOf("/") + 1)` is a suffix of the URL without any `/`. It is either the whole URL or preceded by `/`. |
| `Slugs.LastSegmentAfterSlash` | Program.cs:61 | Whatever follows the last `/` is exactly the last segment. |
| `Slugs.Slug` | Program.cs:61 | The slug never contains `/` and is no longer than the last segment. Its full value is the last segment with removals as `Slugs.RemoveAspxFirst` and `Slugs.RemoveAspxAbsent` state. |
| `Slugs.RemoveAspx` | Program.cs:61 | `Replace(".aspx", "")` never lengthens the segment and introduces no character. |
| `Slugs.RemoveAspxFirst` | Program.cs:61 | The first `.aspx` is deleted, the text before it is kept and removal goes on after it. With `Slugs.RemoveAspxAbsent` this determines every removal, left to right. |
| `Slugs.RemoveShrinks` | Program.cs:61 | Deleting every `.aspx` never lengthens a text. |
| `Slugs.SlugWithoutSlash` | Program.cs:61 | A URL without `/` is its own last segment. |
| `Slugs.RemoveAspxAbsent` | Program.cs:61 | A segment without `.aspx` is kept as it is. |
| `Slugs.RemoveAspxExtension` | Program.cs:61 | A name that holds no `.aspx`, followed by `.aspx`, loses exactly the extension. `.aspx` cannot overlap itself, so the extension is the only occurrence. |
| `Slugs.RemoveAspxSinglePass` | Program.cs:61 | Removal is one pass: `.as.aspxpx` becomes `.aspx`. |
| `Slugs.SlugOfPage` | Program.cs:61 | The slug of `dir/name.aspx` is `name` for any name without `/` and without `.aspx`. |
| `Slugs.SlugExample` | Program.cs:61 | `http://x/blog/My-Post.aspx` has the slug `My-Post`. |
| `Dates.PadDigits` | Program.cs:57 | A `yyyy`/`MM`/`dd` field has exactly its width in decimal digits. A value that fits is read back unchanged. |
| `Dates.DateString` | Program.cs:57 | `ToString("yyyy-MM-dd")` has ten characters, dashes at indices 4 and 7, and digits elsewhere. |
| `Dates.ParseDate` | Program.cs:57 | Reading a `yyyy-MM-dd` text back yields only valid calendar dates. |
| `Dates.DateStringRoundTrip` | Program.cs:57 | Parsing the rendered date gives the date back. |
| `Dates.DateStringInjective` | Program.cs:57 | Different dates never render the same. |
| `Dates.DateStringExample` | Program.cs:57 | 4 March 2012 renders as `2012-03-04`. |
| `Emitter.FormatLiteral` | Program.cs:77 | `string.Format` copies text without braces unchanged. |
| `Emitter.Format` | Program.cs:77 | `string.Format`: `{{` and `}}` stand for single braces, `{n}` is the n-th argument, and any other brace use or a missing argument is a `FormatException` (`None`). `Emitter.FormatLiteral` and `Emitter.FormatHole` fix its value on the template. |
| `Emitter.FormatHole` | Program.cs:77 | `string.Format` replaces the item `{i}` by the i-th argument. |
| `Emitter.NoBraces` | Program.cs:16-25 | The template text between its items holds no brace. |
| `Emitter.PostTemplate` | Program.cs:16-25 | The `postFormat` text: the front-matter lines with the items `{0}` to `{3}`. Its line breaks are the parameter `nl`. `Emitter.NoBraces` and `Emitter.FormatPostTemplate` state what formatting it gives. |
| `Emitter.FormatPostTemplate` | Program.cs:16-25 | Filling the template never throws. Each of title, date, category and body lands in its place. |
| `Emitter.RenderPost` | Program.cs:16-25 | The post text is the lines `---`, `layout: post`, `title: "<title>"`, `date: <date>`, `comments: true`, `categories: <category>`, `---`, then a blank line, the body verbatim and a final line break. |
| `Emitter.CategoryText` | Program.cs:77 | `string.Join(", ", firstCategory)` is the category itself, or empty when there is none. |
| `Emitter.FileNameParts` | Program.cs:79 | The file name has the output directory, the date, a hyphen, the slug and `.markdown` in that order, and the date and slug can be read back from it. |
| `Emitter.FileName` | Program.cs:79 | `"output\\" + date + "-" + slug + ".markdown"`. `Emitter.FileNameParts` and `Emitter.FileNameInjective` read date and slug back from it. |
| `Emitter.FileNameInjective` | Program.cs:79 | Equal file names built from dates of equal width have equal dates and equal slugs. |
| `Posts.PostFileName` | Program.cs:79 | A post's file is `output\`, its `yyyy-MM-dd` date, `-`, its slug and `.markdown`. |
| `Posts.PostFileNameCollision` | Program.cs:79 | Two posts get the same file name exactly when they were created on the same day and have the same slug. |
| `Posts.PostText` | Program.cs:75-77 | A post's text is the front matter with its title, date and resolved category (empty when none), then its converted body with code regions reformatted. |
| `Posts.PostTextCategory` | Program.cs:63-77 | The `categories:` line carries the hyphenated name of the first declared category the post references. |

## Left out

- Reading the input file and loading the XML (Program.cs:30-48). Posts and categories
  are given as already-extracted records (`Posts.Post`, `Categories.Category`).
- `DateTime.Parse` of the `date-created` attribute (Program.cs:57). It is culture-
  dependent library parsing, so a post carries its calendar date directly. Rendering
  assumes the Gregorian calendar and ASCII digits.
- `ConvertHtmlToMarkdown` (Program.cs:87-110) starts an external `pandoc.exe` and
  exchanges text over pipes. It is modelled only as the function parameter `convert`
  of `Posts.PostText`.
- The output directory check and creation (Program.cs:50-53), the file write
  (Program.cs:79-82) and the `foreach` loop over the posts (Program.cs:55-84). Only the
  file name and the file text of each post are modelled. `Posts.PostFileNameCollision`
  says when two posts get the same file name; a later post then overwrites an earlier
  one.
- Posts.PostFileNameCollision compares file names exactly. Windows compares file names
  without regard to case, so posts of the same day with the slugs `My-Post` and
  `my-post` overwrite each other although the model gives them different names.
- Emitter.Format models composite formatting only as far as the template needs it:
  `{{`, `}}` and `{n}` with a decimal index. Alignment and format strings
  (`{0,5}`, `{0:x}`) and white space inside an item are treated as format errors.
- Text.LastIndexOf assumes an ordinal search for `/`. The program calls the string
  overload, which compares by culture. Under ICU (.NET 5 and later) a `/` followed by a
  combining or ignorable character, as in `x/\u0301y`, may not match, so the program's
  slug could then contain `/` where the model's does not.
- Text.Trim, `StartsWith` and `Contains` are ordinal. The program's
  `StartsWith("<script")` is culture-sensitive, which could differ only for text with
  ignorable or combining characters.
- Text.IsWhiteSpace lists the characters `Char.IsWhiteSpace` accepts in the Unicode
  version current for .NET. The model uses Dafny's Unicode characters and no UTF-16
  surrogates.
- Regular-expression time-outs and engine internals are not modelled. `FormatCode` is
  defined by its scan.
