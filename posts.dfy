/** The per-post assembly inside the migrator's loop: the file name built from the
    post's date and slug, and the text built from its title, date, resolved category
    and converted body. */
module Posts {
  import opened CodeFormat
  import opened Categories
  import opened Slugs
  import opened Dates
  import opened Emitter

  /** A post element: its `date-created` and `post-url` attributes, its title and
      HTML content, and the ids its category references name, in document order. */
  datatype Post = Post(created: CalendarDate, url: string, title: string, content: string, refs: seq<string>)

  /** The name of the file a post is written to: the output directory, the post's
      `yyyy-MM-dd` date, a hyphen, its slug and the `.markdown` extension. */
  function PostFileName(p: Post): (name: string)
    ensures name == OutputDir + DateString(p.created) + "-" + Slug(p.url) + Extension
  {
    FileName(DateString(p.created), Slug(p.url))
  }

  /** Two posts get the same file name exactly when they were created on the same day
      and have the same slug. */
  lemma PostFileNameCollision(p1: Post, p2: Post)
    ensures PostFileName(p1) == PostFileName(p2) <==>
              p1.created == p2.created && Slug(p1.url) == Slug(p2.url)
  {
    if PostFileName(p1) == PostFileName(p2) {
      FileNameInjective(DateString(p1.created), Slug(p1.url), DateString(p2.created), Slug(p2.url));
      DateStringInjective(p1.created, p2.created);
    }
  }

  /** The text written for a post. `convert` stands for the external HTML-to-Markdown
      converter; its output has its code regions reformatted and becomes the body. An
      unresolved category leaves the `categories:` line empty. */
  function PostText(p: Post, cats: seq<Category>, convert: string -> string, nl: string): (text: string)
    requires IsNewline(nl)
    ensures var category := ResolveCategory(cats, p.refs);
      text == TitleLead(nl) + p.title + DateLead(nl) + DateString(p.created) + CategoryLead(nl)
              + (if category.None? then "" else category.value)
              + BodyLead(nl) + FormatCode(convert(p.content)) + nl
  {
    RenderPost(nl, p.title, DateString(p.created), CategoryText(ResolveCategory(cats, p.refs)),
      FormatCode(convert(p.content)))
  }

  /** The category line names the first category, in declaration order, that the post
      references, hyphenated; it is empty when the post references none. */
  lemma PostTextCategory(p: Post, cats: seq<Category>, convert: string -> string, nl: string, i: int)
    requires IsNewline(nl) && IsFirstReferenced(cats, p.refs, i)
    ensures PostText(p, cats, convert, nl) ==
              TitleLead(nl) + p.title + DateLead(nl) + DateString(p.created) + CategoryLead(nl)
              + Hyphenate(cats[i].name) + BodyLead(nl) + FormatCode(convert(p.content)) + nl
  {
    SelectCategoryFirst(cats, p.refs);
  }
}
