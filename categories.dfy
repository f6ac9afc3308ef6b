/** The category resolver: a post's primary category is the first category of the
    document, in declaration order, whose id the post references; spaces in its name
    become hyphens. */
module Categories {
  import opened Wrappers
  import opened Text

  /** A category element of the document: its `id` attribute and the text of its first
      child element. */
  datatype Category = Category(id: string, name: string)

  /** `i` is the first index, in declaration order, of a category the post references. */
  ghost predicate IsFirstReferenced(cats: seq<Category>, refs: seq<string>, i: int) {
    && 0 <= i < |cats|
    && cats[i].id in refs
    && forall j :: 0 <= j < i ==> cats[j].id !in refs
  }

  /** The categories whose id occurs among the post's references, kept in declaration
      order (`Where` over the category elements). */
  function Referenced(cats: seq<Category>, refs: seq<string>): (m: seq<Category>)
    ensures |m| <= |cats|
    ensures forall c :: c in m <==> c in cats && c.id in refs
  {
    if |cats| == 0 then []
    else if cats[0].id in refs then [cats[0]] + Referenced(cats[1..], refs)
    else Referenced(cats[1..], refs)
  }

  /** The filter keeps order and duplicates: filtering two runs of categories one after
      the other gives the two filtered runs, one after the other. */
  lemma {:induction false} ReferencedAppend(a: seq<Category>, b: seq<Category>, refs: seq<string>)
    ensures Referenced(a + b, refs) == Referenced(a, refs) + Referenced(b, refs)
  {
    if |a| == 0 {
      assert a + b == b;
    } else {
      HeadTailAppend(a, b);
      ReferencedAppend(a[1..], b, refs);
      if a[0].id in refs {
        AppendAssoc([a[0]], Referenced(a[1..], refs), Referenced(b, refs));
      }
    }
  }

  /** A single category is kept exactly when the post references its id. */
  lemma ReferencedSingle(c: Category, refs: seq<string>)
    ensures Referenced([c], refs) == if c.id in refs then [c] else []
  {
    assert [c][1..] == [];
  }

  /** `Select(c => c.name).ToArray().FirstOrDefault()`: the first name, or null. */
  function FirstName(m: seq<Category>): (r: Option<string>)
    ensures r.None? <==> |m| == 0
    ensures r.Some? ==> r.value == m[0].name
  {
    if |m| == 0 then None else Some(m[0].name)
  }

  /** The name of the post's primary category, before hyphenation (`firstCategory` as
      the LINQ query leaves it). */
  function SelectCategory(cats: seq<Category>, refs: seq<string>): Option<string> {
    FirstName(Referenced(cats, refs))
  }

  /** The selection picks the first category in declaration order whose id the post
      references; it is absent exactly when the post references none of them. */
  lemma {:induction false} SelectCategoryFirst(cats: seq<Category>, refs: seq<string>)
    ensures SelectCategory(cats, refs).None? <==>
              forall i :: 0 <= i < |cats| ==> cats[i].id !in refs
    ensures forall i :: IsFirstReferenced(cats, refs, i) ==>
              SelectCategory(cats, refs) == Some(cats[i].name)
  {
    if |cats| > 0 {
      SelectCategoryFirst(cats[1..], refs);
      forall i | IsFirstReferenced(cats, refs, i) && i > 0
        ensures IsFirstReferenced(cats[1..], refs, i - 1)
      {
      }
      if cats[0].id !in refs {
        assert forall i :: 0 < i < |cats| ==> cats[i] == cats[1..][i - 1];
      }
    }
  }

  /** Only which ids the post references matters, not their order or repetition. */
  lemma {:induction false} SelectCategoryIgnoresReferenceOrder(
    cats: seq<Category>, refs1: seq<string>, refs2: seq<string>)
    requires forall x :: x in refs1 <==> x in refs2
    ensures Referenced(cats, refs1) == Referenced(cats, refs2)
    ensures SelectCategory(cats, refs1) == SelectCategory(cats, refs2)
  {
    if |cats| > 0 {
      SelectCategoryIgnoresReferenceOrder(cats[1..], refs1, refs2);
    }
  }

  /** `name.Replace(" ", "-")`: the name with every space turned into a hyphen, and
      nothing else changed. */
  function Hyphenate(name: string): (r: string)
    ensures |r| == |name|
    ensures forall i :: 0 <= i < |name| ==> r[i] == (if name[i] == ' ' then '-' else name[i])
    ensures ' ' !in r
  {
    ReplaceCharPointwise(name, ' ', '-');
    ReplaceAll(name, [' '], ['-'])
  }

  /** The resolved category: the selected name with its spaces hyphenated, or absent
      (null) when the post references no category of the document. */
  function ResolveCategory(cats: seq<Category>, refs: seq<string>): (r: Option<string>)
    ensures r.None? <==> SelectCategory(cats, refs).None?
    ensures r.Some? ==> r.value == Hyphenate(SelectCategory(cats, refs).value)
    ensures r.Some? ==> ' ' !in r.value && |r.value| == |SelectCategory(cats, refs).value|
  {
    match SelectCategory(cats, refs)
    case None => None
    case Some(n) => Some(Hyphenate(n))
  }
}
