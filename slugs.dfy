/** The post's slug: the last path segment of its URL with every `.aspx` removed. */
module Slugs {
  import opened Wrappers
  import opened Text

  const AspxSuffix := ".aspx"

  /** `url.Substring(url.LastIndexOf("/") + 1)`: the text after the last slash, or the
      whole URL when it has none. It is a suffix of the URL, holds no slash, and is
      either the whole URL or preceded by a slash. */
  function LastSegment(url: string): (seg: string)
    ensures |seg| <= |url| && seg == url[|url| - |seg|..]
    ensures forall j :: 0 <= j < |seg| ==> seg[j] != '/'
    ensures |seg| == |url| || url[|url| - |seg| - 1] == '/'
  {
    url[LastIndexOf(url, '/') + 1..]
  }

  /** The partner of LastSegment: whatever follows the last slash of a URL is its last
      segment. */
  lemma LastSegmentAfterSlash(dir: string, name: string)
    requires '/' !in name
    ensures LastSegment(dir + "/" + name) == name
  {
    var url := dir + "/" + name;
    var seg := LastSegment(url);
    var n := |url|;
    assert url[|dir|] == '/';
    forall k | n - |seg| <= k < n ensures url[k] != '/' {
      assert url[k] == seg[k - (n - |seg|)];
    }
    forall k | |dir| < k < n ensures url[k] != '/' {
      assert url[k] == name[k - |dir| - 1];
    }
    assert |seg| == |name|;
    assert forall j :: 0 <= j < |seg| ==> seg[j] == url[n - |seg| + j];
  }

  /** `url.Substring(url.LastIndexOf("/") + 1).Replace(".aspx", "")`. */
  function Slug(url: string): (slug: string)
    ensures '/' !in slug
    ensures |slug| <= |LastSegment(url)|
  {
    RemoveAspx(LastSegment(url))
  }

  /** `seg.Replace(".aspx", "")`: deletes every non-overlapping `.aspx`, left to right,
      and keeps every other character in order. */
  function RemoveAspx(seg: string): (r: string)
    ensures |r| <= |seg|
    ensures forall c :: c in r ==> c in seg
  {
    RemoveShrinks(seg);
    ReplaceAll(seg, AspxSuffix, "")
  }

  /** Removing a pattern never lengthens the text. */
  lemma {:induction false} RemoveShrinks(s: string)
    ensures |ReplaceAll(s, AspxSuffix, "")| <= |s|
  {
    if |s| > 0 {
      if StartsWith(s, AspxSuffix) {
        RemoveShrinks(s[|AspxSuffix|..]);
      } else {
        RemoveShrinks(s[1..]);
      }
    }
  }

  /** A URL without any slash is its own last segment. */
  lemma SlugWithoutSlash(url: string)
    requires '/' !in url
    ensures Slug(url) == RemoveAspx(url)
  {
    assert forall j :: 0 <= j < |url| ==> url[j] != '/';
  }

  /** A segment without `.aspx` is kept as it is. */
  lemma RemoveAspxAbsent(seg: string)
    requires !Contains(seg, AspxSuffix)
    ensures RemoveAspx(seg) == seg
  {
    ReplaceAllAbsent(seg, AspxSuffix, "");
  }

  /** `.aspx` is removed where it first occurs, and removal goes on after it: with
      `RemoveAspxAbsent` this determines every removal, left to right. */
  lemma RemoveAspxFirst(seg: string, i: nat)
    requires IndexOf(seg, AspxSuffix) == Some(i)
    ensures RemoveAspx(seg) == seg[..i] + RemoveAspx(seg[i + |AspxSuffix|..])
  {
    ReplaceAllFirst(seg, AspxSuffix, "", i);
    assert seg[..i] + "" == seg[..i];
  }

  /** A name that holds no `.aspx`, followed by the `.aspx` extension, loses exactly the
      extension. */
  lemma {:induction false} RemoveAspxExtension(name: string)
    requires !Contains(name, AspxSuffix)
    ensures RemoveAspx(name + AspxSuffix) == name
  {
    var s := name + AspxSuffix;
    if |name| == 0 {
      assert s == AspxSuffix;
      assert StartsWith(s, AspxSuffix);
      assert s[|AspxSuffix|..] == [];
    } else {
      ExtensionNotAtStart(name);
      forall j: nat ensures !OccursAt(name[1..], AspxSuffix, j) {
        OccursInTail(name, AspxSuffix, j);
      }
      assert s[1..] == name[1..] + AspxSuffix;
      RemoveAspxExtension(name[1..]);
      ConsTail(name);
    }
  }

  /** `.aspx` does not overlap itself, so a non-empty name without `.aspx` followed by
      the extension does not start with `.aspx`. */
  lemma ExtensionNotAtStart(name: string)
    requires |name| > 0 && !Contains(name, AspxSuffix)
    ensures !StartsWith(name + AspxSuffix, AspxSuffix)
  {
    var s := name + AspxSuffix;
    var n := |AspxSuffix|;
    if |name| < n {
      assert s[|name|] == '.' != AspxSuffix[|name|];
      assert s[..n][|name|] == s[|name|];
    } else {
      assert !OccursAt(name, AspxSuffix, 0);
      assert s[..n] == name[..n];
    }
  }

  /** Removal is a single pass: deleting one `.aspx` can join two halves into a new
      `.aspx`, which stays in the slug. */
  lemma RemoveAspxSinglePass()
    ensures RemoveAspx(".as.aspxpx") == ".aspx"
  {
    SinglePassInner();
    assert ReplaceAll("as.aspxpx", AspxSuffix, "") == "aspx";
  }

  lemma SinglePassInner()
    ensures ReplaceAll("s.aspxpx", AspxSuffix, "") == "spx"
  {
    assert ReplaceAll("px", AspxSuffix, "") == "px";
    assert ReplaceAll(".aspxpx", AspxSuffix, "") == "px";
  }

  /** The slug of a URL whose last segment is a name with the `.aspx` extension is that
      name, provided the name holds no slash and no `.aspx` of its own. */
  lemma SlugOfPage(dir: string, name: string)
    requires '/' !in name && !Contains(name, AspxSuffix)
    ensures Slug(dir + "/" + name + AspxSuffix) == name
  {
    AppendAssoc(dir + "/", name, AspxSuffix);
    assert '/' !in AspxSuffix;
    LastSegmentAfterSlash(dir, name + AspxSuffix);
    RemoveAspxExtension(name);
  }

  lemma ExampleUrl()
    ensures "http://x/blog/My-Post.aspx" == "http://x/blog" + "/" + "My-Post" + AspxSuffix
  {
  }

  lemma ExamplePageName(name: string)
    requires name == "My-Post"
    ensures '/' !in name && !Contains(name, AspxSuffix)
  {
    MissingChar(name, AspxSuffix, 0);
  }

  /** Example: `http://x/blog/My-Post.aspx` has the slug `My-Post`. */
  lemma SlugExample()
    ensures Slug("http://x/blog/My-Post.aspx") == "My-Post"
  {
    ExampleUrl();
    ExamplePageName("My-Post");
    SlugOfPage("http://x/blog", "My-Post");
  }
}
