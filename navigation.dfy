/**
 * The active navigation link: the page name is the last `/`-separated segment
 * of the location's path, or `index.html` when that segment is empty, and each
 * `.nav-link` carries the `active` class exactly when its `href` attribute is
 * that page name.
 */
module Navigation {
  import opened Wrappers

  /** `s.split(sep)` for a one-character separator: the pieces between separators, in order. */
  function Split(s: string, sep: char): (parts: seq<string>)
    ensures |parts| >= 1
    ensures forall k :: 0 <= k < |parts| ==> sep !in parts[k]
  {
    if s == [] then [[]]
    else if s[0] == sep then [[]] + Split(s[1..], sep)
    else
      var rest := Split(s[1..], sep);
      [[s[0]] + rest[0]] + rest[1..]
  }

  /** `parts.join(sep)`: the pieces with one separator between neighbours. */
  function Join(parts: seq<string>, sep: char): string
    requires |parts| >= 1
  {
    if |parts| == 1 then parts[0] else parts[0] + [sep] + Join(parts[1..], sep)
  }

  /** Splitting loses nothing: joining the pieces again gives back the string. */
  lemma {:induction false} SplitJoin(s: string, sep: char)
    ensures Join(Split(s, sep), sep) == s
  {
    if s != [] {
      var rest := Split(s[1..], sep);
      SplitJoin(s[1..], sep);
      if s[0] == sep {
        assert Split(s, sep)[1..] == rest;
        assert s == [sep] + s[1..];
      } else {
        var parts := Split(s, sep);
        assert parts[1..] == rest[1..];
        if |rest| == 1 {
          assert s == [s[0]] + rest[0];
        } else {
          assert Join(rest, sep) == rest[0] + [sep] + Join(rest[1..], sep);
          assert s == [s[0]] + rest[0] + [sep] + Join(rest[1..], sep);
        }
      }
    }
  }

  /** `split(sep).pop()`: the last piece. */
  function LastPiece(s: string, sep: char): (seg: string)
    ensures sep !in seg
  {
    var parts := Split(s, sep);
    parts[|parts| - 1]
  }

  /** One step of `split(sep).pop()`: the first character joins the last piece only when it is the last piece's own first character. */
  lemma LastPieceStep(s: string, sep: char)
    requires s != []
    ensures var rest := Split(s[1..], sep);
      LastPiece(s, sep) == if s[0] != sep && |rest| == 1 then [s[0]] + rest[0] else LastPiece(s[1..], sep)
    ensures |Split(s, sep)| == 1 <==> s[0] != sep && |Split(s[1..], sep)| == 1
  {
  }

  /**
   * The last piece is a suffix without separators: the whole string when
   * there is a single piece, and otherwise what follows the final separator.
   */
  lemma {:induction false} LastPieceIsSuffix(s: string, sep: char)
    ensures var seg := LastPiece(s, sep);
      |seg| <= |s| && seg == s[|s| - |seg|..] && sep !in seg &&
      (|Split(s, sep)| == 1 ==> seg == s) &&
      (|Split(s, sep)| > 1 ==> |seg| < |s| && s[|s| - |seg| - 1] == sep)
  {
    if s != [] {
      LastPieceIsSuffix(s[1..], sep);
      LastPieceStep(s, sep);
      var rest := Split(s[1..], sep);
      var seg := LastPiece(s, sep);
      if s[0] != sep && |rest| == 1 {
        assert s == [s[0]] + s[1..];
      } else {
        assert s[|s| - |seg|..] == s[1..][|s| - 1 - |seg|..];
        if |seg| < |s| - 1 {
          assert s[|s| - |seg| - 1] == s[1..][|s| - 1 - |seg| - 1];
        }
      }
    }
  }

  /** `window.location.pathname.split('/').pop() || 'index.html'`. */
  function CurrentPage(pathname: string): (page: string)
    ensures page != [] && '/' !in page
  {
    var seg := LastPiece(pathname, '/');
    if seg == [] then "index.html" else seg
  }

  /**
   * The page name is never empty and holds no `/`. It is `index.html` when the
   * path is empty or ends with `/`; otherwise it is the part of the path after
   * its last `/`, or the whole path when it has none.
   */
  lemma CurrentPageSpec(pathname: string)
    ensures var page := CurrentPage(pathname);
      page != [] && '/' !in page &&
      (pathname == [] || pathname[|pathname| - 1] == '/' ==> page == "index.html") &&
      (pathname != [] && pathname[|pathname| - 1] != '/' ==>
        exists k :: 0 <= k < |pathname| && page == pathname[k..] && '/' !in page &&
          (k == 0 || pathname[k - 1] == '/'))
  {
    var seg := LastPiece(pathname, '/');
    LastPieceIsSuffix(pathname, '/');
    if seg != [] {
      assert pathname[|pathname| - 1] == seg[|seg| - 1];
      var k := |pathname| - |seg|;
      assert CurrentPage(pathname) == pathname[k..];
    }
  }

  /** A path without `/` names its page itself. */
  lemma CurrentPageOfBareName()
    ensures CurrentPage("contact.html") == "contact.html"
  {
    var s := "contact.html";
    LastPieceIsSuffix(s, '/');
    assert '/' !in s;
  }

  /** Whatever precedes the final separator, the last piece is what follows it. */
  lemma LastPieceAfterSeparator(a: string, sep: char, b: string)
    requires sep !in b
    ensures LastPiece(a + [sep] + b, sep) == b
  {
    var s := a + [sep] + b;
    LastPieceIsSuffix(s, sep);
    var seg := LastPiece(s, sep);
    assert s[|a|] == sep;
    assert s[|a| + 1..] == b;
  }

  /** The page of a path is what follows its last `/`. */
  lemma CurrentPageOfPath()
    ensures CurrentPage("/site/about.html") == "about.html"
  {
    assert "/site/about.html" == "/site" + ['/'] + "about.html";
    LastPieceAfterSeparator("/site", '/', "about.html");
  }

  /** The site root and the empty path name the index page. */
  lemma CurrentPageOfRoot()
    ensures CurrentPage("/") == "index.html"
    ensures CurrentPage("") == "index.html"
  {
    assert Split("/", '/') == [[]] + Split([], '/');
  }

  /** An element with class `nav-link`: its `href` attribute (none when absent) and its `active` class. */
  class NavLink {
    const href: Option<string>
    var active: bool

    constructor (href: Option<string>, active: bool)
      ensures this.href == href && this.active == active
    {
      this.href := href;
      this.active := active;
    }
  }

  /**
   * The loop over the navigation links: each link gets the `active` class when
   * its `href` is exactly the page name and loses it otherwise. Only the links'
   * `active` flags change.
   */
  method MarkActiveLinks(links: seq<NavLink>, page: string)
    modifies set l | l in links
    ensures forall j :: 0 <= j < |links| ==> links[j].active == (links[j].href == Some(page))
  {
    var i := 0;
    while i < |links|
      invariant i <= |links|
      invariant forall j :: 0 <= j < i ==> links[j].active == (links[j].href == Some(page))
    {
      var link := links[i];
      if link.href == Some(page) {
        link.active := true;
      } else {
        link.active := false;
      }
      i := i + 1;
    }
  }

  /** The active links of the page at `pathname` are exactly those whose `href` names it. */
  method MarkCurrentPage(links: seq<NavLink>, pathname: string)
    modifies set l | l in links
    ensures forall j :: 0 <= j < |links| ==> links[j].active == (links[j].href == Some(CurrentPage(pathname)))
  {
    MarkActiveLinks(links, CurrentPage(pathname));
  }
}
