/**
 * Active-page highlighting (script.js): the current page is the last
 * '/'-separated segment of the location's pathname, `index.html` when that
 * segment is empty, and every navigation link gets the class `active` when
 * its `href` names that page and loses it otherwise.
 */
module ActivePage {
  import opened Wrappers

  /** `s.split('/')`: the texts between slashes, empty ones included. */
  function Split(s: string): (r: seq<string>)
    ensures |r| >= 1
    ensures forall k :: 0 <= k < |r| ==> '/' !in r[k]
    ensures |r| == 1 <==> '/' !in s
    decreases |s|
  {
    if s == [] then [[]]
    else
      var rest := Split(s[1..]);
      if s[0] == '/' then [[]] + rest else [[s[0]] + rest[0]] + rest[1..]
  }

  /** `pieces.join('/')`. */
  function Join(pieces: seq<string>): (r: string)
    ensures |pieces| >= 1 && (forall k :: 0 <= k < |pieces| ==> '/' !in pieces[k]) ==>
      ('/' in r <==> |pieces| > 1)
    decreases |pieces|
  {
    if pieces == [] then []
    else if |pieces| == 1 then pieces[0]
    else
      var r := pieces[0] + ['/'] + Join(pieces[1..]);
      assert r[|pieces[0]|] == '/';
      r
  }

  /** Splitting a text that starts with a slash-free piece and a '/' gives that piece first. */
  lemma {:induction false} SplitAfterPiece(a: string, b: string)
    requires '/' !in a
    ensures Split(a + ['/'] + b) == [a] + Split(b)
    decreases |a|
  {
    var s := a + ['/'] + b;
    if a == [] {
      assert s[1..] == b;
    } else {
      assert s[1..] == a[1..] + ['/'] + b;
      SplitAfterPiece(a[1..], b);
      assert [a[0]] + a[1..] == a;
    }
  }

  /** Joining slash-free pieces with '/' and splitting again gives the pieces back. */
  lemma {:induction false} SplitJoin(pieces: seq<string>)
    requires |pieces| >= 1 && forall k :: 0 <= k < |pieces| ==> '/' !in pieces[k]
    ensures Split(Join(pieces)) == pieces
    decreases |pieces|
  {
    if |pieces| == 1 {
      var r := Split(pieces[0]);
      JoinSplit(pieces[0]);
      assert [r[0]] == r;
    } else {
      SplitAfterPiece(pieces[0], Join(pieces[1..]));
      SplitJoin(pieces[1..]);
      assert [pieces[0]] + pieces[1..] == pieces;
    }
  }

  /** Splitting at the slashes and joining with slashes gives the text back. */
  lemma {:induction false} JoinSplit(s: string)
    ensures Join(Split(s)) == s
    decreases |s|
  {
    if s != [] {
      JoinSplit(s[1..]);
      var rest := Split(s[1..]);
      if s[0] == '/' {
        assert ([[]] + rest)[1..] == rest;
      } else {
        var r := [[s[0]] + rest[0]] + rest[1..];
        assert r[1..] == rest[1..];
        if |rest| > 1 {
          assert rest == [rest[0]] + rest[1..];
        }
      }
    }
  }

  /** The last piece of a split is a suffix of the text with a '/' or the start of the text just before it. */
  lemma {:induction false} LastPieceIsSuffix(s: string)
    ensures var r := Split(s); var seg := r[|r| - 1];
      && |seg| <= |s| && s[|s| - |seg|..] == seg
      && (|seg| == |s| || s[|s| - |seg| - 1] == '/')
    decreases |s|
  {
    if s != [] {
      LastPieceIsSuffix(s[1..]);
      var t := s[1..];
      var rest := Split(t);
      var seg := rest[|rest| - 1];
      assert t[|t| - |seg|..] == s[|s| - |seg|..];
      if |seg| < |t| {
        assert s[|s| - |seg| - 1] == t[|t| - |seg| - 1];
      }
      if s[0] != '/' {
        if |rest| == 1 {
          assert '/' !in t;
          assert seg == t;
          assert s == [s[0]] + t;
        } else {
          assert '/' in t;
        }
      }
    }
  }

  /** `window.location.pathname.split('/').pop() || 'index.html'`. */
  function CurrentPage(pathname: string): (page: string)
    ensures page != [] && '/' !in page
    ensures pathname == [] || pathname[|pathname| - 1] == '/' ==> page == "index.html"
    ensures pathname != [] && pathname[|pathname| - 1] != '/' ==>
      && |page| <= |pathname|
      && pathname[|pathname| - |page|..] == page
      && (|page| == |pathname| || pathname[|pathname| - |page| - 1] == '/')
  {
    var pieces := Split(pathname);
    var seg := pieces[|pieces| - 1];
    LastPieceIsSuffix(pathname);
    if seg == [] then
      "index.html"
    else
      assert seg[|seg| - 1] == pathname[|pathname| - 1];
      seg
  }

  /** A navigation link: its `href` attribute (absent is `null`) and its class list. */
  datatype Link = Link(href: Option<string>, classes: set<string>)

  const Active: string := "active"

  /** The test of the marking loop, `href === currentPage || (currentPage === '' && href === 'index.html')`. */
  predicate Matches(href: Option<string>, currentPage: string)
    ensures currentPage != [] ==> (Matches(href, currentPage) <==> href == Some(currentPage))
  {
    href == Some(currentPage) || (currentPage == [] && href == Some("index.html"))
  }

  /** A link after marking: `active` added when it matches, removed otherwise. */
  function Marked(link: Link, currentPage: string): (r: Link)
    ensures r.href == link.href
    ensures Active in r.classes <==> Matches(link.href, currentPage)
    ensures r.classes - {Active} == link.classes - {Active}
  {
    if Matches(link.href, currentPage) then link.(classes := link.classes + {Active})
    else link.(classes := link.classes - {Active})
  }

  /**
   * For the page derived from a pathname, a link ends up `active` exactly
   * when its `href` is that page; its other classes and its `href` stay.
   */
  lemma MarkedActiveIffCurrent(link: Link, pathname: string)
    ensures var m := Marked(link, CurrentPage(pathname));
      && (Active in m.classes <==> link.href == Some(CurrentPage(pathname)))
      && m.classes - {Active} == link.classes - {Active}
      && m.href == link.href
  {
  }

  /** The `forEach` over the navigation links: each link is marked in place. */
  method MarkLinks(links: array<Link>, currentPage: string)
    modifies links
    ensures forall k :: 0 <= k < links.Length ==> links[k] == Marked(old(links[k]), currentPage)
    ensures forall k :: 0 <= k < links.Length ==>
      (Active in links[k].classes <==> Matches(links[k].href, currentPage))
  {
    for i := 0 to links.Length
      invariant forall k :: 0 <= k < i ==> links[k] == Marked(old(links[k]), currentPage)
      invariant forall k :: i <= k < links.Length ==> links[k] == old(links[k])
    {
      var link := links[i];
      if link.href == Some(currentPage) || (currentPage == [] && link.href == Some("index.html")) {
        links[i] := link.(classes := link.classes + {Active});
      } else {
        links[i] := link.(classes := link.classes - {Active});
      }
    }
  }

  /** The whole `DOMContentLoaded` handler: exactly the links naming the current page are `active`. */
  method HighlightCurrentPage(pathname: string, links: array<Link>)
    modifies links
    ensures forall k :: 0 <= k < links.Length ==>
      && links[k].href == old(links[k].href)
      && (Active in links[k].classes <==> links[k].href == Some(CurrentPage(pathname)))
      && links[k].classes - {Active} == old(links[k].classes) - {Active}
  {
    var currentPage := CurrentPage(pathname);
    MarkLinks(links, currentPage);
    forall k | 0 <= k < links.Length
      ensures links[k].classes - {Active} == old(links[k].classes) - {Active}
    {
      MarkedActiveIffCurrent(old(links[k]), pathname);
    }
  }
}
