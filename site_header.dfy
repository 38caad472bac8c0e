/**
 * The route rules of the site header (src/components/layout/SiteHeader.tsx):
 * the header is not rendered on the NASA SLI pages (a prefix match on the
 * pathname), and each nav link is highlighted when the pathname equals its href.
 */
module SiteHeader {
  import opened Wrappers

  datatype NavLink = NavLink(href: string, title: string)

  /** A rendered nav link: the link and whether it carries the highlight class. */
  datatype NavItem = NavItem(link: NavLink, highlighted: bool)

  const NAV_LINKS: seq<NavLink> := [
    NavLink("/", "Home"),
    NavLink("/projects", "Projects"),
    NavLink("/about", "About"),
    NavLink("/contact", "Contact")
  ]

  const HIDDEN_PREFIX: string := "/projects/nasa-sli"

  /** `pathname?.startsWith('/projects/nasa-sli')`: a missing pathname is not a match. */
  predicate IsHidden(pathname: Option<string>) {
    pathname.Some? && HIDDEN_PREFIX <= pathname.value
  }

  /**
   * The header's nav: `None` when the header renders nothing, otherwise one item
   * per entry of `NAV_LINKS`, in order, highlighted exactly when the pathname is
   * that entry's href.
   */
  function Render(pathname: Option<string>): (r: Option<seq<NavItem>>)
    ensures r.None? <==> IsHidden(pathname)
    ensures r.Some? ==> |r.value| == |NAV_LINKS|
    ensures r.Some? ==> forall i :: 0 <= i < |r.value| ==>
      r.value[i].link == NAV_LINKS[i] && (r.value[i].highlighted <==> pathname == Some(NAV_LINKS[i].href))
  {
    if IsHidden(pathname) then None
    else Some(seq(|NAV_LINKS|, i requires 0 <= i < |NAV_LINKS| =>
      NavItem(NAV_LINKS[i], pathname == Some(NAV_LINKS[i].href))))
  }

  /** Every path under the NASA SLI prefix hides the header, whatever follows the prefix. */
  lemma SubpathsHidden(path: string, suffix: string)
    requires IsHidden(Some(path))
    ensures IsHidden(Some(path + suffix))
  {
    assert (path + suffix)[..|HIDDEN_PREFIX|] == path[..|HIDDEN_PREFIX|];
  }

  /** The header is hidden exactly on the NASA SLI prefix; no pathname or another path shows it. */
  lemma HiddenExactlyOnPrefix(pathname: Option<string>)
    ensures Render(pathname).None? <==> pathname.Some? && |pathname.value| >= 18 && pathname.value[..18] == "/projects/nasa-sli"
  {
  }

  /** The hrefs of `NAV_LINKS` are pairwise distinct. */
  lemma HrefsDistinct()
    ensures forall i, j :: 0 <= i < j < |NAV_LINKS| ==> NAV_LINKS[i].href != NAV_LINKS[j].href
  {
  }

  /** At most one nav link is highlighted, whatever the pathname. */
  lemma AtMostOneHighlighted(pathname: Option<string>, i: int, j: int)
    requires Render(pathname).Some?
    requires 0 <= i < |NAV_LINKS| && 0 <= j < |NAV_LINKS|
    requires Render(pathname).value[i].highlighted && Render(pathname).value[j].highlighted
    ensures i == j
  {
    HrefsDistinct();
  }

  /** A link is highlighted somewhere iff the pathname is one of the hrefs, so `/projects/arc` highlights none. */
  lemma HighlightIffNavPath(pathname: string)
    requires !IsHidden(Some(pathname))
    ensures (exists i :: 0 <= i < |NAV_LINKS| && Render(Some(pathname)).value[i].highlighted)
        <==> (exists i :: 0 <= i < |NAV_LINKS| && NAV_LINKS[i].href == pathname)
  {
    var items := Render(Some(pathname)).value;
    if exists i :: 0 <= i < |NAV_LINKS| && items[i].highlighted {
      var i :| 0 <= i < |NAV_LINKS| && items[i].highlighted;
      assert NAV_LINKS[i].href == pathname;
    }
    if exists i :: 0 <= i < |NAV_LINKS| && NAV_LINKS[i].href == pathname {
      var i :| 0 <= i < |NAV_LINKS| && NAV_LINKS[i].href == pathname;
      assert items[i].highlighted;
    }
  }

  lemma ProjectPageHighlightsNothing()
    ensures Render(Some("/projects/arc")).Some?
    ensures forall i :: 0 <= i < |NAV_LINKS| ==> !Render(Some("/projects/arc")).value[i].highlighted
  {
    var p := "/projects/arc";
    assert |p| < |HIDDEN_PREFIX|;
  }
}
