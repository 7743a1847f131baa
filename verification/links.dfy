/**
  The two link components of the site. Both decide with the same regular
  expression `/^\/(?!\/)/` whether a destination is a path on this site, and
  render a client-side router link for it, or a plain anchor for anything else.
  In the terms of section 4.2 of RFC 3986, the expression separates an
  absolute-path reference ("/about") from a network-path reference
  ("//host/...") and from everything else (absolute URIs, relative paths,
  the empty reference).
 */
module Links {

  import opened Wrappers
  import opened Regex
  import opened JsObject

  // ---------------------------------------------------------------------
  // Classification

  /** Network-path reference: begins with "//", an authority follows. */
  predicate IsNetworkPathRef(s: string) {
    |s| >= 2 && s[0] == '/' && s[1] == '/'
  }

  /** Absolute-path reference: begins with "/" but is not a network-path reference. */
  predicate IsAbsolutePathRef(s: string) {
    |s| >= 1 && s[0] == '/' && !IsNetworkPathRef(s)
  }

  /** `/^\/(?!\/)/` as written in the flexible link component. */
  const FlexLinkInternalPattern: Pattern := [LineStart, Char('/'), NotFollowedBy('/')]

  /** `/^\/(?!\/)/` as written again in the hover link component. */
  const HoverLinkInternalPattern: Pattern := [LineStart, Char('/'), NotFollowedBy('/')]

  /** The pattern matches exactly the absolute-path references. */
  lemma InternalPatternIsAbsolutePath(s: string)
    ensures Test(FlexLinkInternalPattern, s) <==> IsAbsolutePathRef(s)
  {
    var p := FlexLinkInternalPattern;
    assert p[1..] == [Char('/'), NotFollowedBy('/')];
    assert p[1..][1..] == [NotFollowedBy('/')];
    assert p[1..][1..][1..] == [];
    forall q | 0 < q <= |s|
      ensures !MatchesAt(p, s, q)
    {
    }
    assert MatchesAt(p, s, 0) <==> IsAbsolutePathRef(s);
  }

  /** Both components classify every destination the same way. */
  lemma ComponentsAgree(s: string)
    ensures Test(FlexLinkInternalPattern, s) <==> Test(HoverLinkInternalPattern, s)
  {
  }

  /** The destination is internal, for either component. */
  predicate IsInternal(to: string) {
    Test(FlexLinkInternalPattern, to)
  }

  /** The lone slash is internal: the lookahead succeeds at the end of the input. */
  lemma Classifications()
    ensures IsInternal("/")
    ensures IsInternal("/about") && IsInternal("/contact")
    ensures !IsInternal("")
    ensures !IsInternal("//cdn.example.com/x")
    ensures !IsInternal("https://github.com/madelyneriksen/")
  {
    InternalPatternIsAbsolutePath("/");
    InternalPatternIsAbsolutePath("/about");
    InternalPatternIsAbsolutePath("/contact");
    InternalPatternIsAbsolutePath("");
    InternalPatternIsAbsolutePath("//cdn.example.com/x");
    InternalPatternIsAbsolutePath("https://github.com/madelyneriksen/");
  }

  /** Every reference beginning "//" (scheme-relative) is external. */
  lemma NetworkPathIsExternal(s: string)
    requires IsNetworkPathRef(s)
    ensures !IsInternal(s)
  {
    InternalPatternIsAbsolutePath(s);
  }

  // ---------------------------------------------------------------------
  // Rendering

  /** The element a link component renders: its props and its children. */
  datatype Element<C> =
    | RouterLink(props: Obj, children: C)   // the site generator's client-side `Link`
    | Anchor(props: Obj, children: C)       // a plain `<a>`

  /**
    The flexible link: `to` and `children` are taken out of the props, the
    remaining props `rest` are spread onto the element, and the destination
    is set after them, as `to` on a router link or `href` on an anchor.
   */
  function FlexLink<C>(to: string, rest: Obj, children: C): (e: Element<C>)
    ensures e.RouterLink? <==> IsAbsolutePathRef(to)
    ensures e.RouterLink? ==> Lookup(e.props, "to") == Some(to)
    ensures e.Anchor? ==> Lookup(e.props, "href") == Some(to)
    ensures e.RouterLink? ==> forall k :: k != "to" ==> Lookup(e.props, k) == Lookup(rest, k)
    ensures e.Anchor? ==> forall k :: k != "href" ==> Lookup(e.props, k) == Lookup(rest, k)
    ensures e.children == children
  {
    InternalPatternIsAbsolutePath(to);
    if Test(FlexLinkInternalPattern, to) then RouterLink(Put(rest, "to", to), children)
    else Anchor(Put(rest, "href", to), children)
  }

  /** Class list the hover link puts on both kinds of element. */
  const HoverLinkClasses: string := "dib mh1 sans-serif no-underline mid-gray hover-line"

  /** The hover link: destination plus the fixed class list, nothing else. */
  function HoverLink<C>(to: string, children: C): (e: Element<C>)
    ensures e.RouterLink? <==> IsAbsolutePathRef(to)
    ensures e.RouterLink? ==> Keys(e.props) == ["to", "className"] && Lookup(e.props, "to") == Some(to)
    ensures e.Anchor? ==> Keys(e.props) == ["href", "className"] && Lookup(e.props, "href") == Some(to)
    ensures Lookup(e.props, "className") == Some(HoverLinkClasses)
    ensures e.children == children
  {
    InternalPatternIsAbsolutePath(to);
    if Test(HoverLinkInternalPattern, to) then RouterLink([("to", to), ("className", HoverLinkClasses)], children)
    else Anchor([("href", to), ("className", HoverLinkClasses)], children)
  }

  /** On every destination, the two components choose the same kind of element. */
  lemma SameBranch<C>(to: string, rest: Obj, children: C)
    ensures FlexLink(to, rest, children).RouterLink? <==> HoverLink(to, children).RouterLink?
  {
  }

  // ---------------------------------------------------------------------
  // The configured navigation

  /** The navbar links of the site configuration, as (destination, label). */
  const NavbarLinks: seq<(string, string)> := [
    ("/", "HOME"),
    ("/about", "ABOUT"),
    ("https://github.com/madelyneriksen/", "PROJECTS"),
    ("/contact", "CONTACT")
  ]

  /** HOME, ABOUT and CONTACT become router links; PROJECTS becomes an anchor. */
  lemma NavbarClassification()
    ensures forall i :: 0 <= i < |NavbarLinks| ==> (IsInternal(NavbarLinks[i].0) <==> NavbarLinks[i].1 != "PROJECTS")
  {
    Classifications();
    assert NavbarLinks[0].0 == "/";
    assert NavbarLinks[1].0 == "/about";
    assert NavbarLinks[2].0 == "https://github.com/madelyneriksen/";
    assert NavbarLinks[3].0 == "/contact";
  }

  /** The older navbar's one hover link, to "/about", is a router link. */
  lemma OldNavbarAboutIsRouterLink<C>(children: C)
    ensures HoverLink("/about", children).RouterLink?
  {
    Classifications();
  }
}
