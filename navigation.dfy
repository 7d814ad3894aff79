/** The navigation chrome of Script.js: the mobile menu's open/closed state, the page
    name derived from the URL path, and the `active` marking of navigation links. */
module Navigation {
  import opened JsStrings

  // ---------------------------------------------------------------------------
  // Mobile menu
  // ---------------------------------------------------------------------------

  /** The observable state the menu handlers touch: whether the toggle button and the
      menu carry the `active` class, and the body's `style.overflow`. */
  datatype MenuState = MenuState(toggleActive: bool, menuActive: bool, overflow: string)

  const Closed := MenuState(false, false, "")

  /** A click on the toggle button flips both classes and locks scrolling while the
      menu is open. */
  function AfterToggleClick(s: MenuState): MenuState {
    MenuState(!s.toggleActive, !s.menuActive, if !s.menuActive then "hidden" else "")
  }

  /** A click on any navigation link closes the menu. */
  function AfterLinkClick(s: MenuState): MenuState {
    Closed
  }

  /** The document-level click listener: a click whose target lies inside neither the
      toggle nor the menu closes the menu; any other click leaves it alone. */
  function AfterDocumentClick(s: MenuState, insideToggle: bool, insideMenu: bool): MenuState {
    if !insideToggle && !insideMenu then Closed else s
  }

  /** The toggle and the menu agree, and scrolling is locked exactly while the menu
      is open. */
  predicate Consistent(s: MenuState) {
    s.toggleActive == s.menuActive && s.overflow == (if s.menuActive then "hidden" else "")
  }

  /** Whatever the state before, after a toggle click or a closing click the body's
      overflow is `hidden` exactly when the menu is open. */
  lemma {:induction false} OverflowFollowsMenu(s: MenuState, insideToggle: bool, insideMenu: bool)
    ensures AfterToggleClick(s).overflow == "hidden" <==> AfterToggleClick(s).menuActive
    ensures AfterLinkClick(s).overflow == "hidden" <==> AfterLinkClick(s).menuActive
    ensures !insideToggle && !insideMenu ==>
              AfterDocumentClick(s, insideToggle, insideMenu) == Closed
  {
  }

  /** Every handler keeps a consistent state consistent. */
  lemma {:induction false} HandlersKeepConsistent(s: MenuState, insideToggle: bool, insideMenu: bool)
    requires Consistent(s)
    ensures Consistent(AfterToggleClick(s))
    ensures Consistent(AfterLinkClick(s))
    ensures Consistent(AfterDocumentClick(s, insideToggle, insideMenu))
  {
  }

  /** A toggle click opens a closed menu and closes an open one; two undo each other. */
  lemma {:induction false} ToggleFlips(s: MenuState)
    requires Consistent(s)
    ensures AfterToggleClick(s).menuActive == !s.menuActive
    ensures AfterToggleClick(AfterToggleClick(s)) == s
  {
  }

  /** Closing is idempotent, and a click inside the toggle or the menu changes nothing. */
  lemma {:induction false} ClosingIsIdempotent(s: MenuState, insideToggle: bool, insideMenu: bool)
    ensures AfterLinkClick(AfterLinkClick(s)) == AfterLinkClick(s)
    ensures var t := AfterDocumentClick(s, insideToggle, insideMenu);
            AfterDocumentClick(t, insideToggle, insideMenu) == t
    ensures insideToggle || insideMenu ==> AfterDocumentClick(s, insideToggle, insideMenu) == s
  {
  }

  /** A click bubbles from its target to the document: the document listener, which
      sees a target inside the toggle, keeps what the toggle's own listener did, and a
      link click stays closed whatever the document listener decides. */
  lemma {:induction false} ClicksBubbleToDocument(s: MenuState, insideToggle: bool, insideMenu: bool)
    ensures AfterDocumentClick(AfterToggleClick(s), true, insideMenu) == AfterToggleClick(s)
    ensures AfterDocumentClick(AfterLinkClick(s), insideToggle, insideMenu) == Closed
  {
  }

  /** The toggle button, the menu and the page body, as the three listeners of
      `setupMobileMenu` see them. */
  class MobileMenu {
    var toggleActive: bool
    var menuActive: bool
    var overflow: string

    function State(): MenuState
      reads this
    {
      MenuState(toggleActive, menuActive, overflow)
    }

    /** The markup starts with the menu closed and no overflow style on the body. */
    constructor ()
      ensures State() == Closed && Consistent(State())
    {
      toggleActive, menuActive, overflow := false, false, "";
    }

    method ToggleClick()
      modifies this
      ensures State() == AfterToggleClick(old(State()))
      ensures overflow == "hidden" <==> menuActive
    {
      toggleActive := !toggleActive;
      menuActive := !menuActive;
      overflow := if menuActive then "hidden" else "";
    }

    method LinkClick()
      modifies this
      ensures State() == AfterLinkClick(old(State())) && State() == Closed
    {
      toggleActive := false;
      menuActive := false;
      overflow := "";
    }

    method DocumentClick(insideToggle: bool, insideMenu: bool)
      modifies this
      ensures State() == AfterDocumentClick(old(State()), insideToggle, insideMenu)
    {
      if !insideToggle && !insideMenu {
        toggleActive := false;
        menuActive := false;
        overflow := "";
      }
    }
  }

  // ---------------------------------------------------------------------------
  // Page name and active links
  // ---------------------------------------------------------------------------

  /** `location.pathname.split('/').pop().replace('.html', '') || 'index'`: the last
      path segment with its first `.html` removed, or `index` when nothing is left. */
  function PageName(path: string): (name: string)
    ensures name != []
  {
    var file := Last(Split(path, '/'));
    var stem := RemoveFirst(file, ".html");
    if stem == [] then "index" else stem
  }

  /** A page name is a single path segment: it never contains `/`. */
  lemma {:induction false} PageNameIsOneSegment(path: string)
    ensures '/' !in PageName(path)
  {
    LastPieceIsSuffix(path, '/');
    RemoveFirstAddsNothing(Last(Split(path, '/')), ".html");
  }

  /** A page file `dir/name.html` has page name `name`. */
  lemma {:induction false} PageNameOfHtmlFile(dir: string, name: string)
    requires name != [] && '/' !in name && '.' !in name
    ensures PageName(dir + "/" + name + ".html") == name
  {
    var file := name + ".html";
    assert '/' !in file by {
      forall i | 0 <= i < |file| ensures file[i] != '/' {
        if i < |name| { assert file[i] == name[i]; }
      }
    }
    LastPieceAfterSeparator(dir, file, '/');
    assert dir + "/" + name + ".html" == dir + ['/'] + file;
    FirstHtmlAfterDotFreeName(name, "");
    assert file + "" == file && name + "" == name;
  }

  /** Only the first `.html` goes: `dir/name.html.html` names the page `name.html`
      (and in general `dir/name.html` followed by more text keeps that text). */
  lemma {:induction false} PageNameOfDoubledHtml(dir: string, name: string, rest: string)
    requires '/' !in name && '.' !in name && '/' !in rest
    ensures PageName(dir + "/" + name + ".html" + rest) ==
              if name + rest == [] then "index" else name + rest
  {
    var file := name + ".html" + rest;
    assert '/' !in file by {
      forall i | 0 <= i < |file| ensures file[i] != '/' {
        if i < |name| { assert file[i] == name[i]; }
        else if i >= |name| + 5 { assert file[i] == rest[i - |name| - 5]; }
      }
    }
    LastPieceAfterSeparator(dir, file, '/');
    assert dir + "/" + name + ".html" + rest == dir + ['/'] + file;
    FirstHtmlAfterDotFreeName(name, rest);
  }

  /** In `name.html…` with no dot in `name`, the first `.html` is the one right after
      `name`, whatever follows it. */
  lemma {:induction false} FirstHtmlAfterDotFreeName(name: string, rest: string)
    requires '.' !in name
    ensures RemoveFirst(name + ".html" + rest, ".html") == name + rest
  {
    var s := name + ".html" + rest;
    var n := |name|;
    assert OccursAt(s, ".html", n) by { assert s[n..n + 5] == ".html"; }
    forall j | 0 <= j < n ensures !OccursAt(s, ".html", j) {
      assert s[j] == name[j];
      if j + 5 <= |s| { assert s[j..j + 5][0] == s[j]; }
    }
    RemoveFirstAt(s, ".html", n);
    assert s[..n] == name;
    assert s[n + 5..] == rest;
  }

  /** A path that ends in `/` names the `index` page. */
  lemma {:induction false} PageNameOfDirectory(dir: string)
    ensures PageName(dir + "/") == "index"
  {
    LastPieceAfterSeparator(dir, [], '/');
    assert dir + "/" == dir + ['/'] + [];
  }

  /** `href.replace('.html', '').replace('./', '')`. */
  function LinkPage(href: string): (linkPage: string)
    ensures |linkPage| <= |href|
  {
    RemoveFirst(RemoveFirst(href, ".html"), "./")
  }

  /** Whether `setupActiveLinks` marks a link with this `href` attribute (`None` when
      the attribute is absent) on the page called `currentPage`. An empty `href` is
      falsy, so such a link is skipped like one without the attribute. */
  predicate IsActiveLink(href: Option<string>, currentPage: string) {
    && href.Some? && href.value != []
    && var linkPage := LinkPage(href.value);
       linkPage == currentPage || (currentPage == "index" && linkPage == [])
  }

  /** Links with no `href`, or an empty one, are never marked. */
  lemma {:induction false} MissingHrefNeverActive(currentPage: string)
    ensures !IsActiveLink(None, currentPage) && !IsActiveLink(Some(""), currentPage)
  {
  }

  /** A link `./name.html` is marked exactly on the page `name`. */
  lemma {:induction false} RelativeHtmlLinkActive(name: string, currentPage: string)
    requires name != [] && '.' !in name && '/' !in name
    ensures IsActiveLink(Some("./" + name + ".html"), currentPage) <==> currentPage == name
  {
    DotSlashStem(name);
  }

  /** In `./name.html` the first `.html` is at the end, and what is left loses its
      leading `./`. */
  lemma {:induction false} DotSlashStem(name: string)
    requires name != [] && '.' !in name && '/' !in name
    ensures LinkPage("./" + name + ".html") == name
  {
    var s := "./" + name + ".html";
    var n := |name| + 2;
    assert OccursAt(s, ".html", n) by { assert s[n..n + 5] == ".html"; }
    assert !OccursAt(s, ".html", 0) by { assert s[1] == '/'; assert s[0..5][1] == '/'; }
    assert !OccursAt(s, ".html", 1) by { assert s[1..6][0] == '/'; }
    forall j | 2 <= j < n ensures !OccursAt(s, ".html", j) {
      assert s[j] == name[j - 2];
      if j + 5 <= |s| { assert s[j..j + 5][0] == s[j]; }
    }
    RemoveFirstAt(s, ".html", n);
    var t := "./" + name;
    assert RemoveFirst(s, ".html") == t by { assert s[..n] + s[n + 5..] == t; }
    assert OccursAt(t, "./", 0) by { assert t[0..2] == "./"; }
    RemoveFirstAt(t, "./", 0);
    assert t[..0] + t[2..] == name;
  }

  /** The home link `./` is marked exactly on the `index` page. */
  lemma {:induction false} HomeLinkActiveOnIndex(path: string)
    ensures IsActiveLink(Some("./"), PageName(path)) <==> PageName(path) == "index"
  {
    var t := "./";
    assert !OccursAt(t, ".html", 0);
    RemoveFirstWithoutOccurrence(t, ".html");
    assert OccursAt(t, "./", 0);
    RemoveFirstAt(t, "./", 0);
    assert LinkPage(t) == [];
  }

  /** The `active` classes after `setupActiveLinks` on the page `currentPage`: a link
      keeps the class it had and gains it when it matches. */
  function MarkedLinks(before: seq<bool>, hrefs: seq<Option<string>>, currentPage: string): (after: seq<bool>)
    requires |before| == |hrefs|
    ensures |after| == |hrefs|
    ensures forall i :: 0 <= i < |after| ==>
              (after[i] <==> before[i] || IsActiveLink(hrefs[i], currentPage))
  {
    seq(|hrefs|, i requires 0 <= i < |hrefs| => before[i] || IsActiveLink(hrefs[i], currentPage))
  }

  /** Marking only adds classes, and marking a second time on the same page changes
      nothing. */
  lemma {:induction false} MarkingIsMonotoneAndIdempotent(before: seq<bool>, hrefs: seq<Option<string>>, currentPage: string)
    requires |before| == |hrefs|
    ensures var after := MarkedLinks(before, hrefs, currentPage);
            && (forall i :: 0 <= i < |before| && before[i] ==> after[i])
            && MarkedLinks(after, hrefs, currentPage) == after
  {
    var after := MarkedLinks(before, hrefs, currentPage);
    var again := MarkedLinks(after, hrefs, currentPage);
    assert forall i :: 0 <= i < |again| ==> again[i] == after[i];
  }

  /** `setupActiveLinks`: derives the current page name from the URL path, then
      marks the navigation links that match it. */
  method SetupActiveLinks(path: string, hrefs: seq<Option<string>>, active: array<bool>)
    requires active.Length == |hrefs|
    modifies active
    ensures active[..] == MarkedLinks(old(active[..]), hrefs, PageName(path))
  {
    var currentPage := PageName(path);
    MarkActiveLinks(currentPage, hrefs, active);
  }

  /** The `forEach` over the `.nav-link` elements: walks the links in document order
      and adds the `active` class to each one that matches `currentPage`; `active[i]`
      is whether link `i` carries the class. Classes are only ever added. */
  method MarkActiveLinks(currentPage: string, hrefs: seq<Option<string>>, active: array<bool>)
    requires active.Length == |hrefs|
    modifies active
    ensures active[..] == MarkedLinks(old(active[..]), hrefs, currentPage)
  {
    ghost var after := MarkedLinks(active[..], hrefs, currentPage);
    var i := 0;
    while i < active.Length
      invariant 0 <= i <= active.Length
      invariant active[..i] == after[..i]
      invariant active[i..] == old(active[..])[i..]
    {
      if IsActiveLink(hrefs[i], currentPage) {
        active[i] := true;
      }
      assert active[..i + 1] == after[..i + 1];
      i := i + 1;
    }
    assert active[..] == active[..i];
  }
}
