/** The `visibilitychange` listener of Script.js: a hidden tab gets a "come back" title;
    a visible one gets its page's title back from a fixed table keyed by page name,
    with a generic title for pages not in the table. */
module PageVisibility {
  import opened Navigation

  const HiddenTitle := "\U{1F4A4} Come back to BLACKFLAME NOVA!"
  const DefaultTitle := "BLACKFLAME NOVA"

  /** The `pageTitles` table. */
  const PageTitles: map<string, string> := map[
    "index" := "Top\U{2776}\U{1D401}\U{1D40B}\U{1D400}\U{1D402}\U{1D40A}\U{1D405}\U{1D40B}\U{1D400}\U{1D40C}\U{1D404} \U{1D40D}\U{1D40E}\U{1D415}\U{1D400} - Discord Server",
    "minecraft" := "Minecraft Server - BLACKFLAME NOVA",
    "voice-chat" := "Voice Chat Events - BLACKFLAME NOVA",
    "social-media" := "Social Media & Team - BLACKFLAME NOVA"
  ]

  /** The corrected own-entry lookup: a page's own entry in the table, else the default.
      `RestoredTitleAsWritten` is the lookup as written. */
  function RestoredTitle(page: string): (title: string)
    ensures title != []
    ensures page in PageTitles ==> title == PageTitles[page]
    ensures page !in PageTitles ==> title == DefaultTitle
  {
    if page in PageTitles then PageTitles[page] else DefaultTitle
  }

  /** The title the listener is evidently meant to set, for the tab's `hidden` flag and
      the URL path: the corrected own-entry lookup `RestoredTitle`. What the listener
      as written sets is `TitleAfterVisibilityChangeAsWritten` below; the two differ
      only on page names of `Object.prototype` members. */
  function TitleAfterVisibilityChange(hidden: bool, path: string): (title: string)
    ensures title != []
    ensures hidden ==> title == HiddenTitle
  {
    if hidden then HiddenTitle else RestoredTitle(PageName(path))
  }

  /** A visible page `dir/name.html` gets the table's title for `name` when there is
      one and the generic title otherwise. */
  lemma {:induction false} VisibleHtmlPageTitle(dir: string, name: string)
    requires name != [] && '/' !in name && '.' !in name
    ensures TitleAfterVisibilityChange(false, dir + "/" + name + ".html") ==
              if name in PageTitles then PageTitles[name] else DefaultTitle
  {
    PageNameOfHtmlFile(dir, name);
  }

  /** A visible directory path (the site root) gets the home page's title. */
  lemma {:induction false} VisibleDirectoryTitle(dir: string)
    ensures TitleAfterVisibilityChange(false, dir + "/") == PageTitles["index"]
  {
    PageNameOfDirectory(dir);
  }

  lemma {:induction false} UnknownPagesGetDefaultTitle(path: string)
    requires PageName(path) !in PageTitles
    ensures TitleAfterVisibilityChange(false, path) == DefaultTitle
  {
  }

  // ---------------------------------------------------------------------------
  // The lookup as written: `pageTitles[currentPage] || 'BLACKFLAME NOVA'`
  // ---------------------------------------------------------------------------

  /** Properties every plain JavaScript object inherits from `Object.prototype`
      (ECMAScript 2024, section 20.1.3).
      A bracket lookup on an object literal finds them too. */
  const ObjectPrototypeMembers: set<string> := {
    "constructor", "hasOwnProperty", "isPrototypeOf", "propertyIsEnumerable",
    "toLocaleString", "toString", "valueOf", "__defineGetter__", "__defineSetter__",
    "__lookupGetter__", "__lookupSetter__", "__proto__"
  }

  /** What `document.title` receives: a string, or the string conversion of an
      inherited `Object.prototype` member (a function's source text, or
      `[object Object]` for `__proto__`). */
  datatype TitleValue = Text(title: string) | InheritedMember(name: string)

  /** `pageTitles[page] || 'BLACKFLAME NOVA'` with JavaScript's property lookup: own
      entries first, then the inherited members, which are all truthy. */
  function RestoredTitleAsWritten(page: string): (v: TitleValue)
    ensures v.InheritedMember? <==> page !in PageTitles && page in ObjectPrototypeMembers
  {
    if page in PageTitles then
      (if PageTitles[page] != [] then Text(PageTitles[page]) else Text(DefaultTitle))
    else if page in ObjectPrototypeMembers then InheritedMember(page)
    else Text(DefaultTitle)
  }

  /** What the `visibilitychange` listener as written sets: the "come back" title for a
      hidden tab, otherwise `pageTitles[currentPage] || 'BLACKFLAME NOVA'`. It sets an
      inherited member exactly for a visible page named after an `Object.prototype`
      member, and otherwise agrees with the corrected listener. */
  function TitleAfterVisibilityChangeAsWritten(hidden: bool, path: string): (v: TitleValue)
    ensures hidden ==> v == Text(HiddenTitle)
    ensures v.InheritedMember? <==>
              !hidden && PageName(path) !in PageTitles && PageName(path) in ObjectPrototypeMembers
    ensures PageName(path) !in ObjectPrototypeMembers ==>
              v == Text(TitleAfterVisibilityChange(hidden, path))
  {
    if hidden then Text(HiddenTitle) else RestoredTitleAsWritten(PageName(path))
  }

  /** Away from the inherited names, the lookup as written and the own-entry lookup
      agree. */
  lemma {:induction false} AsWrittenAgreesOffPrototypeNames(page: string)
    requires page !in ObjectPrototypeMembers
    ensures RestoredTitleAsWritten(page) == Text(RestoredTitle(page))
  {
  }

  /** No page of the table is named after an `Object.prototype` member. */
  lemma {:induction false} TableAvoidsPrototypeNames()
    ensures PageTitles.Keys !! ObjectPrototypeMembers
  {
  }

  /** A visible page named after an `Object.prototype` member, such as
      `dir/constructor.html`, does not get the generic title: the listener as written
      finds the inherited member (for `constructor`, the `Object` function) and makes it
      the title, where the corrected listener sets `BLACKFLAME NOVA`. */
  lemma {:induction false} PrototypeNamedPageGetsInheritedTitle(dir: string, name: string)
    requires name in ObjectPrototypeMembers && name != [] && '/' !in name && '.' !in name
    ensures PageName(dir + "/" + name + ".html") == name
    ensures TitleAfterVisibilityChangeAsWritten(false, dir + "/" + name + ".html") == InheritedMember(name)
    ensures TitleAfterVisibilityChange(false, dir + "/" + name + ".html") == DefaultTitle
  {
    PageNameOfHtmlFile(dir, name);
    TableAvoidsPrototypeNames();
    assert name !in PageTitles;
  }
}
