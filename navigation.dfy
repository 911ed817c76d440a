/**
 * Which page the browser is on, and the navigation links that get underlined for it
 * (getCurrentPageName and setActiveMenuItem).
 *
 * `window.location.pathname` is a parameter. A path is cut at every '/', the last piece is
 * the page's file name (an empty one stands for `index.html`), and the file name is looked
 * up in a table of the four pages; anything the table does not hold is the home page.
 */
module Navigation {
  import opened Options

  const SEPARATOR := '/'

  /** The names the lookup table maps file names to. */
  const PAGE_NAMES: set<string> := {"home", "about", "portfolio", "contact"}

  // ---------------------------------------------------------------------------
  // String.prototype.split with a one-character separator, and its inverse
  // ---------------------------------------------------------------------------

  /** The position of the last `sep` in `s`, or -1 when there is none. */
  function LastSeparator(s: string, sep: char): (k: int)
    ensures -1 <= k < |s|
    ensures k >= 0 ==> s[k] == sep
    ensures forall j :: k < j < |s| ==> s[j] != sep
  {
    if s == [] then -1
    else if s[|s| - 1] == sep then |s| - 1
    else LastSeparator(s[..|s| - 1], sep)
  }

  /** The last `sep` is the one after which no other follows. */
  lemma LastSeparatorAt(s: string, sep: char, k: nat)
    requires k < |s| && s[k] == sep
    requires forall j :: k < j < |s| ==> s[j] != sep
    ensures LastSeparator(s, sep) == k
  {
  }

  /** `s.split(sep)`: the pieces between separators, in order; there is always at least one. */
  function Split(s: string, sep: char): (parts: seq<string>)
    ensures |parts| >= 1
    ensures forall i :: 0 <= i < |parts| ==> sep !in parts[i]
    decreases |s|
  {
    var k := LastSeparator(s, sep);
    if k < 0 then [s] else Split(s[..k], sep) + [s[k + 1..]]
  }

  /** `parts.join(sep)`. */
  function Join(parts: seq<string>, sep: char): (s: string)
    requires |parts| >= 1
    ensures |s| >= |parts| - 1
  {
    if |parts| == 1 then parts[0]
    else Join(parts[..|parts| - 1], sep) + [sep] + parts[|parts| - 1]
  }

  /** Splitting loses nothing: joining the pieces back gives the string that was split. */
  lemma {:induction false} JoinSplit(s: string, sep: char)
    ensures Join(Split(s, sep), sep) == s
    decreases |s|
  {
    var k := LastSeparator(s, sep);
    if k >= 0 {
      var earlier := Split(s[..k], sep);
      JoinSplit(s[..k], sep);
      assert (earlier + [s[k + 1..]])[..|earlier|] == earlier;
      assert s == s[..k] + [sep] + s[k + 1..];
    }
  }

  /** A string with no separator splits into itself alone. */
  lemma SplitNoSeparator(s: string, sep: char)
    requires sep !in s
    ensures Split(s, sep) == [s]
  {
  }

  /** Appending a separator and then a separator-free piece appends exactly that piece to the split. */
  lemma SplitAppendPiece(prefix: string, sep: char, piece: string)
    requires sep !in piece
    ensures Split(prefix + [sep] + piece, sep) == Split(prefix, sep) + [piece]
  {
    var s := prefix + [sep] + piece;
    assert s[|prefix| + 1..] == piece;
    forall j | |prefix| < j < |s|
      ensures s[j] != sep
    {
      assert s[j] == piece[j - |prefix| - 1];
    }
    LastSeparatorAt(s, sep, |prefix|);
    assert s[..|prefix|] == prefix;
  }

  /** Joining pieces that hold no separator and splitting again gives the same pieces. */
  lemma {:induction false} SplitJoin(parts: seq<string>, sep: char)
    requires |parts| >= 1
    requires forall i :: 0 <= i < |parts| ==> sep !in parts[i]
    ensures Split(Join(parts, sep), sep) == parts
    decreases |parts|
  {
    if |parts| == 1 {
      SplitNoSeparator(parts[0], sep);
    } else {
      var init := parts[..|parts| - 1];
      SplitJoin(init, sep);
      SplitAppendPiece(Join(init, sep), sep, parts[|parts| - 1]);
      assert init + [parts[|parts| - 1]] == parts;
    }
  }

  // ---------------------------------------------------------------------------
  // getCurrentPageName
  // ---------------------------------------------------------------------------

  /** `path.split('/').pop()`: everything after the last '/', or the whole path when it has none. */
  function LastSegment(path: string): (segment: string)
    ensures SEPARATOR !in segment
    ensures segment == path[LastSeparator(path, SEPARATOR) + 1..]
  {
    var parts := Split(path, SEPARATOR);
    parts[|parts| - 1]
  }

  /** The last segment of a path ending in "/" followed by a separator-free piece is that piece. */
  lemma LastSegmentOfAppended(prefix: string, piece: string)
    requires SEPARATOR !in piece
    ensures LastSegment(prefix + [SEPARATOR] + piece) == piece
  {
    SplitAppendPiece(prefix, SEPARATOR, piece);
  }

  /** The file name the page is looked up by: the last segment, or `index.html` when that is empty. */
  function PageFile(path: string): (file: string)
    ensures file != ""
    ensures file == LastSegment(path) || (LastSegment(path) == "" && file == "index.html")
  {
    var segment := LastSegment(path);
    if segment == "" then "index.html" else segment
  }

  /** The own entries of `pageMap`. */
  function PageMap(file: string): (name: Option<string>)
    ensures name.Some? ==> name.value in PAGE_NAMES
  {
    match file
    case "index.html" => Some("home")
    case "" => Some("home")
    case "about.html" => Some("about")
    case "portfolio.html" => Some("portfolio")
    case "contact.html" => Some("contact")
    case _ => None
  }

  /**
   * `getCurrentPageName()` as its authors meant it: the page the table gives for the file
   * name, and `home` for every file name it does not list.
   */
  function CurrentPageName(path: string): (name: string)
    ensures name in PAGE_NAMES
  {
    match PageMap(PageFile(path))
    case Some(page) => page
    case None => "home"
  }

  /** Only the text after the last '/' matters: any directory part can be put in front of it. */
  lemma PageNameOfLastSegment(prefix: string, file: string)
    requires SEPARATOR !in file
    ensures CurrentPageName(prefix + [SEPARATOR] + file) == CurrentPageName(file)
  {
    assert PageFile(prefix + [SEPARATOR] + file) == PageFile(file) by {
      LastSegmentOfAppended(prefix, file);
      SplitNoSeparator(file, SEPARATOR);
    }
  }

  /** A path that ends in '/' (the site root among them) is the home page. */
  lemma TrailingSlashIsHome(prefix: string)
    ensures CurrentPageName(prefix + [SEPARATOR]) == "home"
  {
    LastSegmentOfAppended(prefix, "");
    assert prefix + [SEPARATOR] + "" == prefix + [SEPARATOR];
  }

  /** A file name the table lists gives its page, whatever directory it sits in. */
  lemma MappedPage(prefix: string, file: string)
    requires SEPARATOR !in file && PageMap(file).Some?
    ensures CurrentPageName(prefix + [SEPARATOR] + file) == PageMap(file).value
  {
    LastSegmentOfAppended(prefix, file);
  }

  /** A file name the table does not list gives `home`, whatever directory it sits in. */
  lemma UnmappedIsHome(prefix: string, file: string)
    requires SEPARATOR !in file && PageMap(file).None?
    ensures CurrentPageName(prefix + [SEPARATOR] + file) == "home"
  {
    LastSegmentOfAppended(prefix, file);
  }

  // ---------------------------------------------------------------------------
  // The lookup as written: `pageMap[page] || 'home'` on a plain object literal
  // ---------------------------------------------------------------------------

  /**
   * What a property read on an object literal can give: a string it holds, or a member it
   * inherits from Object.prototype (a function, or the prototype object for `__proto__`).
   * Both are truthy, so `|| 'home'` keeps them.
   */
  datatype JsValue = Str(s: string) | Inherited(name: string)

  /** The property names every object literal inherits from Object.prototype. */
  const PROTOTYPE_MEMBERS: set<string> := {
    "constructor", "hasOwnProperty", "isPrototypeOf", "propertyIsEnumerable", "toLocaleString",
    "toString", "valueOf", "__proto__", "__defineGetter__", "__defineSetter__",
    "__lookupGetter__", "__lookupSetter__"
  }

  /** `pageMap[page]` followed by `|| 'home'`, with the prototype chain of the object literal. */
  function PageNameAsWritten(path: string): (v: JsValue)
    ensures v.Str? ==> v.s in PAGE_NAMES
    ensures v.Inherited? ==> v.name == PageFile(path) && v.name in PROTOTYPE_MEMBERS
  {
    var file := PageFile(path);
    match PageMap(file)
    case Some(page) => Str(page)
    case None => if file in PROTOTYPE_MEMBERS then Inherited(file) else Str("home")
  }

  /** For every file name that is not an inherited member, the code as written gives the intended page. */
  lemma AsWrittenAgrees(path: string)
    requires PageFile(path) !in PROTOTYPE_MEMBERS
    ensures PageNameAsWritten(path) == Str(CurrentPageName(path))
  {
  }

  /** `/constructor` is not a page the table knows, yet the lookup answers with Object's constructor, not `home`. */
  lemma ConstructorPathAsWritten()
    ensures PageNameAsWritten("/constructor") == Inherited("constructor")
    ensures CurrentPageName("/constructor") == "home"
  {
    var path, piece := "/constructor", "constructor";
    assert |path| == |piece| + 1 && path[0] == SEPARATOR;
    assert path[1..] == piece;
    assert path == "" + [SEPARATOR] + piece;
    LastSegmentOfAppended("", piece);
  }

  /**
   * How a looked-up value is written into a template literal: a string as itself, an
   * inherited function as its source text, the prototype object as "[object Object]".
   */
  function StringForm(v: JsValue): (s: string)
    ensures v.Str? ==> s == v.s
    ensures v.Inherited? ==> s !in PAGE_NAMES
  {
    match v
    case Str(text) => text
    case Inherited(name) =>
      if name == "__proto__" then "[object Object]"
      else if name == "constructor" then "function Object() { [native code] }"
      else "function " + name + "() { [native code] }"
  }

  // ---------------------------------------------------------------------------
  // setActiveMenuItem
  // ---------------------------------------------------------------------------

  /**
   * An element of the page as the menu code sees it: whether it is a link inside
   * `.nav-desktop` or `.nav-mobile`, its `data-page` attribute and its `active` class.
   */
  datatype PageElement = PageElement(inNavMenu: bool, dataPage: Option<string>, active: bool)

  /** The element's `data-page` is one of the four pages. */
  predicate NamesPage(e: PageElement)
  {
    e.dataPage.Some? && e.dataPage.value in PAGE_NAMES
  }

  /** The first pass on one element: a navigation link loses `active`. */
  function Cleared(e: PageElement): (r: PageElement)
    ensures r.inNavMenu == e.inNavMenu && r.dataPage == e.dataPage
    ensures r.active <==> e.active && !e.inNavMenu
  {
    if e.inNavMenu then e.(active := false) else e
  }

  /** The second pass on one element: an element whose `data-page` is `page` gains `active`. */
  function Marked(e: PageElement, page: string): (r: PageElement)
    ensures r.inNavMenu == e.inNavMenu && r.dataPage == e.dataPage
    ensures r.active <==> e.active || e.dataPage == Some(page)
  {
    if e.dataPage == Some(page) then e.(active := true) else e
  }

  /** `setActiveMenuItem()` for the page at `path`. */
  method SetActiveMenuItem(elements: array<PageElement>, path: string)
    modifies elements
    ensures forall i :: 0 <= i < elements.Length ==> elements[i] == Marked(Cleared(old(elements[i])), CurrentPageName(path))
    ensures forall i :: 0 <= i < elements.Length && elements[i].inNavMenu ==>
      (elements[i].active <==> elements[i].dataPage == Some(CurrentPageName(path)))
    ensures forall i :: 0 <= i < elements.Length && !elements[i].inNavMenu ==>
      (elements[i].active <==> elements[i].dataPage == Some(CurrentPageName(path)) || old(elements[i].active))
  {
    var currentPage := CurrentPageName(path);
    HighlightPage(elements, currentPage);
  }

  /**
   * Removes `active` from every navigation link, then adds it to every element whose
   * `data-page` is `page`. Afterwards a navigation link is active exactly when it points at
   * `page`; an element outside the menus keeps its class unless it carries `page`.
   */
  method HighlightPage(elements: array<PageElement>, page: string)
    modifies elements
    ensures forall i :: 0 <= i < elements.Length ==> elements[i] == Marked(Cleared(old(elements[i])), page)
    ensures forall i :: 0 <= i < elements.Length && elements[i].inNavMenu ==>
      (elements[i].active <==> elements[i].dataPage == Some(page))
    ensures forall i :: 0 <= i < elements.Length && !elements[i].inNavMenu ==>
      (elements[i].active <==> elements[i].dataPage == Some(page) || old(elements[i].active))
  {
    ghost var before := elements[..];
    var k := 0;
    while k < elements.Length
      invariant k <= elements.Length
      invariant forall i :: 0 <= i < k ==> elements[i] == Cleared(before[i])
      invariant forall i :: k <= i < elements.Length ==> elements[i] == before[i]
    {
      if elements[k].inNavMenu {
        elements[k] := elements[k].(active := false);
      }
      k := k + 1;
    }
    k := 0;
    while k < elements.Length
      invariant k <= elements.Length
      invariant forall i :: 0 <= i < k ==> elements[i] == Marked(Cleared(before[i]), page)
      invariant forall i :: k <= i < elements.Length ==> elements[i] == Cleared(before[i])
    {
      if elements[k].dataPage == Some(page) {
        elements[k] := elements[k].(active := true);
      }
      k := k + 1;
    }
  }

  /**
   * `setActiveMenuItem()` as written: the selector is built from the string form of whatever
   * the lookup gave. When that is an inherited member, no link whose `data-page` is one of
   * the four pages is underlined.
   */
  method SetActiveMenuItemAsWritten(elements: array<PageElement>, path: string)
    modifies elements
    ensures forall i :: 0 <= i < elements.Length ==>
      elements[i] == Marked(Cleared(old(elements[i])), StringForm(PageNameAsWritten(path)))
    ensures PageNameAsWritten(path).Inherited? ==>
      forall i :: 0 <= i < elements.Length && elements[i].inNavMenu && NamesPage(elements[i]) ==> !elements[i].active
  {
    var currentPage := StringForm(PageNameAsWritten(path));
    HighlightPage(elements, currentPage);
  }

  /**
   * On `/constructor` a menu link to one of the four pages ends up underlined by the code as
   * written never, and by the intended lookup exactly when it is the home link.
   */
  lemma ConstructorMenuAsWritten(e: PageElement)
    requires e.inNavMenu && NamesPage(e)
    ensures !Marked(Cleared(e), StringForm(PageNameAsWritten("/constructor"))).active
    ensures Marked(Cleared(e), CurrentPageName("/constructor")).active <==> e.dataPage == Some("home")
  {
    ConstructorPathAsWritten();
  }
}
