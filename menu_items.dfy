/**
 * The row loop of `getMenuItems`: every site menu row becomes a menu item
 * with a `loc` of the form `index.php?Itemid=<id>[&lang=<language>]` and the
 * list of reasons that keep it out of the sitemap. The query that loads the
 * rows is not modelled: the rows are an input, already in tree order.
 */
module MenuItems {
  import opened Wrappers
  import opened PhpStrings
  import opened PhpArrays
  import opened Records
  import opened UrlFilters

  /**
   * One row of the menu query joined with its component extension.
   * `robots` is the item's robots parameter, "" when unset; `componentExists`
   * and `componentEnabled` are the truth values of the joined extension's id
   * and enabled flag (both false when no extension is joined).
   */
  datatype MenuRow = MenuRow(
    id: nat,
    menutype: string,
    title: string,
    link: string,
    kind: string,
    published: int,
    access: int,
    home: bool,
    robots: string,
    language: string,
    componentExists: bool,
    componentEnabled: bool,
    component: string)

  /** The arguments of `getMenuItems`. */
  datatype MenuArgs = MenuArgs(
    multilanguage: bool,
    menutypes: FilterList,
    siteRobots: string,
    guestAccess: seq<int>)

  /** A menu item as handed to `getUrls`; an empty `exclude` stands for PHP's `false`. */
  datatype MenuItem = MenuItem(loc: string, kind: string, title: string, home: bool, exclude: Exclusions)

  /** Menu item types that never point to a page of their own. */
  const ExcludeTypes: seq<string> := ["alias", "separator", "heading", "url"]

  // ---------------------------------------------------------------------------
  // The loc attribute

  const ItemPrefix := "index.php?Itemid="
  const LangPrefix := "&lang="

  /** The language is appended only on multilingual sites, and not for "" / "0" / "*". */
  predicate LangTagged(language: string, multilanguage: bool)
  {
    !PhpEmpty(language) && language != "*" && multilanguage
  }

  /** The loc of a menu item: "index.php?Itemid=<id>", then "&lang=<language>" when tagged. */
  function MenuLoc(id: nat, language: string, multilanguage: bool): (r: string)
    ensures IsPrefix(ItemPrefix, r)
  {
    ItemPrefix + NatToString(id) + (if LangTagged(language, multilanguage) then LangPrefix + language else "")
  }

  /** Reads an item id and an optional language back from a menu loc. */
  function ParseMenuLoc(loc: string): Option<(nat, Option<string>)>
  {
    if !IsPrefix(ItemPrefix, loc) then None
    else
      var rest := loc[|ItemPrefix|..];
      var digits := DigitPrefix(rest);
      if digits == [] then None
      else
        var tail := rest[|digits|..];
        if tail == [] then Some((ParseDigits(digits), None))
        else if IsPrefix(LangPrefix, tail) then Some((ParseDigits(digits), Some(tail[|LangPrefix|..])))
        else None
  }

  /** The loc of a menu row determines the row's id and, when it was appended, its language. */
  lemma MenuLocRoundTrip(id: nat, language: string, multilanguage: bool)
    ensures ParseMenuLoc(MenuLoc(id, language, multilanguage))
      == Some((id, if LangTagged(language, multilanguage) then Some(language) else None))
  {
    var digits := NatToString(id);
    var suffix := if LangTagged(language, multilanguage) then LangPrefix + language else "";
    var loc := MenuLoc(id, language, multilanguage);
    assert loc == ItemPrefix + (digits + suffix);
    assert loc[|ItemPrefix|..] == digits + suffix;
    assert suffix == [] || suffix[0] == '&';
    DigitPrefixOfDigits(digits, suffix);
    assert (digits + suffix)[|digits|..] == suffix;
    ParseNatToString(id);
    if suffix != [] {
      assert suffix[|LangPrefix|..] == language;
    }
  }

  /** Two menu rows with different ids never share a loc. */
  lemma MenuLocInjective(id1: nat, lang1: string, id2: nat, lang2: string, multilanguage: bool)
    requires MenuLoc(id1, lang1, multilanguage) == MenuLoc(id2, lang2, multilanguage)
    ensures id1 == id2
  {
    MenuLocRoundTrip(id1, lang1, multilanguage);
    MenuLocRoundTrip(id2, lang2, multilanguage);
  }

  // ---------------------------------------------------------------------------
  // The component named in messages

  const OptionPrefix := "php?option="

  predicate IsNameChar(c: char)
  {
    ('a' <= c <= 'z') || ('A' <= c <= 'Z') || c == '-' || ('0' <= c <= '9') || c == '_'
  }

  /** The longest prefix of `s` made of `[a-zA-Z\-0-9_]` characters. */
  function NameRun(s: string): (r: string)
    ensures IsPrefix(r, s)
    ensures forall i :: 0 <= i < |r| ==> IsNameChar(r[i])
    ensures |r| == |s| || !IsNameChar(s[|r|])
  {
    if s != [] && IsNameChar(s[0]) then [s[0]] + NameRun(s[1..]) else ""
  }

  /**
   * The capture of `^index.php\?option=([a-zA-Z\-0-9_]*)` in a link, if the
   * link matches; the unescaped `.` matches any character but a line feed.
   */
  function OptionCapture(link: string): (r: Option<string>)
    ensures r.Some? ==> |link| >= 17 && IsPrefix(r.value, link[17..])
    ensures r.Some? ==> forall i :: 0 <= i < |r.value| ==> IsNameChar(r.value[i])
  {
    if |link| >= 17 && link[..5] == "index" && link[5] != '\n' && link[6..17] == OptionPrefix
    then Some(NameRun(link[17..]))
    else None
  }

  /**
   * The component named in the "component missing / disabled" messages: the
   * joined extension's element, or for component items without one the
   * `option` of the link, or "unknown".
   */
  function ComponentName(row: MenuRow): (r: string)
    ensures !(row.kind == "component" && PhpEmpty(row.component)) ==> r == row.component
    ensures row.kind == "component" && PhpEmpty(row.component) ==>
      r == "unknown" || (OptionCapture(row.link) == Some(r) && !PhpEmpty(r))
  {
    if row.kind == "component" && PhpEmpty(row.component) then
      match OptionCapture(row.link)
      case Some(name) => if PhpEmpty(name) then "unknown" else name
      case None => "unknown"
    else row.component
  }

  // ---------------------------------------------------------------------------
  // Exclusion reasons

  /** The robots setting in force: the item's own, or the site's when unset. */
  function RobotsOf(row: MenuRow, siteRobots: string): string
  {
    if row.robots == "" then siteRobots else row.robots
  }

  /** The order in which a menu row collects its reasons. */
  function MenuRank(r: Reason): nat
  {
    match r
    case MenuMenutypes => 1
    case MenuRobots => 2
    case MenuUnpublished => 3
    case MenuTrashed => 3
    case MenuSystemType(_) => 4
    case MenuComponentExist(_) => 5
    case MenuComponentEnabled(_) => 5
    case MenuAccess => 6
    case _ => 0
  }

  /** A reason list in collection order, with at most one reason of each rank. */
  predicate Ranked(rs: seq<Reason>)
  {
    && (forall i :: 0 <= i < |rs| ==> MenuRank(rs[i]) > 0)
    && (forall i, j :: 0 <= i < j < |rs| ==> MenuRank(rs[i]) < MenuRank(rs[j]))
  }

  /**
   * The check of the given rank, as a list of at most one reason: 1 the
   * menutype filter, 2 a `noindex` robots setting, 3 the state (unpublished
   * 0 or trashed -2), 4 a system item type, 5 a missing or else a disabled
   * component, 6 an access level guests cannot view.
   */
  function Check(rank: nat, row: MenuRow, args: MenuArgs): (r: seq<Reason>)
    requires 1 <= rank <= 6
    ensures |r| <= 1 && forall i :: 0 <= i < |r| ==> MenuRank(r[i]) == rank
  {
    if rank == 1 then
      if Truthy(args.menutypes) && row.menutype !in args.menutypes.value then [MenuMenutypes] else []
    else if rank == 2 then
      if Contains(RobotsOf(row, args.siteRobots), "noindex") then [MenuRobots] else []
    else if rank == 3 then
      if row.published == 0 then [MenuUnpublished] else if row.published == -2 then [MenuTrashed] else []
    else if rank == 4 then
      if row.kind in ExcludeTypes then [MenuSystemType(row.kind)] else []
    else if rank == 5 then
      if row.kind == "component" && !row.componentExists then [MenuComponentExist(ComponentName(row))]
      else if row.kind == "component" && !row.componentEnabled then [MenuComponentEnabled(ComponentName(row))]
      else []
    else
      if row.access !in args.guestAccess then [MenuAccess] else []
  }

  /** The checks from `rank` up to 6, in order. */
  function ChecksFrom(rank: nat, row: MenuRow, args: MenuArgs): (r: seq<Reason>)
    requires 1 <= rank <= 7
    ensures Ranked(r)
    ensures forall i :: 0 <= i < |r| ==> MenuRank(r[i]) >= rank
    decreases 7 - rank
  {
    if rank == 7 then [] else Check(rank, row, args) + ChecksFrom(rank + 1, row, args)
  }

  /** A reason is collected exactly when the check of its own rank produces it. */
  lemma {:induction false} ChecksFromMembers(rank: nat, row: MenuRow, args: MenuArgs, x: Reason)
    requires 1 <= rank <= 7
    ensures x in ChecksFrom(rank, row, args) <==> rank <= MenuRank(x) <= 6 && x in Check(MenuRank(x), row, args)
    decreases 7 - rank
  {
    if rank < 7 {
      ChecksFromMembers(rank + 1, row, args, x);
      if x in Check(rank, row, args) {
        assert MenuRank(x) == rank;
      }
    }
  }

  /**
   * The exclusion reasons of a menu row: none for the home item; otherwise
   * the independent checks in their fixed order, at most one reason each.
   */
  function MenuReasons(row: MenuRow, args: MenuArgs): (r: seq<Reason>)
    ensures Ranked(r)
    ensures row.home ==> r == []
  {
    if row.home then [] else ChecksFrom(1, row, args)
  }

  /**
   * When a reason applies to a row, stated reason by reason: the reference
   * table the ranked checks are measured against.
   */
  predicate Applies(x: Reason, row: MenuRow, args: MenuArgs)
  {
    match x
    case MenuMenutypes => Truthy(args.menutypes) && row.menutype !in args.menutypes.value
    case MenuRobots => Contains(RobotsOf(row, args.siteRobots), "noindex")
    case MenuUnpublished => row.published == 0
    case MenuTrashed => row.published == -2
    case MenuSystemType(t) => t == row.kind && row.kind in ExcludeTypes
    case MenuComponentExist(c) => c == ComponentName(row) && row.kind == "component" && !row.componentExists
    case MenuComponentEnabled(c) =>
      c == ComponentName(row) && row.kind == "component" && row.componentExists && !row.componentEnabled
    case MenuAccess => row.access !in args.guestAccess
    case _ => false
  }

  lemma CheckApplies(rank: nat, row: MenuRow, args: MenuArgs, x: Reason)
    requires 1 <= rank <= 6
    ensures x in Check(rank, row, args) <==> MenuRank(x) == rank && Applies(x, row, args)
  {
  }

  /**
   * A reason is collected for a row exactly when the row is not the home
   * item and the reason applies to it.
   */
  lemma MenuReasonsApply(row: MenuRow, args: MenuArgs, x: Reason)
    ensures x in MenuReasons(row, args) <==> !row.home && Applies(x, row, args)
  {
    if !row.home {
      ChecksFromMembers(1, row, args, x);
      if 1 <= MenuRank(x) <= 6 {
        CheckApplies(MenuRank(x), row, args, x);
      }
    }
  }

  // ---------------------------------------------------------------------------
  // Menu items

  /** The menu item built from one row. */
  function MenuItemOf(row: MenuRow, args: MenuArgs): (r: MenuItem)
    ensures r.loc == MenuLoc(row.id, row.language, args.multilanguage)
    ensures ParseMenuLoc(r.loc)
      == Some((row.id, if LangTagged(row.language, args.multilanguage) then Some(row.language) else None))
    ensures r.kind == TypeMenu && r.title == row.title && r.home == row.home
    ensures row.home ==> r.exclude == []
    ensures Positional(r.exclude) == MenuReasons(row, args)
    ensures forall i :: 0 <= i < |r.exclude| ==> r.exclude[i].key.None?
  {
    MenuLocRoundTrip(row.id, row.language, args.multilanguage);
    PositionalNumbered(MenuReasons(row, args));
    MenuItem(MenuLoc(row.id, row.language, args.multilanguage), TypeMenu, row.title, row.home,
             Numbered(MenuReasons(row, args)))
  }

  lemma {:induction false} PositionalNumbered(reasons: seq<Reason>)
    ensures Positional(Numbered(reasons)) == reasons
  {
    if reasons != [] {
      assert Numbered(reasons) == [Entry(None, reasons[0])] + Numbered(reasons[1..]);
      PositionalConcat([Entry(None, reasons[0])], Numbered(reasons[1..]));
      PositionalNumbered(reasons[1..]);
    }
  }

  /** The items of all rows, one per row, in row order. */
  function MenuItemsOf(rows: seq<MenuRow>, args: MenuArgs): (r: seq<MenuItem>)
    ensures |r| == |rows|
    ensures forall i :: 0 <= i < |rows| ==> r[i] == MenuItemOf(rows[i], args)
  {
    seq(|rows|, i requires 0 <= i < |rows| => MenuItemOf(rows[i], args))
  }

  /** The items of a longer prefix of the rows extend those of the shorter one. */
  lemma MenuItemsOfSnoc(rows: seq<MenuRow>, i: nat, args: MenuArgs)
    requires i < |rows|
    ensures MenuItemsOf(rows[..i + 1], args) == MenuItemsOf(rows[..i], args) + [MenuItemOf(rows[i], args)]
  {
    var a := MenuItemsOf(rows[..i + 1], args);
    var front := MenuItemsOf(rows[..i], args);
    var b := front + [MenuItemOf(rows[i], args)];
    assert |a| == |b|;
    forall k | 0 <= k < |a| ensures a[k] == b[k] {
      assert a[k] == MenuItemOf(rows[k], args) by {
        MenuItemsOfAt(rows, i + 1, args, k);
      }
      if k < i {
        assert b[k] == front[k];
        assert front[k] == MenuItemOf(rows[k], args) by {
          MenuItemsOfAt(rows, i, args, k);
        }
      } else {
        assert b[k] == MenuItemOf(rows[i], args);
      }
    }
  }

  lemma MenuItemsOfAt(rows: seq<MenuRow>, n: nat, args: MenuArgs, k: nat)
    requires k < n <= |rows|
    ensures MenuItemsOf(rows[..n], args)[k] == MenuItemOf(rows[k], args)
  {
    assert rows[..n][k] == rows[k];
  }
}
