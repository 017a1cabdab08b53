/**
 * `getUrls` as step functions: the home record, one step per menu item, one
 * step per plugin row, each updating the three keyed maps `all`, `includes`
 * and `excludes`, the home keys and the menu-item filter. The phases are
 * folds of the steps over the inputs, in input order; the class in
 * `SitemapModel` runs the same steps in loops and is proved to agree.
 */
module Aggregation {
  import opened Wrappers
  import opened PhpStrings
  import opened PhpArrays
  import opened Records
  import opened UrlFilters
  import opened MenuItems

  /**
   * The component options `getUrls` reads. `changefreq` and `priority` are
   * `None` when unset (the defaults "weekly" and 0.5 then apply); the
   * priority is in hundredths. `regexps` is the `filter_regexp` list of
   * (pattern, replacement) pairs used by `generate`.
   */
  datatype Config = Config(
    filterMenu: bool,
    filterMenuMenus: seq<string>,
    filterRawIndex: bool,
    filterRawComponent: bool,
    filterRawGet: bool,
    filterStrpos: string,
    changefreq: Option<Changefreq>,
    priority: Option<int>,
    regexps: seq<(string, string)>)

  /**
   * The site: SEF flag, site name, default robots, the view levels of a
   * guest, the multilingual flag, `Uri::root()`, `Uri::root(true)` and the
   * router `Route::_`, which is not part of this model and is taken as given.
   */
  datatype Site = Site(
    sef: bool,
    sitename: string,
    robots: string,
    guestAccess: seq<int>,
    multilanguage: bool,
    root: string,
    rootPath: string,
    route: string -> string)

  /** The `exclude` a plugin row supplies: nothing, a legacy message string, or an array of reasons. */
  datatype PluginExclude = NoExclude | Legacy(msg: string) | Listed(entries: Exclusions)

  /**
   * A row returned by a sitemap plugin. Unset text fields are "", unset
   * options `None`; `lastmod` is the unix time of a date that is set and not
   * the null date.
   */
  datatype PluginRow = PluginRow(
    loc: string,
    kind: string,
    title: string,
    changefreq: Option<Changefreq>,
    priority: Option<int>,
    lastmod: Option<int>,
    exclude: PluginExclude)

  /**
   * Everything `getUrls` and `generate` read from outside the model: the
   * options, the site, the menu rows in tree order, the plugin rows in the
   * order the plugins return them, and the XML serialisation of the url
   * entries and `preg_replace`, neither of which is part of this model.
   */
  datatype Env = Env(
    config: Config,
    site: Site,
    menuRows: seq<MenuRow>,
    pluginRows: seq<PluginRow>,
    asXml: seq<seq<XmlChild>> -> string,
    pregReplace: (string, string, string) -> string)

  /** A child element of a sitemap `<url>` entry, in the sitemaps.org protocol 0.9. */
  datatype XmlChild = LocChild(loc: string) | ChangefreqChild(freq: Changefreq) | PriorityChild(priority: int) | LastmodChild(time: int)

  // ---------------------------------------------------------------------------
  // Settings derived from the configuration

  /** The four filter lists of `getUrls`. */
  datatype Filters = Filters(menus: FilterList, menuItems: FilterList, raw: FilterList, strpos: FilterList)

  /**
   * The menus filter is the configured menu list when menu filtering is on;
   * the menu-item filter is then an empty array, otherwise `false`.
   */
  function FiltersOf(c: Config): (f: Filters)
    ensures f.menus == (if c.filterMenu then Some(c.filterMenuMenus) else None)
    ensures f.menuItems == (if c.filterMenu && c.filterMenuMenus != [] then Some([]) else None)
    ensures f.raw == RawFilter(c.filterRawIndex, c.filterRawComponent, c.filterRawGet)
    ensures f.strpos == StrposFilter(c.filterStrpos)
  {
    var menus := if c.filterMenu then Some(c.filterMenuMenus) else None;
    Filters(menus, if Truthy(menus) then Some([]) else None,
            RawFilter(c.filterRawIndex, c.filterRawComponent, c.filterRawGet),
            StrposFilter(c.filterStrpos))
  }

  /** `$config->get('changefreq', 'weekly')`. */
  function DefaultChangefreq(c: Config): (r: Changefreq)
    ensures c.changefreq.Some? ==> r == c.changefreq.value
    ensures c.changefreq.None? ==> r == Weekly
  {
    c.changefreq.GetOr(Weekly)
  }

  /** `$config->get('priority', '0.5')`, in hundredths. */
  function DefaultPriority(c: Config): (r: int)
    ensures c.priority.Some? ==> r == c.priority.value
    ensures c.priority.None? ==> r == 50
  {
    c.priority.GetOr(50)
  }

  /** The arguments `getUrls` passes to `getMenuItems`. */
  function ArgsOf(env: Env, f: Filters): MenuArgs
  {
    MenuArgs(env.site.multilanguage, f.menus, env.site.robots, env.site.guestAccess)
  }

  // ---------------------------------------------------------------------------
  // Links, keys and locations

  /** The map key of a link: "/" for an empty link. */
  function KeyOf(link: string): (k: string)
    ensures !PhpEmpty(k)
    ensures !PhpEmpty(link) ==> k == link
    ensures PhpEmpty(link) ==> k == "/"
  {
    if PhpEmpty(link) then "/" else link
  }

  /** The link of a url: routed on SEF sites, raw otherwise. */
  function LinkOf(site: Site, loc: string): string
  {
    if site.sef then site.route(loc) else loc
  }

  /** The absolute location: the root without trailing slashes, then the link. */
  function LocOf(site: Site, link: string): string
  {
    RTrimSlash(site.root) + link
  }

  function HomeLink(site: Site): (link: string)
    ensures !PhpEmpty(link)
  {
    if site.sef then
      var link := RTrimSlash(site.rootPath) + "/";
      assert link[|link| - 1] == '/';
      link
    else "index.php"
  }

  // ---------------------------------------------------------------------------
  // The accumulated state

  /**
   * The state `getUrls` accumulates: the three keyed maps, the home keys and
   * the menu-item filter.
   */
  datatype Agg = Agg(
    all: map<string, UrlRecord>,
    includes: map<string, UrlRecord>,
    excludes: map<string, UrlRecord>,
    homes: seq<string>,
    menuItems: FilterList)

  /** The home page record: no exclusions, no lastmod. */
  function HomeRecord(env: Env): (r: UrlRecord)
    ensures r.exclude == [] && r.lastmod.None? && r.types == [TypeMenu]
    ensures r.link == HomeLink(env.site) && r.loc == LocOf(env.site, r.link)
    ensures r.title == env.site.sitename
    ensures r.changefreq == DefaultChangefreq(env.config) && r.priority == DefaultPriority(env.config)
  {
    var link := HomeLink(env.site);
    UrlRecord([TypeMenu], env.site.sitename, link, LocOf(env.site, link),
              DefaultChangefreq(env.config), DefaultPriority(env.config), [], None)
  }

  /** The state after the home page is added: it is in `all` and `includes`, and its key is a home key. */
  function Start(env: Env, f: Filters): (a: Agg)
    ensures var k := KeyOf(HomeLink(env.site));
      && a.all == map[k := HomeRecord(env)] && a.includes == a.all && a.excludes == map[]
      && a.homes == [k]
      && a.menuItems == f.menuItems
  {
    var k := KeyOf(HomeLink(env.site));
    Agg(map[k := HomeRecord(env)], map[k := HomeRecord(env)], map[], [k], f.menuItems)
  }

  // ---------------------------------------------------------------------------
  // Menu items

  /**
   * The record of a menu item: the home item gets no exclusions; any other
   * item keeps its own reasons followed by those of the raw and strpos filters.
   */
  function MenuRecordOf(env: Env, f: Filters, item: MenuItem): (r: UrlRecord)
    ensures r.link == LinkOf(env.site, item.loc) && r.types == [item.kind] && r.lastmod.None?
    ensures r.loc == LocOf(env.site, r.link) && r.title == item.title
    ensures r.changefreq == DefaultChangefreq(env.config) && r.priority == DefaultPriority(env.config)
    ensures item.home ==> r.exclude == []
    ensures !item.home ==> r.exclude == ArrayMerge(item.exclude, Filtering(r.link, f.raw, f.strpos, None))
  {
    var link := LinkOf(env.site, item.loc);
    var exclude := if item.home then [] else ArrayMerge(item.exclude, Filtering(link, f.raw, f.strpos, None));
    UrlRecord([item.kind], item.title, link, LocOf(env.site, link),
              DefaultChangefreq(env.config), DefaultPriority(env.config), exclude, None)
  }

  /**
   * One iteration of the menu loop. The record overwrites `all[key]` and
   * goes to `excludes` or `includes`; the other map is left as it is. The
   * key of the home item becomes a home key; other keys would be added to a
   * truthy menu-item filter.
   */
  function MenuStep(env: Env, f: Filters, a: Agg, item: MenuItem): (r: Agg)
    ensures r.all.Keys == a.all.Keys + {KeyOf(LinkOf(env.site, item.loc))}
    ensures a.includes.Keys <= r.includes.Keys && a.excludes.Keys <= r.excludes.Keys
    ensures r.homes == a.homes + (if item.home then [KeyOf(LinkOf(env.site, item.loc))] else [])
    ensures !Truthy(a.menuItems) ==> r.menuItems == a.menuItems
    ensures Truthy(a.menuItems) ==>
      r.menuItems.Some? && r.menuItems.value == a.menuItems.value + (if item.home then [] else [KeyOf(LinkOf(env.site, item.loc))])
  {
    var rec := MenuRecordOf(env, f, item);
    var k := KeyOf(rec.link);
    assert k == KeyOf(LinkOf(env.site, item.loc));
    Agg(a.all[k := rec],
        if rec.exclude == [] then a.includes[k := rec] else a.includes,
        if rec.exclude != [] then a.excludes[k := rec] else a.excludes,
        if item.home then a.homes + [k] else a.homes,
        if !item.home && Truthy(a.menuItems) then Some(a.menuItems.value + [k]) else a.menuItems)
  }

  /** The menu loop over `items`, in order. */
  function MenuPhase(env: Env, f: Filters, a: Agg, items: seq<MenuItem>): (r: Agg)
    ensures a.all.Keys <= r.all.Keys
    ensures a.includes.Keys <= r.includes.Keys && a.excludes.Keys <= r.excludes.Keys
    ensures a.homes <= r.homes
    decreases |items|
  {
    if items == [] then a
    else MenuStep(env, f, MenuPhase(env, f, a, items[..|items| - 1]), items[|items| - 1])
  }

  // ---------------------------------------------------------------------------
  // Plugin rows

  /** The exclusions a plugin row brings itself; a legacy message becomes one unkeyed reason. */
  function OwnExclusions(e: PluginExclude): (r: Exclusions)
    ensures e.Listed? ==> r == e.entries
    ensures e.NoExclude? ==> r == []
    ensures e.Legacy? ==> (r == [] <==> e.msg == "")
    ensures e.Legacy? && e.msg != "" ==> r == [Entry(None, Unknown(e.msg))]
  {
    match e
    case NoExclude => []
    case Legacy(msg) => if msg == "" then [] else [Entry(None, Unknown(msg))]
    case Listed(entries) => entries
  }

  /**
   * The record a plugin row proposes before any merge. Rows under a home key
   * get no exclusions; the others get their own followed by those of all
   * three filters, the menu-item filter included.
   */
  function PluginCandidate(env: Env, f: Filters, homes: seq<string>, menuItems: FilterList, row: PluginRow): (r: UrlRecord)
    ensures r.link == LinkOf(env.site, row.loc) && r.lastmod == row.lastmod
    ensures r.loc == LocOf(env.site, r.link) && r.title == row.title
    ensures r.types == [if row.kind == "" then TypeUnknown else row.kind]
    ensures r.changefreq == row.changefreq.GetOr(DefaultChangefreq(env.config))
    ensures r.priority == row.priority.GetOr(DefaultPriority(env.config))
    ensures KeyOf(r.link) in homes ==> r.exclude == []
    ensures KeyOf(r.link) !in homes ==>
      r.exclude == ArrayMerge(OwnExclusions(row.exclude), Filtering(r.link, f.raw, f.strpos, menuItems))
  {
    var link := LinkOf(env.site, row.loc);
    var kind := if row.kind == "" then TypeUnknown else row.kind;
    var exclude :=
      if KeyOf(link) in homes then []
      else ArrayMerge(OwnExclusions(row.exclude), Filtering(link, f.raw, f.strpos, menuItems));
    UrlRecord([kind], row.title, link, LocOf(env.site, link),
              row.changefreq.GetOr(DefaultChangefreq(env.config)),
              row.priority.GetOr(DefaultPriority(env.config)),
              exclude, row.lastmod)
  }

  /** A lastmod is stored only when it is truthy (PHP's 0 is not). */
  predicate LastmodSet(t: Option<int>)
  {
    t.Some? && t.value != 0
  }

  function MergeLastmod(exist: Option<int>, cand: Option<int>): (r: Option<int>)
    ensures LastmodSet(r) <==> LastmodSet(exist) || LastmodSet(cand)
    ensures LastmodSet(r) ==>
      (r == exist || r == cand)
      && (LastmodSet(exist) ==> r.value >= exist.value)
      && (LastmodSet(cand) ==> r.value >= cand.value)
  {
    if LastmodSet(exist) then
      if !LastmodSet(cand) then exist
      else if exist.value > cand.value then exist
      else cand
    else cand
  }

  function Min(x: int, y: int): int
  {
    if x < y then x else y
  }

  /**
   * The merge of a plugin record into the record already stored under the
   * same key: types are concatenated; the new title is kept unless it is
   * empty; the more frequent changefreq and the lower priority win (the new
   * one on a tie); the later lastmod wins; the stored exclusions come first.
   */
  function Merge(exist: UrlRecord, cand: UrlRecord): (r: UrlRecord)
    ensures r.types == exist.types + cand.types
    ensures r.link == cand.link && r.loc == cand.loc
    ensures !PhpEmpty(cand.title) ==> r.title == cand.title
    ensures PhpEmpty(cand.title) ==> r.title == (if PhpEmpty(exist.title) then cand.title else exist.title)
    ensures r.changefreq.Value() == Min(exist.changefreq.Value(), cand.changefreq.Value())
    ensures r.priority == Min(exist.priority, cand.priority)
    ensures r.lastmod == MergeLastmod(exist.lastmod, cand.lastmod)
    ensures r.exclude == [] <==> exist.exclude == [] && cand.exclude == []
    ensures Positional(r.exclude) == Positional(exist.exclude) + Positional(cand.exclude)
    ensures exist.exclude != [] ==> r.exclude == ArrayMerge(exist.exclude, cand.exclude)
    ensures exist.exclude == [] ==> r.exclude == cand.exclude
  {
    var exclude := if exist.exclude != [] then ArrayMerge(exist.exclude, cand.exclude) else cand.exclude;
    MergeShape(exist.exclude, cand.exclude);
    MergePositional(exist.exclude, cand.exclude);
    assert exist.exclude == [] ==> Positional(exist.exclude) == [];
    UrlRecord(exist.types + cand.types,
              if PhpEmpty(cand.title) && !PhpEmpty(exist.title) then exist.title else cand.title,
              cand.link, cand.loc,
              if exist.changefreq.Value() < cand.changefreq.Value() then exist.changefreq else cand.changefreq,
              if cand.priority > exist.priority then exist.priority else cand.priority,
              exclude,
              MergeLastmod(exist.lastmod, cand.lastmod))
  }

  /** The record as stored: without a lastmod unless it is truthy. */
  function Stored(r: UrlRecord): (s: UrlRecord)
    ensures s == r.(lastmod := s.lastmod)
    ensures s.lastmod == (if LastmodSet(r.lastmod) then r.lastmod else None)
  {
    r.(lastmod := if LastmodSet(r.lastmod) then r.lastmod else None)
  }

  /** The record a plugin row leaves under its key, merged with the one already there. */
  function PluginRecord(env: Env, f: Filters, a: Agg, row: PluginRow): (r: UrlRecord)
    ensures r.link == LinkOf(env.site, row.loc)
    ensures r.lastmod.None? || LastmodSet(r.lastmod)
    ensures var k := KeyOf(r.link);
      k in a.homes && (k in a.all ==> a.all[k].exclude == []) ==> r.exclude == []
  {
    var cand := PluginCandidate(env, f, a.homes, a.menuItems, row);
    var k := KeyOf(cand.link);
    Stored(if k in a.all then Merge(a.all[k], cand) else cand)
  }

  /**
   * One iteration of the plugin loop. A row with an empty loc is skipped.
   * An excluded record goes to `excludes` and leaves `includes`; an included
   * one goes to `includes` and `excludes` is left as it is.
   */
  function PluginStep(env: Env, f: Filters, a: Agg, row: PluginRow): (r: Agg)
    ensures PhpEmpty(row.loc) ==> r == a
    ensures r.homes == a.homes && r.menuItems == a.menuItems
    ensures a.all.Keys <= r.all.Keys && a.excludes.Keys <= r.excludes.Keys
    ensures !PhpEmpty(row.loc) ==> var k := KeyOf(LinkOf(env.site, row.loc));
      && r.all.Keys == a.all.Keys + {k}
      && (forall x :: x in a.all && x != k ==> r.all[x] == a.all[x])
      && (k in r.includes <==> r.all[k].exclude == [])
      && (k in r.excludes <==> r.all[k].exclude != [] || k in a.excludes)
      && (forall x :: x != k ==> (x in r.includes <==> x in a.includes))
  {
    if PhpEmpty(row.loc) then a
    else
      var rec := PluginRecord(env, f, a, row);
      var k := KeyOf(rec.link);
      if rec.exclude != [] then
        a.(all := a.all[k := rec], excludes := a.excludes[k := rec], includes := a.includes - {k})
      else
        a.(all := a.all[k := rec], includes := a.includes[k := rec])
  }

  /** The plugin loop over `rows`, in order. */
  function PluginPhase(env: Env, f: Filters, a: Agg, rows: seq<PluginRow>): (r: Agg)
    ensures a.all.Keys <= r.all.Keys && a.excludes.Keys <= r.excludes.Keys
    ensures r.homes == a.homes && r.menuItems == a.menuItems
    decreases |rows|
  {
    if rows == [] then a
    else PluginStep(env, f, PluginPhase(env, f, a, rows[..|rows| - 1]), rows[|rows| - 1])
  }

  /**
   * The state `getUrls` reaches before sorting: the filter lists are set up
   * once, then the home page, the menu loop and the plugin loop.
   */
  function Aggregate(env: Env): (r: Agg)
  {
    var f := FiltersOf(env.config);
    var items := MenuItemsOf(env.menuRows, ArgsOf(env, f));
    PluginPhase(env, f, MenuPhase(env, f, Start(env, f), items), env.pluginRows)
  }
}
