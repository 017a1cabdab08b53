/**
 * The sitemap model object. Its getters fill the memo fields `urls`,
 * `menuItems` and `xml` on their first call and return the stored value on
 * every later call; the loops of `getUrls` are proved to compute the folds
 * of `Aggregation`, and the three maps are returned sorted by key.
 */
module SitemapModel {
  import opened Wrappers
  import opened PhpStrings
  import opened Records
  import opened UrlFilters
  import opened KeyOrder
  import opened MenuItems
  import opened Aggregation
  import opened SitemapXml

  /** The urls object: the three maps as key-sorted listings. */
  datatype Urls = Urls(
    includes: seq<(string, UrlRecord)>,
    excludes: seq<(string, UrlRecord)>,
    all: seq<(string, UrlRecord)>)

  /** `u` lists the maps of `a`, each sorted by key. */
  predicate Lists(u: Urls, a: Agg)
  {
    IsKSortOf(u.includes, a.includes) && IsKSortOf(u.excludes, a.excludes) && IsKSortOf(u.all, a.all)
  }

  class Sitemap {
    const env: Env
    var urls: Option<Urls>
    var menuItems: Option<seq<MenuItem>>
    var xml: Option<string>

    /** The memo fields, once set, hold what the getters compute from `env`. */
    ghost predicate Valid()
      reads this
    {
      MenuItemsValid() && UrlsValid()
    }

    /** The stored menu items are those of the menu rows. */
    ghost predicate MenuItemsValid()
      reads this`menuItems
    {
      menuItems.Some? ==> menuItems.value == MenuItemsOf(env.menuRows, ArgsOf(env, FiltersOf(env.config)))
    }

    /** The stored urls list the maps `getUrls` builds. */
    ghost predicate UrlsValid()
      reads this`urls
    {
      urls.Some? ==> Lists(urls.value, Aggregate(env))
    }

    constructor (env: Env)
      ensures this.env == env
      ensures urls.None? && menuItems.None? && xml.None?
      ensures Valid()
    {
      this.env := env;
      urls := None;
      menuItems := None;
      xml := None;
    }

    /** `getMenuItems`: one item per menu row, computed on the first call only. */
    method GetMenuItems(args: MenuArgs) returns (items: seq<MenuItem>)
      requires Valid()
      modifies this
      ensures old(menuItems).Some? ==> items == old(menuItems).value
      ensures old(menuItems).None? ==> items == MenuItemsOf(env.menuRows, args)
      ensures menuItems == Some(items) && urls == old(urls) && xml == old(xml)
      ensures args == ArgsOf(env, FiltersOf(env.config)) ==> Valid()
    {
      if menuItems.None? {
        var built := BuildMenuItems(env.menuRows, args);
        menuItems := Some(built);
      }
      items := menuItems.value;
    }

    /**
     * `getUrls`: the home page, the menu items and the plugin rows filed into
     * `all`, `includes` and `excludes`, each map then sorted by key; computed
     * on the first call only.
     */
    method GetUrls() returns (u: Urls)
      requires Valid()
      modifies this
      ensures Valid()
      ensures Lists(u, Aggregate(env))
      ensures old(urls).Some? ==> u == old(urls).value
      ensures urls == Some(u) && xml == old(xml)
      ensures old(urls).None? ==> menuItems.Some?
      ensures old(urls).Some? ==> menuItems == old(menuItems)
    {
      if urls.None? {
        var items := GetMenuItems(ArgsOf(env, FiltersOf(env.config)));
        var collected := CollectUrls(env, items);
        assert MenuItemsValid();
        urls := Some(collected);
        assert UrlsValid();
      }
      u := urls.value;
    }

    /**
     * `getXML`: the `<url>` entries of `rows` (of the included urls when
     * `rows` is empty) serialised; computed on the first call only.
     */
    method GetXml(rows: seq<(string, UrlRecord)>) returns (x: string)
      requires Valid()
      modifies this
      ensures Valid()
      ensures old(xml).Some? ==> x == old(xml).value && urls == old(urls)
      ensures old(xml).None? && rows != [] ==> x == env.asXml(Entries(rows)) && urls == old(urls)
      ensures old(xml).None? && rows == [] ==> urls.Some? && x == env.asXml(Entries(urls.value.includes))
      ensures old(urls).Some? ==> urls == old(urls)
      ensures xml == Some(x)
      ensures old(xml).None? && rows == [] && old(urls).None? ==> menuItems.Some?
      ensures !(old(xml).None? && rows == [] && old(urls).None?) ==> menuItems == old(menuItems)
    {
      if xml.None? {
        var source := rows;
        if rows == [] {
          var u := GetUrls();
          source := u.includes;
        }
        var entries := UrlEntries(source);
        xml := Some(env.asXml(entries));
      }
      x := xml.value;
    }

    /**
     * `generate`: the urls; unless debugging, also the text written to the
     * sitemap file, which is the XML of the included urls after the
     * configured replacements.
     */
    method Generate(debug: bool) returns (u: Urls, file: Option<string>)
      requires Valid()
      modifies this
      ensures Valid()
      ensures Lists(u, Aggregate(env))
      ensures old(urls).Some? ==> u == old(urls).value
      ensures urls == Some(u)
      ensures debug ==> file.None? && xml == old(xml)
      ensures !debug ==> xml.Some? && file == Some(ApplyRegexps(xml.value, env.config.regexps, env.pregReplace))
      ensures !debug && old(xml).None? ==> xml == Some(env.asXml(Entries(u.includes)))
      ensures !debug && old(xml).Some? ==> xml == old(xml)
      ensures old(urls).None? ==> menuItems.Some?
      ensures old(urls).Some? ==> menuItems == old(menuItems)
    {
      u := GetUrls();
      file := None;
      if !debug {
        var text := GetXml(u.includes);
        text := Rewrite(text, env.config.regexps, env.pregReplace);
        file := Some(text);
      }
    }
  }

  /**
   * Generating twice gives the same urls and writes the same file: the
   * second call reuses what the first one stored.
   */
  method GenerateTwice(s: Sitemap) returns (first: Option<string>, second: Option<string>)
    requires s.Valid()
    modifies s
    ensures s.Valid()
    ensures first == second && first.Some?
  {
    var u1, u2;
    u1, first := s.Generate(false);
    u2, second := s.Generate(false);
    assert u1 == u2;
  }

  // ---------------------------------------------------------------------------
  // The loops of getUrls, getXML and generate

  /** The loop of `getMenuItems` over the rows of the menu query. */
  method BuildMenuItems(rows: seq<MenuRow>, args: MenuArgs) returns (items: seq<MenuItem>)
    ensures items == MenuItemsOf(rows, args)
  {
    items := [];
    for i := 0 to |rows|
      invariant items == MenuItemsOf(rows[..i], args)
    {
      MenuItemsOfSnoc(rows, i, args);
      items := items + [MenuItemOf(rows[i], args)];
    }
    assert rows[..|rows|] == rows;
  }

  /**
   * The body of `getUrls` once the menu items are known: the menu loop, the
   * plugin loop, then `ksort` of each of the three maps.
   */
  method CollectUrls(env: Env, items: seq<MenuItem>) returns (u: Urls)
    requires items == MenuItemsOf(env.menuRows, ArgsOf(env, FiltersOf(env.config)))
    ensures Lists(u, Aggregate(env))
  {
    var f := FiltersOf(env.config);
    var afterMenu := MenuLoop(env, f, items);
    var a := PluginLoop(env, f, afterMenu, env.pluginRows);
    var sortedAll := KSort(a.all);
    var sortedIncludes := KSort(a.includes);
    var sortedExcludes := KSort(a.excludes);
    u := Urls(sortedIncludes, sortedExcludes, sortedAll);
  }

  /**
   * The home page and the menu loop of `getUrls`: the home record is filed
   * as included under its key, then each item is filed under its key in
   * `all` and in `excludes` or `includes`; home items are remembered in
   * `homes`, other items are appended to the menu filter list.
   */
  method MenuLoop(env: Env, f: Filters, items: seq<MenuItem>) returns (a: Agg)
    ensures a == MenuPhase(env, f, Start(env, f), items)
  {
    var home := HomeRecord(env);
    var homeKey := KeyOf(home.link);
    var all := map[homeKey := home];
    var includes := map[homeKey := home];
    var excludes: map<string, UrlRecord> := map[];
    var homes := [homeKey];
    var filterMenuItems := f.menuItems;
    for i := 0 to |items|
      invariant Agg(all, includes, excludes, homes, filterMenuItems) == MenuPhase(env, f, Start(env, f), items[..i])
    {
      var item := items[i];
      var rec := MenuRecordOf(env, f, item);
      var key := KeyOf(rec.link);
      all := all[key := rec];
      if rec.exclude != [] {
        excludes := excludes[key := rec];
      } else {
        includes := includes[key := rec];
      }
      if item.home {
        homes := homes + [key];
      } else if Truthy(filterMenuItems) {
        filterMenuItems := Some(filterMenuItems.value + [key]);
      }
      assert items[..i + 1][..i] == items[..i];
    }
    assert items[..|items|] == items;
    a := Agg(all, includes, excludes, homes, filterMenuItems);
  }

  /**
   * The plugin loop of `getUrls`: each row with a non-empty loc is checked
   * against the filters, merged with the record already under its key, and
   * filed in `all` and in `excludes` (leaving `includes`) or `includes`.
   */
  method PluginLoop(env: Env, f: Filters, start: Agg, rows: seq<PluginRow>) returns (a: Agg)
    ensures a == PluginPhase(env, f, start, rows)
  {
    var all, includes, excludes := start.all, start.includes, start.excludes;
    var homes, filterMenuItems := start.homes, start.menuItems;
    for i := 0 to |rows|
      invariant Agg(all, includes, excludes, homes, filterMenuItems) == PluginPhase(env, f, start, rows[..i])
    {
      var row := rows[i];
      assert rows[..i + 1][..i] == rows[..i];
      if PhpEmpty(row.loc) {
        continue;
      }
      var cand := PluginCandidate(env, f, homes, filterMenuItems, row);
      var key := KeyOf(cand.link);
      var rec := cand;
      if key in all {
        rec := Merge(all[key], cand);
      }
      rec := Stored(rec);
      all := all[key := rec];
      if rec.exclude != [] {
        excludes := excludes[key := rec];
        includes := includes - {key};
      } else {
        includes := includes[key := rec];
      }
    }
    assert rows[..|rows|] == rows;
    a := Agg(all, includes, excludes, homes, filterMenuItems);
  }

  /** The loop of `getXML` that adds one `<url>` element per row. */
  method UrlEntries(rows: seq<(string, UrlRecord)>) returns (entries: seq<seq<XmlChild>>)
    ensures entries == Entries(rows)
  {
    entries := [];
    for i := 0 to |rows|
      invariant |entries| == i
      invariant forall j :: 0 <= j < i ==> entries[j] == UrlEntry(rows[j].1)
    {
      entries := entries + [UrlEntry(rows[i].1)];
    }
  }

  /** The loop of `generate` over the configured replacements, skipping empty patterns. */
  method Rewrite(xml: string, regexps: seq<(string, string)>, replace: (string, string, string) -> string)
    returns (text: string)
    ensures text == ApplyRegexps(xml, regexps, replace)
  {
    text := xml;
    for i := 0 to |regexps|
      invariant text == ApplyRegexps(xml, regexps[..i], replace)
    {
      var (pattern, replacement) := regexps[i];
      if !PhpEmpty(pattern) {
        text := replace(pattern, replacement, text);
      }
      assert regexps[..i + 1][..i] == regexps[..i];
    }
    assert regexps[..|regexps|] == regexps;
  }
}
