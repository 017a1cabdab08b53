/**
 * What the loops of `getUrls` guarantee about the three maps: every key of
 * `all` is included or excluded; plugin rows keep `includes` and `excludes`
 * disjoint and in step with `all`; menu items do so only while their keys do
 * not collide with differently classified earlier keys, which holds on
 * non-SEF sites and can fail on SEF ones. Also: the menu-item filter never
 * grows, so with menu filtering on every plugin URL outside the home keys is
 * excluded; plugin rows under a home key add no exclusions.
 */
module Partition {
  import opened Wrappers
  import opened PhpStrings
  import opened PhpArrays
  import opened Records
  import opened UrlFilters
  import opened MenuItems
  import opened Aggregation

  /** Every key of `all` is in `includes` or in `excludes`, and no other key is. */
  predicate Covered(a: Agg)
  {
    a.all.Keys == a.includes.Keys + a.excludes.Keys
  }

  /**
   * The maps agree: `includes` and `excludes` are disjoint, each holds the
   * record `all` holds for its keys, and a record is in `excludes` exactly
   * when it has exclusions.
   */
  predicate Coherent(a: Agg)
  {
    && Covered(a)
    && (forall k :: k in a.includes ==> k in a.all && k !in a.excludes && a.includes[k] == a.all[k] && a.all[k].exclude == [])
    && (forall k :: k in a.excludes ==> k in a.all && a.excludes[k] == a.all[k] && a.all[k].exclude != [])
  }

  /** The key a menu item is filed under. */
  function MenuKeyOf(env: Env, item: MenuItem): string
  {
    KeyOf(LinkOf(env.site, item.loc))
  }

  /** The key a plugin row is filed under. */
  function PluginKeyOf(env: Env, row: PluginRow): string
  {
    KeyOf(LinkOf(env.site, row.loc))
  }

  // ---------------------------------------------------------------------------
  // Coverage

  lemma MenuStepCovered(env: Env, f: Filters, a: Agg, item: MenuItem)
    requires Covered(a)
    ensures Covered(MenuStep(env, f, a, item))
    ensures a.all.Keys <= MenuStep(env, f, a, item).all.Keys
  {
  }

  lemma PluginStepCovered(env: Env, f: Filters, a: Agg, row: PluginRow)
    requires Covered(a)
    ensures Covered(PluginStep(env, f, a, row))
    ensures a.all.Keys <= PluginStep(env, f, a, row).all.Keys
  {
  }

  lemma {:induction false} MenuPhaseCovered(env: Env, f: Filters, a: Agg, items: seq<MenuItem>)
    requires Covered(a)
    ensures Covered(MenuPhase(env, f, a, items))
    ensures a.all.Keys <= MenuPhase(env, f, a, items).all.Keys
    decreases |items|
  {
    if items != [] {
      MenuPhaseCovered(env, f, a, items[..|items| - 1]);
      MenuStepCovered(env, f, MenuPhase(env, f, a, items[..|items| - 1]), items[|items| - 1]);
    }
  }

  lemma {:induction false} PluginPhaseCovered(env: Env, f: Filters, a: Agg, rows: seq<PluginRow>)
    requires Covered(a)
    ensures Covered(PluginPhase(env, f, a, rows))
    ensures a.all.Keys <= PluginPhase(env, f, a, rows).all.Keys
    decreases |rows|
  {
    if rows != [] {
      PluginPhaseCovered(env, f, a, rows[..|rows| - 1]);
      PluginStepCovered(env, f, PluginPhase(env, f, a, rows[..|rows| - 1]), rows[|rows| - 1]);
    }
  }

  /**
   * Whatever the inputs, every URL `getUrls` collects is included or
   * excluded, and the home page key is always collected.
   */
  lemma AggregateCovered(env: Env)
    ensures Covered(Aggregate(env))
    ensures KeyOf(HomeLink(env.site)) in Aggregate(env).all
  {
    var f := FiltersOf(env.config);
    var items := MenuItemsOf(env.menuRows, ArgsOf(env, f));
    MenuPhaseCovered(env, f, Start(env, f), items);
    PluginPhaseCovered(env, f, MenuPhase(env, f, Start(env, f), items), env.pluginRows);
  }

  // ---------------------------------------------------------------------------
  // Coherence

  /**
   * Filing `rec` under `k`: `all[k]` takes it, and it enters `includes` or
   * `excludes` according to its exclusions; the maps stay coherent when the
   * key leaves the other map (or was never in it).
   */
  lemma FileCoherent(a: Agg, b: Agg, k: string, rec: UrlRecord)
    requires Coherent(a)
    requires b.all == a.all[k := rec]
    requires rec.exclude == [] ==> b.includes == a.includes[k := rec] && b.excludes == a.excludes && k !in a.excludes
    requires rec.exclude != [] ==> b.excludes == a.excludes[k := rec] && b.includes == a.includes - {k}
    ensures Coherent(b)
  {
    forall x | x in b.includes
      ensures x in b.all && x !in b.excludes && b.includes[x] == b.all[x] && b.all[x].exclude == []
    {
      if x != k {
        assert x in a.includes;
      }
    }
    forall x | x in b.excludes
      ensures x in b.all && b.excludes[x] == b.all[x] && b.all[x].exclude != []
    {
      if x != k {
        assert x in a.excludes;
      }
    }
  }

  /** A plugin step keeps the maps coherent, whatever the row. */
  lemma PluginStepCoherent(env: Env, f: Filters, a: Agg, row: PluginRow)
    requires Coherent(a)
    ensures Coherent(PluginStep(env, f, a, row))
  {
    if !PhpEmpty(row.loc) {
      var cand := PluginCandidate(env, f, a.homes, a.menuItems, row);
      var k := KeyOf(cand.link);
      var rec := PluginRecord(env, f, a, row);
      assert KeyOf(rec.link) == k;
      var b := PluginStep(env, f, a, row);
      if rec.exclude == [] {
        if k in a.all {
          assert rec.exclude == Merge(a.all[k], cand).exclude;
          assert a.all[k].exclude == [];
        }
        assert b == a.(all := a.all[k := rec], includes := a.includes[k := rec]);
      } else {
        assert b == a.(all := a.all[k := rec], excludes := a.excludes[k := rec], includes := a.includes - {k});
      }
      FileCoherent(a, b, k, rec);
    }
  }

  lemma {:induction false} PluginPhaseCoherent(env: Env, f: Filters, a: Agg, rows: seq<PluginRow>)
    requires Coherent(a)
    ensures Coherent(PluginPhase(env, f, a, rows))
    decreases |rows|
  {
    if rows != [] {
      PluginPhaseCoherent(env, f, a, rows[..|rows| - 1]);
      PluginStepCoherent(env, f, PluginPhase(env, f, a, rows[..|rows| - 1]), rows[|rows| - 1]);
    }
  }

  /**
   * A menu step keeps the maps coherent when its key is new, or was
   * classified the same way before; it never removes the key from the map
   * that classified it before.
   */
  lemma MenuStepCoherent(env: Env, f: Filters, a: Agg, item: MenuItem)
    requires Coherent(a)
    requires var k := MenuKeyOf(env, item);
      k !in a.all || ((a.all[k].exclude == []) <==> (MenuRecordOf(env, f, item).exclude == []))
    ensures Coherent(MenuStep(env, f, a, item))
  {
    var rec := MenuRecordOf(env, f, item);
    var k := MenuKeyOf(env, item);
    var b := MenuStep(env, f, a, item);
    MenuStepFiles(env, f, a, item);
    if rec.exclude != [] {
      assert k !in a.includes;
      assert a.includes - {k} == a.includes;
    }
    FileCoherent(a, b, k, rec);
  }

  /** A menu step files the item's record under its key and leaves the other map as it is. */
  lemma MenuStepFiles(env: Env, f: Filters, a: Agg, item: MenuItem)
    ensures var rec := MenuRecordOf(env, f, item);
      var k := MenuKeyOf(env, item);
      var b := MenuStep(env, f, a, item);
      && b.all == a.all[k := rec]
      && (rec.exclude == [] ==> b.includes == a.includes[k := rec] && b.excludes == a.excludes)
      && (rec.exclude != [] ==> b.excludes == a.excludes[k := rec] && b.includes == a.includes)
  {
  }

  /** Menu items with fresh, pairwise distinct keys keep the maps coherent. */
  lemma {:induction false} MenuPhaseCoherent(env: Env, f: Filters, a: Agg, items: seq<MenuItem>)
    requires Coherent(a)
    requires forall i :: 0 <= i < |items| ==> MenuKeyOf(env, items[i]) !in a.all
    requires forall i, j :: 0 <= i < j < |items| ==> MenuKeyOf(env, items[i]) != MenuKeyOf(env, items[j])
    ensures Coherent(MenuPhase(env, f, a, items))
    decreases |items|
  {
    if items != [] {
      var n := |items| - 1;
      var init := items[..n];
      assert forall i :: 0 <= i < n ==> init[i] == items[i];
      MenuPhaseCoherent(env, f, a, init);
      MenuPhaseKeys(env, f, a, init);
      var b := MenuPhase(env, f, a, init);
      assert MenuKeyOf(env, items[n]) !in b.all;
      MenuStepCoherent(env, f, b, items[n]);
    }
  }

  /** The menu loop adds to `all` only the keys of its items. */
  lemma {:induction false} MenuPhaseKeys(env: Env, f: Filters, a: Agg, items: seq<MenuItem>)
    ensures forall k :: k in MenuPhase(env, f, a, items).all ==>
      k in a.all || exists i :: 0 <= i < |items| && k == MenuKeyOf(env, items[i])
    decreases |items|
  {
    if items != [] {
      var n := |items| - 1;
      var init := items[..n];
      MenuPhaseKeys(env, f, a, init);
      var b := MenuPhase(env, f, a, init);
      forall k | k in MenuPhase(env, f, a, items).all
        ensures k in a.all || exists i :: 0 <= i < |items| && k == MenuKeyOf(env, items[i])
      {
        if k != MenuKeyOf(env, items[n]) {
          assert k in b.all;
          if k !in a.all {
            var i :| 0 <= i < n && k == MenuKeyOf(env, init[i]);
            assert k == MenuKeyOf(env, items[i]);
          }
        }
      }
    }
  }


  /** The menu rows carry distinct ids (they are loaded keyed by id). */
  predicate DistinctIds(rows: seq<MenuRow>)
  {
    forall i, j :: 0 <= i < j < |rows| ==> rows[i].id != rows[j].id
  }

  /** Without SEF, a menu item's key is its loc, which names the row's id. */
  lemma PlainMenuKey(env: Env, f: Filters, row: MenuRow)
    requires !env.site.sef
    ensures var item := MenuItemOf(row, ArgsOf(env, f));
      && MenuKeyOf(env, item) == item.loc
      && ParseMenuLoc(item.loc).Some? && ParseMenuLoc(item.loc).value.0 == row.id
      && |item.loc| >= |ItemPrefix|
  {
    var item := MenuItemOf(row, ArgsOf(env, f));
    assert IsPrefix(ItemPrefix, item.loc);
  }

  /**
   * On a site without SEF whose menu rows have distinct ids, `includes` and
   * `excludes` end up disjoint, every URL is in exactly one of them, and
   * each holds the final record of its keys.
   */
  lemma PlainSiteCoherent(env: Env)
    requires !env.site.sef && DistinctIds(env.menuRows)
    ensures Coherent(Aggregate(env))
  {
    var f := FiltersOf(env.config);
    var items := MenuItemsOf(env.menuRows, ArgsOf(env, f));
    StartCoherent(env, f);
    PlainKeysFresh(env, f, items);
    PlainKeysDistinct(env, f, items);
    MenuPhaseCoherent(env, f, Start(env, f), items);
    PluginPhaseCoherent(env, f, MenuPhase(env, f, Start(env, f), items), env.pluginRows);
  }

  /** The home page alone is coherent. */
  lemma StartCoherent(env: Env, f: Filters)
    ensures Coherent(Start(env, f))
  {
    var k := KeyOf(HomeLink(env.site));
    assert Start(env, f).includes.Keys == {k};
  }

  lemma PlainKeysFresh(env: Env, f: Filters, items: seq<MenuItem>)
    requires !env.site.sef && items == MenuItemsOf(env.menuRows, ArgsOf(env, f))
    ensures forall i :: 0 <= i < |items| ==> MenuKeyOf(env, items[i]) !in Start(env, f).all
  {
    var home := KeyOf(HomeLink(env.site));
    assert home == "index.php";
    assert Start(env, f).all.Keys == {home};
    forall i | 0 <= i < |items| ensures MenuKeyOf(env, items[i]) != home {
      PlainMenuKey(env, f, env.menuRows[i]);
    }
  }

  lemma PlainKeysDistinct(env: Env, f: Filters, items: seq<MenuItem>)
    requires !env.site.sef && DistinctIds(env.menuRows) && items == MenuItemsOf(env.menuRows, ArgsOf(env, f))
    ensures forall i, j :: 0 <= i < j < |items| ==> MenuKeyOf(env, items[i]) != MenuKeyOf(env, items[j])
  {
    forall i, j | 0 <= i < j < |items| ensures MenuKeyOf(env, items[i]) != MenuKeyOf(env, items[j]) {
      PlainMenuKey(env, f, env.menuRows[i]);
      PlainMenuKey(env, f, env.menuRows[j]);
    }
  }

  /**
   * On a SEF site two menu items can be routed to the same link. When an
   * unpublished item is followed by the home item and the router sends
   * every location to one link, that key ends up in both `includes` and
   * `excludes`: the menu loop never removes a key from the other map.
   */
  lemma SefCollisionOverlap(env: Env)
    requires env.site.sef && forall x, y :: env.site.route(x) == env.site.route(y)
    requires env.pluginRows == [] && |env.menuRows| == 2
    requires env.menuRows[0].published == 0 && !env.menuRows[0].home && env.menuRows[1].home
    ensures Overlaps(Aggregate(env))
  {
    var f := FiltersOf(env.config);
    var items := MenuItemsOf(env.menuRows, ArgsOf(env, f));
    CollisionItems(env, f, items);
    ExcludedRecord(env, f, items[0]);
    CollisionSteps(env, f, items);
  }

  /** The two items of a colliding site: an excluded one, then the home item, under one key. */
  lemma CollisionItems(env: Env, f: Filters, items: seq<MenuItem>)
    requires env.site.sef && forall x, y :: env.site.route(x) == env.site.route(y)
    requires |env.menuRows| == 2 && items == MenuItemsOf(env.menuRows, ArgsOf(env, f))
    requires env.menuRows[0].published == 0 && !env.menuRows[0].home && env.menuRows[1].home
    ensures |items| == 2 && !items[0].home && items[1].home
    ensures items[0].exclude != []
    ensures MenuKeyOf(env, items[0]) == MenuKeyOf(env, items[1])
  {
    var args := ArgsOf(env, f);
    assert items[0] == MenuItemOf(env.menuRows[0], args);
    UnpublishedExcluded(env.menuRows[0], args);
    var loc0, loc1 := items[0].loc, items[1].loc;
    assert env.site.route(loc0) == env.site.route(loc1);
  }

  /** An unpublished menu item other than the home item has a reason to be excluded. */
  lemma UnpublishedExcluded(row: MenuRow, args: MenuArgs)
    requires row.published == 0 && !row.home
    ensures MenuItemOf(row, args).exclude != []
  {
    MenuReasonsApply(row, args, MenuUnpublished);
  }

  /** An item with reasons of its own keeps them in its record. */
  lemma ExcludedRecord(env: Env, f: Filters, item: MenuItem)
    requires !item.home && item.exclude != []
    ensures MenuRecordOf(env, f, item).exclude != []
  {
    var link := LinkOf(env.site, item.loc);
    MergeShape(item.exclude, Filtering(link, f.raw, f.strpos, None));
  }

  lemma CollisionSteps(env: Env, f: Filters, items: seq<MenuItem>)
    requires |items| == 2 && !items[0].home && items[1].home
    requires MenuRecordOf(env, f, items[0]).exclude != []
    requires MenuKeyOf(env, items[0]) == MenuKeyOf(env, items[1])
    requires env.pluginRows == [] && f == FiltersOf(env.config)
    requires items == MenuItemsOf(env.menuRows, ArgsOf(env, f))
    ensures Overlaps(Aggregate(env))
  {
    var a := MenuPhase(env, f, Start(env, f), items);
    assert Aggregate(env) == PluginPhase(env, f, a, []);
    TwoStepPhase(env, f, Start(env, f), items);
    TwoStepOverlap(env, f, Start(env, f), items[0], items[1]);
  }

  /** The menu loop over two items is two steps. */
  lemma TwoStepPhase(env: Env, f: Filters, a: Agg, items: seq<MenuItem>)
    requires |items| == 2
    ensures MenuPhase(env, f, a, items) == MenuStep(env, f, MenuStep(env, f, a, items[0]), items[1])
  {
    var one := items[..1];
    assert one[..|one| - 1] == [] && one[|one| - 1] == items[0];
    assert MenuPhase(env, f, a, one) == MenuStep(env, f, a, items[0]);
    assert items[..|items| - 1] == one;
  }

  /**
   * An excluded item followed by an included one under the same key leaves
   * that key in both maps.
   */
  lemma TwoStepOverlap(env: Env, f: Filters, a: Agg, x: MenuItem, y: MenuItem)
    requires MenuRecordOf(env, f, x).exclude != [] && y.home
    requires MenuKeyOf(env, x) == MenuKeyOf(env, y)
    ensures Overlaps(MenuStep(env, f, MenuStep(env, f, a, x), y))
  {
    var k := MenuKeyOf(env, x);
    var b := MenuStep(env, f, a, x);
    MenuStepFiles(env, f, a, x);
    MenuStepFiles(env, f, b, y);
    assert k in MenuStep(env, f, b, y).includes;
  }

  /** Some key is both included and excluded. */
  predicate Overlaps(a: Agg)
  {
    exists k :: k in a.includes && k in a.excludes
  }

  // ---------------------------------------------------------------------------
  // The home page

  /** The home page is filed under `k`: collected, included, without exclusions, and a home key. */
  predicate HomeFiled(a: Agg, k: string)
  {
    k in a.includes && k in a.all && a.all[k].exclude == [] && k in a.homes
  }

  /** Menu items under other keys leave the home page filed. */
  lemma {:induction false} MenuPhaseKeepsHome(env: Env, f: Filters, a: Agg, items: seq<MenuItem>, k: string)
    requires HomeFiled(a, k)
    requires forall i :: 0 <= i < |items| ==> MenuKeyOf(env, items[i]) != k
    ensures HomeFiled(MenuPhase(env, f, a, items), k)
    decreases |items|
  {
    if items != [] {
      MenuPhaseKeepsHome(env, f, a, items[..|items| - 1], k);
      assert MenuKeyOf(env, items[|items| - 1]) != k;
      MenuStepFiles(env, f, MenuPhase(env, f, a, items[..|items| - 1]), items[|items| - 1]);
    }
  }

  /**
   * A plugin row under the home key gets no exclusions and merges with an
   * excluded-free record, so it keeps the home page included; rows under
   * other keys do not touch it.
   */
  lemma PluginStepKeepsHome(env: Env, f: Filters, a: Agg, row: PluginRow, k: string)
    requires HomeFiled(a, k)
    ensures HomeFiled(PluginStep(env, f, a, row), k)
  {
    if !PhpEmpty(row.loc) && PluginKeyOf(env, row) == k {
      assert PluginRecord(env, f, a, row).exclude == [];
    }
  }

  lemma {:induction false} PluginPhaseKeepsHome(env: Env, f: Filters, a: Agg, rows: seq<PluginRow>, k: string)
    requires HomeFiled(a, k)
    ensures HomeFiled(PluginPhase(env, f, a, rows), k)
    decreases |rows|
  {
    if rows != [] {
      PluginPhaseKeepsHome(env, f, a, rows[..|rows| - 1], k);
      PluginStepKeepsHome(env, f, PluginPhase(env, f, a, rows[..|rows| - 1]), rows[|rows| - 1], k);
    }
  }

  /**
   * On a site without SEF the home page always ends in `includes`: no menu
   * key is "index.php", and plugin rows under it get no exclusions. On a SEF
   * site a menu item routed to the home link can break this (see
   * `SefCollisionOverlap`).
   */
  lemma HomeIncluded(env: Env)
    requires !env.site.sef
    ensures KeyOf(HomeLink(env.site)) in Aggregate(env).includes
  {
    var f := FiltersOf(env.config);
    var items := MenuItemsOf(env.menuRows, ArgsOf(env, f));
    var k := KeyOf(HomeLink(env.site));
    assert HomeFiled(Start(env, f), k);
    PlainKeysFresh(env, f, items);
    MenuPhaseKeepsHome(env, f, Start(env, f), items, k);
    PluginPhaseKeepsHome(env, f, MenuPhase(env, f, Start(env, f), items), env.pluginRows, k);
  }

  // ---------------------------------------------------------------------------
  // The menu-item filter and the home keys

  /** The keys of the home items among `items`, in item order. */
  function HomeKeys(env: Env, items: seq<MenuItem>): seq<string>
    decreases |items|
  {
    if items == [] then []
    else
      var last := items[|items| - 1];
      HomeKeys(env, items[..|items| - 1]) + (if last.home then [MenuKeyOf(env, last)] else [])
  }

  /** A key is listed exactly when some home item has it. */
  lemma {:induction false} HomeKeysMembers(env: Env, items: seq<MenuItem>)
    ensures forall k :: k in HomeKeys(env, items) <==> exists i :: 0 <= i < |items| && items[i].home && MenuKeyOf(env, items[i]) == k
    decreases |items|
  {
    if items != [] {
      var n := |items| - 1;
      HomeKeysMembers(env, items[..n]);
      forall k ensures k in HomeKeys(env, items) <==> exists i :: 0 <= i < |items| && items[i].home && MenuKeyOf(env, items[i]) == k {
        if k in HomeKeys(env, items[..n]) {
          var i :| 0 <= i < n && items[..n][i].home && MenuKeyOf(env, items[..n][i]) == k;
          assert items[i] == items[..n][i];
        }
        if exists i :: 0 <= i < |items| && items[i].home && MenuKeyOf(env, items[i]) == k {
          var i :| 0 <= i < |items| && items[i].home && MenuKeyOf(env, items[i]) == k;
          if i < n {
            assert items[..n][i] == items[i];
          }
        }
      }
    }
  }

  /**
   * The menu loop appends to the home keys the key of every home item, in
   * item order, and no other key.
   */
  lemma {:induction false} MenuPhaseHomes(env: Env, f: Filters, a: Agg, items: seq<MenuItem>)
    ensures MenuPhase(env, f, a, items).homes == a.homes + HomeKeys(env, items)
    decreases |items|
  {
    if items == [] {
      assert a.homes + [] == a.homes;
    } else {
      var n := |items| - 1;
      MenuPhaseHomes(env, f, a, items[..n]);
    }
  }

  /** One menu step appends the item's key to the home keys exactly when it is the home item. */
  lemma MenuStepHomes(env: Env, f: Filters, a: Agg, item: MenuItem)
    ensures MenuStep(env, f, a, item).homes == a.homes + HomeKeys(env, [item])
  {
    assert [item][..0] == [];
  }

  /**
   * The home keys the plugin rows are checked against are the home page's
   * key followed by the keys of the home menu items.
   */
  lemma AggregateHomes(env: Env)
    ensures var items := MenuItemsOf(env.menuRows, ArgsOf(env, FiltersOf(env.config)));
      Aggregate(env).homes == [KeyOf(HomeLink(env.site))] + HomeKeys(env, items)
  {
    var f := FiltersOf(env.config);
    var items := MenuItemsOf(env.menuRows, ArgsOf(env, f));
    MenuPhaseHomes(env, f, Start(env, f), items);
    PluginPhaseKeeps(env, f, MenuPhase(env, f, Start(env, f), items), env.pluginRows);
  }

  /** Plugin steps change neither the home keys nor the menu-item filter. */
  lemma {:induction false} PluginPhaseKeeps(env: Env, f: Filters, a: Agg, rows: seq<PluginRow>)
    ensures PluginPhase(env, f, a, rows).homes == a.homes
    ensures PluginPhase(env, f, a, rows).menuItems == a.menuItems
    decreases |rows|
  {
    if rows != [] {
      PluginPhaseKeeps(env, f, a, rows[..|rows| - 1]);
    }
  }

  /** A falsy menu-item filter is never appended to by the menu loop. */
  lemma {:induction false} MenuPhaseKeepsFilter(env: Env, f: Filters, a: Agg, items: seq<MenuItem>)
    requires !Truthy(a.menuItems)
    ensures MenuPhase(env, f, a, items).menuItems == a.menuItems
    decreases |items|
  {
    if items != [] {
      MenuPhaseKeepsFilter(env, f, a, items[..|items| - 1]);
    }
  }

  /**
   * The menu-item filter the plugin rows see is the one set up at the start:
   * an empty array when menu filtering is on with a non-empty menu list,
   * `false` otherwise.
   */
  lemma AggregateMenuFilter(env: Env)
    ensures var c, f := env.config, FiltersOf(env.config);
      MenuPhase(env, f, Start(env, f), MenuItemsOf(env.menuRows, ArgsOf(env, f))).menuItems
        == (if c.filterMenu && c.filterMenuMenus != [] then Some([]) else None)
    ensures Aggregate(env).menuItems == FiltersOf(env.config).menuItems
  {
    var f := FiltersOf(env.config);
    var items := MenuItemsOf(env.menuRows, ArgsOf(env, f));
    MenuPhaseKeepsFilter(env, f, Start(env, f), items);
    PluginPhaseKeeps(env, f, MenuPhase(env, f, Start(env, f), items), env.pluginRows);
  }

  /**
   * With the menu-item filter an empty array, a plugin URL outside the home
   * keys is always excluded, and for a non-empty link the `filter_menu`
   * reason is among its exclusions (the plugin's own reasons form a PHP
   * array, so their keys are unique).
   */
  lemma MenuFilterExcludesPluginUrl(env: Env, f: Filters, a: Agg, row: PluginRow)
    requires a.menuItems == Some([])
    requires !PhpEmpty(row.loc) && PluginKeyOf(env, row) !in a.homes
    requires UniqueKeys(OwnExclusions(row.exclude))
    ensures var b := PluginStep(env, f, a, row);
      var k := PluginKeyOf(env, row);
      && k in b.excludes && k !in b.includes
      && (!PhpEmpty(LinkOf(env.site, row.loc)) ==> Entry(Some(MenuKey), FilterMenu) in b.excludes[k].exclude)
  {
    var link := LinkOf(env.site, row.loc);
    var k := KeyOf(link);
    var own := OwnExclusions(row.exclude);
    var filt := Filtering(link, f.raw, f.strpos, a.menuItems);
    var cand := PluginCandidate(env, f, a.homes, a.menuItems, row);
    assert cand.exclude == ArrayMerge(own, filt);
    MergeShape(own, filt);
    if k in a.all {
      MergeShape(a.all[k].exclude, cand.exclude);
    }
    var rec := PluginRecord(env, f, a, row);
    assert rec.exclude != [];
    if !PhpEmpty(link) {
      var e := Entry(Some(MenuKey), FilterMenu);
      FilteringMenu(link, f.raw, f.strpos, a.menuItems);
      FilteringUniqueKeys(link, f.raw, f.strpos, a.menuItems);
      var i :| 0 <= i < |filt| && filt[i] == e;
      MergeKeepsLast(own, filt, i);
      MergeLookup(own, filt, MenuKey);
      var j :| 0 <= j < |cand.exclude| && cand.exclude[j] == e;
      if k in a.all && a.all[k].exclude != [] {
        MergeKeepsLast(a.all[k].exclude, cand.exclude, j);
      }
      assert e in rec.exclude;
    }
  }

  /**
   * A plugin row under a home key brings no exclusions of its own: the
   * stored record keeps exactly the exclusions already stored under the key.
   */
  lemma HomeRowAddsNoExclusions(env: Env, f: Filters, a: Agg, row: PluginRow)
    requires !PhpEmpty(row.loc) && PluginKeyOf(env, row) in a.homes
    ensures var k := PluginKeyOf(env, row);
      PluginStep(env, f, a, row).all[k].exclude == (if k in a.all then a.all[k].exclude else [])
  {
    var k := PluginKeyOf(env, row);
    var cand := PluginCandidate(env, f, a.homes, a.menuItems, row);
    assert cand.exclude == [];
    if k in a.all && a.all[k].exclude != [] {
      assert ArrayMerge(a.all[k].exclude, cand.exclude) == a.all[k].exclude;
    }
  }

  // ---------------------------------------------------------------------------
  // The merge rules

  lemma ChangefreqValueInjective(x: Changefreq, y: Changefreq)
    requires x.Value() == y.Value()
    ensures x == y
  {
  }

  /**
   * The merge of change frequency, priority and lastmod does not depend on
   * which record came first: the more frequent changefreq, the lower
   * priority and the later lastmod win either way.
   */
  lemma MergeOrderIndependent(x: UrlRecord, y: UrlRecord)
    ensures Merge(x, y).changefreq == Merge(y, x).changefreq
    ensures Merge(x, y).priority == Merge(y, x).priority
    ensures LastmodSet(Merge(x, y).lastmod) == LastmodSet(Merge(y, x).lastmod)
    ensures LastmodSet(Merge(x, y).lastmod) ==> Merge(x, y).lastmod == Merge(y, x).lastmod
  {
    ChangefreqValueInjective(Merge(x, y).changefreq, Merge(y, x).changefreq);
  }
}
