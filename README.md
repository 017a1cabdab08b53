# JL Sitemap: the sitemap model in Dafny

This project models the core of the JL Sitemap component for Joomla, the
site model `JLSitemapModelSitemap`. The model does four things:

- It collects the URLs of the site: the home page, every menu item and
  every URL a sitemap plugin supplies.
- It files each URL by key in three maps: `all`, `includes` and `excludes`.
  Exclusion reasons come from the menu item itself, from the plugin, and
  from the component's filters: raw substrings, a list of strings, and
  menu membership.
- It merges records that share a key.
- It writes the included URLs as a sitemaps.org 0.9 XML file, after applying
  the configured regular-expression replacements.

Modules, in dependency order:

- `Wrappers`: `Option`.
- `PhpStrings`: the PHP string behaviour the component relies on. This is
  `empty()` on strings, `trim`, `rtrim(..., '/')`, splitting on line
  breaks, ASCII case-insensitive substring search (`mb_stripos`), and
  integer-to-decimal conversion.
- `PhpArrays`: PHP arrays as ordered lists of entries under string or
  integer keys, with assignment under a key and `array_merge`.
- `KeyOrder`: `ksort` on string keys, compared byte by byte as `strcmp`
  does (keys PHP would store as integers are not modelled, see below).
- `Records`: the url record, its change frequencies and the exclusion
  reasons.
- `MenuItems`: `getMenuItems`, one item per menu row. It gives the item's
  loc, the component name, and the reasons for leaving the item out.
- `UrlFilters`: `filtering()`, and the raw and strpos filter lists that
  `getUrls` builds from the options.
- `Aggregation`: `getUrls` written as step functions (home page, one step
  per menu item, one step per plugin row) and folds of those steps.
- `Partition`: what the steps guarantee about the three maps, the
  menu-item filter and the home keys.
- `SitemapXml`: the children of each `<url>` element, and the regexp
  post-processing of `generate`.
- `SitemapModel`: the model object as a class whose memo fields are filled
  by `GetMenuItems`, `GetUrls` and `GetXml`, plus `Generate`. The loops of
  `getUrls`, `getMenuItems`, `getXML` and `generate` are methods. Each one
  is proved to compute the fold it models.

Points where the code's behaviour is easy to misread, as the model states
them:

- Change frequency. When a plugin row meets a stored record under the same
  key, the more frequent change frequency wins (the lower rank). On a tie
  the new one is kept (sitemap.php:353-357).
- Priority. The lower priority wins, and on a tie the new record's value
  is kept.
- Home items. Home menu items get no exclusions at all, not even from the
  raw and strpos filters. A plugin row whose key is a home key also gets
  no exclusions: none of its own, and none from any filter.
- Menu filter. The menu-membership check in `filtering()` fires only when
  the list it is given is an empty array. The menu loop never appends to
  that list, because it starts as an empty array and an empty array is
  falsy. So with menu filtering on and a non-empty list of menus, every
  plugin URL with a non-empty link outside the home keys gets the
  `filter_menu` reason (`MenuFilterExcludesPluginUrl`). With no menus
  selected the list is `false` and no URL gets that reason
  (`AggregateMenuFilter`); a URL with an empty link gets only
  `filter_null`. Menu items are never checked against it.
- Overlap on SEF sites. On a SEF site, a menu item can be routed to a key
  that an earlier item filed under the other classification. The key then
  stays in both `includes` and `excludes` (`SefCollisionOverlap`). The
  invariant that an excluded record never stays included therefore holds
  only when keys do not collide that way (`PlainSiteCoherent`). Plugin
  rows always keep it (`PluginPhaseCoherent`).

## Model

| member | source | states |
|---|---|---|
| PhpStrings.Trim | com_jlsitemap/site/models/sitemap.php:184-187 | `trim` leaves no blank at either end of its result |
| PhpStrings.TrimBounds | com_jlsitemap/site/models/sitemap.php:184-187 | `trim` returns the infix between a leading and a trailing run of blanks |
| PhpStrings.TrimLeft | com_jlsitemap/site/models/sitemap.php:184-187 | the left trim drops exactly a leading run of blanks |
| PhpStrings.TrimRight | com_jlsitemap/site/models/sitemap.php:184-187 | the right trim drops exactly a trailing run of blanks |
| PhpStrings.RTrimSlash | com_jlsitemap/site/models/sitemap.php:205-207 | `rtrim(..., '/')` drops exactly the trailing slashes |
| PhpStrings.SplitLines | com_jlsitemap/site/models/sitemap.php:186 | the lines hold no line break, and joined with "\n" they give the text with each "\r\n", "\r" or "\n" written as "\n": one cut per separator, as `preg_split` makes |
| PhpStrings.ContainsIffOccurs | com_jlsitemap/site/models/sitemap.php:577 | the substring search succeeds exactly when the needle occurs at some position |
| PhpStrings.Lower | com_jlsitemap/site/models/sitemap.php:577 | case folding maps each character on its own and keeps the length |
| PhpStrings.NatToString | com_jlsitemap/site/models/sitemap.php:474 | an id is written as a non-empty run of decimal digits |
| PhpStrings.ParseNatToString | com_jlsitemap/site/models/sitemap.php:474 | reading the digits of an id back gives the id |
| PhpStrings.DigitPrefix | com_jlsitemap/site/models/sitemap.php:474 | the digit prefix is the longest leading run of digits |
| PhpStrings.DigitPrefixOfDigits | com_jlsitemap/site/models/sitemap.php:474-477 | the digits of an id followed by a non-digit are read back as exactly those digits |
| PhpArrays.IndexOfKey | com_jlsitemap/site/models/sitemap.php:579 | the index found holds the key, and no index is found only when no entry has the key |
| PhpArrays.MergeShape | com_jlsitemap/site/models/sitemap.php:243 | `array_merge` keeps every key of its first argument at its position, adds at most the entries of the second, and is empty only when both arguments are |
| PhpArrays.ArrayMerge | com_jlsitemap/site/models/sitemap.php:243 | reference definition of `array_merge`, entry by entry through `Put` (its properties are `MergeShape`, `MergePositional` and `MergeLookup`) |
| PhpArrays.Put | com_jlsitemap/site/models/sitemap.php:243 | reference definition of one entry of `array_merge` (its properties are `PutFacts` and `PutPositional`) |
| PhpArrays.MergePositional | com_jlsitemap/site/models/sitemap.php:332 | the integer-keyed reasons of both arguments are all kept, first argument first |
| PhpArrays.MergeLookup | com_jlsitemap/site/models/sitemap.php:376 | with unique keys, each string key of the merge holds the second argument's value if it has one, else the first's |
| PhpArrays.MergeKeepsLast | com_jlsitemap/site/models/sitemap.php:376 | the last entry of the second argument under a key survives the merge |
| PhpArrays.MergeKeeps | com_jlsitemap/site/models/sitemap.php:376 | a keyed entry of the first argument survives when the second never uses its key |
| PhpArrays.PutFacts | com_jlsitemap/site/models/sitemap.php:579 | assignment under a key keeps keys unique and overwrites only that key |
| PhpArrays.PutPositional | com_jlsitemap/site/models/sitemap.php:332 | assignment keeps the integer-keyed entries and appends a new one |
| PhpArrays.PositionalConcat | com_jlsitemap/site/models/sitemap.php:332 | the integer-keyed entries of a concatenation are those of each part |
| PhpArrays.FirstKey | com_jlsitemap/site/models/sitemap.php:376 | with unique keys, the lookup of a key returns the value at its only position |
| KeyOrder.LessIrreflexive | com_jlsitemap/site/models/sitemap.php:411-413 | no key sorts before itself |
| KeyOrder.LessAsymmetric | com_jlsitemap/site/models/sitemap.php:411-413 | two keys never sort before each other |
| KeyOrder.LessTransitive | com_jlsitemap/site/models/sitemap.php:411-413 | the key order is transitive |
| KeyOrder.LessTotal | com_jlsitemap/site/models/sitemap.php:411-413 | any two different keys are ordered |
| KeyOrder.InsertByKey | com_jlsitemap/site/models/sitemap.php:411-413 | inserting a new key into a sorted listing keeps it sorted and adds exactly that pair |
| KeyOrder.KSort | com_jlsitemap/site/models/sitemap.php:411-413 | `ksort` lists exactly the pairs of the map, in strictly increasing key order |
| KeyOrder.KSortUnique | com_jlsitemap/site/models/sitemap.php:411-413 | a map has only one sorted listing, so the result of `ksort` is determined |
| KeyOrder.EmptyListing | com_jlsitemap/site/models/sitemap.php:411-413 | the listing is empty exactly when the map is |
| KeyOrder.TailListing | com_jlsitemap/site/models/sitemap.php:411-413 | the listing without its first pair lists the map without the smallest key |
| Records.Numbered | com_jlsitemap/site/models/sitemap.php:481-527 | reasons appended with `[]` are unkeyed and keep their order |
| MenuItems.MenuLocRoundTrip | com_jlsitemap/site/models/sitemap.php:474-478 | an item's loc gives back its id, and its language exactly when the language was appended |
| MenuItems.MenuLocInjective | com_jlsitemap/site/models/sitemap.php:474-478 | rows with different ids never share a loc |
| MenuItems.MenuLoc | com_jlsitemap/site/models/sitemap.php:474-478 | reference definition of the item loc: it starts with "index.php?Itemid=" (read back by `MenuLocRoundTrip`) |
| MenuItems.NameRun | com_jlsitemap/site/models/sitemap.php:468 | the option capture is the longest leading run of `[a-zA-Z-0-9_]` characters |
| MenuItems.OptionCapture | com_jlsitemap/site/models/sitemap.php:468 | the capture, when the link matches, is a run of `[a-zA-Z-0-9_]` characters at the start of what follows "index.php?option=" |
| MenuItems.ComponentName | com_jlsitemap/site/models/sitemap.php:466-471 | the component is the joined element unless a component item has none; then it is the link's `option`, or "unknown" |
| MenuItems.Check | com_jlsitemap/site/models/sitemap.php:484-526 | each check yields at most one reason, of its own rank |
| MenuItems.ChecksFrom | com_jlsitemap/site/models/sitemap.php:482-527 | the checks yield their reasons in the fixed order, at most one per check |
| MenuItems.ChecksFromMembers | com_jlsitemap/site/models/sitemap.php:482-527 | a reason is collected exactly when the check of its rank yields it |
| MenuItems.CheckApplies | com_jlsitemap/site/models/sitemap.php:484-526 | each check yields a reason exactly when that reason applies to the row |
| MenuItems.MenuReasons | com_jlsitemap/site/models/sitemap.php:480-528 | a menu row's reasons are ranked, and the home item has none |
| MenuItems.MenuReasonsApply | com_jlsitemap/site/models/sitemap.php:480-528 | a reason is collected exactly when the row is not the home item and the reason applies to it |
| MenuItems.MenuItemOf | com_jlsitemap/site/models/sitemap.php:463-539 | the item's loc is exactly "index.php?Itemid=<id>", with "&lang=<language>" when tagged (read back by `ParseMenuLoc`); it keeps the row's title and home flag; its exclusions are the row's reasons, unkeyed and in order, and none for the home item |
| MenuItems.PositionalNumbered | com_jlsitemap/site/models/sitemap.php:481-527 | the reasons are read back unchanged from the exclusion array |
| MenuItems.MenuItemsOf | com_jlsitemap/site/models/sitemap.php:463-541 | one item per menu row, in row order |
| MenuItems.MenuItemsOfSnoc | com_jlsitemap/site/models/sitemap.php:463-539 | one more row adds its item at the end |
| UrlFilters.FirstMatchIsFirst | com_jlsitemap/site/models/sitemap.php:575-583 | the loop stops at the earliest entry contained in the link, and finds none only when no entry is contained |
| UrlFilters.FirstMatch | com_jlsitemap/site/models/sitemap.php:575-583 | reference definition of the `foreach ... break` search: a found entry is in the list and contained in the link (the full property is `FirstMatchIsFirst`) |
| UrlFilters.FirstReason | com_jlsitemap/site/models/sitemap.php:573-597 | a filter list yields at most one reason, filed under the key of the entry it names, and yields one when an entry matches |
| UrlFilters.MenuReason | com_jlsitemap/site/models/sitemap.php:601-619 | the `filter_menu` reason is given exactly when the menu list is the empty array |
| UrlFilters.Filtering | com_jlsitemap/site/models/sitemap.php:559-622 | an empty link yields only `filter_null`; otherwise every reason is keyed, in the order raw, strpos, menu |
| UrlFilters.FilteringRaw | com_jlsitemap/site/models/sitemap.php:572-584 | for a non-empty link, a raw reason is present exactly when a raw entry occurs in the link, and it names the first one |
| UrlFilters.FilteringStrpos | com_jlsitemap/site/models/sitemap.php:586-598 | for a non-empty link, a strpos reason is present exactly when a strpos entry occurs in the link, and it names the first one |
| UrlFilters.FilteringMenu | com_jlsitemap/site/models/sitemap.php:600-619 | for a non-empty link, `filter_menu` is present exactly when the menu list is the empty array |
| UrlFilters.FilterKeysDiffer | com_jlsitemap/site/models/sitemap.php:579-615 | raw, strpos and menu reasons are filed under different keys |
| UrlFilters.FilteringUniqueKeys | com_jlsitemap/site/models/sitemap.php:559-622 | no two reasons of `filtering()` share a key |
| UrlFilters.RawFilter | com_jlsitemap/site/models/sitemap.php:166-180 | the raw list is off exactly when no flag is set, and otherwise holds the flagged candidates in candidate order |
| UrlFilters.TrimAll | com_jlsitemap/site/models/sitemap.php:187 | every line is trimmed, in place |
| UrlFilters.KeepNonEmpty | com_jlsitemap/site/models/sitemap.php:187-189 | exactly the lines that are not empty in PHP's sense are kept |
| UrlFilters.KeepNonEmptyAppend | com_jlsitemap/site/models/sitemap.php:187-189 | filtering a concatenation concatenates the filtered parts, so `array_filter` keeps the order and the repeats of the lines |
| UrlFilters.KeepNonEmptyOne | com_jlsitemap/site/models/sitemap.php:187-189 | a single line is kept exactly when it is not empty |
| UrlFilters.StrposFilterNone | com_jlsitemap/site/models/sitemap.php:182-195 | the strpos list is off exactly when no line trims to a non-empty string, so the blank-text guard never changes the outcome |
| UrlFilters.StrposFilterEntries | com_jlsitemap/site/models/sitemap.php:182-195 | otherwise the list is the non-empty trimmed lines in line order, repeats kept, none with a break or an outer blank |
| UrlFilters.StrposFilter | com_jlsitemap/site/models/sitemap.php:182-195 | reference definition of the strpos list: `false`, or a non-empty list of non-empty lines |
| UrlFilters.SolidOfTrim | com_jlsitemap/site/models/sitemap.php:184-187 | trimming keeps every non-blank character |
| UrlFilters.TrimmedFew | com_jlsitemap/site/models/sitemap.php:184 | a text with at most one non-blank character trims to "" or that character |
| UrlFilters.BlankTextBlankLines | com_jlsitemap/site/models/sitemap.php:184-189 | when the whole text trims to "" or "0", every line does too |
| Aggregation.FiltersOf | com_jlsitemap/site/models/sitemap.php:157-195 | the menus filter is the configured menu list with menu filtering on and `false` otherwise; the menu-item filter is an empty array exactly when that list is non-empty; and the raw and strpos lists |
| Aggregation.KeyOf | com_jlsitemap/site/models/sitemap.php:206 | the key is never empty: it is "/" for an empty link ("" or "0") and the link itself otherwise |
| Aggregation.DefaultChangefreq | com_jlsitemap/site/models/sitemap.php:208 | the configured change frequency, "weekly" when unset |
| Aggregation.DefaultPriority | com_jlsitemap/site/models/sitemap.php:210 | the configured priority, 0.5 when unset |
| Aggregation.HomeLink | com_jlsitemap/site/models/sitemap.php:205 | the home link is never empty |
| Aggregation.HomeRecord | com_jlsitemap/site/models/sitemap.php:202-221 | the home record has the site name as title, the home link, the absolute loc `rtrim(root, '/')` + link, the configured changefreq and priority (or their defaults), the menu type, no exclusions and no lastmod |
| Aggregation.Start | com_jlsitemap/site/models/sitemap.php:197-225 | after the home page, `all` and `includes` hold just the home record, its key is the one home key, and the menu-item filter is the configured one |
| Aggregation.MenuRecordOf | com_jlsitemap/site/models/sitemap.php:230-260 | a menu record has the routed link, the absolute loc, the item's title and type, the configured changefreq and priority; the home item has no exclusions; any other item has its own reasons merged with the raw and strpos reasons |
| Aggregation.MenuStep | com_jlsitemap/site/models/sitemap.php:230-280 | reference definition of one menu iteration: it adds exactly the item's key to `all`, never removes a key from `includes` or `excludes`, appends the key to the home keys exactly for the home item, and to a truthy menu-item filter exactly for other items |
| Aggregation.MenuPhase | com_jlsitemap/site/models/sitemap.php:228-281 | reference definition of the menu loop: `all`, `includes`, `excludes` and the home keys only grow (which keys become home keys is `MenuPhaseHomes`) |
| Aggregation.OwnExclusions | com_jlsitemap/site/models/sitemap.php:321-330 | a plugin's reason list is kept as given, no exclude gives none, and a non-empty legacy message becomes exactly one unkeyed reason carrying it |
| Aggregation.PluginCandidate | com_jlsitemap/site/models/sitemap.php:300-338 | the routed link and absolute loc, the row's title and lastmod, its type or "unknown", its changefreq and priority or the configured ones; a row under a home key gets no exclusions; any other row gets its own followed by all three filters' reasons |
| Aggregation.MergeLastmod | com_jlsitemap/site/models/sitemap.php:362-372 | the merged lastmod is set when either one is, and it is the later of those that are set |
| Aggregation.Merge | com_jlsitemap/site/models/sitemap.php:340-378 | merged types, the new title unless it is empty, the lower change-frequency rank, the lower priority, the later lastmod; the exclusions are `array_merge(stored, new)` when the stored ones are non-empty and the new ones otherwise, so excluded exactly when either side is |
| Aggregation.Stored | com_jlsitemap/site/models/sitemap.php:389-393 | only the lastmod changes, and it is kept only when truthy |
| Aggregation.PluginRecord | com_jlsitemap/site/models/sitemap.php:302-393 | reference definition of a plugin row's record: the routed link, a lastmod only when truthy, and no exclusions under a home key whose stored record has none |
| Aggregation.PluginStep | com_jlsitemap/site/models/sitemap.php:302-407 | reference definition of one plugin iteration: an empty loc changes nothing; otherwise the key is in `includes` exactly when its record has no exclusions, excluded keys stay in `excludes`, and other keys keep their place |
| Aggregation.PluginPhase | com_jlsitemap/site/models/sitemap.php:300-408 | reference definition of the plugin loop: `all` and `excludes` only grow, and the home keys and menu-item filter are untouched |
| Aggregation.Aggregate | com_jlsitemap/site/models/sitemap.php:157-408 | reference definition of `getUrls` before sorting: filter setup, home page, menu loop, plugin loop (its properties are the `Partition` lemmas) |
| Partition.MenuStepCovered | com_jlsitemap/site/models/sitemap.php:262-271 | a menu step keeps every key of `all` included or excluded, and loses no key |
| Partition.PluginStepCovered | com_jlsitemap/site/models/sitemap.php:395-407 | a plugin step keeps every key of `all` included or excluded, and loses no key |
| Partition.MenuPhaseCovered | com_jlsitemap/site/models/sitemap.php:228-281 | so does the whole menu loop |
| Partition.PluginPhaseCovered | com_jlsitemap/site/models/sitemap.php:300-408 | so does the whole plugin loop |
| Partition.AggregateCovered | com_jlsitemap/site/models/sitemap.php:197-408 | every collected URL is included or excluded, and the home key is always collected |
| Partition.FileCoherent | com_jlsitemap/site/models/sitemap.php:396-407 | filing a record under its key keeps the three maps in agreement when the key leaves the other map |
| Partition.PluginStepCoherent | com_jlsitemap/site/models/sitemap.php:340-407 | a plugin step keeps `includes` and `excludes` disjoint and in step with `all`, for every row |
| Partition.PluginPhaseCoherent | com_jlsitemap/site/models/sitemap.php:300-408 | so does the whole plugin loop |
| Partition.MenuStepCoherent | com_jlsitemap/site/models/sitemap.php:262-271 | a menu step keeps the maps in agreement when its key is new or is classified as before |
| Partition.MenuStepFiles | com_jlsitemap/site/models/sitemap.php:262-271 | a menu step files its record under its key and leaves the other map unchanged |
| Partition.MenuPhaseCoherent | com_jlsitemap/site/models/sitemap.php:228-281 | menu items with fresh, pairwise distinct keys keep the maps in agreement |
| Partition.MenuPhaseKeys | com_jlsitemap/site/models/sitemap.php:228-281 | the menu loop adds to `all` only the keys of its items |
| Partition.PlainMenuKey | com_jlsitemap/site/models/sitemap.php:231-232 | without SEF, a menu item's key is its loc, which encodes the row's id |
| Partition.StartCoherent | com_jlsitemap/site/models/sitemap.php:223-224 | the home page alone leaves the maps in agreement |
| Partition.PlainKeysFresh | com_jlsitemap/site/models/sitemap.php:205-232 | without SEF, no menu key is the home key |
| Partition.PlainKeysDistinct | com_jlsitemap/site/models/sitemap.php:231-232 | without SEF, menu rows with distinct ids have distinct keys |
| Partition.PlainSiteCoherent | com_jlsitemap/site/models/sitemap.php:197-408 | on a site without SEF, `includes` and `excludes` end disjoint and each holds the final record of its keys |
| Partition.MenuPhaseKeepsHome | com_jlsitemap/site/models/sitemap.php:228-281 | menu items under other keys leave the home page included, collected, without exclusions and a home key |
| Partition.PluginStepKeepsHome | com_jlsitemap/site/models/sitemap.php:319-407 | a plugin row keeps the home page included: under the home key it brings no exclusions and merges with a record that has none |
| Partition.PluginPhaseKeepsHome | com_jlsitemap/site/models/sitemap.php:300-408 | so does the whole plugin loop |
| Partition.HomeIncluded | com_jlsitemap/site/models/sitemap.php:197-408 | on a site without SEF the home page always ends in `includes` |
| Partition.SefCollisionOverlap | com_jlsitemap/site/models/sitemap.php:228-271 | on a SEF site, an unpublished item followed by the home item under one link leaves that key in both maps |
| Partition.CollisionItems | com_jlsitemap/site/models/sitemap.php:463-539 | on such a site the first item has reasons and both items share one key |
| Partition.UnpublishedExcluded | com_jlsitemap/site/models/sitemap.php:497-501 | an unpublished non-home item has a reason to be excluded |
| Partition.ExcludedRecord | com_jlsitemap/site/models/sitemap.php:240-243 | a menu item's own reasons survive into its record |
| Partition.CollisionSteps | com_jlsitemap/site/models/sitemap.php:228-271 | an excluded item then an included one under one key gives an overlap, with no plugin rows |
| Partition.TwoStepPhase | com_jlsitemap/site/models/sitemap.php:228 | the menu loop over two items is two steps |
| Partition.TwoStepOverlap | com_jlsitemap/site/models/sitemap.php:262-271 | an excluded record followed by an included one under the same key is in both maps |
| Partition.PluginPhaseKeeps | com_jlsitemap/site/models/sitemap.php:300-408 | plugin rows change neither the home keys nor the menu-item filter |
| Partition.HomeKeysMembers | com_jlsitemap/site/models/sitemap.php:273-276 | the home-key list holds a key exactly when some home item has it |
| Partition.MenuStepHomes | com_jlsitemap/site/models/sitemap.php:273-276 | a menu step appends its key to the home keys exactly when the item is the home item |
| Partition.MenuPhaseHomes | com_jlsitemap/site/models/sitemap.php:228-281 | the menu loop appends exactly the keys of the home items, in item order |
| Partition.AggregateHomes | com_jlsitemap/site/models/sitemap.php:223-281 | the home keys the plugin rows are checked against are the home page's key followed by the home items' keys |
| Partition.MenuPhaseKeepsFilter | com_jlsitemap/site/models/sitemap.php:273-280 | a falsy menu-item filter is never appended to |
| Partition.AggregateMenuFilter | com_jlsitemap/site/models/sitemap.php:158-161 | the menu-item filter the plugin rows see is an empty array when menu filtering is on with a non-empty menu list, and off otherwise |
| Partition.MenuFilterExcludesPluginUrl | com_jlsitemap/site/models/sitemap.php:319-338 | with that empty filter, a plugin URL outside the home keys is excluded, and carries `filter_menu` when its link is not empty |
| Partition.HomeRowAddsNoExclusions | com_jlsitemap/site/models/sitemap.php:319-377 | a plugin row under a home key leaves exactly the exclusions already stored |
| Partition.ChangefreqValueInjective | com_jlsitemap/site/models/sitemap.php:154-155 | each change frequency has its own rank |
| Partition.MergeOrderIndependent | com_jlsitemap/site/models/sitemap.php:351-372 | changefreq, priority and lastmod merge the same whichever record came first |
| SitemapXml.UrlEntry | com_jlsitemap/site/models/sitemap.php:114-127 | a `<url>` element has three children, or four with a lastmod |
| SitemapXml.UrlEntryRoundTrip | com_jlsitemap/site/models/sitemap.php:114-127 | the children carry exactly the record's loc, changefreq, priority and lastmod |
| SitemapXml.Entries | com_jlsitemap/site/models/sitemap.php:111-128 | one element per listed record, in listing order, each carrying that record's fields |
| SitemapXml.Effective | com_jlsitemap/site/models/sitemap.php:78-81 | exactly the pairs with a non-empty pattern are applied |
| SitemapXml.EffectiveAppend | com_jlsitemap/site/models/sitemap.php:78-81 | the pairs kept from a concatenation are those kept from each part, so the configured order and repeats are kept |
| SitemapXml.EffectiveOne | com_jlsitemap/site/models/sitemap.php:78-81 | a single pair is kept exactly when its pattern is not empty |
| SitemapXml.ApplyRegexpsAppend | com_jlsitemap/site/models/sitemap.php:78-84 | each replacement works on the output of the ones before it |
| SitemapXml.ApplyRegexpsEffective | com_jlsitemap/site/models/sitemap.php:78-84 | pairs with an empty pattern do not change the outcome |
| SitemapXml.NoPatternsNoChange | com_jlsitemap/site/models/sitemap.php:76-85 | with no non-empty pattern the XML is written as generated |
| SitemapXml.ApplyRegexps | com_jlsitemap/site/models/sitemap.php:76-85 | reference definition of the replacement loop (its properties are `ApplyRegexpsAppend` and `ApplyRegexpsEffective`) |
| SitemapModel.Sitemap.constructor | com_jlsitemap/site/models/sitemap.php:34-52 | a new model has no stored urls, menu items or XML |
| SitemapModel.Sitemap.GetMenuItems | com_jlsitemap/site/models/sitemap.php:440-545 | on the first call it builds one item per menu row and stores them; later calls return what was stored |
| SitemapModel.Sitemap.GetUrls | com_jlsitemap/site/models/sitemap.php:144-425 | on the first call it stores the three maps of the aggregation, each sorted by key, and leaves the menu items stored; later calls return what was stored and change nothing else; the XML is untouched |
| SitemapModel.Sitemap.GetXml | com_jlsitemap/site/models/sitemap.php:107-135 | on the first call it serialises the given rows, or the included urls when none are given, and stores the text; later calls return what was stored; the menu items change only when it had to compute the urls, and are then stored |
| SitemapModel.Sitemap.Generate | com_jlsitemap/site/models/sitemap.php:63-96 | returns the urls; unless debugging, the file text is the stored XML of the included urls after the replacements; the menu items are stored after the first call and untouched after that |
| SitemapModel.GenerateTwice | com_jlsitemap/site/models/sitemap.php:63-96 | generating twice writes the same file text both times |
| SitemapModel.BuildMenuItems | com_jlsitemap/site/models/sitemap.php:463-541 | the loop of `getMenuItems` builds exactly one item per row |
| SitemapModel.CollectUrls | com_jlsitemap/site/models/sitemap.php:197-413 | the loops and the three `ksort` calls list the maps of the aggregation |
| SitemapModel.MenuLoop | com_jlsitemap/site/models/sitemap.php:197-281 | the home page and the menu loop compute the menu phase |
| SitemapModel.PluginLoop | com_jlsitemap/site/models/sitemap.php:300-408 | the plugin loop computes the plugin phase |
| SitemapModel.UrlEntries | com_jlsitemap/site/models/sitemap.php:114-128 | the loop of `getXML` builds the entries of the rows |
| SitemapModel.Rewrite | com_jlsitemap/site/models/sitemap.php:74-85 | the loop of `generate` applies the non-empty patterns in order |

## Left out

- The database query of `getMenuItems`, the plugin event that supplies the plugin rows, and the component and site options are inputs of the model: `Env` holds the menu rows in tree order, the plugin rows in plugin order, and the options.
- `Route::_`, `Uri::root`, the date formatting of lastmod, the SimpleXML serialisation and `preg_replace` are given as functions in `Env`, because they belong to the framework and not to this component.
- Writing `sitemap.xml` (deleting and appending the file) is not modelled. `Generate` returns the text it would write.
- The configuration snapshot that `getUrls` hands to the plugins is not modelled, because the plugins are not part of this model.
- The translated texts of the exclusion reasons are modelled as the `Reason` datatype, not as strings.
- `Aggregation.Merge`: priorities are whole hundredths compared as integers, not strings compared with `floatval`.
- `Records.Changefreq.Value`: a change frequency outside the seven known values (an undefined index in PHP) cannot be expressed.
- `PhpStrings.ContainsIffOccurs`: `mb_stripos` folds only ASCII letters in this model, not all of Unicode.
- `MenuItems.CheckApplies`: `in_array` is taken as strict equality on view levels, menu types and item types, not as PHP's loose comparison.
- `Aggregation.PluginCandidate`: the home-key test `in_array($key, $filterMenuHomes)` is taken as strict membership; PHP's loose comparison would also match numeric strings of equal value, such as "10" and "1e1".
- `KeyOrder.KSort`: keys are compared as byte strings. PHP stores a decimal key such as "123" as an integer, and `ksort` compares keys with its "smart" string comparison, which orders numeric strings by value: integer keys ("9" before "10") and numeric strings that stay strings, such as "1.5", "1e3" or " 12". Such keys, which a plugin loc like "123" on a site without SEF produces, are not modelled.
- `Partition.HomeIncluded`: stated for sites without SEF only. On a SEF site a non-home menu item with exclusions can be routed to the home link; a plugin row under that key then merges with the excluded record and takes the home key out of `includes` (the collision of `SefCollisionOverlap`).
- `Aggregation.OwnExclusions`: a plugin `exclude` that is neither a string nor an array of reasons, and the wrapping of reasons in `Registry` objects, are not modelled.
- `Partition.PlainSiteCoherent`: the menu rows are required to have distinct ids, as the query loads them keyed by id.
