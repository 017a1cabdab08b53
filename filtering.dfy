/**
 * The URL filters of the sitemap model: `filtering()`, which turns a link and
 * three optional filter lists into keyed exclusion reasons, and the building
 * of the raw and strpos filter lists from the component configuration.
 */
module UrlFilters {
  import opened Wrappers
  import opened PhpStrings
  import opened PhpArrays
  import opened Records

  /** A filter list, or PHP's `false` when the filter is off. */
  type FilterList = Option<seq<string>>

  /** PHP truthiness of a filter list: a non-empty array. */
  predicate Truthy(l: FilterList)
  {
    l.Some? && l.value != []
  }

  const NullKey := "filter_null"
  const RawPrefix := "filter_raw_"
  const StrposPrefix := "filter_strpos_"
  const MenuKey := "filter_menu"

  /** The string key under which `filtering()` files a reason. */
  function FilterKey(r: Reason): string
  {
    match r
    case FilterNull => NullKey
    case FilterRaw(f) => RawPrefix + f
    case FilterStrpos(f) => StrposPrefix + f
    case FilterMenu => MenuKey
    case _ => ""
  }

  /** The order in which a non-empty link collects filter reasons. */
  function FilterRank(r: Reason): nat
  {
    match r
    case FilterRaw(_) => 1
    case FilterStrpos(_) => 2
    case FilterMenu => 3
    case _ => 0
  }

  /** The first entry of `filters`, in list order, that occurs in `link` ignoring case. */
  function FirstMatch(link: string, filters: seq<string>): (r: Option<string>)
    ensures r.Some? ==> r.value in filters && ContainsCI(link, r.value)
  {
    if filters == [] then None
    else if ContainsCI(link, filters[0]) then Some(filters[0])
    else FirstMatch(link, filters[1..])
  }

  /** `FirstMatch` picks the earliest matching filter, and finds none only when nothing matches. */
  lemma {:induction false} FirstMatchIsFirst(link: string, filters: seq<string>)
    ensures FirstMatch(link, filters).None? <==> forall i :: 0 <= i < |filters| ==> !ContainsCI(link, filters[i])
    ensures FirstMatch(link, filters).Some? ==>
      exists i :: 0 <= i < |filters| && filters[i] == FirstMatch(link, filters).value
        && ContainsCI(link, filters[i])
        && forall j :: 0 <= j < i ==> !ContainsCI(link, filters[j])
  {
    if filters != [] && !ContainsCI(link, filters[0]) {
      FirstMatchIsFirst(link, filters[1..]);
      if FirstMatch(link, filters[1..]).Some? {
        var i :| 0 <= i < |filters[1..]| && filters[1..][i] == FirstMatch(link, filters[1..]).value
          && ContainsCI(link, filters[1..][i])
          && forall j :: 0 <= j < i ==> !ContainsCI(link, filters[1..][j]);
        assert filters[i + 1] == filters[1..][i];
        assert forall j :: 0 < j < i + 1 ==> filters[j] == filters[1..][j - 1];
      }
      assert forall i :: 0 < i < |filters| ==> filters[i] == filters[1..][i - 1];
    }
  }

  /** The reason of a filter list that fires on the first contained entry (the `foreach ... break` loops). */
  function FirstReason(link: string, filters: FilterList, strpos: bool): (r: Exclusions)
    ensures |r| <= 1
    ensures forall i :: 0 <= i < |r| ==>
      && r[i].key == Some(FilterKey(r[i].value))
      && FilterRank(r[i].value) == (if strpos then 2 else 1)
      && Truthy(filters) && FirstMatch(link, filters.value) == Some(FilterName(r[i].value))
    ensures Truthy(filters) && FirstMatch(link, filters.value).Some? ==> |r| == 1
  {
    if Truthy(filters) then
      match FirstMatch(link, filters.value)
      case Some(f) =>
        var reason := if strpos then FilterStrpos(f) else FilterRaw(f);
        [Entry(Some(FilterKey(reason)), reason)]
      case None => []
    else []
  }

  /** The filter entry a raw or strpos reason names. */
  function FilterName(r: Reason): string
  {
    match r
    case FilterRaw(f) => f
    case FilterStrpos(f) => f
    case _ => ""
  }

  /**
   * The `filter_menu` reason: the guard `!$menu && is_array($menu)` holds
   * only for the empty array, and then the loop looking for an entry
   * contained in the link finds none.
   */
  function MenuReason(link: string, menu: FilterList): (r: Exclusions)
    ensures r == [] || r == [Entry(Some(MenuKey), FilterMenu)]
    ensures r != [] <==> menu == Some([])
  {
    if menu.Some? && menu.value == [] && FirstMatch(link, menu.value).None?
    then [Entry(Some(MenuKey), FilterMenu)]
    else []
  }

  /**
   * `filtering($link, $raw, $strpos, $menu)`. An empty link yields the single
   * reason `filter_null`. Otherwise each entry is filed under its own key, in
   * the order raw, strpos, menu, at most one of each (see `FilteringRaw`, `FilteringStrpos`
   * and `FilteringMenu`).
   */
  function Filtering(link: string, raw: FilterList, strpos: FilterList, menu: FilterList): (r: Exclusions)
    ensures PhpEmpty(link) ==> r == [Entry(Some(NullKey), FilterNull)]
    ensures !PhpEmpty(link) ==>
      && (forall i :: 0 <= i < |r| ==> FilterRank(r[i].value) > 0 && r[i].key == Some(FilterKey(r[i].value)))
      && (forall i, j :: 0 <= i < j < |r| ==> FilterRank(r[i].value) < FilterRank(r[j].value))
  {
    if PhpEmpty(link) then
      [Entry(Some(NullKey), FilterNull)]
    else
      var rawPart := FirstReason(link, raw, false);
      var strposPart := FirstReason(link, strpos, true);
      var menuPart := MenuReason(link, menu);
      var r := rawPart + strposPart + menuPart;
      PartRanks(link, raw, strpos, menu);
      assert forall i :: 0 <= i < |r| ==> FilterRank(r[i].value) > 0 && r[i].key == Some(FilterKey(r[i].value)) by {
        forall i | 0 <= i < |r| ensures FilterRank(r[i].value) > 0 && r[i].key == Some(FilterKey(r[i].value)) {
          PartAt(rawPart, strposPart, menuPart, i);
        }
      }
      assert forall i, j :: 0 <= i < j < |r| ==> FilterRank(r[i].value) < FilterRank(r[j].value) by {
        forall i, j | 0 <= i < j < |r| ensures FilterRank(r[i].value) < FilterRank(r[j].value) {
          PartAt(rawPart, strposPart, menuPart, i);
          PartAt(rawPart, strposPart, menuPart, j);
        }
      }
      r
  }

  /** For a non-empty link, the reasons are the raw part, then the strpos part, then the menu part. */
  lemma FilteringParts(link: string, raw: FilterList, strpos: FilterList, menu: FilterList)
    requires !PhpEmpty(link)
    ensures Filtering(link, raw, strpos, menu)
      == FirstReason(link, raw, false) + FirstReason(link, strpos, true) + MenuReason(link, menu)
  {
  }

  /** Where position `i` of a three-part concatenation comes from. */
  lemma PartAt(a: Exclusions, b: Exclusions, c: Exclusions, i: nat)
    requires i < |a| + |b| + |c|
    ensures i < |a| ==> (a + b + c)[i] == a[i]
    ensures |a| <= i < |a| + |b| ==> (a + b + c)[i] == b[i - |a|]
    ensures |a| + |b| <= i ==> (a + b + c)[i] == c[i - |a| - |b|]
  {
  }

  /** The rank of every reason in the raw, strpos and menu parts. */
  lemma PartRanks(link: string, raw: FilterList, strpos: FilterList, menu: FilterList)
    ensures forall k :: 0 <= k < |FirstReason(link, raw, false)| ==> FilterRank(FirstReason(link, raw, false)[k].value) == 1
    ensures forall k :: 0 <= k < |FirstReason(link, strpos, true)| ==> FilterRank(FirstReason(link, strpos, true)[k].value) == 2
    ensures forall k :: 0 <= k < |MenuReason(link, menu)| ==> FilterRank(MenuReason(link, menu)[k].value) == 3
  {
  }

  /**
   * For a non-empty link, a raw reason is present exactly when a raw entry
   * occurs in the link (ignoring case), and it names the first such entry.
   */
  lemma FilteringRaw(link: string, raw: FilterList, strpos: FilterList, menu: FilterList)
    requires !PhpEmpty(link)
    ensures var r := Filtering(link, raw, strpos, menu);
      && (forall i :: 0 <= i < |r| && r[i].value.FilterRaw? ==>
            Truthy(raw) && FirstMatch(link, raw.value) == Some(r[i].value.rawFilter))
      && (Truthy(raw) && FirstMatch(link, raw.value).Some? ==>
            var f := FirstMatch(link, raw.value).value;
            Entry(Some(RawPrefix + f), FilterRaw(f)) in r)
  {
    var rawPart := FirstReason(link, raw, false);
    var strposPart := FirstReason(link, strpos, true);
    var menuPart := MenuReason(link, menu);
    var r := Filtering(link, raw, strpos, menu);
    FilteringParts(link, raw, strpos, menu);
    PartRanks(link, raw, strpos, menu);
    forall i | 0 <= i < |r| && r[i].value.FilterRaw?
      ensures Truthy(raw) && FirstMatch(link, raw.value) == Some(r[i].value.rawFilter)
    {
      PartAt(rawPart, strposPart, menuPart, i);
      assert FilterRank(r[i].value) == 1;
      assert i < |rawPart|;
    }
    if Truthy(raw) && FirstMatch(link, raw.value).Some? {
      PartAt(rawPart, strposPart, menuPart, 0);
    }
  }

  /**
   * For a non-empty link, a strpos reason is present exactly when a strpos
   * entry occurs in the link (ignoring case), and it names the first such entry.
   */
  lemma FilteringStrpos(link: string, raw: FilterList, strpos: FilterList, menu: FilterList)
    requires !PhpEmpty(link)
    ensures var r := Filtering(link, raw, strpos, menu);
      && (forall i :: 0 <= i < |r| && r[i].value.FilterStrpos? ==>
            Truthy(strpos) && FirstMatch(link, strpos.value) == Some(r[i].value.strposFilter))
      && (Truthy(strpos) && FirstMatch(link, strpos.value).Some? ==>
            var f := FirstMatch(link, strpos.value).value;
            Entry(Some(StrposPrefix + f), FilterStrpos(f)) in r)
  {
    var rawPart := FirstReason(link, raw, false);
    var strposPart := FirstReason(link, strpos, true);
    var menuPart := MenuReason(link, menu);
    var r := Filtering(link, raw, strpos, menu);
    FilteringParts(link, raw, strpos, menu);
    PartRanks(link, raw, strpos, menu);
    forall i | 0 <= i < |r| && r[i].value.FilterStrpos?
      ensures Truthy(strpos) && FirstMatch(link, strpos.value) == Some(r[i].value.strposFilter)
    {
      PartAt(rawPart, strposPart, menuPart, i);
      assert FilterRank(r[i].value) == 2;
      assert |rawPart| <= i < |rawPart| + |strposPart|;
    }
    if Truthy(strpos) && FirstMatch(link, strpos.value).Some? {
      PartAt(rawPart, strposPart, menuPart, |rawPart|);
    }
  }

  /** For a non-empty link, `filter_menu` is present exactly when the menu list is the empty array. */
  lemma FilteringMenu(link: string, raw: FilterList, strpos: FilterList, menu: FilterList)
    requires !PhpEmpty(link)
    ensures Entry(Some(MenuKey), FilterMenu) in Filtering(link, raw, strpos, menu) <==> menu == Some([])
  {
    var rawPart := FirstReason(link, raw, false);
    var strposPart := FirstReason(link, strpos, true);
    var menuPart := MenuReason(link, menu);
    var r := Filtering(link, raw, strpos, menu);
    FilteringParts(link, raw, strpos, menu);
    PartRanks(link, raw, strpos, menu);
    if menu == Some([]) {
      PartAt(rawPart, strposPart, menuPart, |rawPart| + |strposPart|);
    } else {
      forall i | 0 <= i < |r| ensures FilterRank(r[i].value) < 3 {
        PartAt(rawPart, strposPart, menuPart, i);
      }
    }
  }

  /** Reasons of different ranks are filed under different keys. */
  lemma FilterKeysDiffer(x: Reason, y: Reason)
    requires FilterRank(x) > 0 && FilterRank(y) > 0 && FilterRank(x) != FilterRank(y)
    ensures FilterKey(x) != FilterKey(y)
  {
    assert |FilterKey(x)| > 7 && |FilterKey(y)| > 7;
    assert FilterKey(x)[7] != FilterKey(y)[7];
  }

  /** The reasons of `filtering()` never share a key. */
  lemma FilteringUniqueKeys(link: string, raw: FilterList, strpos: FilterList, menu: FilterList)
    ensures UniqueKeys(Filtering(link, raw, strpos, menu))
  {
    var r := Filtering(link, raw, strpos, menu);
    if !PhpEmpty(link) {
      forall i, j | 0 <= i < j < |r| && r[i].key.Some? ensures r[i].key != r[j].key {
        FilterKeysDiffer(r[i].value, r[j].value);
      }
    }
  }

  // ---------------------------------------------------------------------------
  // Building the filter lists from the configuration

  const RawCandidates := ["index.php", "component/", "?"]

  /** Position of a raw filter among the candidates, in the order they are appended. */
  function RawRank(f: string): int
  {
    if f == "index.php" then 0 else if f == "component/" then 1 else if f == "?" then 2 else -1
  }

  /**
   * The raw filter list: the candidates whose flags are set, in candidate
   * order, or `false` when no flag is set.
   */
  function RawFilter(index: bool, component: bool, get: bool): (r: FilterList)
    ensures r.None? <==> !index && !component && !get
    ensures r.Some? ==>
      && ("index.php" in r.value <==> index)
      && ("component/" in r.value <==> component)
      && ("?" in r.value <==> get)
      && (forall i :: 0 <= i < |r.value| ==> RawRank(r.value[i]) >= 0)
      && (forall i, j :: 0 <= i < j < |r.value| ==> RawRank(r.value[i]) < RawRank(r.value[j]))
  {
    if index || component || get then
      Some((if index then ["index.php"] else [])
           + (if component then ["component/"] else [])
           + (if get then ["?"] else []))
    else None
  }

  /** `array_map('trim', $lines)` */
  function TrimAll(lines: seq<string>): (r: seq<string>)
    ensures |r| == |lines| && forall j :: 0 <= j < |lines| ==> r[j] == Trim(lines[j])
  {
    seq(|lines|, j requires 0 <= j < |lines| => Trim(lines[j]))
  }

  /** `array_filter($strings, function ($s) { return !empty($s); })` */
  function KeepNonEmpty(strings: seq<string>): (r: seq<string>)
    ensures forall x :: x in r <==> x in strings && !PhpEmpty(x)
  {
    if strings == [] then []
    else
      var rest := KeepNonEmpty(strings[1..]);
      assert forall x :: x in strings <==> x == strings[0] || x in strings[1..];
      (if PhpEmpty(strings[0]) then [] else [strings[0]]) + rest
  }

  /**
   * `array_filter` keeps the order and the repeats of what it keeps: filtering
   * a concatenation is concatenating the filtered parts.
   */
  lemma {:induction false} KeepNonEmptyAppend(a: seq<string>, b: seq<string>)
    ensures KeepNonEmpty(a + b) == KeepNonEmpty(a) + KeepNonEmpty(b)
    decreases |a|
  {
    if a != [] {
      assert (a + b)[0] == a[0] && (a + b)[1..] == a[1..] + b;
      KeepNonEmptyAppend(a[1..], b);
    } else {
      assert a + b == b;
    }
  }

  /** A single string is kept exactly when it is not empty. */
  lemma KeepNonEmptyOne(x: string)
    ensures KeepNonEmpty([x]) == if PhpEmpty(x) then [] else [x]
  {
    assert [x][1..] == [];
  }

  /**
   * The strpos filter list: the configured text split into lines, each line
   * trimmed, empty lines dropped; `false` when the text is blank or no line
   * remains.
   */
  function StrposFilter(text: string): (r: FilterList)
    ensures r.Some? ==> r.value != [] && forall i :: 0 <= i < |r.value| ==> !PhpEmpty(r.value[i])
  {
    if PhpEmpty(Trim(text)) then None
    else
      var lines := KeepNonEmpty(TrimAll(SplitLines(text)));
      if lines == [] then None else Some(lines)
  }

  /**
   * The strpos list is `false` exactly when no line of the text trims to a
   * non-empty string: the blank-text guard in front of the split never
   * changes the outcome.
   */
  lemma StrposFilterNone(text: string)
    ensures StrposFilter(text).None? <==> forall x :: x in TrimAll(SplitLines(text)) ==> PhpEmpty(x)
  {
    var ts := TrimAll(SplitLines(text));
    var kept := KeepNonEmpty(ts);
    if PhpEmpty(Trim(text)) {
      BlankTextBlankLines(text);
      forall x | x in ts ensures PhpEmpty(x) {
        var j :| 0 <= j < |ts| && ts[j] == x;
      }
    } else if kept != [] {
      assert kept[0] in kept;
    }
  }

  /**
   * Otherwise the list is the non-empty trimmed lines in line order, repeats
   * kept (see `KeepNonEmptyAppend`), and none of them carries a line break or
   * a blank at either end.
   */
  lemma StrposFilterEntries(text: string)
    requires StrposFilter(text).Some?
    ensures StrposFilter(text).value == KeepNonEmpty(TrimAll(SplitLines(text)))
    ensures forall x :: x in StrposFilter(text).value <==> !PhpEmpty(x) && x in TrimAll(SplitLines(text))
    ensures forall x :: x in StrposFilter(text).value ==>
      NoBreaks(x) && !IsTrimChar(x[0]) && !IsTrimChar(x[|x| - 1])
  {
    var lines := SplitLines(text);
    var ts := TrimAll(lines);
    assert StrposFilter(text).value == KeepNonEmpty(ts);
    forall x | x in ts && !PhpEmpty(x)
      ensures NoBreaks(x) && !IsTrimChar(x[0]) && !IsTrimChar(x[|x| - 1])
    {
      var j :| 0 <= j < |ts| && ts[j] == x;
      assert x == Trim(lines[j]);
      TrimKeepsNoBreaks(lines[j]);
    }
  }

  // ---------------------------------------------------------------------------
  // Helpers for StrposFilterNone

  /** The characters of `s` that `trim` would keep at an end. */
  function Solid(s: string): string
  {
    if s == [] then "" else (if IsTrimChar(s[0]) then "" else [s[0]]) + Solid(s[1..])
  }

  lemma {:induction false} SolidConcat(a: string, b: string)
    ensures Solid(a + b) == Solid(a) + Solid(b)
  {
    if a == [] {
      assert a + b == b;
    } else {
      assert (a + b)[1..] == a[1..] + b;
      SolidConcat(a[1..], b);
    }
  }

  lemma {:induction false} SolidOfBlank(s: string)
    requires AllTrimChars(s)
    ensures Solid(s) == ""
  {
    if s != [] {
      SolidOfBlank(s[1..]);
    }
  }

  lemma {:induction false} SolidRemoveBreaks(s: string)
    ensures Solid(RemoveBreaks(s)) == Solid(s)
  {
    if s != [] {
      SolidRemoveBreaks(s[1..]);
      SolidConcat(if IsBreak(s[0]) then "" else [s[0]], RemoveBreaks(s[1..]));
    }
  }

  lemma {:induction false} SolidLines(lines: seq<string>)
    ensures |Solid(Concat(lines))| == 0 ==> forall j :: 0 <= j < |lines| ==> Solid(lines[j]) == ""
  {
    if lines != [] {
      SolidConcat(lines[0], Concat(lines[1..]));
      SolidLines(lines[1..]);
      assert forall j :: 0 < j < |lines| ==> lines[j] == lines[1..][j - 1];
    }
  }

  /** A line with one solid character holds the only solid character of the text. */
  lemma {:induction false} SolidOneLine(lines: seq<string>, j: nat)
    requires j < |lines| && |Solid(Concat(lines))| <= 1 && |Solid(lines[j])| == 1
    ensures Solid(lines[j]) == Solid(Concat(lines))
  {
    SolidConcat(lines[0], Concat(lines[1..]));
    if j > 0 {
      assert lines[1..][j - 1] == lines[j];
      SolidOneLine(lines[1..], j - 1);
    }
  }

  /** Trimming removes only blanks, so the solid characters are those of the trimmed text. */
  lemma SolidOfTrim(s: string)
    ensures Solid(Trim(s)) == Solid(s)
  {
    var i, j := TrimBounds(s);
    var front := s[..j];
    SolidSplit(s, j);
    SolidSplit(front, i);
    assert front[..i] == s[..i] && front[i..] == s[i..j];
    SolidOfBlank(s[..i]);
    SolidOfBlank(s[j..]);
  }

  lemma SolidSplit(s: string, k: nat)
    requires k <= |s|
    ensures Solid(s) == Solid(s[..k]) + Solid(s[k..])
  {
    assert s == s[..k] + s[k..];
    SolidConcat(s[..k], s[k..]);
  }

  /** A text with a solid first and last character keeps both. */
  lemma SolidOfEnds(t: string)
    requires t != [] && !IsTrimChar(t[0]) && !IsTrimChar(t[|t| - 1])
    ensures Solid(t) == [t[0]] + Solid(t[1..])
    ensures |t| > 1 ==> |Solid(t)| >= 2
  {
    if |t| > 1 {
      var u := t[1..];
      assert u == u[..|u| - 1] + [u[|u| - 1]];
      SolidConcat(u[..|u| - 1], [u[|u| - 1]]);
      assert Solid([u[|u| - 1]]) == [u[|u| - 1]] + Solid([]);
    }
  }

  /** A trimmed text with at most one solid character is "" or that character. */
  lemma TrimmedFew(s: string)
    ensures |Solid(s)| == 0 ==> Trim(s) == ""
    ensures |Solid(s)| == 1 ==> Trim(s) == Solid(s)
  {
    var t := Trim(s);
    SolidOfTrim(s);
    if t != [] {
      SolidOfEnds(t);
      if |t| == 1 {
        assert t[1..] == [];
      }
    }
  }

  /** If the whole text trims to "" or "0", so does every line of it. */
  lemma BlankTextBlankLines(text: string)
    requires PhpEmpty(Trim(text))
    ensures forall j :: 0 <= j < |SplitLines(text)| ==> PhpEmpty(Trim(SplitLines(text)[j]))
  {
    var lines := SplitLines(text);
    BlankTextSolid(text);
    SolidRemoveBreaks(text);
    assert Concat(lines) == RemoveBreaks(text);
    forall j | 0 <= j < |lines| ensures PhpEmpty(Trim(lines[j])) {
      BlankLine(lines, j);
    }
  }

  lemma BlankTextSolid(text: string)
    requires PhpEmpty(Trim(text))
    ensures Solid(text) == "" || Solid(text) == "0"
  {
    SolidOfTrim(text);
    if Trim(text) == "0" {
      assert Solid("0") == "0" + Solid("");
    }
  }

  lemma BlankLine(lines: seq<string>, j: nat)
    requires j < |lines|
    requires Solid(Concat(lines)) == "" || Solid(Concat(lines)) == "0"
    ensures PhpEmpty(Trim(lines[j]))
  {
    SolidLines(lines);
    TrimmedFew(lines[j]);
    if |Solid(lines[j])| == 1 {
      SolidOneLine(lines, j);
    } else {
      SolidAtMostOne(lines, j);
    }
  }

  lemma {:induction false} SolidAtMostOne(lines: seq<string>, j: nat)
    requires j < |lines| && |Solid(Concat(lines))| <= 1
    ensures |Solid(lines[j])| <= 1
  {
    SolidConcat(lines[0], Concat(lines[1..]));
    if j > 0 {
      assert lines[1..][j - 1] == lines[j];
      SolidAtMostOne(lines[1..], j - 1);
    }
  }

  lemma TrimKeepsNoBreaks(s: string)
    requires NoBreaks(s)
    ensures NoBreaks(Trim(s))
  {
    var i, j := TrimBounds(s);
    assert forall k :: 0 <= k < j - i ==> s[i..j][k] == s[i + k];
  }
}
