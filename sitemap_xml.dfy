/**
 * The parts of `getXML` and `generate` that are not I/O: the choice of the
 * `<url>` children of each included record (loc, changefreq, priority and,
 * when set, lastmod, in that order, as in the sitemaps.org protocol 0.9),
 * and the regular-expression post-processing, a fold of `preg_replace` over
 * the configured (pattern, replacement) pairs that skips empty patterns.
 */
module SitemapXml {
  import opened Wrappers
  import opened PhpStrings
  import opened Records
  import opened Aggregation

  /** The children of the `<url>` element of one record. */
  function UrlEntry(r: UrlRecord): (c: seq<XmlChild>)
    ensures 3 <= |c| <= 4
  {
    [LocChild(r.loc), ChangefreqChild(r.changefreq), PriorityChild(r.priority)]
      + (if r.lastmod.Some? then [LastmodChild(r.lastmod.value)] else [])
  }

  /** The record fields read back from the children of a `<url>` element. */
  function ReadEntry(c: seq<XmlChild>): Option<(string, Changefreq, int, Option<int>)>
  {
    if |c| < 3 || |c| > 4 || !c[0].LocChild? || !c[1].ChangefreqChild? || !c[2].PriorityChild? then None
    else if |c| == 3 then Some((c[0].loc, c[1].freq, c[2].priority, None))
    else if c[3].LastmodChild? then Some((c[0].loc, c[1].freq, c[2].priority, Some(c[3].time)))
    else None
  }

  /**
   * A `<url>` entry carries exactly the location, change frequency, priority
   * and lastmod of its record, and nothing else of it (no title, type,
   * link or exclusions).
   */
  lemma UrlEntryRoundTrip(r: UrlRecord)
    ensures ReadEntry(UrlEntry(r)) == Some((r.loc, r.changefreq, r.priority, r.lastmod))
  {
  }

  /** The `<url>` entries of a sorted listing, one per record, in listing order. */
  function Entries(rows: seq<(string, UrlRecord)>): (e: seq<seq<XmlChild>>)
    ensures |e| == |rows|
    ensures forall i :: 0 <= i < |rows| ==> ReadEntry(e[i]) == Some((rows[i].1.loc, rows[i].1.changefreq, rows[i].1.priority, rows[i].1.lastmod))
  {
    forall i | 0 <= i < |rows| {
      UrlEntryRoundTrip(rows[i].1);
    }
    seq(|rows|, i requires 0 <= i < |rows| => UrlEntry(rows[i].1))
  }

  // ---------------------------------------------------------------------------
  // Regular-expression post-processing

  /**
   * The replacements applied in order to the XML text; a pair with an empty
   * pattern ("" or "0") is skipped. `replace` stands for `preg_replace`.
   */
  function ApplyRegexps(xml: string, regexps: seq<(string, string)>, replace: (string, string, string) -> string): string
    decreases |regexps|
  {
    if regexps == [] then xml
    else
      var prev := ApplyRegexps(xml, regexps[..|regexps| - 1], replace);
      var (pattern, replacement) := regexps[|regexps| - 1];
      if PhpEmpty(pattern) then prev else replace(pattern, replacement, prev)
  }

  /** The pairs whose pattern is not empty. */
  function Effective(regexps: seq<(string, string)>): (r: seq<(string, string)>)
    ensures forall x :: x in r <==> x in regexps && !PhpEmpty(x.0)
    ensures |r| <= |regexps|
    decreases |regexps|
  {
    if regexps == [] then []
    else
      var init := regexps[..|regexps| - 1];
      var last := regexps[|regexps| - 1];
      assert forall x :: x in regexps <==> x in init || x == last by {
        assert regexps == init + [last];
      }
      Effective(init) + (if PhpEmpty(last.0) then [] else [last])
  }

  /**
   * `Effective` keeps the configured order and repeats: the pairs kept from a
   * concatenation are those kept from each part, in turn.
   */
  lemma {:induction false} EffectiveAppend(a: seq<(string, string)>, b: seq<(string, string)>)
    ensures Effective(a + b) == Effective(a) + Effective(b)
    decreases |b|
  {
    if b == [] {
      assert a + b == a;
    } else {
      var init := b[..|b| - 1];
      assert (a + b)[..|a + b| - 1] == a + init;
      assert (a + b)[|a + b| - 1] == b[|b| - 1];
      EffectiveAppend(a, init);
    }
  }

  /** A single pair is kept exactly when its pattern is not empty. */
  lemma EffectiveOne(x: (string, string))
    ensures Effective([x]) == if PhpEmpty(x.0) then [] else [x]
  {
    assert [x][..0] == [];
  }

  /** Processing a list is processing its first part, then the rest. */
  lemma {:induction false} ApplyRegexpsAppend(xml: string, a: seq<(string, string)>, b: seq<(string, string)>,
                                               replace: (string, string, string) -> string)
    ensures ApplyRegexps(xml, a + b, replace) == ApplyRegexps(ApplyRegexps(xml, a, replace), b, replace)
    decreases |b|
  {
    if b == [] {
      assert a + b == a;
    } else {
      assert (a + b)[..|a + b| - 1] == a + b[..|b| - 1];
      assert (a + b)[|a + b| - 1] == b[|b| - 1];
      ApplyRegexpsAppend(xml, a, b[..|b| - 1], replace);
    }
  }

  /** Dropping the pairs with an empty pattern does not change the outcome. */
  lemma {:induction false} ApplyRegexpsEffective(xml: string, regexps: seq<(string, string)>,
                                                  replace: (string, string, string) -> string)
    ensures ApplyRegexps(xml, regexps, replace) == ApplyRegexps(xml, Effective(regexps), replace)
    decreases |regexps|
  {
    if regexps != [] {
      var init := regexps[..|regexps| - 1];
      var last := regexps[|regexps| - 1];
      ApplyRegexpsEffective(xml, init, replace);
      ApplyRegexpsAppend(xml, Effective(init), if PhpEmpty(last.0) then [] else [last], replace);
      if !PhpEmpty(last.0) {
        assert [last][..0] == [];
      }
    }
  }

  /** With no non-empty pattern the XML text is written as generated. */
  lemma NoPatternsNoChange(xml: string, regexps: seq<(string, string)>, replace: (string, string, string) -> string)
    requires forall i :: 0 <= i < |regexps| ==> PhpEmpty(regexps[i].0)
    ensures ApplyRegexps(xml, regexps, replace) == xml
  {
    ApplyRegexpsEffective(xml, regexps, replace);
    forall x | x in regexps ensures PhpEmpty(x.0) {
      var i :| 0 <= i < |regexps| && regexps[i] == x;
    }
    assert Effective(regexps) == [];
  }
}
