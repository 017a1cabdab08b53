/**
 * The values the sitemap model handles: change frequencies, exclusion
 * reasons and URL records. Translated strings (`Text::_`) are represented by
 * their language keys; the messages of exclusion reasons by the abstract
 * `Reason` they stand for.
 */
module Records {
  import opened Wrappers
  import opened PhpArrays

  /** The sitemap change frequencies; `Value` is the rank used when merging. */
  datatype Changefreq = Always | Hourly | Daily | Weekly | Monthly | Yearly | Never
  {
    /** The ordinal of the frequency: 1 for "always" up to 7 for "never". */
    function Value(): (v: int)
      ensures 1 <= v <= 7
    {
      match this
      case Always => 1
      case Hourly => 2
      case Daily => 3
      case Weekly => 4
      case Monthly => 5
      case Yearly => 6
      case Never => 7
    }
  }

  /** Why a URL is left out of the sitemap. */
  datatype Reason =
    // reasons produced by the URL filters
    | FilterNull
    | FilterRaw(rawFilter: string)
    | FilterStrpos(strposFilter: string)
    | FilterMenu
    // reasons produced for menu items
    | MenuMenutypes
    | MenuRobots
    | MenuUnpublished
    | MenuTrashed
    | MenuSystemType(menuType: string)
    | MenuComponentExist(component: string)
    | MenuComponentEnabled(component: string)
    | MenuAccess
    // reasons supplied by plugins: a legacy message, or a typed message
    | Unknown(msg: string)
    | Custom(kind: string, msg: string)

  /** An exclusion list: a PHP array of reasons; empty means "included". */
  type Exclusions = seq<Entry<Reason>>

  /** A list of reasons under integer keys, as built with `$exclude[] = ...`. */
  function Numbered(reasons: seq<Reason>): (r: Exclusions)
    ensures |r| == |reasons|
    ensures forall i :: 0 <= i < |r| ==> r[i] == Entry(None, reasons[i])
  {
    seq(|reasons|, i requires 0 <= i < |reasons| => Entry(None, reasons[i]))
  }

  const TypeMenu := "COM_JLSITEMAP_TYPES_MENU"
  const TypeUnknown := "COM_JLSITEMAP_TYPES_UNKNOWN"

  /**
   * One URL of the sitemap. `priority` is in hundredths (50 for "0.5");
   * `lastmod` is a unix time; `types` lists the sources that produced the URL.
   */
  datatype UrlRecord = UrlRecord(
    types: seq<string>,
    title: string,
    link: string,
    loc: string,
    changefreq: Changefreq,
    priority: int,
    exclude: Exclusions,
    lastmod: Option<int>)
}
