/**
 * The output table both resolvers write to, and the named counters each
 * run reports.
 */
module Results {
  import opened Options

  /**
   * One row of the crawl-result table: the URL a crawl started from, the
   * identifier of the seed it belongs to (if known yet), and what the
   * crawl ended on. `hit` is true for rows found by walking back from a
   * full-text capture and false for rows found by walking forward from a
   * seed.
   */
  datatype CrawlResult = CrawlResult(
    initialUrl: string,
    identifier: Option<string>,
    initialDomain: Option<string>,
    breadcrumbs: Option<string>,
    finalUrl: Option<string>,
    finalDomain: Option<string>,
    finalTimestamp: Option<string>,
    finalStatusCode: Option<string>,
    finalSha1: Option<string>,
    finalMimetype: Option<string>,
    finalWasDedupe: Option<bool>,
    hit: bool,
    postprocStatus: Option<string>)

  type OutTable = seq<CrawlResult>

  /** Named event counters; a name never bumped reads as zero. */
  type Counts = map<string, nat>

  function Count(c: Counts, name: string): nat
  {
    if name in c then c[name] else 0
  }

  /** One more occurrence of `name`; every other counter is unchanged. */
  function Bump(c: Counts, name: string): (r: Counts)
    ensures Count(r, name) == Count(c, name) + 1
    ensures forall other :: other != name ==> Count(r, other) == Count(c, other)
  {
    c[name := Count(c, name) + 1]
  }

  /** The output table and counters after a run. */
  datatype Run = Run(table: OutTable, counts: Counts)

  /** The counters a run starts from: `inserted` at zero. */
  const InitialCounts: Counts := map["inserted" := 0]

  /**
   * The row whose initial URL is `url` that a `LIMIT 1` query returns:
   * the earliest such row in insertion order.
   */
  function FirstRowFor(out: OutTable, url: string): (r: Option<CrawlResult>)
    ensures r.None? <==> forall i :: 0 <= i < |out| ==> out[i].initialUrl != url
    ensures r.Some? ==> r.value.initialUrl == url
    ensures r.Some? ==> exists i :: 0 <= i < |out| && out[i] == r.value && forall j :: 0 <= j < i ==> out[j].initialUrl != url
  {
    if out == [] then None
    else if out[0].initialUrl == url then Some(out[0])
    else
      var r := FirstRowFor(out[1..], url);
      assert forall i :: 1 <= i < |out| ==> out[i] == out[1..][i - 1];
      if r.Some? then
        var i :| 0 <= i < |out[1..]| && out[1..][i] == r.value && forall j :: 0 <= j < i ==> out[1..][j].initialUrl != url;
        assert out[i + 1] == r.value;
        assert forall j :: 0 <= j < i + 1 ==> out[j].initialUrl != url by {
          forall j | 0 <= j < i + 1
            ensures out[j].initialUrl != url
          {
            if j > 0 {
              assert out[j] == out[1..][j - 1];
            }
          }
        }
        r
      else r
  }

  /** Some row of the table starts from `url`. */
  predicate HasRowFor(out: OutTable, url: string)
  {
    exists i :: 0 <= i < |out| && out[i].initialUrl == url
  }
}
