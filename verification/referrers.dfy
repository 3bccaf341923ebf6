/**
 * The referrer map: one stored row per usable crawl-log line, keyed both by
 * the fetched URL and by the URL that referred the crawler to it. The
 * stored table is a sequence in insertion order, which is the order the
 * lookups see.
 */
module Referrers {
  import opened Options
  import opened Strings
  import CrawlLog
  import Mimetype

  /** A row as stored: the referrer column holds the log's raw field, `-` for a seed. */
  datatype StoredRow = StoredRow(
    url: string,
    referrer: string,
    statusCode: string,
    breadcrumbs: string,
    mimetype: string,
    isDedupe: bool)

  type Table = seq<StoredRow>

  /** A row as read back: a missing referrer is `None`. */
  datatype ReferrerRow = ReferrerRow(
    url: string,
    referrerUrl: Option<string>,
    statusCode: string,
    breadcrumbs: string,
    mimetype: string,
    isDedupe: bool)

  /** The two ways the log says "no referrer": an empty field or a dash. */
  predicate IsRootMarker(s: string)
  {
    s == "" || s == "-"
  }

  /** A referrer column read back: a root marker becomes `None`. */
  function ReadReferrer(referrer: string): Option<string>
  {
    if IsRootMarker(referrer) then None else Some(referrer)
  }

  /** Reads a stored row back. */
  function ReadRow(s: StoredRow): ReferrerRow
  {
    ReferrerRow(s.url, ReadReferrer(s.referrer), s.statusCode, s.breadcrumbs, s.mimetype, s.isDedupe)
  }

  /** A read-back row never carries a root marker as its referrer. */
  lemma ReadRowReferrer(s: StoredRow)
    ensures ReadRow(s).referrerUrl.None? <==> IsRootMarker(s.referrer)
    ensures ReadRow(s).referrerUrl.Some? ==> ReadRow(s).referrerUrl.value == s.referrer
  {
  }

  predicate HasUrl(t: Table, url: string)
  {
    exists i :: 0 <= i < |t| && t[i].url == url
  }

  /** `row` is some stored row of `t`, read back. */
  predicate IsReadBack(t: Table, row: ReferrerRow)
  {
    exists i :: 0 <= i < |t| && ReadRow(t[i]) == row
  }

  /**
   * The first stored row for `url`, read back. It is absent exactly when
   * no row has that URL; a present one is the earliest row with that URL,
   * read back, so its referrer is never a root marker and a seed's marker
   * is never followed as a key.
   */
  function LookupReferrerRow(t: Table, url: string): (r: Option<ReferrerRow>)
    ensures r.None? <==> forall i :: 0 <= i < |t| ==> t[i].url != url
    ensures r.Some? ==> r.value.url == url
    ensures r.Some? && r.value.referrerUrl.Some? ==> !IsRootMarker(r.value.referrerUrl.value)
    ensures r.Some? ==> exists i :: 0 <= i < |t| && t[i].url == url && ReadRow(t[i]) == r.value
                                    && forall j :: 0 <= j < i ==> t[j].url != url
  {
    if t == [] then None
    else if t[0].url == url then Some(ReadRow(t[0]))
    else
      var r := LookupReferrerRow(t[1..], url);
      assert forall i :: 1 <= i < |t| ==> t[i] == t[1..][i - 1];
      if r.Some? then
        var i :| 0 <= i < |t[1..]| && t[1..][i].url == url && ReadRow(t[1..][i]) == r.value
                  && forall j :: 0 <= j < i ==> t[1..][j].url != url;
        assert forall j :: 0 <= j < i + 1 ==> t[j].url != url by {
          forall j | 0 <= j < i + 1
            ensures t[j].url != url
          {
            if j > 0 {
              assert t[j] == t[1..][j - 1];
            }
          }
        }
        r
      else r
  }

  /** The lookup answers with the earliest row for the URL, whatever follows it. */
  lemma {:induction false} LookupFirst(t: Table, url: string, i: nat)
    requires i < |t| && t[i].url == url
    requires forall j :: 0 <= j < i ==> t[j].url != url
    ensures LookupReferrerRow(t, url) == Some(ReadRow(t[i]))
    decreases i
  {
    if i > 0 {
      LookupFirst(t[1..], url, i - 1);
    }
  }

  /** Rows appended after the first row for a URL do not change its lookup. */
  lemma {:induction false} LookupAppend(t: Table, more: Table, url: string)
    requires HasUrl(t, url)
    ensures LookupReferrerRow(t + more, url) == LookupReferrerRow(t, url)
    decreases |t|
  {
    assert (t + more)[0] == t[0];
    if t[0].url != url {
      assert (t + more)[1..] == t[1..] + more;
      var i :| 0 <= i < |t| && t[i].url == url;
      assert t[1..][i - 1].url == url;
      LookupAppend(t[1..], more, url);
    }
  }

  /** The stored rows whose referrer column equals `url`, read back, in table order. */
  function ReferredRows(t: Table, url: string): (rs: seq<ReferrerRow>)
    ensures |rs| <= |t|
    ensures rs == [] <==> forall i :: 0 <= i < |t| ==> t[i].referrer != url
    ensures forall i :: 0 <= i < |t| && t[i].referrer == url ==> ReadRow(t[i]) in rs
    ensures forall k :: 0 <= k < |rs| ==> IsReadBack(t, rs[k]) && rs[k].referrerUrl == ReadReferrer(url)
  {
    if t == [] then []
    else
      var rest := ReferredRows(t[1..], url);
      ReferredRowsStep(t, url, rest);
      if t[0].referrer == url then [ReadRow(t[0])] + rest else rest
  }

  lemma ReferredRowsStep(t: Table, url: string, rest: seq<ReferrerRow>)
    requires |t| > 0
    requires forall i :: 0 <= i < |t| - 1 && t[1..][i].referrer == url ==> ReadRow(t[1..][i]) in rest
    requires forall k :: 0 <= k < |rest| ==> IsReadBack(t[1..], rest[k]) && rest[k].referrerUrl == ReadReferrer(url)
    ensures var rs := if t[0].referrer == url then [ReadRow(t[0])] + rest else rest;
      && (forall i :: 0 <= i < |t| && t[i].referrer == url ==> ReadRow(t[i]) in rs)
      && (forall k :: 0 <= k < |rs| ==> IsReadBack(t, rs[k]) && rs[k].referrerUrl == ReadReferrer(url))
  {
    var rs := if t[0].referrer == url then [ReadRow(t[0])] + rest else rest;
    forall i | 0 <= i < |t| && t[i].referrer == url
      ensures ReadRow(t[i]) in rs
    {
      if i > 0 {
        assert t[i] == t[1..][i - 1];
      }
    }
    forall k | 0 <= k < |rs|
      ensures IsReadBack(t, rs[k])
    {
      if t[0].referrer == url && k == 0 {
        assert ReadRow(t[0]) == rs[k];
      } else {
        var j := if t[0].referrer == url then k - 1 else k;
        assert rs[k] == rest[j];
        var i :| 0 <= i < |t[1..]| && ReadRow(t[1..][i]) == rest[j];
        assert t[1..][i] == t[i + 1];
      }
    }
  }

  /** The referred rows of a longer table are those of each part, in order. */
  lemma {:induction false} ReferredRowsAppend(a: Table, b: Table, url: string)
    ensures ReferredRows(a + b, url) == ReferredRows(a, url) + ReferredRows(b, url)
    decreases |a|
  {
    if a == [] {
      assert a + b == b;
    } else {
      assert (a + b)[0] == a[0];
      assert (a + b)[1..] == a[1..] + b;
      ReferredRowsAppend(a[1..], b, url);
    }
  }

  /**
   * All rows the crawler reached from `url`: `None` rather than an empty
   * list when there are none, otherwise every such row in table order.
   */
  function LookupAllReferredRows(t: Table, url: string): (r: Option<seq<ReferrerRow>>)
    ensures r.None? <==> forall i :: 0 <= i < |t| ==> t[i].referrer != url
    ensures r.Some? ==> r.value == ReferredRows(t, url) && |r.value| > 0
  {
    var rs := ReferredRows(t, url);
    if rs == [] then None else Some(rs)
  }

  // ---------------------------------------------------------------------------
  // Building the table from the crawl log

  /** Prerequisite fetches (DNS and WHOIS) are not part of the link graph. */
  predicate IsPrereq(url: string)
  {
    StartsWith(url, "dns:") || StartsWith(url, "whois:")
  }

  /** The stored row for one log line, or `None` for a malformed or prerequisite line. */
  function RowOfLine(fields: seq<string>): (r: Option<StoredRow>)
    ensures r.Some? <==> CrawlLog.ParseCrawlLine(fields).Some? && !IsPrereq(fields[3])
    ensures r.Some? ==>
              && r.value.url == fields[3] && r.value.referrer == fields[5]
              && r.value.statusCode == fields[1] && r.value.breadcrumbs == fields[4]
              && r.value.isDedupe == Contains(fields[11], "duplicate:digest")
              && Mimetype.Normalize(r.value.mimetype) == r.value.mimetype
  {
    match CrawlLog.ParseCrawlLine(fields)
    case None => None
    case Some(line) =>
      if IsPrereq(line.url) then None
      else Some(StoredRow(line.url, line.referrerUrl, line.statusCode, line.breadcrumbs,
                          line.mimetype, Contains(line.annotations, "duplicate:digest")))
  }

  /**
   * The table built from a whole log, one row per usable line in log order.
   * Every stored mimetype is already a normalised category and no stored
   * URL is a prerequisite.
   */
  function BuildTable(log: seq<seq<string>>): (t: Table)
    ensures |t| <= |log|
    ensures forall i :: 0 <= i < |t| ==> IsStored(t[i])
  {
    if log == [] then []
    else
      var rest := BuildTable(log[1..]);
      match RowOfLine(log[0])
      case None => rest
      case Some(row) =>
        StoredRowOfLine(log[0]);
        [row] + rest
  }

  /** The stored mimetype is the parsed line's: the FTP fix-up, then normalisation. */
  lemma RowOfLineMimetype(fields: seq<string>)
    ensures RowOfLine(fields).Some? ==> RowOfLine(fields).value.mimetype == CrawlLog.ParseCrawlLine(fields).value.mimetype
  {
  }

  /** A log line the table stores a row for: thirteen fields and not a DNS or WHOIS fetch. */
  predicate IsUsable(fields: seq<string>)
  {
    |fields| == CrawlLog.FieldCount && !IsPrereq(fields[3])
  }

  lemma UsableRow(fields: seq<string>)
    ensures RowOfLine(fields).Some? <==> IsUsable(fields)
  {
  }

  /** A log of usable lines stores one row for each of them. */
  lemma {:induction false} BuildTableKeepsAll(log: seq<seq<string>>)
    requires forall j :: 0 <= j < |log| ==> IsUsable(log[j])
    ensures |BuildTable(log)| == |log|
    decreases |log|
  {
    if log != [] {
      assert forall j :: 0 <= j < |log[1..]| ==> log[1..][j] == log[j + 1];
      UsableRow(log[0]);
      BuildTableKeepsAll(log[1..]);
    }
  }

  /** A one-line log stores that line's row, if it has one. */
  lemma BuildTableSingle(line: seq<string>)
    ensures BuildTable([line]) == if RowOfLine(line).Some? then [RowOfLine(line).value] else []
  {
    assert [line][1..] == [];
  }

  lemma StoredRowOfLine(fields: seq<string>)
    ensures RowOfLine(fields).Some? ==> IsStored(RowOfLine(fields).value)
  {
  }

  /** What every row of a built table satisfies: a normalised mimetype and a non-prerequisite URL. */
  predicate IsStored(s: StoredRow)
  {
    Mimetype.Normalize(s.mimetype) == s.mimetype && !IsPrereq(s.url)
  }

  /** Building from two logs one after the other appends their tables. */
  lemma {:induction false} BuildTableAppend(a: seq<seq<string>>, b: seq<seq<string>>)
    ensures BuildTable(a + b) == BuildTable(a) + BuildTable(b)
    decreases |a|
  {
    if a == [] {
      assert a + b == b;
    } else {
      assert (a + b)[0] == a[0];
      assert (a + b)[1..] == a[1..] + b;
      BuildTableAppend(a[1..], b);
    }
  }
}
