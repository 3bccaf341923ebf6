/**
 * Backward resolution: for every successful full-text capture in the crawl
 * log, follow referrers back to the URL the crawl started from and record
 * a `hit` row linking the two. The walk keeps the referrers it has seen and
 * stops at the first repeat, so it ends on every link graph.
 */
module Backward {
  import opened Options
  import opened Strings
  import opened Numbers
  import opened Results
  import opened Referrers
  import CrawlLog

  // ---------------------------------------------------------------------------
  // The referrer chain

  /** The row that referred the crawler to `row`, if it has a referrer and that URL was logged. */
  function Parent(t: Table, row: ReferrerRow): Option<ReferrerRow>
  {
    if row.referrerUrl.None? then None else LookupReferrerRow(t, row.referrerUrl.value)
  }

  /** The row `k` referrer hops above `row`, if the chain is that long. */
  function Ancestor(t: Table, row: ReferrerRow, k: nat): Option<ReferrerRow>
    decreases k
  {
    if k == 0 then Some(row)
    else match Parent(t, row)
      case None => None
      case Some(p) => Ancestor(t, p, k - 1)
  }

  /** Every referrer value stored in the table. */
  function ReferrerValues(t: Table): set<string>
  {
    set i | 0 <= i < |t| :: t[i].referrer
  }

  function SeenSet(seen: seq<string>): set<string>
  {
    set x | x in seen
  }

  /** A row read back from the table has a referrer the table stores. */
  lemma ReferrerIsStored(t: Table, row: ReferrerRow)
    requires IsReadBack(t, row) && row.referrerUrl.Some?
    ensures row.referrerUrl.value in ReferrerValues(t)
  {
    var i :| 0 <= i < |t| && ReadRow(t[i]) == row;
    assert t[i].referrer == row.referrerUrl.value;
  }

  /** Marking one more unseen referrer as seen leaves one fewer unseen. */
  lemma OneMoreSeen(all: set<string>, seen: seq<string>, v: string)
    requires v in all && v !in seen
    ensures all - SeenSet(seen + [v]) == (all - SeenSet(seen)) - {v}
    ensures |all - SeenSet(seen + [v])| == |all - SeenSet(seen)| - 1
  {
    assert SeenSet(seen + [v]) == SeenSet(seen) + {v};
    assert v in all - SeenSet(seen);
  }

  /** Where the walk ended, how many hops it took, and whether it stopped on a repeated referrer. */
  datatype Climbed = Climbed(top: ReferrerRow, hops: nat, looped: bool)

  /**
   * The walk from `row` towards the start of the crawl, having already seen
   * the referrers in `seen`. Each hop moves to the logged row of the current
   * referrer; the walk stops when there is no referrer or it was never
   * logged, or when the new row's referrer was seen before. The row it ends
   * on is really `hops` referrers above `row`; unless the walk stopped on a
   * repeat, that row has no logged referrer; no walk takes more hops
   * than there are unseen referrer values, plus one; and it stops at the
   * first repeated referrer, as `IsFirstStop` describes.
   */
  function Climb(t: Table, row: ReferrerRow, seen: seq<string>): (r: Climbed)
    ensures Ancestor(t, row, r.hops) == Some(r.top)
    ensures !r.looped ==> Parent(t, r.top).None?
    ensures r.looped ==> r.hops > 0 && r.top.referrerUrl.Some?
    ensures r.hops <= |ReferrerValues(t) - SeenSet(seen)| + 1
    ensures IsFirstStop(t, row, seen, r)
    decreases ReferrerValues(t) - SeenSet(seen)
  {
    if row.referrerUrl.None? then Climbed(row, 0, false)
    else match LookupReferrerRow(t, row.referrerUrl.value)
      case None => Climbed(row, 0, false)
      case Some(next) =>
        if next.referrerUrl.None? then Climbed(next, 1, false)
        else if next.referrerUrl.value in seen then Climbed(next, 1, true)
        else
          var v := next.referrerUrl.value;
          ReferrerIsStored(t, next);
          OneMoreSeen(ReferrerValues(t), seen, v);
          var c := Climb(t, next, seen + [v]);
          FirstStopStep(t, row, next, seen, c);
          Climbed(c.top, c.hops + 1, c.looped)
  }

  /**
   * A walk that stopped on a repeat really met a referrer twice: the one it
   * stopped on was either seen before the walk or is the referrer of a row
   * strictly between the start and the end.
   */
  lemma {:induction false} ClimbRepeat(t: Table, row: ReferrerRow, seen: seq<string>)
    ensures var r := Climb(t, row, seen);
      r.looped ==> r.top.referrerUrl.value in seen ||
                   exists k :: 1 <= k < r.hops && Ancestor(t, row, k).Some? && Ancestor(t, row, k).value.referrerUrl == r.top.referrerUrl
    decreases ReferrerValues(t) - SeenSet(seen)
  {
    var r := Climb(t, row, seen);
    ClimbShort(t, row, seen);
    if r.looped && Parent(t, row).Some? {
      var next := Parent(t, row).value;
      if next.referrerUrl.Some? && next.referrerUrl.value !in seen {
        var v := next.referrerUrl.value;
        ReferrerIsStored(t, next);
        OneMoreSeen(ReferrerValues(t), seen, v);
        var c := Climb(t, next, seen + [v]);
        ClimbUnfold(t, row, seen);
        ClimbRepeat(t, next, seen + [v]);
        if c.top.referrerUrl.value == v {
          AncestorShift(t, row, next, 0);
          assert Ancestor(t, row, 1).value.referrerUrl == r.top.referrerUrl;
        } else if c.top.referrerUrl.value !in seen {
          var k :| 1 <= k < c.hops && Ancestor(t, next, k).Some? && Ancestor(t, next, k).value.referrerUrl == c.top.referrerUrl;
          AncestorShift(t, row, next, k);
          assert Ancestor(t, row, k + 1).value.referrerUrl == r.top.referrerUrl;
        }
      }
    }
  }

  /** A walk that cannot hop, or whose first hop ends on no referrer or a seen one, stops there. */
  lemma ClimbShort(t: Table, row: ReferrerRow, seen: seq<string>)
    ensures Parent(t, row).None? ==> Climb(t, row, seen) == Climbed(row, 0, false)
    ensures Parent(t, row).Some? && Parent(t, row).value.referrerUrl.None? ==>
              Climb(t, row, seen) == Climbed(Parent(t, row).value, 1, false)
    ensures Parent(t, row).Some? && Parent(t, row).value.referrerUrl.Some? && Parent(t, row).value.referrerUrl.value in seen ==>
              Climb(t, row, seen) == Climbed(Parent(t, row).value, 1, true)
  {
  }

  /** A walk that takes a first hop to an unseen referrer continues from there. */
  lemma ClimbUnfold(t: Table, row: ReferrerRow, seen: seq<string>)
    requires Parent(t, row).Some? && Parent(t, row).value.referrerUrl.Some?
    requires Parent(t, row).value.referrerUrl.value !in seen
    ensures var next := Parent(t, row).value;
      var c := Climb(t, next, seen + [next.referrerUrl.value]);
      Climb(t, row, seen) == Climbed(c.top, c.hops + 1, c.looped)
  {
  }

  /** One hop up, then `k` more, is `k + 1` hops. */
  lemma AncestorShift(t: Table, row: ReferrerRow, next: ReferrerRow, k: nat)
    requires Parent(t, row) == Some(next)
    ensures Ancestor(t, row, k + 1) == Ancestor(t, next, k)
  {
  }

  /**
   * From a fresh start, stopping on a repeat means the chain is a cycle:
   * some row met earlier has the same referrer as the last row, so both
   * lead to the same parent and following referrers would go round forever.
   */
  lemma ClimbLoopIsCycle(t: Table, row: ReferrerRow)
    ensures var r := Climb(t, row, []);
      r.looped ==> exists k :: 1 <= k < r.hops && Ancestor(t, row, k).Some? && Parent(t, Ancestor(t, row, k).value) == Parent(t, r.top)
  {
    ClimbRepeat(t, row, []);
  }

  // ---------------------------------------------------------------------------
  // Where the walk stops

  /**
   * The referrer of the row `k` hops above `row` repeats: it was seen
   * before the walk, or it is the referrer of a row strictly between the
   * start and that row. The start's own referrer is never recorded.
   */
  predicate RepeatsAt(t: Table, row: ReferrerRow, seen: seq<string>, k: nat)
  {
    && Ancestor(t, row, k).Some? && Ancestor(t, row, k).value.referrerUrl.Some?
    && var v := Ancestor(t, row, k).value.referrerUrl.value;
       v in seen || exists m :: 1 <= m < k && Ancestor(t, row, m).Some? && Ancestor(t, row, m).value.referrerUrl == Some(v)
  }

  /**
   * Where the walk stops, described without running it: every row
   * strictly inside the walk has a referrer that does not repeat; the walk
   * is marked looped exactly when the referrer of the row it ends on
   * repeats, that is, it stops at the first repeat; and a walk that did
   * not loop ends on a row with no logged referrer.
   */
  predicate IsFirstStop(t: Table, row: ReferrerRow, seen: seq<string>, c: Climbed)
  {
    && Ancestor(t, row, c.hops) == Some(c.top)
    && (forall k :: 1 <= k < c.hops ==>
          Ancestor(t, row, k).Some? && Ancestor(t, row, k).value.referrerUrl.Some? && !RepeatsAt(t, row, seen, k))
    && (c.looped <==> c.hops > 0 && RepeatsAt(t, row, seen, c.hops))
    && (!c.looped ==> Parent(t, c.top).None?)
  }

  /** `k + 1` hops up is the parent of the row `k` hops up. */
  lemma {:induction false} AncestorStep(t: Table, row: ReferrerRow, k: nat)
    ensures Ancestor(t, row, k + 1) == if Ancestor(t, row, k).Some? then Parent(t, Ancestor(t, row, k).value) else None
    decreases k
  {
    if k > 0 && Parent(t, row).Some? {
      AncestorStep(t, Parent(t, row).value, k - 1);
    }
  }

  /** A chain `n` hops long is also every shorter length. */
  lemma {:induction false} AncestorBelow(t: Table, row: ReferrerRow, n: nat, k: nat)
    requires Ancestor(t, row, n).Some? && k <= n
    ensures Ancestor(t, row, k).Some?
    decreases n - k
  {
    if k < n {
      AncestorStep(t, row, n - 1);
      AncestorBelow(t, row, n - 1, k);
    }
  }

  /** One hop up, a repeat `k + 1` hops above `row` is a repeat `k` hops above its parent, counting the parent's referrer as seen. */
  lemma RepeatsShift(t: Table, row: ReferrerRow, next: ReferrerRow, seen: seq<string>, k: nat)
    requires Parent(t, row) == Some(next) && next.referrerUrl.Some? && k >= 1
    ensures RepeatsAt(t, row, seen, k + 1) <==> RepeatsAt(t, next, seen + [next.referrerUrl.value], k)
  {
    var v := next.referrerUrl.value;
    AncestorShift(t, row, next, k);
    AncestorShift(t, row, next, 0);
    if Ancestor(t, next, k).Some? && Ancestor(t, next, k).value.referrerUrl.Some? {
      var w := Ancestor(t, next, k).value.referrerUrl.value;
      if RepeatsAt(t, row, seen, k + 1) && w !in seen {
        var m :| 1 <= m < k + 1 && Ancestor(t, row, m).Some? && Ancestor(t, row, m).value.referrerUrl == Some(w);
        if m > 1 {
          AncestorShift(t, row, next, m - 1);
          assert Ancestor(t, next, m - 1).value.referrerUrl == Some(w);
        }
      }
      if RepeatsAt(t, next, seen + [v], k) && w !in seen {
        if w != v {
          var m :| 1 <= m < k && Ancestor(t, next, m).Some? && Ancestor(t, next, m).value.referrerUrl == Some(w);
          AncestorShift(t, row, next, m);
          assert Ancestor(t, row, m + 1).value.referrerUrl == Some(w);
        }
      }
    }
  }

  /** A walk that hops to `next` and carries on from there stops where the rest of the walk stops. */
  lemma FirstStopStep(t: Table, row: ReferrerRow, next: ReferrerRow, seen: seq<string>, c: Climbed)
    requires Parent(t, row) == Some(next) && next.referrerUrl.Some? && next.referrerUrl.value !in seen
    requires IsFirstStop(t, next, seen + [next.referrerUrl.value], c)
    ensures IsFirstStop(t, row, seen, Climbed(c.top, c.hops + 1, c.looped))
  {
    AncestorShift(t, row, next, 0);
    AncestorShift(t, row, next, c.hops);
    assert !RepeatsAt(t, row, seen, 1);
    forall k | 1 <= k < c.hops + 1
      ensures Ancestor(t, row, k).Some? && Ancestor(t, row, k).value.referrerUrl.Some? && !RepeatsAt(t, row, seen, k)
    {
      if k > 1 {
        AncestorShift(t, row, next, k - 1);
        RepeatsShift(t, row, next, seen, k - 1);
      }
    }
    if c.hops > 0 {
      RepeatsShift(t, row, next, seen, c.hops);
    }
  }

  /** A walk that stops first can be no shorter than another walk that stops first. */
  lemma FirstStopHopsLe(t: Table, row: ReferrerRow, seen: seq<string>, a: Climbed, b: Climbed)
    requires IsFirstStop(t, row, seen, a) && IsFirstStop(t, row, seen, b)
    ensures b.hops <= a.hops
  {
    if a.hops < b.hops {
      AncestorBelow(t, row, b.hops, a.hops + 1);
      AncestorStep(t, row, a.hops);
    }
  }

  /**
   * The description pins the walk down: at most one result meets it, so
   * the walk `Climb` takes is the only one that stops at the first repeat.
   */
  lemma FirstStopUnique(t: Table, row: ReferrerRow, seen: seq<string>, a: Climbed, b: Climbed)
    requires IsFirstStop(t, row, seen, a) && IsFirstStop(t, row, seen, b)
    ensures a == b
  {
    FirstStopHopsLe(t, row, seen, a, b);
    FirstStopHopsLe(t, row, seen, b, a);
  }

  // ---------------------------------------------------------------------------
  // One log line

  /** Status codes of a successful fetch: HTTP 200 and FTP 226. */
  const SuccessStatuses: seq<string> := ["200", "226"]

  /** The SHA-1 of the empty file, in the crawler's base32 form. */
  const EmptyFileSha1: string := "3I42H3S6NNFQ2MSVX7XZKYAYSCX5QBYJ"

  /** Captures smaller than this many bytes, when typed only as octet-stream, are ignored. */
  const TinyOctetStream: int := 1000

  predicate InScope(statusCode: string, mimetype: string, hits: seq<string>)
  {
    statusCode in SuccessStatuses && mimetype in hits
  }

  /**
   * The capture timestamp in the archive's 12-digit form: the first twelve
   * characters, kept only when there are at least twelve and the fifth is
   * not the `-` of an ISO date.
   */
  function FinalTimestamp(ts: string): (r: Option<string>)
    ensures r.Some? <==> |ts| >= 12 && ts[4] != '-'
    ensures r.Some? ==> |r.value| == 12 && StartsWith(ts, r.value)
  {
    if |ts| >= 12 && ts[4] != '-' then Some(ts[..12]) else None
  }

  /** What one log line does to the run. */
  datatype LineOutcome =
    | Skipped(counter: Option<string>)
    | Inserted(row: CrawlResult, hops: nat, looped: bool)
    | Crashed

  /** A row that backward resolution writes: a hit in scope, with no identifier yet. */
  predicate IsBackwardRow(row: CrawlResult, hits: seq<string>)
  {
    && row.hit && row.identifier.None? && row.postprocStatus.None?
    && row.finalStatusCode.Some? && row.finalStatusCode.value in SuccessStatuses
    && row.finalMimetype.Some? && row.finalMimetype.value in hits
  }

  /**
   * The checks a capture passes before its URL is looked up: not DNS or
   * WHOIS, a successful fetch of a hit mimetype, a size field `int()`
   * reads, not an octet-stream under the size floor, and neither empty nor
   * the empty file's hash.
   */
  predicate PassesLogFilters(line: CrawlLog.CrawlLine, hits: seq<string>)
  {
    && !IsPrereq(line.url)
    && InScope(line.statusCode, line.mimetype, hits)
    && ParseInt(line.sizeBytes).Some?
    && !(line.mimetype == "application/octet-stream" && ParseInt(line.sizeBytes).value < TinyOctetStream)
    && ParseInt(line.sizeBytes).value != 0
    && line.sha1 != EmptyFileSha1
  }

  /**
   * One parsed crawl-log line. DNS and WHOIS lines, lines out of scope,
   * tiny octet-streams, empty files, captures missing from the referrer
   * table and table rows out of scope are skipped with their counter. A
   * size field that is not an integer makes `int()` raise, which ends the
   * run. Otherwise the row records the start of the referrer chain as its
   * initial URL and the capture as its final URL, and is a hit in scope.
   */
  function BackwardCapture(t: Table, hits: seq<string>, domainOf: string -> Option<string>, line: CrawlLog.CrawlLine)
    : (r: LineOutcome)
    ensures IsPrereq(line.url) ==> r == Skipped(Some("skip-log-prereq"))
    ensures !IsPrereq(line.url) && !InScope(line.statusCode, line.mimetype, hits) ==> r == Skipped(Some("skip-log-scope"))
    ensures r.Crashed? <==> !IsPrereq(line.url) && InScope(line.statusCode, line.mimetype, hits) && ParseInt(line.sizeBytes).None?
    ensures !IsPrereq(line.url) && InScope(line.statusCode, line.mimetype, hits) && ParseInt(line.sizeBytes).Some? &&
            line.mimetype == "application/octet-stream" && ParseInt(line.sizeBytes).value < TinyOctetStream ==>
              r == Skipped(Some("skip-tiny-octetstream"))
    ensures !IsPrereq(line.url) && InScope(line.statusCode, line.mimetype, hits) && ParseInt(line.sizeBytes).Some? &&
            !(line.mimetype == "application/octet-stream" && ParseInt(line.sizeBytes).value < TinyOctetStream) &&
            (ParseInt(line.sizeBytes).value == 0 || line.sha1 == EmptyFileSha1) ==>
              r == Skipped(Some("skip-empty-file"))
    ensures PassesLogFilters(line, hits) && LookupReferrerRow(t, line.url).None? ==> r == Skipped(Some("map-url-missing"))
    ensures PassesLogFilters(line, hits) && LookupReferrerRow(t, line.url).Some? &&
            !InScope(LookupReferrerRow(t, line.url).value.statusCode, LookupReferrerRow(t, line.url).value.mimetype, hits) ==>
              r == Skipped(Some("skip-map-scope"))
    ensures r.Inserted? <==>
              && PassesLogFilters(line, hits)
              && LookupReferrerRow(t, line.url).Some?
              && InScope(LookupReferrerRow(t, line.url).value.statusCode, LookupReferrerRow(t, line.url).value.mimetype, hits)
    ensures r.Inserted? ==> IsBackwardRow(r.row, hits)
    ensures r.Inserted? ==>
              var final := LookupReferrerRow(t, line.url).value;
              && final.url == line.url
              && Ancestor(t, final, r.hops).Some?
              && var top := Ancestor(t, final, r.hops).value;
                 && r.row == CrawlResult(top.url, None, domainOf(top.url), Some(final.breadcrumbs),
                                         Some(line.url), domainOf(line.url), FinalTimestamp(line.timestamp),
                                         Some(final.statusCode), Some(line.sha1), Some(final.mimetype),
                                         Some(final.isDedupe), true, None)
                 && (!r.looped ==> Parent(t, top).None?)
                 && (r.looped ==> r.hops > 0)
    ensures r.Inserted? ==>
              var final := LookupReferrerRow(t, line.url).value;
              && r.hops == Climb(t, final, []).hops && r.looped == Climb(t, final, []).looped
              && Ancestor(t, final, r.hops).Some?
              && IsFirstStop(t, final, [], Climbed(Ancestor(t, final, r.hops).value, r.hops, r.looped))
    ensures r.Skipped? ==> r.counter.Some? && r.counter.value !in {"inserted", "map-url-redirect-loop"}
  {
    if IsPrereq(line.url) then Skipped(Some("skip-log-prereq"))
    else if !InScope(line.statusCode, line.mimetype, hits) then Skipped(Some("skip-log-scope"))
    else match ParseInt(line.sizeBytes)
      case None => Crashed
      case Some(size) =>
        if line.mimetype == "application/octet-stream" && size < TinyOctetStream then Skipped(Some("skip-tiny-octetstream"))
        else if size == 0 || line.sha1 == EmptyFileSha1 then Skipped(Some("skip-empty-file"))
        else match LookupReferrerRow(t, line.url)
          case None => Skipped(Some("map-url-missing"))
          case Some(final) =>
            if !InScope(final.statusCode, final.mimetype, hits) then Skipped(Some("skip-map-scope"))
            else
              var c := Climb(t, final, []);
              var row := CrawlResult(c.top.url, None, domainOf(c.top.url), Some(final.breadcrumbs),
                                     Some(final.url), domainOf(final.url), FinalTimestamp(line.timestamp),
                                     Some(final.statusCode), Some(line.sha1), Some(final.mimetype),
                                     Some(final.isDedupe), true, None);
              Inserted(row, c.hops, c.looped)
  }

  /** One raw log line: a malformed line is skipped without a counter. */
  function BackwardLine(t: Table, hits: seq<string>, domainOf: string -> Option<string>, fields: seq<string>)
    : (r: LineOutcome)
    ensures CrawlLog.ParseCrawlLine(fields).None? ==> r == Skipped(None)
    ensures r.Skipped? ==> r.counter != Some("inserted") && r.counter != Some("map-url-redirect-loop")
  {
    match CrawlLog.ParseCrawlLine(fields)
    case None => Skipped(None)
    case Some(line) => BackwardCapture(t, hits, domainOf, line)
  }

  // ---------------------------------------------------------------------------
  // The whole log

  /** The counters one line bumps. */
  function CountLine(c: Counts, o: LineOutcome): (r: Counts)
    requires o.Skipped? ==> o.counter != Some("inserted") && o.counter != Some("map-url-redirect-loop")
    ensures Count(r, "inserted") == Count(c, "inserted") + (if o.Inserted? then 1 else 0)
    ensures Count(r, "map-url-redirect-loop") == Count(c, "map-url-redirect-loop") + (if o.Inserted? && o.looped then 1 else 0)
    ensures forall name :: name != "inserted" && name != "map-url-redirect-loop" ==>
              Count(r, name) == Count(c, name) + (if o == Skipped(Some(name)) then 1 else 0)
  {
    match o
    case Skipped(None) => c
    case Skipped(Some(name)) => Bump(c, name)
    case Inserted(_, _, looped) => Bump(if looped then Bump(c, "map-url-redirect-loop") else c, "inserted")
    case Crashed => c
  }

  /**
   * Applies the outcomes of successive lines to the output table. The run
   * ends without a result exactly when some line crashed. Otherwise the
   * rows already in the table are kept, one row is appended per inserted
   * outcome, in order, the `inserted` counter grows by exactly the
   * number of rows appended, `map-url-redirect-loop` by the number of
   * inserted walks that stopped on a repeat, and every other counter by
   * the number of lines skipped under it.
   */
  function ApplyOutcomes(out: OutTable, counts: Counts, os: seq<LineOutcome>): (r: Option<Run>)
    requires forall i :: 0 <= i < |os| && os[i].Skipped? ==> os[i].counter != Some("inserted") && os[i].counter != Some("map-url-redirect-loop")
    ensures r.None? <==> exists i :: 0 <= i < |os| && os[i].Crashed?
    ensures r.Some? ==> r.value.table == out + InsertedRows(os)
    ensures r.Some? ==> Count(r.value.counts, "inserted") == Count(counts, "inserted") + |InsertedRows(os)|
    ensures r.Some? ==> Count(r.value.counts, "map-url-redirect-loop") == Count(counts, "map-url-redirect-loop") + Loops(os)
    ensures r.Some? ==> forall name :: name != "inserted" && name != "map-url-redirect-loop" ==>
              Count(r.value.counts, name) == Count(counts, name) + Tally(os, name)
    decreases |os|
  {
    if os == [] then Some(Run(out, counts))
    else if os[0].Crashed? then None
    else
      var out' := if os[0].Inserted? then out + [os[0].row] else out;
      assert forall i :: 1 <= i < |os| ==> os[i] == os[1..][i - 1];
      var r := ApplyOutcomes(out', CountLine(counts, os[0]), os[1..]);
      var head := if os[0].Inserted? then [os[0].row] else [];
      assert InsertedRows(os) == head + InsertedRows(os[1..]);
      assert out' == out + head;
      assert out + InsertedRows(os) == out' + InsertedRows(os[1..]);
      r
  }

  /** How many of the outcomes are skips counted under `name`. */
  function Tally(os: seq<LineOutcome>, name: string): nat
  {
    if os == [] then 0
    else (if os[0] == Skipped(Some(name)) then 1 else 0) + Tally(os[1..], name)
  }

  /** How many of the outcomes are inserts whose walk stopped on a repeated referrer. */
  function Loops(os: seq<LineOutcome>): nat
  {
    if os == [] then 0
    else (if os[0].Inserted? && os[0].looped then 1 else 0) + Loops(os[1..])
  }

  /** The rows of the inserted outcomes, in order. */
  function InsertedRows(os: seq<LineOutcome>): seq<CrawlResult>
  {
    if os == [] then []
    else (if os[0].Inserted? then [os[0].row] else []) + InsertedRows(os[1..])
  }

  /** Every row among the outcomes satisfies whatever every inserted outcome's row does. */
  lemma {:induction false} InsertedRowsAre(os: seq<LineOutcome>, hits: seq<string>)
    requires forall i :: 0 <= i < |os| && os[i].Inserted? ==> IsBackwardRow(os[i].row, hits)
    ensures forall k :: 0 <= k < |InsertedRows(os)| ==> IsBackwardRow(InsertedRows(os)[k], hits)
    decreases |os|
  {
    if os != [] {
      assert forall i :: 1 <= i < |os| ==> os[i] == os[1..][i - 1];
      InsertedRowsAre(os[1..], hits);
    }
  }

  /** The outcome of every log line. */
  function Outcomes(t: Table, hits: seq<string>, domainOf: string -> Option<string>, log: seq<seq<string>>)
    : seq<LineOutcome>
  {
    seq(|log|, i requires 0 <= i < |log| => BackwardLine(t, hits, domainOf, log[i]))
  }

  /** The rows of the log lines that are inserted, in log order. */
  function CapturedRows(t: Table, hits: seq<string>, domainOf: string -> Option<string>, log: seq<seq<string>>)
    : seq<CrawlResult>
  {
    if log == [] then []
    else
      var o := BackwardLine(t, hits, domainOf, log[0]);
      (if o.Inserted? then [o.row] else []) + CapturedRows(t, hits, domainOf, log[1..])
  }

  /**
   * Backward resolution over a whole log, appending to `out`: the run ends
   * without a result exactly when some line crashes; otherwise the table
   * is the old table followed by the row of every inserted line, in log
   * order, each an in-scope hit, and the `inserted` counter grows by the
   * number of rows appended. The counters the run reports grow by the
   * log's totals: `map-url-redirect-loop` by the inserted lines whose walk
   * stopped on a repeat, every other counter by the lines skipped under it.
   */
  function BackwardRun(out: OutTable, counts: Counts, t: Table, hits: seq<string>,
                       domainOf: string -> Option<string>, log: seq<seq<string>>): (r: Option<Run>)
    ensures r.None? <==> exists i :: 0 <= i < |log| && BackwardLine(t, hits, domainOf, log[i]).Crashed?
    ensures r.Some? ==> r.value.table == out + CapturedRows(t, hits, domainOf, log)
    ensures r.Some? ==> forall k :: |out| <= k < |r.value.table| ==> IsBackwardRow(r.value.table[k], hits)
    ensures r.Some? ==> Count(r.value.counts, "inserted") == Count(counts, "inserted") + (|r.value.table| - |out|)
    ensures r.Some? ==> Count(r.value.counts, "map-url-redirect-loop")
                        == Count(counts, "map-url-redirect-loop") + Loops(Outcomes(t, hits, domainOf, log))
    ensures r.Some? ==> forall name :: name != "inserted" && name != "map-url-redirect-loop" ==>
              Count(r.value.counts, name) == Count(counts, name) + Tally(Outcomes(t, hits, domainOf, log), name)
  {
    var os := Outcomes(t, hits, domainOf, log);
    InsertedOutcomes(t, hits, domainOf, log, os);
    RunCrashes(t, hits, domainOf, log, os);
    RunRows(out, counts, os, hits);
    CapturedRowsAre(t, hits, domainOf, log);
    var r := ApplyOutcomes(out, counts, os);
    r
  }

  lemma RunCrashes(t: Table, hits: seq<string>, domainOf: string -> Option<string>, log: seq<seq<string>>,
                   os: seq<LineOutcome>)
    requires os == Outcomes(t, hits, domainOf, log)
    ensures (exists i :: 0 <= i < |os| && os[i].Crashed?) <==>
            (exists i :: 0 <= i < |log| && BackwardLine(t, hits, domainOf, log[i]).Crashed?)
  {
    if i :| 0 <= i < |log| && BackwardLine(t, hits, domainOf, log[i]).Crashed? {
      assert os[i].Crashed?;
    }
  }

  lemma RunRows(out: OutTable, counts: Counts, os: seq<LineOutcome>, hits: seq<string>)
    requires forall i :: 0 <= i < |os| && os[i].Inserted? ==> IsBackwardRow(os[i].row, hits)
    requires forall i :: 0 <= i < |os| && os[i].Skipped? ==>
               os[i].counter != Some("inserted") && os[i].counter != Some("map-url-redirect-loop")
    ensures ApplyOutcomes(out, counts, os).Some? ==>
              forall k :: |out| <= k < |ApplyOutcomes(out, counts, os).value.table| ==>
                IsBackwardRow(ApplyOutcomes(out, counts, os).value.table[k], hits)
  {
    InsertedRowsAre(os, hits);
    var r := ApplyOutcomes(out, counts, os);
    if r.Some? {
      forall k | |out| <= k < |r.value.table|
        ensures IsBackwardRow(r.value.table[k], hits)
      {
        assert r.value.table[k] == InsertedRows(os)[k - |out|];
      }
    }
  }

  /** The inserted rows of the outcomes are the captured rows of the log. */
  lemma {:induction false} CapturedRowsAre(t: Table, hits: seq<string>, domainOf: string -> Option<string>,
                                           log: seq<seq<string>>)
    ensures InsertedRows(Outcomes(t, hits, domainOf, log)) == CapturedRows(t, hits, domainOf, log)
    decreases |log|
  {
    if log != [] {
      var os := Outcomes(t, hits, domainOf, log);
      assert os[1..] == Outcomes(t, hits, domainOf, log[1..]);
      CapturedRowsAre(t, hits, domainOf, log[1..]);
    }
  }

  lemma InsertedOutcomes(t: Table, hits: seq<string>, domainOf: string -> Option<string>, log: seq<seq<string>>,
                         os: seq<LineOutcome>)
    requires os == Outcomes(t, hits, domainOf, log)
    ensures forall i :: 0 <= i < |os| && os[i].Inserted? ==> IsBackwardRow(os[i].row, hits)
    ensures forall i :: 0 <= i < |os| && os[i].Skipped? ==>
              os[i].counter != Some("inserted") && os[i].counter != Some("map-url-redirect-loop")
  {
    forall i | 0 <= i < |os| && os[i].Inserted?
      ensures IsBackwardRow(os[i].row, hits)
    {
      var line := CrawlLog.ParseCrawlLine(log[i]).value;
      assert os[i] == BackwardCapture(t, hits, domainOf, line);
    }
  }
}
