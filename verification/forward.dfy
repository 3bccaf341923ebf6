/**
 * The forward resolver: from each seed URL, follow the crawler's own
 * links down to the row where the crawl ended, and record one result row
 * per seed.
 */
module Forward {
  import opened Options
  import opened Strings
  import opened Results
  import opened Referrers
  import opened UrlNorm

  // ---------------------------------------------------------------------------
  // Choosing among children

  /**
   * A child the descent never moves to: an embed (`E`), speculative (`X`)
   * or inferred (`I`) hop, unless its mimetype mentions PDF.
   */
  predicate Excluded(row: ReferrerRow)
  {
    ('E' in row.breadcrumbs || 'X' in row.breadcrumbs || 'I' in row.breadcrumbs)
    && !Contains(row.mimetype, "pdf")
  }

  /**
   * The resolver's scan over the children in table order: every child that
   * is not excluded replaces the current choice.
   */
  function ScanChildren(children: seq<ReferrerRow>, chosen: Option<ReferrerRow>): Option<ReferrerRow>
  {
    if children == [] then chosen
    else ScanChildren(children[1..], if Excluded(children[0]) then chosen else Some(children[0]))
  }

  /** The child the descent moves to, if any. */
  function SelectChild(children: seq<ReferrerRow>): Option<ReferrerRow>
  {
    ScanChildren(children, None)
  }

  /**
   * Reference definition of the choice: the position of the last child
   * that is not excluded; `None` when every child is excluded.
   */
  function LastQualifying(children: seq<ReferrerRow>): (k: Option<nat>)
    ensures k.Some? ==> k.value < |children| && !Excluded(children[k.value])
    ensures k.Some? ==> forall j :: k.value < j < |children| ==> Excluded(children[j])
    ensures k.None? <==> forall j :: 0 <= j < |children| ==> Excluded(children[j])
  {
    if children == [] then None
    else if !Excluded(children[|children| - 1]) then Some(|children| - 1)
    else
      var k := LastQualifying(children[..|children| - 1]);
      assert forall j :: 0 <= j < |children| - 1 ==> children[j] == children[..|children| - 1][j];
      k
  }

  /** Two positions that both meet the last-qualifying description are the same. */
  lemma LastQualifyingUnique(children: seq<ReferrerRow>, k: nat)
    requires k < |children| && !Excluded(children[k])
    requires forall j :: k < j < |children| ==> Excluded(children[j])
    ensures LastQualifying(children) == Some(k)
  {
  }

  /**
   * The forward scan keeps the last qualifying child: it ends on the
   * child the reference definition picks, or keeps the earlier choice
   * when no child qualifies.
   */
  lemma {:induction false} ScanIsLast(children: seq<ReferrerRow>, chosen: Option<ReferrerRow>)
    ensures ScanChildren(children, chosen) ==
              match LastQualifying(children)
              case None => chosen
              case Some(k) => Some(children[k])
    decreases |children|
  {
    if children != [] {
      var rest := children[1..];
      var next := if Excluded(children[0]) then chosen else Some(children[0]);
      ScanIsLast(rest, next);
      match LastQualifying(rest)
      case Some(k) =>
        assert children[k + 1] == rest[k];
        forall j | k + 1 < j < |children|
          ensures Excluded(children[j])
        {
          assert children[j] == rest[j - 1];
        }
        LastQualifyingUnique(children, k + 1);
      case None =>
        if !Excluded(children[0]) {
          LastQualifyingUnique(children, 0);
        } else {
          assert forall j :: 0 <= j < |children| ==> Excluded(children[j]) by {
            forall j | 0 <= j < |children|
              ensures Excluded(children[j])
            {
              if j > 0 {
                assert children[j] == rest[j - 1];
              }
            }
          }
        }
    }
  }

  /** The chosen child is the last one that is not excluded. */
  lemma SelectChildIsLast(children: seq<ReferrerRow>)
    ensures SelectChild(children).None? <==> forall j :: 0 <= j < |children| ==> Excluded(children[j])
    ensures SelectChild(children).Some? ==>
              exists k :: 0 <= k < |children| && SelectChild(children) == Some(children[k])
                          && !Excluded(children[k])
                          && forall j :: k < j < |children| ==> Excluded(children[j])
  {
    ScanIsLast(children, None);
  }

  // ---------------------------------------------------------------------------
  // The descent

  /** The row the descent moves to from `row`: none at a dead end. */
  function Next(t: Table, row: ReferrerRow): Option<ReferrerRow>
  {
    match LookupAllReferredRows(t, row.url)
    case None => None
    case Some(children) => SelectChild(children)
  }

  /** The resolver's choice of where to go from each row of `t`. */
  function Chooser(t: Table): ReferrerRow -> Option<ReferrerRow>
  {
    row => Next(t, row)
  }

  /** The row `k` moves below `row`, following `next`. */
  function Descendant(next: ReferrerRow -> Option<ReferrerRow>, row: ReferrerRow, k: nat): Option<ReferrerRow>
    decreases k
  {
    if k == 0 then Some(row)
    else
      match next(row)
      case None => None
      case Some(child) => Descendant(next, child, k - 1)
  }

  /** Where a descent ended, how far it moved, and how many child lookups it made. */
  datatype Descent = Descent(final: ReferrerRow, moves: nat, lookups: nat, hitLimit: bool)

  /** The hop budget the resolver starts each seed with. */
  const DescentLimit := 40

  function Budget(limit: int): nat
  {
    if limit > 1 then limit - 1 else 0
  }

  /**
   * The resolver's descent from `row`, moving with `next`. The budget is
   * decremented before it is tested, so a budget of `limit` allows
   * `limit - 1` lookups. The descent stopped either on a dead end it
   * looked up, or with the budget spent.
   */
  function Descend(next: ReferrerRow -> Option<ReferrerRow>, row: ReferrerRow, limit: int): (r: Descent)
    ensures r.lookups <= Budget(limit)
    ensures r.hitLimit ==> r.moves == r.lookups == Budget(limit)
    ensures !r.hitLimit ==> r.lookups == r.moves + 1 && next(r.final).None?
    decreases if limit > 0 then limit else 0
  {
    var left := limit - 1;
    if left <= 0 then Descent(row, 0, 0, true)
    else
      match next(row)
      case None => Descent(row, 0, 1, false)
      case Some(child) =>
        var d := Descend(next, child, left);
        Descent(d.final, d.moves + 1, d.lookups + 1, d.hitLimit)
  }

  /** The descent ends on the row reached by following `next` as many times as it moved. */
  lemma {:induction false} DescendFollowsNext(next: ReferrerRow -> Option<ReferrerRow>, row: ReferrerRow, limit: int)
    ensures Descendant(next, row, Descend(next, row, limit).moves) == Some(Descend(next, row, limit).final)
    decreases if limit > 0 then limit else 0
  {
    if limit - 1 > 0 && next(row).Some? {
      DescendFollowsNext(next, next(row).value, limit - 1);
    }
  }

  // ---------------------------------------------------------------------------
  // One seed line

  /** The seed's identifier column, when the line has one. */
  function SeedIdentifier(fields: seq<string>): Option<string>
  {
    if |fields| == 2 then Some(fields[1]) else None
  }

  /**
   * The seed-URL normaliser the resolver uses: URL normalisation of what
   * the parser makes of the seed text. The resolver below takes any
   * normaliser, so its properties hold for this one in particular.
   */
  function SeedNormalizer(parse: string -> Option<Url>): string -> Result<string, NormError>
  {
    s => NormalizeUrl(parse(s))
  }

  /**
   * With the seed-URL normaliser, a seed line aborts exactly when it has
   * more than two columns or its URL parses with a path but no host; it
   * has a usable URL exactly when its URL parses with both, and that URL
   * holds no space.
   */
  lemma SeedNormalizerAborts(parse: string -> Option<Url>, fields: seq<string>)
    ensures Aborts(SeedNormalizer(parse), fields) <==>
              |fields| > 2 ||
              (|fields| > 0 && parse(fields[0]).Some? && parse(fields[0]).value.path.Some? && parse(fields[0]).value.host.None?)
    ensures SeedUrl(SeedNormalizer(parse), fields).Some? ==>
              && 0 < |fields| <= 2
              && parse(fields[0]).Some? && parse(fields[0]).value.path.Some? && parse(fields[0]).value.host.Some?
              && ' ' !in SeedUrl(SeedNormalizer(parse), fields).value
  {
  }

  /** A seed line that stops the whole run: too many columns, or a URL without a host. */
  predicate Aborts(norm: string -> Result<string, NormError>, fields: seq<string>)
  {
    |fields| > 2 || (|fields| > 0 && norm(fields[0]) == Err(NoHost))
  }

  /** The normalised seed URL of a line that has a usable one. */
  function SeedUrl(norm: string -> Result<string, NormError>, fields: seq<string>): Option<string>
  {
    if |fields| == 0 || |fields| > 2 then None
    else
      match norm(fields[0])
      case Ok(u) => if u == "" then None else Some(u)
      case Err(_) => None
  }

  /** The row for a seed that the referrer map does not know: a non-hit with every terminal field empty. */
  function Placeholder(seed: string, identifier: Option<string>, domainOf: string -> Option<string>): CrawlResult
  {
    CrawlResult(seed, identifier, domainOf(seed), None, None, None, None, None, None, None, None, false, None)
  }

  /** The row for a seed whose descent ended on `final`. */
  function ResolvedRow(seed: string, identifier: Option<string>, domainOf: string -> Option<string>,
                       final: ReferrerRow): CrawlResult
  {
    CrawlResult(seed, identifier, domainOf(seed), Some(final.breadcrumbs), Some(final.url),
                domainOf(final.url), None, Some(final.statusCode), None, Some(final.mimetype),
                Some(final.isDedupe), false, None)
  }

  /** What one seed line does to the output table. */
  datatype SeedOutcome =
    | SkipSeed(counter: string)
    | SetIdentifier(url: string, identifier: Option<string>)
    | Complete
    | Missing(row: CrawlResult)
    | Resolved(row: CrawlResult, descent: Descent)
    | Abort

  /** A seed line's outcome, and whether normalisation changed its URL. */
  datatype SeedStep = SeedStep(outcome: SeedOutcome, renamed: bool)

  /**
   * One seed line against the current output table `out` and the referrer
   * map `t`. A seed with a row already only gets its identifier filled in,
   * and only when the first such row has none; a new seed gets exactly one
   * row, a placeholder when the map does not know it.
   */
  function ForwardSeed(out: OutTable, t: Table, norm: string -> Result<string, NormError>,
                       domainOf: string -> Option<string>, fields: seq<string>): (r: SeedStep)
    ensures r.outcome.Abort? <==> Aborts(norm, fields)
    ensures r.renamed <==> SeedUrl(norm, fields).Some? && fields[0] != SeedUrl(norm, fields).value
    ensures r.outcome.SkipSeed? ==> r.outcome.counter in {"skip-raw-line", "skip-bad-seed-url"}
    ensures fields == [] ==> r.outcome == SkipSeed("skip-raw-line")
    ensures fields != [] && !Aborts(norm, fields) && SeedUrl(norm, fields).None? ==> r.outcome == SkipSeed("skip-bad-seed-url")
    ensures !r.outcome.Abort? && SeedUrl(norm, fields).None? ==> r.outcome.SkipSeed?
    ensures SeedUrl(norm, fields).Some? ==>
              var u := SeedUrl(norm, fields).value;
              var first := FirstRowFor(out, u);
              && (r.outcome.SetIdentifier? <==> first.Some? && !Truthy(first.value.identifier))
              && (r.outcome.SetIdentifier? ==> r.outcome == SetIdentifier(u, SeedIdentifier(fields)))
              && (r.outcome.Complete? <==> first.Some? && Truthy(first.value.identifier))
              && (r.outcome.Missing? <==> first.None? && LookupReferrerRow(t, u).None?)
              && (r.outcome.Missing? ==> r.outcome.row == Placeholder(u, SeedIdentifier(fields), domainOf))
              && (r.outcome.Resolved? <==> first.None? && LookupReferrerRow(t, u).Some?)
              && (r.outcome.Resolved? ==>
                    && r.outcome.descent == Descend(Chooser(t), LookupReferrerRow(t, u).value, DescentLimit)
                    && r.outcome.row == ResolvedRow(u, SeedIdentifier(fields), domainOf, r.outcome.descent.final))
  {
    if fields == [] then SeedStep(SkipSeed("skip-raw-line"), false)
    else if |fields| > 2 then SeedStep(Abort, false)
    else
      var identifier := SeedIdentifier(fields);
      match norm(fields[0])
      case Err(e) =>
        if e == NoHost then SeedStep(Abort, false) else SeedStep(SkipSeed("skip-bad-seed-url"), false)
      case Ok(seed) =>
        if seed == "" then SeedStep(SkipSeed("skip-bad-seed-url"), false)
        else
          var renamed := fields[0] != seed;
          match FirstRowFor(out, seed)
          case Some(existing) =>
            if !Truthy(existing.identifier) then SeedStep(SetIdentifier(seed, identifier), renamed)
            else SeedStep(Complete, renamed)
          case None =>
            match LookupReferrerRow(t, seed)
            case None => SeedStep(Missing(Placeholder(seed, identifier, domainOf)), renamed)
            case Some(first) =>
              var d := Descend(Chooser(t), first, DescentLimit);
              SeedStep(Resolved(ResolvedRow(seed, identifier, domainOf, d.final), d), renamed)
  }

  /**
   * The identifier update: every row starting from `url` takes the new
   * identifier, every other row and every other column is unchanged.
   */
  function SetIdentifiers(out: OutTable, url: string, identifier: Option<string>): (r: OutTable)
    ensures |r| == |out|
    ensures forall i :: 0 <= i < |out| ==> r[i] == out[i].(identifier := r[i].identifier)
    ensures forall i :: 0 <= i < |out| && out[i].initialUrl == url ==> r[i].identifier == identifier
    ensures forall i :: 0 <= i < |out| && out[i].initialUrl != url ==> r[i] == out[i]
  {
    seq(|out|, i requires 0 <= i < |out| =>
      if out[i].initialUrl == url then out[i].(identifier := identifier) else out[i])
  }

  // ---------------------------------------------------------------------------
  // The whole seed list

  /** Every row of `b` is the row of `a` at the same place, up to its identifier. */
  predicate SameButIdentifiers(a: OutTable, b: OutTable)
  {
    |a| <= |b| && forall i :: 0 <= i < |a| ==> b[i] == a[i].(identifier := b[i].identifier)
  }

  /** No row from position `from` on starts from the same URL as an earlier row. */
  predicate NewRowsDistinct(out: OutTable, from: nat)
  {
    forall j, k :: 0 <= k < j < |out| && from <= j ==> out[k].initialUrl != out[j].initialUrl
  }

  /** The table and counters after one seed line that does not abort. */
  function ApplySeed(run: Run, step: SeedStep): (r: Run)
    requires !step.outcome.Abort?
    requires step.outcome.SkipSeed? ==> step.outcome.counter !in {"inserted", "map-url-missing"}
    ensures |r.table| + Count(run.counts, "inserted") + Count(run.counts, "map-url-missing")
            == |run.table| + Count(r.counts, "inserted") + Count(r.counts, "map-url-missing")
    ensures Count(r.counts, "inserted") == Count(run.counts, "inserted") + (if step.outcome.Resolved? then 1 else 0)
    ensures SameButIdentifiers(run.table, r.table)
    ensures step.outcome.Missing? || step.outcome.Resolved? ==> r.table == run.table + [step.outcome.row]
    ensures step.outcome.SkipSeed? || step.outcome.Complete? ==> r.table == run.table
    ensures step.outcome.SetIdentifier? ==>
              && |r.table| == |run.table|
              && (forall i :: 0 <= i < |run.table| && run.table[i].initialUrl == step.outcome.url ==>
                    r.table[i] == run.table[i].(identifier := step.outcome.identifier))
              && (forall i :: 0 <= i < |run.table| && run.table[i].initialUrl != step.outcome.url ==> r.table[i] == run.table[i])
    ensures Count(r.counts, "map-url-missing") == Count(run.counts, "map-url-missing") + (if step.outcome.Missing? then 1 else 0)
    ensures forall name :: Count(r.counts, name) == Count(run.counts, name)
              + (if step.renamed && name == "_normalized-seed-url" then 1 else 0)
              + (if step.outcome == SkipSeed(name) then 1 else 0)
              + (if step.outcome.SetIdentifier? && name == "existing-id-updated" then 1 else 0)
              + (if step.outcome.Complete? && name == "existing-complete" then 1 else 0)
              + (if step.outcome.Missing? && name == "map-url-missing" then 1 else 0)
              + (if step.outcome.Resolved? && step.outcome.descent.hitLimit && name == "_redirect-recursion-limit" then 1 else 0)
              + (if step.outcome.Resolved? && name == "inserted" then 1 else 0)
  {
    var counts := if step.renamed then Bump(run.counts, "_normalized-seed-url") else run.counts;
    match step.outcome
    case SkipSeed(name) => Run(run.table, Bump(counts, name))
    case SetIdentifier(url, identifier) =>
      Run(SetIdentifiers(run.table, url, identifier), Bump(counts, "existing-id-updated"))
    case Complete => Run(run.table, Bump(counts, "existing-complete"))
    case Missing(row) => Run(run.table + [row], Bump(counts, "map-url-missing"))
    case Resolved(row, d) =>
      var c := if d.hitLimit then Bump(counts, "_redirect-recursion-limit") else counts;
      Run(run.table + [row], Bump(c, "inserted"))
  }

  /**
   * A seed with a usable URL that neither the output table nor the
   * referrer map knows gets exactly one placeholder row: not a hit, with
   * the seed's identifier and no terminal fields.
   */
  lemma MissingSeedPlaceholder(run: Run, t: Table, norm: string -> Result<string, NormError>,
                               domainOf: string -> Option<string>, fields: seq<string>)
    requires SeedUrl(norm, fields).Some?
    requires !HasRowFor(run.table, SeedUrl(norm, fields).value)
    requires LookupReferrerRow(t, SeedUrl(norm, fields).value).None?
    ensures var step := ForwardSeed(run.table, t, norm, domainOf, fields);
      && !step.outcome.Abort?
      && ApplySeed(run, step).table == run.table + [Placeholder(SeedUrl(norm, fields).value, SeedIdentifier(fields), domainOf)]
      && !ApplySeed(run, step).table[|run.table|].hit
      && ApplySeed(run, step).table[|run.table|].finalUrl.None?
  {
    var u := SeedUrl(norm, fields).value;
    var step := ForwardSeed(run.table, t, norm, domainOf, fields);
    assert FirstRowFor(run.table, u).None?;
    assert step.outcome.Missing?;
  }

  /** Runs the seed lines in order; `None` when one of them stops the run. */
  function ForwardSeeds(run: Run, t: Table, norm: string -> Result<string, NormError>,
                        domainOf: string -> Option<string>, seeds: seq<seq<string>>): Option<Run>
    decreases |seeds|
  {
    if seeds == [] then Some(run)
    else
      var step := ForwardSeed(run.table, t, norm, domainOf, seeds[0]);
      if step.outcome.Abort? then None
      else ForwardSeeds(ApplySeed(run, step), t, norm, domainOf, seeds[1..])
  }

  // ---------------------------------------------------------------------------
  // Properties of a run

  /** A run stops exactly when one of its seed lines aborts. */
  lemma {:induction false} ForwardAborts(run: Run, t: Table, norm: string -> Result<string, NormError>,
                                         domainOf: string -> Option<string>, seeds: seq<seq<string>>)
    ensures ForwardSeeds(run, t, norm, domainOf, seeds).None?
            <==> exists i :: 0 <= i < |seeds| && Aborts(norm, seeds[i])
    decreases |seeds|
  {
    if seeds != [] {
      var step := ForwardSeed(run.table, t, norm, domainOf, seeds[0]);
      if !step.outcome.Abort? {
        var rest := seeds[1..];
        ForwardAborts(ApplySeed(run, step), t, norm, domainOf, rest);
        if i :| 0 <= i < |seeds| && Aborts(norm, seeds[i]) {
          assert rest[i - 1] == seeds[i];
        }
        if i :| 0 <= i < |rest| && Aborts(norm, rest[i]) {
          assert seeds[i + 1] == rest[i];
        }
      }
    }
  }

  lemma SameButIdentifiersTrans(a: OutTable, b: OutTable, c: OutTable)
    requires SameButIdentifiers(a, b) && SameButIdentifiers(b, c)
    ensures SameButIdentifiers(a, c)
  {
    forall i | 0 <= i < |a|
      ensures c[i] == a[i].(identifier := c[i].identifier)
    {
      assert b[i] == a[i].(identifier := b[i].identifier);
    }
  }

  /**
   * A run only appends rows and fills in identifiers; the rows it appends
   * are exactly those counted as inserted or as missing from the map.
   */
  lemma {:induction false} ForwardTable(run: Run, t: Table, norm: string -> Result<string, NormError>,
                                        domainOf: string -> Option<string>, seeds: seq<seq<string>>)
    requires ForwardSeeds(run, t, norm, domainOf, seeds).Some?
    ensures var r := ForwardSeeds(run, t, norm, domainOf, seeds).value;
            && SameButIdentifiers(run.table, r.table)
            && |r.table| + Count(run.counts, "inserted") + Count(run.counts, "map-url-missing")
               == |run.table| + Count(r.counts, "inserted") + Count(r.counts, "map-url-missing")
    decreases |seeds|
  {
    if seeds != [] {
      var step := ForwardSeed(run.table, t, norm, domainOf, seeds[0]);
      var next := ApplySeed(run, step);
      ForwardTable(next, t, norm, domainOf, seeds[1..]);
      SameButIdentifiersTrans(run.table, next.table, ForwardSeeds(run, t, norm, domainOf, seeds).value.table);
    }
  }

  /** Filling in identifiers and appending rows keep every initial URL present. */
  lemma KeepsRowFor(a: OutTable, b: OutTable, url: string)
    requires SameButIdentifiers(a, b) && HasRowFor(a, url)
    ensures HasRowFor(b, url)
  {
    var i :| 0 <= i < |a| && a[i].initialUrl == url;
    assert b[i] == a[i].(identifier := b[i].identifier);
  }

  /** After a seed line with a usable URL the table has a row for that URL. */
  lemma SeedGetsRow(run: Run, t: Table, norm: string -> Result<string, NormError>,
                    domainOf: string -> Option<string>, fields: seq<string>)
    requires !Aborts(norm, fields) && SeedUrl(norm, fields).Some?
    ensures HasRowFor(ApplySeed(run, ForwardSeed(run.table, t, norm, domainOf, fields)).table,
                      SeedUrl(norm, fields).value)
  {
    var u := SeedUrl(norm, fields).value;
    var step := ForwardSeed(run.table, t, norm, domainOf, fields);
    var r := ApplySeed(run, step);
    if step.outcome.SetIdentifier? || step.outcome.Complete? {
      var first := FirstRowFor(run.table, u).value;
      var i :| 0 <= i < |run.table| && run.table[i] == first;
      KeepsRowFor(run.table, r.table, u);
    } else {
      assert r.table[|run.table|].initialUrl == u;
    }
  }

  /** Every seed line with a usable URL has a row for that URL once the run is over. */
  lemma {:induction false} ForwardCovers(run: Run, t: Table, norm: string -> Result<string, NormError>,
                                         domainOf: string -> Option<string>, seeds: seq<seq<string>>)
    requires ForwardSeeds(run, t, norm, domainOf, seeds).Some?
    ensures forall i :: 0 <= i < |seeds| && SeedUrl(norm, seeds[i]).Some? ==>
              HasRowFor(ForwardSeeds(run, t, norm, domainOf, seeds).value.table, SeedUrl(norm, seeds[i]).value)
    decreases |seeds|
  {
    if seeds != [] {
      var r := ForwardSeeds(run, t, norm, domainOf, seeds).value;
      var step := ForwardSeed(run.table, t, norm, domainOf, seeds[0]);
      var next := ApplySeed(run, step);
      var rest := seeds[1..];
      ForwardCovers(next, t, norm, domainOf, rest);
      ForwardTable(next, t, norm, domainOf, rest);
      forall i | 0 <= i < |seeds| && SeedUrl(norm, seeds[i]).Some?
        ensures HasRowFor(r.table, SeedUrl(norm, seeds[i]).value)
      {
        if i == 0 {
          SeedGetsRow(run, t, norm, domainOf, seeds[0]);
          KeepsRowFor(next.table, r.table, SeedUrl(norm, seeds[0]).value);
        } else {
          assert rest[i - 1] == seeds[i];
        }
      }
    }
  }

  /** One seed line never appends a row whose initial URL is already in the table. */
  lemma SeedKeepsDistinct(run: Run, t: Table, norm: string -> Result<string, NormError>,
                          domainOf: string -> Option<string>, fields: seq<string>, from: nat)
    requires !Aborts(norm, fields) && NewRowsDistinct(run.table, from)
    ensures NewRowsDistinct(ApplySeed(run, ForwardSeed(run.table, t, norm, domainOf, fields)).table, from)
  {
    var step := ForwardSeed(run.table, t, norm, domainOf, fields);
    var r := ApplySeed(run, step);
    if |r.table| == |run.table| {
      SameUrlsDistinct(run.table, r.table, from);
    } else {
      var row := r.table[|run.table|];
      assert r.table == run.table + [row];
      assert FirstRowFor(run.table, row.initialUrl).None?;
      AppendDistinct(run.table, row, from);
    }
  }

  lemma SameUrlsDistinct(a: OutTable, b: OutTable, from: nat)
    requires SameButIdentifiers(a, b) && |a| == |b| && NewRowsDistinct(a, from)
    ensures NewRowsDistinct(b, from)
  {
    forall j, k | 0 <= k < j < |b| && from <= j
      ensures b[k].initialUrl != b[j].initialUrl
    {
      assert b[k] == a[k].(identifier := b[k].identifier);
      assert b[j] == a[j].(identifier := b[j].identifier);
    }
  }

  lemma AppendDistinct(a: OutTable, row: CrawlResult, from: nat)
    requires NewRowsDistinct(a, from)
    requires forall i :: 0 <= i < |a| ==> a[i].initialUrl != row.initialUrl
    ensures NewRowsDistinct(a + [row], from)
  {
  }

  /** A run never appends a row for an initial URL that the table already has. */
  lemma {:induction false} ForwardNoDuplicates(run: Run, t: Table, norm: string -> Result<string, NormError>,
                                               domainOf: string -> Option<string>, seeds: seq<seq<string>>,
                                               from: nat)
    requires ForwardSeeds(run, t, norm, domainOf, seeds).Some?
    requires NewRowsDistinct(run.table, from)
    ensures NewRowsDistinct(ForwardSeeds(run, t, norm, domainOf, seeds).value.table, from)
    decreases |seeds|
  {
    if seeds != [] {
      var step := ForwardSeed(run.table, t, norm, domainOf, seeds[0]);
      SeedKeepsDistinct(run, t, norm, domainOf, seeds[0], from);
      ForwardNoDuplicates(ApplySeed(run, step), t, norm, domainOf, seeds[1..], from);
    }
  }

  /** Every usable seed URL of the list already has a row. */
  predicate Covered(out: OutTable, norm: string -> Result<string, NormError>, seeds: seq<seq<string>>)
  {
    forall i :: 0 <= i < |seeds| && SeedUrl(norm, seeds[i]).Some? ==> HasRowFor(out, SeedUrl(norm, seeds[i]).value)
  }

  /** Over a table that already covers every seed, a run appends nothing and inserts nothing. */
  lemma {:induction false} CoveredRunAppendsNothing(run: Run, t: Table, norm: string -> Result<string, NormError>,
                                                    domainOf: string -> Option<string>, seeds: seq<seq<string>>)
    requires forall i :: 0 <= i < |seeds| ==> !Aborts(norm, seeds[i])
    requires Covered(run.table, norm, seeds)
    ensures ForwardSeeds(run, t, norm, domainOf, seeds).Some?
    ensures |ForwardSeeds(run, t, norm, domainOf, seeds).value.table| == |run.table|
    ensures Count(ForwardSeeds(run, t, norm, domainOf, seeds).value.counts, "inserted") == Count(run.counts, "inserted")
    decreases |seeds|
  {
    if seeds != [] {
      var step := ForwardSeed(run.table, t, norm, domainOf, seeds[0]);
      var next := ApplySeed(run, step);
      assert !Aborts(norm, seeds[0]);
      if SeedUrl(norm, seeds[0]).Some? {
        var u := SeedUrl(norm, seeds[0]).value;
        assert HasRowFor(run.table, u);
        assert FirstRowFor(run.table, u).Some?;
      }
      assert |next.table| == |run.table|;
      var rest := seeds[1..];
      forall i | 0 <= i < |rest| && SeedUrl(norm, rest[i]).Some?
        ensures HasRowFor(next.table, SeedUrl(norm, rest[i]).value)
      {
        assert rest[i] == seeds[i + 1];
        KeepsRowFor(run.table, next.table, SeedUrl(norm, rest[i]).value);
      }
      assert forall i :: 0 <= i < |rest| ==> rest[i] == seeds[i + 1];
      CoveredRunAppendsNothing(next, t, norm, domainOf, rest);
    }
  }

  /**
   * Running the same seed list a second time over the table the first run
   * produced appends no row and counts no insertion.
   */
  lemma ForwardTwice(run: Run, counts: Counts, t: Table, norm: string -> Result<string, NormError>,
                     domainOf: string -> Option<string>, seeds: seq<seq<string>>)
    requires ForwardSeeds(run, t, norm, domainOf, seeds).Some?
    ensures var first := ForwardSeeds(run, t, norm, domainOf, seeds).value;
            var again := ForwardSeeds(Run(first.table, counts), t, norm, domainOf, seeds);
            && again.Some?
            && |again.value.table| == |first.table|
            && Count(again.value.counts, "inserted") == Count(counts, "inserted")
  {
    var first := ForwardSeeds(run, t, norm, domainOf, seeds).value;
    ForwardAborts(run, t, norm, domainOf, seeds);
    ForwardCovers(run, t, norm, domainOf, seeds);
    CoveredRunAppendsNothing(Run(first.table, counts), t, norm, domainOf, seeds);
  }
}
