# arabesque in Dafny

arabesque turns a web crawler's log into a table of crawl results. Each
row of the table links the URL a crawl started from, which is a seed URL
carrying an identifier, to the document where the crawl ended. This
project models the core of `arabesque.py` as pure Dafny functions and
proves properties of them. It covers:

- **Mimetype normalisation** (`Mimetype`). Free-form Content-Type values
  collapse onto six categories. The first category the cleaned value
  starts with wins. Three aliases follow, and failing those the cleaned
  value itself is kept.
- **Crawl-log records** (`CrawlLog`). A line split on whitespace becomes
  a 13-field record. The FTP mimetype fix-up, the mimetype normalisation
  and the `sha1:` prefix removal are applied.
- **URL normalisation** (`UrlNorm`, `UrlExamples`). The input is an
  already-parsed URL. The steps are:
  - drop the default port;
  - fold dot segments with the segment fold the source uses;
  - force `/` before a query or fragment;
  - percent-encode the path the way `urllib.parse.quote` does, with its
    safe set, UTF-8 bytes and upper-case hex;
  - drop the fragment;
  - reassemble the URL the way the `Url` constructor does (lower-case
    scheme, rooted path) and escape spaces.
- **The referrer map** (`Referrers`). This is one stored row per usable
  crawl-log line, in log order. It supports two lookups:
  - the first row for a URL;
  - every row a URL referred the crawler to.
- **The output table and counters** (`Results`).
- **Backward resolution** (`Backward`). From each in-scope full-text
  capture, the walk climbs referrers to the start of the crawl and stops
  on a repeated referrer. The run appends one hit row per capture and
  crashes on a non-numeric size field.
- **Forward resolution** (`Forward`). From each seed line, the walk
  descends to the last non-embed child at each step, with a budget of 40.
  A seed may already have a row, in which case only its identifier is
  filled in. A seed the map does not know gets a placeholder row.
- **The JSON dump** (`Dump`). It covers the hits-only selection and the
  per-identifier cap. The cap as written lets one row too many through;
  see Findings.

Two parts of the program are not modelled; each is passed in as a
function parameter instead:

- URL parsing (`parse: string -> Option<Url>`; `None` means the parser
  raised). `parse(s)` stands for `parse_url(s.strip())`, the parse of
  the stripped text. The forward resolver takes any seed normaliser, and
  `Forward.SeedNormalizer(parse)` is URL normalisation of the parse.
- Host extraction (`domainOf`).

Database state is a sequence of rows. A query that returns the first
match or all matches returns them in insertion order. An exception
that ends a run (a failed `int()`, a failed `assert`, `None.lower()`)
is modelled as the whole run returning `None`.

## Model

| member | source | states |
|---|---|---|
| Strings.Lower | arabesque.py:97 | each character of the result is the input's character lower-cased: an upper-case ASCII letter becomes the letter 32 code points above it, every other character stays; so no upper-case letter remains and text without one is unchanged |
| Strings.ReplaceAll | arabesque.py:216 | `str.replace`, also used at lines 98 and 158. Through ReplaceAllAbsent, ReplaceOne, ReplaceCharFacts and ReplaceCharAppend: an absent pattern changes nothing; a one-character pattern is replaced at each position independently, and removed when the replacement lacks it |
| Strings.ReplaceAllAbsent | arabesque.py:98 | `replace` of a pattern that does not occur leaves the string unchanged |
| Strings.ReplaceCharFacts | arabesque.py:98 | deleting a character with `replace` removes every occurrence of it, introduces no other character, and is the identity when the character is absent |
| Strings.LowerAppend | arabesque.py:97 | lower-casing two strings one after the other is lower-casing their concatenation |
| Strings.ReplaceCharAppend | arabesque.py:98 | replacing a single character works on each part of a concatenation independently |
| Strings.ReplaceOne | arabesque.py:98 | a one-character string becomes the replacement when it is the character and stays otherwise |
| Numbers.ParseInt | arabesque.py:419-423 | `int()` of a digit string is its decimal value; `_` separators between digits are skipped; a leading `+` keeps the value and a leading `-` negates it; a field `int()` accepts is a numeral with at most a leading sign |
| Numbers.ParseIntRoundTrip | arabesque.py:419-423 | `int()` reads back every printed natural number as that number |
| Numbers.ParseIntUnderscore | arabesque.py:419-423 | two runs of digits joined by one `_` read as the number the joined digits spell, as `int("1_000")` is 1000 |
| Numbers.ParseIntRejects | arabesque.py:419-423 | a size field with any character other than a sign, a digit or `_` makes `int()` raise |
| Numbers.DashRejected | arabesque.py:423 | the log's `-` size marker makes `int()` raise |
| Mimetype.Clean | arabesque.py:97-98 | the cleaned value has no upper-case letter, quote or comma; a value that is already clean is unchanged; with CleanChar and CleanAppend, it is the value with quotes and commas deleted and every other character lower-cased |
| Mimetype.CleanChar | arabesque.py:97-98 | a double quote, single quote or comma is deleted; any other character becomes its lower-case form |
| Mimetype.CleanAppend | arabesque.py:97-98 | cleaning works character by character: the cleaned concatenation is the concatenation of the cleaned parts |
| Mimetype.FirstPrefix | arabesque.py:99-101 | the first table entry the value starts with: it matches, no earlier entry matches, and `None` means no entry matches |
| Mimetype.Normalize | arabesque.py:96-110 | the result is clean; if a category prefixes the cleaned value, the first such category is returned; a value with no category, alias or unknown-marker match is returned as its cleaned self; the result is always a category or the cleaned value |
| Mimetype.PrefixFree | arabesque.py:81-88 | no category is a prefix of another |
| Mimetype.EntryFirstPrefix | arabesque.py:81-101 | each category's own first prefix match is itself |
| Mimetype.NormalizeIdempotent | arabesque.py:96-110 | normalising a normalised mimetype changes nothing |
| Mimetype.NoCategoryForX | arabesque.py:99-107 | a value starting with `application/x` matches no category, so the alias checks are reached |
| Mimetype.NormalizeXmlAlias | arabesque.py:104-105 | every value whose cleaned form starts with `application/xml` becomes `text/xml` |
| Mimetype.NormalizeXPdfAlias | arabesque.py:106-107 | every value whose cleaned form starts with `application/x-pdf` becomes `application/pdf` |
| Mimetype.NormalizeUnknownAlias | arabesque.py:108-109 | `unk`, `unknown` and `other`, in any case and with quotes or commas, become `application/octet-stream` |
| CrawlLog.ParseCrawlLine | arabesque.py:200-217 | a record exists exactly for 13 fields; its mimetype is a fixed point of normalisation; an FTP 226 octet-stream ending in `.pdf` becomes `application/pdf`, one ending in `.ps` `application/postscript`, any other stays octet-stream; other lines get the normalised field; every other field is carried over; a hash without `sha1:` is unchanged, and a leading `sha1:` is removed before the rest is scanned |
| CrawlLog.PdfIsCategory | arabesque.py:207-214 | the FTP fix-up value survives the normalisation that follows it |
| CrawlLog.PostscriptIsCategory | arabesque.py:207-214 | the FTP PostScript value survives the normalisation that follows it |
| CrawlLog.OctetStreamIsCategory | arabesque.py:207-214 | an FTP capture with neither extension stays `application/octet-stream` through normalisation |
| CrawlLog.Sha1Stripped | arabesque.py:216 | a hash without `sha1:` is unchanged; a leading `sha1:` is removed and the rest is scanned on; with no further occurrence, exactly the prefix goes |
| UrlNorm.FirstSlash | arabesque.py:139 | the split position is the first `/` |
| UrlNorm.Segments | arabesque.py:139-140 | the segments re-join to the path; every segment but the last ends in its only `/`; the last segment has no `/` |
| UrlNorm.FoldStep | arabesque.py:143-147 | one step of the dot-segment loop. Through FoldSegments and FoldRooted: `..` pops only past the first segment, `.` is dropped, and other segments are appended unchanged |
| UrlNorm.FoldSegments | arabesque.py:141-147 | the fold keeps the root segment, creates no segment, leaves no dot segment, and appends segments unchanged when none is a dot segment |
| UrlNorm.RemoveDotSegments | arabesque.py:137-148 | a rooted path stays rooted, the result splits into no dot segment, and a path with no dot segment is unchanged |
| UrlNorm.FoldRooted | arabesque.py:137-148 | folding a path that starts with `/` gives a path that starts with `/` |
| UrlNorm.FoldWellFormed | arabesque.py:141-147 | folding well-formed segments gives well-formed segments |
| UrlNorm.SegmentsOfDir | arabesque.py:139-140 | splitting a directory segment followed by a path gives that segment, then the split of the path |
| UrlNorm.SegmentsOfConcat | arabesque.py:139-148 | re-splitting joined well-formed segments gives them back, plus at most one trailing empty segment |
| UrlNorm.NoDotsAfterConcat | arabesque.py:137-148 | joined segments without dot segments re-split without dot segments |
| UrlNorm.RemoveDotSegmentsIdempotent | arabesque.py:137-148 | folding a folded path changes nothing |
| UrlNorm.Utf8 | arabesque.py:155-156 | a character encodes to 1 to 4 bytes; ASCII encodes to itself, and every byte of a non-ASCII character is at least 128 |
| UrlNorm.HexDigit | arabesque.py:155-156 | a hex digit is never `/`, `%` or `.` and never needs escaping |
| UrlNorm.QuoteChar | arabesque.py:155-156 | a safe character is kept; any other character becomes an escape that contains `%` and only safe characters, and no `/` or `.` |
| UrlNorm.QuoteCharFacts | arabesque.py:155-156 | escaping the UTF-8 bytes of a safe character gives the character; an unsafe character has no safe ASCII byte, and its escape contains `%`, no `/` or `.`, and only safe characters |
| UrlNorm.QuoteBytesShape | arabesque.py:155-156 | escaping unsafe bytes gives only safe characters, a `%`, and no `/` or `.` |
| UrlNorm.Quote | arabesque.py:155-156 | the encoded path holds only safe characters; a path of safe characters is unchanged; encoding never shortens |
| UrlNorm.QuoteIdempotent | arabesque.py:155-156 | encoding an encoded path changes nothing |
| UrlNorm.QuoteAppend | arabesque.py:155-156 | encoding distributes over concatenation |
| UrlNorm.QuoteSlash | arabesque.py:155-156 | the encoded path contains `/` exactly when the path does |
| UrlNorm.QuoteWithoutPercent | arabesque.py:155-156 | an encoding with no `%` is the path itself |
| UrlNorm.QuoteAscii | arabesque.py:155-156 | an unsafe ASCII character becomes `%` and its two upper-case hex digits |
| UrlNorm.QuoteEscapesSpace | arabesque.py:170 | a space becomes `%20` |
| UrlNorm.QuoteEscapesBrackets | arabesque.py:179-180 | `[` and `]` become `%5B` and `%5D` |
| UrlNorm.QuoteEscapesAngles | arabesque.py:189-190 | `<` and `>` become `%3C` and `%3E` |
| UrlNorm.QuoteAll | arabesque.py:155-156 | segment-wise encoding encodes each segment in place |
| UrlNorm.QuoteConcat | arabesque.py:155-156 | encoding a joined path is joining the encoded segments |
| UrlNorm.QuoteDir | arabesque.py:155-156 | encoding keeps a directory segment a directory segment |
| UrlNorm.QuoteNotDot | arabesque.py:155-156 | encoding never creates a dot segment |
| UrlNorm.QuoteKeepsNoDots | arabesque.py:137-156 | encoding a path without dot segments gives one without dot segments |
| UrlNorm.FoldAfterQuote | arabesque.py:137-156 | a folded and encoded path is already folded |
| UrlNorm.RootFixed | arabesque.py:151-156 | the forced `/` path is fixed by folding and encoding |
| UrlNorm.NormalizeParts | arabesque.py:131-157 | no path is the `NoPath` failure; a path without a host is the `NoHost` failure; the result succeeds exactly when both are present |
| UrlNorm.NormalizePartsFacts | arabesque.py:131-157 | these parts are kept: scheme, credentials, query. The host is lower-cased and the fragment dropped. The port is dropped exactly when absent or the scheme's default. The path is the dot-folded input path, `/` in place of an empty one when there is a query or fragment, and percent-encoded for HTTP(S); so it is empty exactly when the folded path is empty and there is no query or fragment, stays rooted, and has no dot segment |
| UrlNorm.NormalPathFacts | arabesque.py:137-156 | the normal path is rooted when the input is, is its own folding, and is fully encoded for HTTP(S) |
| UrlNorm.NormalizePartsIdempotent | arabesque.py:131-157 | normalising normalised parts changes nothing |
| UrlNorm.Construct | arabesque.py:157 | the urllib3 `Url` constructor lower-cases the scheme and puts `/` before a non-empty path that lacks one; every other component is kept, and a non-empty path comes out rooted |
| UrlNorm.EscapeSpaces | arabesque.py:158 | the escaped URL holds no space, and a URL without a space is unchanged |
| UrlNorm.EscapeSpaceAt | arabesque.py:158 | a space becomes `%20` and the text on each side is escaped on its own |
| UrlNorm.NormalizeUrl | arabesque.py:126-158 | a parser failure is `Unparsable`; otherwise the result fails exactly as the parts do; it is the URL the constructor reassembles when that has no space; a space splits the result into the escaped text around it joined by `%20`; a normalised URL never holds a space |
| UrlNorm.Render | arabesque.py:157 | `Url.url`: the parts joined with their separators. Through RenderHttp, RenderHttpsQuery and NormalizeUrl: a rooted http URL renders as scheme, host and path; a query follows after `?` |
| UrlExamples.SplitAs | arabesque.py:139-140 | a path written as well-formed segments splits into those segments |
| UrlExamples.FoldParentSteps | arabesque.py:141-147 | for plain names `a` and `b`, the segments of `/a/../b` fold to `/` and `b` |
| UrlExamples.FoldCurrentSteps | arabesque.py:141-147 | for plain names `a` and `b`, the segments of `/a/./b` fold to `/`, `a/` and `b` |
| UrlExamples.FoldParentSegment | arabesque.py:162 | `/a/../b` folds to `/b` for every pair of plain names |
| UrlExamples.FoldCurrentSegment | arabesque.py:163 | `/a/./b` folds to `/a/b` for every pair of plain names |
| UrlExamples.QuoteSpace | arabesque.py:170 | a space between safe text encodes to `%20` and nothing else changes |
| UrlExamples.NormalizeDefaultPortParent | arabesque.py:162-165 | for every host and plain names `a`, `b`, `http://host:80/a/../b` normalises to `http://` + lower-cased host + `/b`: the default port goes, the parent segment folds away |
| UrlExamples.NormalizeQuerySpace | arabesque.py:183-184 | for every host, plain path name and space-free query parts, a space in the query of an HTTPS URL becomes `%20` and the rest of the URL is the normal form |
| UrlExamples.RemoveDotsPlain | arabesque.py:137-148 | a rooted plain name is already folded |
| UrlExamples.ConstructKeeps | arabesque.py:157 | the constructor leaves an `http` or `https` URL with a rooted path as it is |
| Referrers.LookupReferrerRow | arabesque.py:226-234 | the lookup is absent exactly when no row has the URL; a found row is the earliest stored row with that URL, read back, and never carries `-` or an empty referrer |
| Referrers.LookupFirst | arabesque.py:226-234 | the lookup returns the earliest stored row for the URL |
| Referrers.LookupAppend | arabesque.py:226-234 | rows stored after a URL's first row never change its lookup |
| Referrers.ReferredRows | arabesque.py:236-247 | the result holds every row whose referrer column is the URL, read back; each element is some stored row read back with that referrer; it is empty exactly when no row was referred by the URL |
| Referrers.ReferredRowsAppend | arabesque.py:236-247 | the referred rows of a longer table are those of each part, in order |
| Referrers.LookupAllReferredRows | arabesque.py:236-247 | the result is absent, never empty, exactly when no row was referred by the URL; otherwise it is every referred row |
| Referrers.RowOfLine | arabesque.py:297-310 | a row is stored exactly for a 13-field line that is not DNS or WHOIS; it keeps URL, referrer, status and breadcrumbs, flags `duplicate:digest`, and its mimetype is a normalised category |
| Referrers.RowOfLineMimetype | arabesque.py:297-310 | the stored mimetype is exactly the parsed line's, after the FTP fix-up and normalisation |
| Referrers.BuildTable | arabesque.py:295-310 | at most one row per log line; every stored row has a normalised mimetype and a non-prerequisite URL |
| Referrers.BuildTableKeepsAll | arabesque.py:295-310 | a log whose every line has thirteen fields and is not DNS or WHOIS stores exactly one row per line |
| Referrers.BuildTableSingle | arabesque.py:297-310 | a one-line log stores exactly that line's row, or nothing for a malformed or prerequisite line; with BuildTableAppend this fixes the whole table |
| Referrers.BuildTableAppend | arabesque.py:295-310 | mapping two logs one after the other appends their tables |
| Results.Bump | arabesque.py:411 | bumping a counter adds one to it and leaves every other counter unchanged |
| Results.FirstRowFor | arabesque.py:507-508 | the `LIMIT 1` query is empty exactly when no row starts from the URL; otherwise it gives the earliest row of the table that starts from it |
| Backward.Climb | arabesque.py:437-448 | the walk ends on the row that many referrers above the capture; if no repeat stopped it, that row has no logged referrer; a repeat needs at least one hop; the hop count is bounded by the number of distinct referrers; and the walk stops at the first repeat: no row strictly inside it has a repeated referrer, and it is marked looped exactly when the row it ends on has one |
| Backward.ClimbRepeat | arabesque.py:445-448 | a walk stopped on a repeat met that referrer before: among the seen ones, or on a row strictly inside the walk |
| Backward.FirstStopUnique | arabesque.py:437-448 | at most one walk stops at the first repeat, so that description fixes the row the walk ends on, its hop count and its loop flag |
| Backward.ClimbShort | arabesque.py:439-448 | a walk that cannot hop stays put; a first hop to a row with no referrer, or with a seen one, ends there |
| Backward.AncestorShift | arabesque.py:440-442 | one hop then `k` more is `k + 1` hops |
| Backward.ClimbLoopIsCycle | arabesque.py:437-448 | from a fresh start, a walk stopped on a repeat has found a referrer cycle: an earlier row and the last row lead to the same parent |
| Backward.FinalTimestamp | arabesque.py:454-456 | a timestamp is kept exactly when it has at least 12 characters and no `-` at position 4; a kept one is the first 12 characters |
| Backward.BackwardCapture | arabesque.py:406-461 | each filter skips with its own counter: DNS and WHOIS, out of scope, an octet-stream under 1000 bytes, size 0 or the empty file's hash, a URL missing from the map, a map row out of scope. The line crashes exactly when an in-scope capture has a size `int()` rejects. It is inserted exactly when every filter passes; the row then is an in-scope hit with no identifier whose final URL is the capture, and whose other columns come from the map row and the line. Its initial URL is that of the row where the walk from the capture first meets a repeated referrer, or runs out of logged referrers |
| Backward.CountLine | arabesque.py:411-461 | `inserted` goes up by one exactly for an inserted line, `map-url-redirect-loop` exactly for an inserted line whose walk stopped on a repeat, and a skipped line's own counter by one; every other counter is unchanged |
| Backward.ApplyOutcomes | arabesque.py:405-465 | the run fails exactly when a line crashed; otherwise the table is the old table followed by the inserted rows in order, and `inserted` grows by their number, `map-url-redirect-loop` by the number of inserted walks that stopped on a repeat, and every other counter by the number of lines skipped under it |
| Backward.InsertedRowsAre | arabesque.py:457-461 | every appended row is a backward row |
| Backward.BackwardRun | arabesque.py:395-476 | the run fails exactly when some line crashes. Otherwise the table is the old table followed by the row of every inserted line, in log order, each an in-scope hit without an identifier. `inserted` grows by exactly the number appended. The counters the run returns grow by the log's totals: `map-url-redirect-loop` by the inserted lines whose walk looped, every other counter by the lines skipped under it |
| Backward.CapturedRowsAre | arabesque.py:405-461 | applying the per-line outcomes appends exactly the rows of the inserted lines, in log order |
| Forward.LastQualifying | arabesque.py:543-550 | the reference choice is the last child that is not an embed, speculative or inferred hop unless it is PDF; it is absent exactly when every child is excluded |
| Forward.LastQualifyingUnique | arabesque.py:543-550 | the last qualifying child is unique |
| Forward.ScanChildren | arabesque.py:543-551 | the loop that overwrites the choice with each non-excluded child. Through ScanIsLast: it ends on the last qualifying child, or keeps the earlier choice when there is none |
| Forward.ScanIsLast | arabesque.py:543-550 | the source's overwrite-in-a-loop scan ends on the last qualifying child, or keeps the earlier choice when there is none |
| Forward.SelectChild | arabesque.py:543-553 | the child the descent moves to. Through SelectChildIsLast: none exactly when every child is excluded, otherwise the last child that is not excluded |
| Forward.SelectChildIsLast | arabesque.py:543-551 | the descent stops exactly when every child is excluded; otherwise it moves to a child that qualifies and after which no child qualifies |
| Forward.Descend | arabesque.py:531-540 | a budget of `n` allows at most `n - 1` lookups; a spent budget means every lookup moved; otherwise the descent ended on a row with no qualifying child, after one more lookup than moves |
| Forward.DescendFollowsNext | arabesque.py:529-554 | the final row is reached from the seed's row by following the child choice as many times as the descent moved |
| Forward.ForwardSeed | arabesque.py:486-560 | a seed line aborts exactly when it has too many columns or the normaliser reports a missing host. An empty line is skipped as `skip-raw-line`, and a line whose URL cannot be used as `skip-bad-seed-url`. An existing first row gets its identifier set exactly when it lacks one, and is otherwise complete. A new seed unknown to the map gets a placeholder. Any other new seed gets the row where the descent from it ends. The renaming counter fires exactly when normalisation changed the URL |
| Forward.SetIdentifiers | arabesque.py:511 | every row starting from the URL takes the identifier; nothing else in the table changes |
| Forward.SeedNormalizerAborts | arabesque.py:491-502 | with URL normalisation as the normaliser, a seed line aborts exactly when it has more than two columns or its URL parses with a path but no host; a usable seed URL comes from a parse with both, and it holds no space |
| Forward.ApplySeed | arabesque.py:498-563 | a resolved or missing seed appends exactly its row; a skipped or complete seed leaves the table as it is; an identifier update gives every row of that URL the seed's identifier and changes nothing else. Each counter goes up by one exactly in its case and no other counter moves: `_normalized-seed-url` for a renamed seed, the skip counter of a skipped line, `existing-id-updated`, `existing-complete`, `map-url-missing`, `inserted` for a resolved seed, and `_redirect-recursion-limit` when its descent ran out of budget |
| Forward.MissingSeedPlaceholder | arabesque.py:506-527 | a usable seed that neither the output table nor the map knows appends exactly one placeholder row, which is not a hit and has no final URL |
| Forward.ForwardSeeds | arabesque.py:485-563 | the forward loop over the seed lines. Through ForwardAborts, ForwardTable, ForwardCovers, ForwardNoDuplicates and ForwardTwice: it ends without a result exactly when a seed line aborts; otherwise it only appends rows and fills in identifiers, every usable seed has a row, no two appended rows share a URL, and a second run appends nothing |
| Forward.ForwardAborts | arabesque.py:486-500 | a run ends without a result exactly when some seed line aborts |
| Forward.SameButIdentifiersTrans | arabesque.py:506-516 | changes that touch only identifiers compose |
| Forward.ForwardTable | arabesque.py:478-566 | over a whole run, earlier rows change only in identifier, and the rows appended equal the `inserted` and `map-url-missing` counts together |
| Forward.KeepsRowFor | arabesque.py:506-516 | a URL with a row keeps one |
| Forward.SeedGetsRow | arabesque.py:506-528 | after a seed line with a usable URL, the table has a row for it |
| Forward.ForwardCovers | arabesque.py:478-566 | after a run, every seed line with a usable URL has a row |
| Forward.SeedKeepsDistinct | arabesque.py:506-528 | a seed line never appends a second row for a URL |
| Forward.ForwardNoDuplicates | arabesque.py:478-566 | a run never appends a row for a URL already in the table |
| Forward.CoveredRunAppendsNothing | arabesque.py:506-516 | over a table that covers every seed, a run succeeds, appends nothing and counts no insertion |
| Forward.ForwardTwice | arabesque.py:478-579 | repeating a run over the table it produced succeeds, appends nothing and counts no insertion |
| Dump.OnlyIdentifierHits | arabesque.py:638-640 | the hits-only selection keeps exactly the hits with an identifier |
| Dump.OnlyIdentifierHitsSingle | arabesque.py:638-640 | a single row is selected exactly when it is a hit with an identifier |
| Dump.OnlyIdentifierHitsAppend | arabesque.py:638-640 | the selection keeps table order: selecting from two tables in turn appends their selections, so with the one-row case each selected row appears once, in place |
| Dump.Emitted | arabesque.py:648-652 | a group never emits more rows than it has |
| Dump.InGroup | arabesque.py:645-656 | inside a group, the dump emits a leading run of the group's rows and carries on with the group position advanced |
| Dump.GroupStart | arabesque.py:645-656 | a group entered from another identifier emits its first rows up to the cap's count |
| Dump.DumpCappedGroup | arabesque.py:721-723 | with the documented cap, a group of one identifier dumps exactly its first `max` rows |
| Dump.DumpAsWrittenGroup | arabesque.py:648-652 | as written, a group of one identifier dumps its first `max + 1` rows |
| Dump.CapOffByOne | arabesque.py:650 | with a cap of one, two rows of one identifier both pass as written; one passes under the documented cap |
| Dump.NoCapDumpsAll | arabesque.py:650 | with no cap, or a cap of zero, every row is dumped in order |
| Dump.DumpRows | arabesque.py:645-656 | the dump loop with either cap. Through InGroup, GroupStart, NoCapDumpsAll and DumpKeeps: inside a group a leading run of rows is emitted; a new group emits its first row; with no cap every row is dumped; only rows are dropped |
| Dump.DumpAsWritten | arabesque.py:648-652 | the dump as the source writes it. Through DumpAsWrittenGroup and CapOffByOne: a group of one identifier dumps its first `max + 1` rows |
| Dump.DumpCapped | arabesque.py:721-723 | the dump with the documented cap. Through DumpCappedGroup: a group of one identifier dumps exactly its first `max` rows |
| Dump.DumpKeeps | arabesque.py:645-656 | the dump only drops rows: every dumped row is an input row, every row with no identifier is dumped, and a row that opens a new group is dumped first |

## Left out

- The SQLite layer is not modelled: connections, PRAGMAs, index creation, periodic commits and the `crawl_result` schema DDL. A table is a sequence of rows, and queries return rows in insertion order.
- `backward_cdx` is not modelled. It refers to a `line` variable it never defines, and it has no loop detection. `parse_full_cdx_line` is left out with it.
- `postprocess`, `everything`, `main` and the argument parser are left out. They are I/O and plumbing. The dump's cap documentation at lines 721-723 is cited only for the intended cap.
- URL parsing (`urllib3.util.parse_url`) is foreign code, so it is a parameter. Host extraction for the domain columns is also a parameter. The `Url` constructor is modelled by what it does to its arguments (scheme lower-cased, path rooted), and `Url.url` as the concatenation of the parts with their separators.
- The `strip()` at line 127 is not modelled separately: `parse` stands for `parse_url(s.strip())`, and no property of the model depends on what the parser does with surrounding spaces. `Forward.SeedNormalizer(parse)` hands it the unstripped seed field, which line 487 does not strip field by field, and the renamed check compares that unstripped field, as line 503 does.
- A host extraction that raises is not modelled. `domainOf` is total, but `urllib3.util.parse_url(...).host` at lines 450-451, 524 and 555-556 can raise `LocationParseError`, which ends the run. The model then records a row where the source stops.
- `str.lower()` is modelled for ASCII letters only, not for Unicode case mapping.
- Numbers.ParseInt: accepts an optional sign and ASCII decimal digits with single `_` separators. `int()` also accepts other Unicode decimal digits, such as full-width ones; the model treats those as a failed parse, so a size field written with them ends the run in the model but not in the source. Surrounding whitespace cannot occur in a whitespace-split field.
- Line splitting is not modelled: log lines and seed lines arrive already split into fields.
- The `skip-raw-line` branch of `forward` cannot be reached in the source, because splitting never gives an empty list. The model keeps it for an empty field list.
- Forward.Descend: the budget is a parameter, and the lemmas hold for every budget. The fixed value 40 of the source is used by ForwardSeed but never unfolded.
- A crash ends the whole run in the model. The rows the source committed before the crash are not modelled.
- The dump's `ORDER BY identifier` is not modelled: the dump takes the rows in the order the query returns them. JSON encoding and stderr messages are left out.
- Printing, progress output and the returned counter object beyond its named counts are left out.

## Findings

| source | as written | input that shows it | evidently intended | confidence | as-written member | corrected member |
|---|---|---|---|---|---|---|
| arabesque.py:648-652 | a row is skipped only when `ident_count > max_per_identifier`, and the first row of a group has count 0, so each identifier gets `max + 1` rows | `--max-per-identifier 1` with two rows of one identifier: both are dumped | at most `max` rows per identifier, as the option's help text at lines 721-723 says | not executed | Dump.CapOffByOne | Dump.DumpCappedGroup |
