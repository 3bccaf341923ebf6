/**
 * One crawl-log record: the thirteen whitespace-separated fields of a
 * crawler log line, with the FTP mimetype fix-up, mimetype normalisation
 * and `sha1:` prefix removal applied.
 */
module CrawlLog {
  import opened Options
  import opened Strings
  import Mimetype

  datatype CrawlLine = CrawlLine(
    logTime: string,
    statusCode: string,
    sizeBytes: string,
    url: string,
    breadcrumbs: string,
    referrerUrl: string,
    mimetype: string,
    workerThread: string,
    timestamp: string,
    sha1: string,
    sourceTag: string,
    annotations: string,
    cdxJson: string)

  const FieldCount: nat := 13

  /** Successful FTP fetches are logged as octet-stream; the extension tells PDF and PostScript apart. */
  predicate IsFtpOctetSuccess(fields: seq<string>)
    requires |fields| == FieldCount
  {
    StartsWith(fields[3], "ftp://") && fields[1] == "226" && fields[6] == "application/octet-stream"
  }

  /** The mimetype field after the FTP fix-up, before normalisation. */
  function FtpMimetype(fields: seq<string>): string
    requires |fields| == FieldCount
  {
    if IsFtpOctetSuccess(fields) then
      if EndsWith(Lower(fields[3]), ".pdf") then "application/pdf"
      else if EndsWith(Lower(fields[3]), ".ps") then "application/postscript"
      else fields[6]
    else fields[6]
  }

  /**
   * A log line, already split on whitespace, becomes a record exactly when
   * it has thirteen fields. Its mimetype is a normalised category (a fixed
   * point of the normaliser), an FTP PDF or PostScript keeps that category,
   * and every other field is carried over, the hash with `sha1:` removed.
   */
  function ParseCrawlLine(fields: seq<string>): (r: Option<CrawlLine>)
    ensures r.Some? <==> |fields| == FieldCount
    ensures r.Some? ==> Mimetype.Normalize(r.value.mimetype) == r.value.mimetype
    ensures r.Some? ==>
              && r.value.logTime == fields[0] && r.value.statusCode == fields[1]
              && r.value.sizeBytes == fields[2] && r.value.url == fields[3]
              && r.value.breadcrumbs == fields[4] && r.value.referrerUrl == fields[5]
              && r.value.workerThread == fields[7] && r.value.timestamp == fields[8]
              && r.value.sourceTag == fields[10] && r.value.annotations == fields[11]
              && r.value.cdxJson == fields[12]
    ensures r.Some? && !IsFtpOctetSuccess(fields) ==> r.value.mimetype == Mimetype.Normalize(fields[6])
    ensures r.Some? && IsFtpOctetSuccess(fields) && EndsWith(Lower(fields[3]), ".pdf") ==>
              r.value.mimetype == "application/pdf"
    ensures r.Some? && IsFtpOctetSuccess(fields) && !EndsWith(Lower(fields[3]), ".pdf") && EndsWith(Lower(fields[3]), ".ps") ==>
              r.value.mimetype == "application/postscript"
    ensures r.Some? && IsFtpOctetSuccess(fields) && !EndsWith(Lower(fields[3]), ".pdf") && !EndsWith(Lower(fields[3]), ".ps") ==>
              r.value.mimetype == "application/octet-stream"
    ensures r.Some? && !Contains(fields[9], "sha1:") ==> r.value.sha1 == fields[9]
    ensures r.Some? && StartsWith(fields[9], "sha1:") ==> r.value.sha1 == ReplaceAll(fields[9][5..], "sha1:", "")
    ensures r.Some? && StartsWith(fields[9], "sha1:") && !Contains(fields[9][5..], "sha1:") ==>
              r.value.sha1 == fields[9][5..]
  {
    if |fields| != FieldCount then None
    else
      var raw := FtpMimetype(fields);
      Mimetype.NormalizeIdempotent(raw);
      Sha1Stripped(fields[9]);
      PdfIsCategory();
      PostscriptIsCategory();
      OctetStreamIsCategory();
      Some(CrawlLine(fields[0], fields[1], fields[2], fields[3], fields[4], fields[5],
                     Mimetype.Normalize(raw), fields[7], fields[8],
                     ReplaceAll(fields[9], "sha1:", ""), fields[10], fields[11], fields[12]))
  }

  /** `application/pdf` normalises to itself. */
  lemma PdfIsCategory()
    ensures Mimetype.Normalize("application/pdf") == "application/pdf"
  {
    var pdf := Mimetype.NormalMimetypes[0];
    Mimetype.EntriesClean();
    assert Mimetype.IsClean(pdf);
    Mimetype.EntryFirstPrefix(0);
    assert Mimetype.Normalize(pdf) == pdf;
  }

  /** `application/postscript` normalises to itself. */
  lemma PostscriptIsCategory()
    ensures Mimetype.Normalize("application/postscript") == "application/postscript"
  {
    var ps := Mimetype.NormalMimetypes[1];
    Mimetype.EntriesClean();
    assert Mimetype.IsClean(ps);
    Mimetype.EntryFirstPrefix(1);
    assert Mimetype.Normalize(ps) == ps;
  }

  /** `application/octet-stream` normalises to itself. */
  lemma OctetStreamIsCategory()
    ensures Mimetype.Normalize("application/octet-stream") == "application/octet-stream"
  {
    var o := Mimetype.NormalMimetypes[5];
    Mimetype.EntriesClean();
    assert Mimetype.IsClean(o);
    Mimetype.EntryFirstPrefix(5);
    assert Mimetype.Normalize(o) == o;
  }

  /**
   * Removing `sha1:` from a hash: a hash without it is unchanged, and a
   * leading one is removed before the rest is scanned; with no further
   * occurrence, exactly the prefix goes.
   */
  lemma Sha1Stripped(s: string)
    ensures !Contains(s, "sha1:") ==> ReplaceAll(s, "sha1:", "") == s
    ensures StartsWith(s, "sha1:") ==> ReplaceAll(s, "sha1:", "") == ReplaceAll(s[5..], "sha1:", "")
    ensures StartsWith(s, "sha1:") && !Contains(s[5..], "sha1:") ==> ReplaceAll(s, "sha1:", "") == s[5..]
  {
    if !Contains(s, "sha1:") {
      ReplaceAllAbsent(s, "sha1:", "");
    }
    if StartsWith(s, "sha1:") && !Contains(s[5..], "sha1:") {
      ReplaceAllAbsent(s[5..], "sha1:", "");
    }
  }
}
