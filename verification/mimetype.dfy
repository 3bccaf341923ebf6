/**
 * Mimetype normalisation: the crawl log's free-form Content-Type values are
 * collapsed onto a small table of categories before anything compares them.
 */
module Mimetype {
  import opened Options
  import opened Strings

  /** The categories, in the order they are tried as prefixes. */
  const NormalMimetypes: seq<string> := [
    "application/pdf",
    "application/postscript",
    "text/html",
    "text/xml",
    "warc/revisit",
    "application/octet-stream"
  ]

  /** The default hit set: document categories that count as full text. */
  const FulltextMimetypes: seq<string> := [
    "application/pdf",
    "application/postscript",
    "application/octet-stream"
  ]

  /** The hit set selected by the HTML-only mode. */
  const HtmlMimetypes: seq<string> := ["text/html"]

  /** Lower case, with no double quote, single quote or comma. */
  predicate IsClean(s: string)
  {
    HasNoUpper(s) && '"' !in s && '\'' !in s && ',' !in s
  }

  /** Lower-case the value, then delete double quotes, single quotes and commas. */
  function Clean(raw: string): (r: string)
    ensures IsClean(r)
    ensures IsClean(raw) ==> r == raw
    ensures forall c :: c in r ==> c in raw || 'a' <= c <= 'z'
  {
    var lowered := Lower(raw);
    ReplaceCharFacts(lowered, '"', "");
    var a := ReplaceAll(lowered, "\"", "");
    ReplaceCharFacts(a, '\'', "");
    var b := ReplaceAll(a, "'", "");
    ReplaceCharFacts(b, ',', "");
    ReplaceAll(b, ",", "")
  }

  /** The characters the cleaning deletes. */
  predicate IsDeleted(c: char)
  {
    c == '"' || c == '\'' || c == ','
  }

  /** A single character is deleted when it is a quote or comma, and lower-cased otherwise. */
  lemma CleanChar(c: char)
    ensures Clean([c]) == if IsDeleted(c) then [] else [LowerChar(c)]
  {
    var l := LowerChar(c);
    assert Lower([c]) == [l];
    ReplaceOne(l, '"', "");
    if l != '"' {
      ReplaceOne(l, '\'', "");
      if l != '\'' {
        ReplaceOne(l, ',', "");
      }
    }
  }

  /** Cleaning works character by character: it distributes over concatenation. */
  lemma CleanAppend(a: string, b: string)
    ensures Clean(a + b) == Clean(a) + Clean(b)
  {
    LowerAppend(a, b);
    var la, lb := Lower(a), Lower(b);
    ReplaceCharAppend(la, lb, '"', "");
    var qa, qb := ReplaceAll(la, "\"", ""), ReplaceAll(lb, "\"", "");
    ReplaceCharAppend(qa, qb, '\'', "");
    var sa, sb := ReplaceAll(qa, "'", ""), ReplaceAll(qb, "'", "");
    ReplaceCharAppend(sa, sb, ',', "");
  }

  /** Every category is already clean. */
  lemma EntriesClean()
    ensures forall i :: 0 <= i < |NormalMimetypes| ==> IsClean(NormalMimetypes[i])
  {
    forall i | 0 <= i < |NormalMimetypes|
      ensures IsClean(NormalMimetypes[i])
    {
      LowerAlphaClean(NormalMimetypes[i]);
    }
  }

  /** A string of lower-case letters, `/`, `-` and `.` is clean. */
  lemma LowerAlphaClean(s: string)
    requires forall i :: 0 <= i < |s| ==> 'a' <= s[i] <= 'z' || s[i] == '/' || s[i] == '-' || s[i] == '.'
    ensures IsClean(s)
  {
  }

  /** The index of the first entry of `table` that `s` starts with, if any. */
  function FirstPrefix(s: string, table: seq<string>): (r: Option<nat>)
    ensures r.Some? ==> r.value < |table| && StartsWith(s, table[r.value])
    ensures r.Some? ==> forall j :: 0 <= j < r.value ==> !StartsWith(s, table[j])
    ensures r.None? ==> forall j :: 0 <= j < |table| ==> !StartsWith(s, table[j])
  {
    if table == [] then None
    else if StartsWith(s, table[0]) then Some(0)
    else match FirstPrefix(s, table[1..])
      case None => None
      case Some(k) => Some(k + 1)
  }

  /**
   * The normalised category of a raw mimetype: the first table entry the
   * cleaned value starts with; failing that the aliases `application/xml`,
   * `application/x-pdf` and `unk`/`unknown`/`other`; failing those the
   * cleaned value itself.
   */
  function Normalize(raw: string): (r: string)
    ensures IsClean(r)
    ensures FirstPrefix(Clean(raw), NormalMimetypes).Some? ==>
              r == NormalMimetypes[FirstPrefix(Clean(raw), NormalMimetypes).value]
    ensures r in NormalMimetypes || (r == Clean(raw) && FirstPrefix(r, NormalMimetypes).None?)
    ensures var c := Clean(raw);
      (FirstPrefix(c, NormalMimetypes).None? && !StartsWith(c, "application/xml") &&
       !StartsWith(c, "application/x-pdf") && c !in ["unk", "unknown", "other"]) ==> r == c
  {
    EntriesClean();
    assert NormalMimetypes[0] == "application/pdf" && NormalMimetypes[3] == "text/xml";
    assert NormalMimetypes[5] == "application/octet-stream";
    var c := Clean(raw);
    match FirstPrefix(c, NormalMimetypes)
    case Some(i) => NormalMimetypes[i]
    case None =>
      if StartsWith(c, "application/xml") then "text/xml"
      else if StartsWith(c, "application/x-pdf") then "application/pdf"
      else if c in ["unk", "unknown", "other"] then "application/octet-stream"
      else c
  }

  /** A string is not a prefix of another when they differ at a shared position. */
  lemma NotPrefixAt(a: string, b: string, k: nat)
    requires k < |a| && k < |b| && a[k] != b[k]
    ensures !StartsWith(a, b)
  {
    if |b| <= |a| {
      assert a[..|b|][k] != b[k];
    }
  }

  /** A position at which two different table entries disagree. */
  function Distinguisher(i: nat, j: nat): nat
  {
    if i < 2 && j < 2 then 13                       // pdf / postscript
    else if 2 <= i < 4 && 2 <= j < 4 then 5         // html / xml
    else if (i < 2 && j == 5) || (j < 2 && i == 5) then 12
    else 0
  }

  /** No table entry is a prefix of a different entry. */
  lemma PrefixFree()
    ensures forall i, j :: 0 <= i < |NormalMimetypes| && 0 <= j < |NormalMimetypes| && i != j
                           ==> !StartsWith(NormalMimetypes[i], NormalMimetypes[j])
  {
    forall i, j | 0 <= i < |NormalMimetypes| && 0 <= j < |NormalMimetypes| && i != j
      ensures !StartsWith(NormalMimetypes[i], NormalMimetypes[j])
    {
      NotPrefixAt(NormalMimetypes[i], NormalMimetypes[j], Distinguisher(i, j));
    }
  }

  /** Each table entry is its own first match. */
  lemma EntryFirstPrefix(k: nat)
    requires k < |NormalMimetypes|
    ensures FirstPrefix(NormalMimetypes[k], NormalMimetypes) == Some(k)
  {
    var m := FirstPrefix(NormalMimetypes[k], NormalMimetypes);
    if m.None? {
      assert StartsWith(NormalMimetypes[k], NormalMimetypes[k]);
    } else {
      PrefixFree();
    }
  }

  /** Normalising a normalised mimetype changes nothing. */
  lemma NormalizeIdempotent(raw: string)
    ensures Normalize(Normalize(raw)) == Normalize(raw)
  {
    var r := Normalize(raw);
    assert Clean(r) == r;
    if r in NormalMimetypes {
      var k :| 0 <= k < |NormalMimetypes| && NormalMimetypes[k] == r;
      EntryFirstPrefix(k);
    } else {
      var c := Clean(raw);
      assert r == c;
      assert !StartsWith(c, "application/xml");
      assert !StartsWith(c, "application/x-pdf");
      assert c !in ["unk", "unknown", "other"];
    }
  }

  /** A string starting with `p` is not matched by an entry that disagrees with `p` at position `k`. */
  lemma NoEntryAt(s: string, p: string, k: nat, e: string)
    requires StartsWith(s, p) && k < |p| && k < |e| && p[k] != e[k]
    ensures !StartsWith(s, e)
  {
    assert s[k] == p[k] by { assert s[..|p|][k] == p[k]; }
    NotPrefixAt(s, e, k);
  }

  /** A value starting with `application/x...` starts with no category. */
  lemma NoCategoryForX(c: string, p: string)
    requires StartsWith(c, p) && |p| > 12 && p[..13] == "application/x"
    ensures FirstPrefix(c, NormalMimetypes).None?
  {
    assert p[12] == 'x' && p[0] == 'a';
    NoEntryAt(c, p, 12, NormalMimetypes[0]);
    NoEntryAt(c, p, 12, NormalMimetypes[1]);
    NoEntryAt(c, p, 0, NormalMimetypes[2]);
    NoEntryAt(c, p, 0, NormalMimetypes[3]);
    NoEntryAt(c, p, 0, NormalMimetypes[4]);
    NoEntryAt(c, p, 12, NormalMimetypes[5]);
  }

  /** `application/xml...` always reads as `text/xml`. */
  lemma NormalizeXmlAlias(raw: string)
    requires StartsWith(Clean(raw), "application/xml")
    ensures Normalize(raw) == "text/xml"
  {
    NoCategoryForX(Clean(raw), "application/xml");
  }

  /** `application/x-pdf...` always reads as `application/pdf`. */
  lemma NormalizeXPdfAlias(raw: string)
    requires StartsWith(Clean(raw), "application/x-pdf")
    ensures Normalize(raw) == "application/pdf"
  {
    NoCategoryForX(Clean(raw), "application/x-pdf");
    NoEntryAt(Clean(raw), "application/x-pdf", 13, "application/xml");
  }

  /** `unk`, `unknown` and `other` read as the generic binary category. */
  lemma NormalizeUnknownAlias(raw: string)
    requires Clean(raw) in ["unk", "unknown", "other"]
    ensures Normalize(raw) == "application/octet-stream"
  {
    assert FirstPrefix(Clean(raw), NormalMimetypes).None?;
  }
}
