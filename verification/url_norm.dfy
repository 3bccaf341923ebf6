/**
 * URL normalisation over an already-parsed URL: default-port removal,
 * dot-segment folding, fragment dropping, the `/` path forced before a
 * query or fragment, percent-encoding of HTTP(S) paths and the final
 * space escape. The normalised string is the key both resolvers look up.
 */
module UrlNorm {
  import opened Options
  import opened Strings
  import opened Numbers

  /** The components a URL parser hands over; `None` where a part is absent. */
  datatype Url = Url(
    scheme: Option<string>,
    auth: Option<string>,
    host: Option<string>,
    port: Option<nat>,
    path: Option<string>,
    query: Option<string>,
    fragment: Option<string>)

  /**
   * Why a URL has no normal form: the parser rejected it, it has no path,
   * or it has a path but no host (where the normaliser fails on `None.lower()`).
   */
  datatype NormError = Unparsable | NoPath | NoHost

  predicate IsDefaultPort(scheme: Option<string>, port: Option<nat>)
  {
    (port == Some(80) && scheme == Some("http")) || (port == Some(443) && scheme == Some("https"))
  }

  /** The port kept in the normal form: a scheme's own default port is dropped. */
  function KeptPort(scheme: Option<string>, port: Option<nat>): Option<nat>
  {
    if IsDefaultPort(scheme, port) then None else port
  }

  // ---------------------------------------------------------------------------
  // Path segments

  function FirstSlash(s: string): (k: nat)
    requires '/' in s
    ensures k < |s| && s[k] == '/' && '/' !in s[..k]
  {
    if s[0] == '/' then 0
    else
      assert '/' in s[1..];
      var k := FirstSlash(s[1..]) + 1;
      assert s[..k] == [s[0]] + s[1..][..k - 1];
      k
  }

  /** A non-final segment: some non-slash characters followed by one `/`. */
  predicate IsDirSegment(seg: string)
  {
    |seg| > 0 && seg[|seg| - 1] == '/' && '/' !in seg[..|seg| - 1]
  }

  /** Every segment is a directory segment, except that the last may hold no slash at all. */
  predicate WellFormed(segs: seq<string>)
  {
    forall i :: 0 <= i < |segs| ==> IsDirSegment(segs[i]) || (i == |segs| - 1 && '/' !in segs[i])
  }

  predicate AllDir(segs: seq<string>)
  {
    forall i :: 0 <= i < |segs| ==> IsDirSegment(segs[i])
  }

  function Concat(segs: seq<string>): string
  {
    if segs == [] then "" else segs[0] + Concat(segs[1..])
  }

  /**
   * The pieces of `path.split('/')` with the separator re-attached to every
   * piece but the last. They concatenate back to the path; all but the last
   * end in their only slash, and the last holds none.
   */
  function Segments(path: string): (segs: seq<string>)
    ensures |segs| > 0
    ensures Concat(segs) == path
    ensures WellFormed(segs) && '/' !in segs[|segs| - 1]
    decreases |path|
  {
    if '/' !in path then [path]
    else
      var k := FirstSlash(path);
      var head := path[..k + 1];
      assert head[..|head| - 1] == path[..k];
      assert path == head + path[k + 1..];
      var rest := Segments(path[k + 1..]);
      ConsSegment(head, rest);
      [head] + rest
  }

  lemma ConsSegment(head: string, rest: seq<string>)
    requires IsDirSegment(head) && |rest| > 0 && WellFormed(rest) && '/' !in rest[|rest| - 1]
    ensures Concat([head] + rest) == head + Concat(rest)
    ensures WellFormed([head] + rest) && '/' !in ([head] + rest)[|rest|]
  {
    var segs := [head] + rest;
    assert segs[1..] == rest;
    forall i | 0 < i < |segs|
      ensures segs[i] == rest[i - 1]
    {
    }
  }

  // ---------------------------------------------------------------------------
  // Dot-segment folding

  predicate IsDotSegment(seg: string)
  {
    seg == "." || seg == "./" || seg == ".." || seg == "../"
  }

  predicate NoDotSegments(segs: seq<string>)
  {
    forall i :: 0 <= i < |segs| ==> !IsDotSegment(segs[i])
  }

  /**
   * One step of the fold: `..` pops the last resolved segment unless only
   * one is left, `.` is dropped, anything else is appended.
   */
  function FoldStep(resolved: seq<string>, seg: string): seq<string>
  {
    if seg == ".." || seg == "../" then
      if |resolved| > 1 then resolved[..|resolved| - 1] else resolved
    else if seg == "." || seg == "./" then resolved
    else resolved + [seg]
  }

  /**
   * Folds `segs` left to right into `resolved`. The result holds no dot
   * segment (given `resolved` held none), never loses the first resolved
   * segment, holds only segments it was given, and is the plain
   * concatenation when `segs` holds no dot segment.
   */
  function FoldSegments(resolved: seq<string>, segs: seq<string>): (r: seq<string>)
    ensures NoDotSegments(resolved) ==> NoDotSegments(r)
    ensures |resolved| > 0 ==> |r| > 0 && r[0] == resolved[0]
    ensures forall s :: s in r ==> s in resolved || s in segs
    ensures NoDotSegments(segs) ==> r == resolved + segs
    decreases |segs|
  {
    if segs == [] then resolved
    else
      var r := FoldSegments(FoldStep(resolved, segs[0]), segs[1..]);
      assert NoDotSegments(segs) ==> resolved + segs == (resolved + [segs[0]]) + segs[1..];
      r
  }

  /** The path with its dot segments folded away. */
  function RemoveDotSegments(path: string): (r: string)
    ensures StartsWith(path, "/") ==> StartsWith(r, "/")
    ensures NoDotSegments(Segments(r))
    ensures NoDotSegments(Segments(path)) ==> r == path
  {
    var segs := Segments(path);
    var rs := FoldSegments([], segs);
    FoldWellFormed([], segs);
    NoDotsAfterConcat(rs);
    FoldRooted(path);
    Concat(rs)
  }

  /** An absolute path keeps its leading `/` segment through the fold. */
  lemma FoldRooted(path: string)
    ensures StartsWith(path, "/") ==> StartsWith(Concat(FoldSegments([], Segments(path))), "/")
  {
    if StartsWith(path, "/") {
      var segs := Segments(path);
      assert path[0] == path[..1][0];
      assert FirstSlash(path) == 0;
      assert segs[0] == "/";
      assert FoldStep([], segs[0]) == ["/"];
      var rs := FoldSegments(["/"], segs[1..]);
      assert rs == FoldSegments([], segs);
      assert Concat(rs) == "/" + Concat(rs[1..]);
    }
  }

  lemma {:induction false} FoldWellFormed(resolved: seq<string>, segs: seq<string>)
    requires AllDir(resolved) && WellFormed(segs)
    ensures WellFormed(FoldSegments(resolved, segs))
    decreases |segs|
  {
    if segs != [] {
      var next := FoldStep(resolved, segs[0]);
      if |segs| > 1 {
        assert IsDirSegment(segs[0]);
        assert AllDir(next);
        FoldWellFormed(next, segs[1..]);
      } else {
        assert FoldSegments(resolved, segs) == next;
      }
    }
  }

  /** Re-splitting a path made of directory segments peels off the first one. */
  lemma SegmentsOfDir(d: string, rest: string)
    requires IsDirSegment(d)
    ensures Segments(d + rest) == [d] + Segments(rest)
  {
    var s := d + rest;
    assert s[|d| - 1] == '/';
    var k := FirstSlash(s);
    assert k == |d| - 1;
    assert s[..k + 1] == d;
    assert s[k + 1..] == rest;
  }

  /**
   * Re-splitting the concatenation of well-formed segments gives them back,
   * followed by an empty last segment when they all end in a slash.
   */
  lemma {:induction false} SegmentsOfConcat(rs: seq<string>)
    requires WellFormed(rs)
    ensures Segments(Concat(rs)) == rs || Segments(Concat(rs)) == rs + [""]
    ensures |rs| > 0 && !IsDirSegment(rs[|rs| - 1]) ==> Segments(Concat(rs)) == rs
    decreases |rs|
  {
    if rs == [] {
      assert Segments("") == [""];
    } else if IsDirSegment(rs[0]) {
      WellFormedTail(rs);
      SegmentsOfConcat(rs[1..]);
      SegmentsOfConcatCons(rs);
    } else {
      assert |rs| == 1;
      assert Concat(rs) == rs[0];
    }
  }

  lemma SegmentsOfConcatCons(rs: seq<string>)
    requires |rs| > 0 && IsDirSegment(rs[0])
    requires Segments(Concat(rs[1..])) == rs[1..] || Segments(Concat(rs[1..])) == rs[1..] + [""]
    requires |rs| > 1 && !IsDirSegment(rs[|rs| - 1]) ==> Segments(Concat(rs[1..])) == rs[1..]
    ensures Segments(Concat(rs)) == rs || Segments(Concat(rs)) == rs + [""]
    ensures !IsDirSegment(rs[|rs| - 1]) ==> Segments(Concat(rs)) == rs
  {
    var tail := rs[1..];
    var c := Concat(tail);
    assert Concat(rs) == rs[0] + c;
    SegmentsOfDir(rs[0], c);
    ConsTail(rs, Segments(c));
  }

  /** Putting the head back in front of the re-split tail. */
  lemma ConsTail(rs: seq<string>, segs: seq<string>)
    requires |rs| > 0
    requires segs == rs[1..] || segs == rs[1..] + [""]
    ensures [rs[0]] + segs == rs || [rs[0]] + segs == rs + [""]
    ensures segs == rs[1..] ==> [rs[0]] + segs == rs
  {
    if segs == rs[1..] {
      assert [rs[0]] + segs == rs;
    } else {
      assert [rs[0]] + segs == rs + [""];
    }
  }

  /** A path assembled from dot-free well-formed segments re-splits into dot-free segments. */
  lemma NoDotsAfterConcat(rs: seq<string>)
    requires WellFormed(rs) && NoDotSegments(rs)
    ensures NoDotSegments(Segments(Concat(rs)))
  {
    SegmentsOfConcat(rs);
    var segs := Segments(Concat(rs));
    forall i | 0 <= i < |segs|
      ensures !IsDotSegment(segs[i])
    {
      if i < |rs| {
        assert segs[i] == rs[i];
      } else {
        assert segs[i] == "";
      }
    }
  }

  lemma WellFormedTail(rs: seq<string>)
    requires WellFormed(rs) && |rs| > 0
    ensures WellFormed(rs[1..])
  {
    forall i | 0 <= i < |rs| - 1
      ensures IsDirSegment(rs[1..][i]) || (i == |rs| - 2 && '/' !in rs[1..][i])
    {
      assert rs[1..][i] == rs[i + 1];
    }
  }

  /** Folding twice is folding once. */
  lemma RemoveDotSegmentsIdempotent(path: string)
    ensures RemoveDotSegments(RemoveDotSegments(path)) == RemoveDotSegments(path)
  {
  }

  // ---------------------------------------------------------------------------
  // Percent-encoding

  /** Characters percent-encoding never touches: ASCII letters, digits and `_.-~`. */
  predicate AlwaysSafe(c: char)
  {
    'A' <= c <= 'Z' || 'a' <= c <= 'z' || '0' <= c <= '9' || c == '_' || c == '.' || c == '-' || c == '~'
  }

  /** The extra characters left alone in a path. */
  const PathSafe: string := "/%~+:();$!,"

  predicate Unescaped(c: char)
  {
    AlwaysSafe(c) || c in PathSafe
  }

  /** Every character of `s` is left alone by percent-encoding. */
  predicate AllUnescaped(s: string)
  {
    forall i :: 0 <= i < |s| ==> Unescaped(s[i])
  }

  /** The UTF-8 encoding of one character, as byte values. */
  function Utf8(c: char): (bytes: seq<nat>)
    ensures 1 <= |bytes| <= 4
    ensures forall i :: 0 <= i < |bytes| ==> bytes[i] < 256
    ensures c as int < 128 ==> bytes == [c as int]
    ensures c as int >= 128 ==> forall i :: 0 <= i < |bytes| ==> bytes[i] >= 128
  {
    var cp := c as int;
    if cp < 0x80 then [cp]
    else if cp < 0x800 then [0xC0 + cp / 0x40, 0x80 + cp % 0x40]
    else if cp < 0x1_0000 then [0xE0 + cp / 0x1000, 0x80 + (cp / 0x40) % 0x40, 0x80 + cp % 0x40]
    else [0xF0 + cp / 0x4_0000, 0x80 + (cp / 0x1000) % 0x40, 0x80 + (cp / 0x40) % 0x40, 0x80 + cp % 0x40]
  }

  function HexDigit(n: nat): (c: char)
    requires n < 16
    ensures AlwaysSafe(c) && c != '/' && c != '%' && c != '.'
  {
    "0123456789ABCDEF"[n]
  }

  /** A byte stays as its character when it is an unescaped ASCII character, else becomes `%XY`. */
  function QuoteByte(b: nat): string
    requires b < 256
  {
    if b < 128 && Unescaped(b as char) then [b as char]
    else ['%', HexDigit(b / 16), HexDigit(b % 16)]
  }

  function QuoteBytes(bytes: seq<nat>): string
    requires forall i :: 0 <= i < |bytes| ==> bytes[i] < 256
  {
    if bytes == [] then "" else QuoteByte(bytes[0]) + QuoteBytes(bytes[1..])
  }

  /**
   * The encoding of one character: itself when unescaped, otherwise a
   * non-empty run of `%XY` triples, holding `%` and no `/` or `.`.
   */
  function QuoteChar(c: char): (r: string)
    ensures Unescaped(c) ==> r == [c]
    ensures !Unescaped(c) ==> '%' in r && '/' !in r && '.' !in r && AllUnescaped(r)
  {
    QuoteCharFacts(c);
    QuoteBytes(Utf8(c))
  }

  lemma QuoteCharFacts(c: char)
    ensures Unescaped(c) ==> QuoteBytes(Utf8(c)) == [c]
    ensures !Unescaped(c) ==> forall i :: 0 <= i < |Utf8(c)| ==> !(Utf8(c)[i] < 128 && Unescaped(Utf8(c)[i] as char))
    ensures !Unescaped(c) ==> '%' in QuoteBytes(Utf8(c)) && '/' !in QuoteBytes(Utf8(c)) && '.' !in QuoteBytes(Utf8(c))
    ensures !Unescaped(c) ==> AllUnescaped(QuoteBytes(Utf8(c)))
  {
    var bytes := Utf8(c);
    if c as int < 128 {
      assert bytes == [c as int];
      assert (c as int) as char == c;
      assert QuoteBytes(bytes) == QuoteByte(c as int) + QuoteBytes([]);
    }
    if !Unescaped(c) {
      QuoteBytesShape(bytes);
    }
  }

  lemma {:induction false} QuoteBytesShape(bytes: seq<nat>)
    requires forall i :: 0 <= i < |bytes| ==> bytes[i] < 256
    requires forall i :: 0 <= i < |bytes| ==> !(bytes[i] < 128 && Unescaped(bytes[i] as char))
    ensures bytes != [] ==> '%' in QuoteBytes(bytes)
    ensures '/' !in QuoteBytes(bytes) && '.' !in QuoteBytes(bytes)
    ensures AllUnescaped(QuoteBytes(bytes))
  {
    if bytes != [] {
      QuoteBytesShape(bytes[1..]);
    }
  }

  /**
   * Percent-encoding of a path with the path-safe set: every resulting
   * character is unescaped, a string of unescaped characters (already
   * encoded text among them) is left as it is, and nothing gets shorter.
   */
  function Quote(s: string): (r: string)
    ensures AllUnescaped(r)
    ensures AllUnescaped(s) ==> r == s
    ensures |r| >= |s|
  {
    if s == [] then "" else QuoteChar(s[0]) + Quote(s[1..])
  }

  /** Encoding is stable: an encoded path encodes to itself. */
  lemma QuoteIdempotent(s: string)
    ensures Quote(Quote(s)) == Quote(s)
  {
  }

  /** Encoding distributes over concatenation. */
  lemma {:induction false} QuoteAppend(a: string, b: string)
    ensures Quote(a + b) == Quote(a) + Quote(b)
    decreases |a|
  {
    if a != [] {
      var ab := a + b;
      assert ab[0] == a[0];
      assert ab[1..] == a[1..] + b;
      calc {
        Quote(ab);
        QuoteChar(a[0]) + Quote(a[1..] + b);
        { QuoteAppend(a[1..], b); }
        QuoteChar(a[0]) + (Quote(a[1..]) + Quote(b));
      }
    } else {
      assert a + b == b;
    }
  }

  /** A slash survives encoding and no other character turns into one. */
  lemma {:induction false} QuoteSlash(s: string)
    ensures '/' in Quote(s) <==> '/' in s
    decreases |s|
  {
    if s != [] {
      QuoteSlash(s[1..]);
      assert s == [s[0]] + s[1..];
    }
  }

  /** Output without `%` means nothing was escaped, so the input was returned as it is. */
  lemma {:induction false} QuoteWithoutPercent(s: string)
    requires '%' !in Quote(s)
    ensures Quote(s) == s
    decreases |s|
  {
    if s != [] {
      assert Quote(s) == QuoteChar(s[0]) + Quote(s[1..]);
      QuoteWithoutPercent(s[1..]);
    }
  }

  /** An escaped ASCII character becomes one `%XY` triple of upper-case hex digits. */
  lemma QuoteAscii(c: char)
    requires c as int < 128 && !Unescaped(c)
    ensures QuoteChar(c) == ['%', HexDigit(c as int / 16), HexDigit(c as int % 16)]
  {
    assert Utf8(c) == [c as int];
    assert (c as int) as char == c;
    assert QuoteBytes([c as int]) == QuoteByte(c as int) + QuoteBytes([]);
  }

  /** A space is escaped as `%20`. */
  lemma QuoteEscapesSpace()
    ensures QuoteChar(' ') == "%20"
  {
    QuoteAscii(' ');
  }

  /** Square brackets are escaped. */
  lemma QuoteEscapesBrackets()
    ensures QuoteChar('[') == "%5B" && QuoteChar(']') == "%5D"
  {
    QuoteAscii('[');
    QuoteAscii(']');
  }

  /** Angle brackets are escaped. */
  lemma QuoteEscapesAngles()
    ensures QuoteChar('<') == "%3C" && QuoteChar('>') == "%3E"
  {
    QuoteAscii('<');
    QuoteAscii('>');
  }

  // ---------------------------------------------------------------------------
  // Encoding keeps segment structure

  function QuoteAll(segs: seq<string>): (qs: seq<string>)
    ensures |qs| == |segs|
    ensures forall i :: 0 <= i < |segs| ==> qs[i] == Quote(segs[i])
  {
    if segs == [] then [] else [Quote(segs[0])] + QuoteAll(segs[1..])
  }

  lemma {:induction false} QuoteConcat(segs: seq<string>)
    ensures Quote(Concat(segs)) == Concat(QuoteAll(segs))
    decreases |segs|
  {
    if segs != [] {
      QuoteConcat(segs[1..]);
      QuoteAppend(segs[0], Concat(segs[1..]));
      assert QuoteAll(segs)[1..] == QuoteAll(segs[1..]);
    }
  }

  lemma QuoteDir(d: string)
    requires IsDirSegment(d)
    ensures IsDirSegment(Quote(d))
  {
    var body := d[..|d| - 1];
    assert d == body + "/";
    QuoteAppend(body, "/");
    assert Quote("/") == "/";
    QuoteSlash(body);
    assert Quote(d)[..|Quote(d)| - 1] == Quote(body);
  }

  lemma QuoteNotDot(s: string)
    requires !IsDotSegment(s)
    ensures !IsDotSegment(Quote(s))
  {
    if IsDotSegment(Quote(s)) {
      assert '%' !in Quote(s);
      QuoteWithoutPercent(s);
      assert false;
    }
  }

  /** Encoding a dot-free path made of well-formed segments leaves it dot-free. */
  lemma QuoteKeepsNoDots(rs: seq<string>)
    requires WellFormed(rs) && NoDotSegments(rs)
    ensures NoDotSegments(Segments(Quote(Concat(rs))))
  {
    var qs := QuoteAll(rs);
    forall i | 0 <= i < |rs|
      ensures IsDirSegment(qs[i]) || (i == |qs| - 1 && '/' !in qs[i])
      ensures !IsDotSegment(qs[i])
    {
      if IsDirSegment(rs[i]) {
        QuoteDir(rs[i]);
      } else {
        QuoteSlash(rs[i]);
      }
      QuoteNotDot(rs[i]);
    }
    QuoteConcat(rs);
    NoDotsAfterConcat(qs);
  }

  /** Dot-folding an encoded folded path changes nothing. */
  lemma FoldAfterQuote(path: string)
    ensures RemoveDotSegments(Quote(RemoveDotSegments(path))) == Quote(RemoveDotSegments(path))
  {
    var rs := FoldSegments([], Segments(path));
    FoldWellFormed([], Segments(path));
    QuoteKeepsNoDots(rs);
  }

  // ---------------------------------------------------------------------------
  // The normal form

  predicate IsHttp(scheme: Option<string>)
  {
    scheme == Some("http") || scheme == Some("https")
  }

  /**
   * The normalised path: dot segments folded, `/` when the result is empty
   * but a query or fragment is present, percent-encoded for HTTP(S).
   */
  function NormalPath(u: Url): string
    requires u.path.Some?
  {
    var folded := RemoveDotSegments(u.path.value);
    var p := if (Truthy(u.query) || Truthy(u.fragment)) && folded == "" then "/" else folded;
    if IsHttp(u.scheme) then Quote(p) else p
  }

  /** The root path is its own dot-folding. */
  lemma RootFixed()
    ensures RemoveDotSegments("/") == "/" && Quote("/") == "/"
  {
    assert Concat(["/"]) == "/";
    NoDotsAfterConcat(["/"]);
  }

  /**
   * The normalised components: a URL without a path is rejected, then one
   * without a host; otherwise the components of the normal form.
   */
  function NormalizeParts(u: Url): (r: Result<Url, NormError>)
    ensures u.path.None? ==> r == Err(NoPath)
    ensures u.path.Some? && u.host.None? ==> r == Err(NoHost)
    ensures r.Ok? <==> u.path.Some? && u.host.Some?
  {
    if u.path.None? then Err(NoPath)
    else if u.host.None? then Err(NoHost)
    else
      Ok(Url(u.scheme, u.auth, Some(Lower(u.host.value)), KeptPort(u.scheme, u.port),
             Some(NormalPath(u)), u.query, None))
  }

  /**
   * What the normal form keeps and changes: scheme, credentials and query
   * are kept, the host is lower-cased, the fragment is dropped, the port is
   * dropped exactly when it is the scheme's default. The path is the
   * dot-folded input path, `/` in place of an empty one when there is a
   * query or fragment, percent-encoded for HTTP(S): so it is empty exactly
   * when the folded path is empty and there is no query or fragment, it is
   * rooted when the input path is, it holds no dot segment, and for HTTP(S)
   * only characters that encoding leaves alone.
   */
  lemma NormalizePartsFacts(u: Url)
    requires u.path.Some? && u.host.Some?
    ensures var v, folded := NormalizeParts(u).value, RemoveDotSegments(u.path.value);
      && v.scheme == u.scheme && v.auth == u.auth && v.query == u.query
      && v.host == Some(Lower(u.host.value)) && v.fragment.None?
      && (v.port.None? <==> u.port.None? || IsDefaultPort(u.scheme, u.port))
      && (v.port.Some? ==> v.port == u.port)
      && v.path.Some?
      && v.path.value == (if folded == "" && (Truthy(u.query) || Truthy(u.fragment)) then "/"
                          else if IsHttp(u.scheme) then Quote(folded) else folded)
      && (v.path.value == "" <==> RemoveDotSegments(u.path.value) == "" && !Truthy(u.query) && !Truthy(u.fragment))
      && (StartsWith(u.path.value, "/") ==> StartsWith(v.path.value, "/"))
      && NoDotSegments(Segments(v.path.value))
      && (IsHttp(u.scheme) ==> AllUnescaped(v.path.value))
  {
    NormalPathFacts(u);
    RootFixed();
  }

  lemma NormalPathFacts(u: Url)
    requires u.path.Some?
    ensures StartsWith(u.path.value, "/") ==> StartsWith(NormalPath(u), "/")
    ensures NoDotSegments(Segments(NormalPath(u)))
    ensures RemoveDotSegments(NormalPath(u)) == NormalPath(u)
    ensures IsHttp(u.scheme) ==> AllUnescaped(NormalPath(u))
    ensures NormalPath(u) == "" <==> RemoveDotSegments(u.path.value) == "" && !Truthy(u.query) && !Truthy(u.fragment)
  {
    var folded := RemoveDotSegments(u.path.value);
    var p := if (Truthy(u.query) || Truthy(u.fragment)) && folded == "" then "/" else folded;
    RootFixed();
    if IsHttp(u.scheme) {
      if p == "/" {
        assert NormalPath(u) == "/";
      } else {
        FoldAfterQuote(u.path.value);
        if StartsWith(p, "/") {
          assert p == "/" + p[1..];
          QuoteAppend("/", p[1..]);
        }
      }
    }
  }

  /** Normalising normalised components changes nothing. */
  lemma NormalizePartsIdempotent(u: Url)
    requires NormalizeParts(u).Ok?
    ensures NormalizeParts(NormalizeParts(u).value) == NormalizeParts(u)
  {
    var v := NormalizeParts(u).value;
    NormalPathFacts(u);
    NormalizePartsFacts(u);
    assert RemoveDotSegments(v.path.value) == v.path.value;
    assert NormalPath(v) == v.path.value;
    assert Lower(Lower(u.host.value)) == Lower(u.host.value);
    assert KeptPort(v.scheme, v.port) == v.port;
  }

  // ---------------------------------------------------------------------------
  // The normalised string

  /**
   * What urllib3's `Url` constructor makes of the components it is given:
   * the scheme is lower-cased, a non-empty path that does not start with
   * `/` gets one, and every other component is kept.
   */
  function Construct(u: Url): (r: Url)
    ensures r.auth == u.auth && r.host == u.host && r.port == u.port
    ensures r.query == u.query && r.fragment == u.fragment
    ensures r.scheme.Some? <==> u.scheme.Some?
    ensures u.scheme.Some? ==> r.scheme.value == Lower(u.scheme.value) && HasNoUpper(r.scheme.value)
    ensures u.path.Some? && u.path.value != "" && !StartsWith(u.path.value, "/") ==> r.path == Some("/" + u.path.value)
    ensures u.path.None? || u.path.value == "" || StartsWith(u.path.value, "/") ==> r.path == u.path
    ensures r.path.Some? && r.path.value != "" ==> StartsWith(r.path.value, "/")
  {
    var path := if u.path.Some? && u.path.value != "" && !StartsWith(u.path.value, "/") then Some("/" + u.path.value) else u.path;
    var scheme := if u.scheme.Some? then Some(Lower(u.scheme.value)) else None;
    Url(scheme, u.auth, u.host, u.port, path, u.query, u.fragment)
  }

  /** Reassembles a URL string from its components, each with its usual separator. */
  function Render(u: Url): string
  {
    (if u.scheme.Some? then u.scheme.value + "://" else "")
    + (if u.auth.Some? then u.auth.value + "@" else "")
    + (if u.host.Some? then u.host.value else "")
    + (if u.port.Some? then ":" + DecimalDigits(u.port.value) else "")
    + (if u.path.Some? then u.path.value else "")
    + (if u.query.Some? then "?" + u.query.value else "")
    + (if u.fragment.Some? then "#" + u.fragment.value else "")
  }

  /** Python's `s.replace(' ', '%20')`. */
  function EscapeSpaces(s: string): (r: string)
    ensures ' ' !in r
    ensures ' ' !in s ==> r == s
  {
    ReplaceCharFacts(s, ' ', "%20");
    ReplaceAll(s, " ", "%20")
  }

  /** Each space becomes `%20` and the text around it is escaped on its own. */
  lemma EscapeSpaceAt(x: string, y: string)
    ensures EscapeSpaces(x + " " + y) == EscapeSpaces(x) + "%20" + EscapeSpaces(y)
  {
    ReplaceCharAppend(x + " ", y, ' ', "%20");
    ReplaceCharAppend(x, " ", ' ', "%20");
    ReplaceOne(' ', ' ', "%20");
  }

  /**
   * The normalised URL string of a parse result: it fails exactly as the
   * components do (or with `Unparsable` when the parser raised); otherwise
   * it is the URL the constructor reassembles from the normal components,
   * with every space escaped as `%20`.
   */
  function NormalizeUrl(parsed: Option<Url>): (r: Result<string, NormError>)
    ensures parsed.None? ==> r == Err(Unparsable)
    ensures parsed.Some? && NormalizeParts(parsed.value).Err? ==> r == Err(NormalizeParts(parsed.value).error)
    ensures parsed.Some? && NormalizeParts(parsed.value).Ok? ==> r.Ok?
    ensures parsed.Some? && NormalizeParts(parsed.value).Ok? && ' ' !in Render(Construct(NormalizeParts(parsed.value).value)) ==>
              r == Ok(Render(Construct(NormalizeParts(parsed.value).value)))
    ensures forall x, y :: parsed.Some? && NormalizeParts(parsed.value).Ok? &&
                           Render(Construct(NormalizeParts(parsed.value).value)) == x + " " + y ==>
                           r == Ok(EscapeSpaces(x) + "%20" + EscapeSpaces(y))
    ensures r.Ok? ==> ' ' !in r.value
  {
    match parsed
    case None => Err(Unparsable)
    case Some(u) =>
      match NormalizeParts(u)
      case Err(e) => Err(e)
      case Ok(v) =>
        var s := Render(Construct(v));
        assert forall x, y :: s == x + " " + y ==> EscapeSpaces(s) == EscapeSpaces(x) + "%20" + EscapeSpaces(y) by {
          forall x, y | s == x + " " + y
            ensures EscapeSpaces(s) == EscapeSpaces(x) + "%20" + EscapeSpaces(y)
          {
            EscapeSpaceAt(x, y);
          }
        }
        Ok(EscapeSpaces(s))
  }
}
