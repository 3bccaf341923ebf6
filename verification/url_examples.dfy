/**
 * The behaviours the normaliser's own examples illustrate, stated for every
 * path of the illustrated shape rather than for one literal.
 */
module UrlExamples {
  import opened Options
  import opened Strings
  import opened UrlNorm

  /** Splitting a path written out as its well-formed segments gives those segments. */
  lemma SplitAs(path: string, rs: seq<string>)
    requires WellFormed(rs) && |rs| > 0 && !IsDirSegment(rs[|rs| - 1])
    requires Concat(rs) == path
    ensures Segments(path) == rs
  {
    SegmentsOfConcat(rs);
  }

  /** A plain path name: no slash, and not `.` or `..`. */
  predicate PlainName(a: string)
  {
    '/' !in a && a != "." && a != ".."
  }

  lemma PlainDir(a: string)
    requires PlainName(a)
    ensures IsDirSegment(a + "/") && !IsDotSegment(a + "/")
  {
    assert (a + "/")[..|a|] == a;
  }

  lemma Concat4(w: string, x: string, y: string, z: string)
    ensures Concat([w, x, y, z]) == w + x + y + z
  {
    assert [w, x, y, z][1..] == [x, y, z];
    assert [x, y, z][1..] == [y, z];
    assert [y, z][1..] == [z];
    assert Concat([z]) == z + Concat([]) == z;
    assert Concat([y, z]) == y + Concat([z]);
    assert Concat([x, y, z]) == x + Concat([y, z]);
    assert Concat([w, x, y, z]) == w + Concat([x, y, z]);
  }

  lemma Fold4(w: string, x: string, y: string, z: string)
    ensures FoldSegments([], [w, x, y, z]) == FoldStep(FoldStep(FoldStep(FoldStep([], w), x), y), z)
  {
    var r1 := FoldStep([], w);
    var r2 := FoldStep(r1, x);
    var r3 := FoldStep(r2, y);
    assert [w, x, y, z][1..] == [x, y, z];
    assert [x, y, z][1..] == [y, z];
    assert [y, z][1..] == [z];
    assert [z][1..] == [];
    assert FoldSegments(r3, [z]) == FoldSegments(FoldStep(r3, z), []);
    assert FoldSegments(r2, [y, z]) == FoldSegments(r3, [z]);
    assert FoldSegments(r1, [x, y, z]) == FoldSegments(r2, [y, z]);
    assert FoldSegments([], [w, x, y, z]) == FoldSegments(r1, [x, y, z]);
  }

  /** Dot-segment removal through a known split and a known fold. */
  lemma RemoveDotsVia(path: string, rs: seq<string>, out: seq<string>)
    requires Segments(path) == rs && FoldSegments([], rs) == out
    ensures RemoveDotSegments(path) == Concat(out)
  {
  }

  lemma Concat3(x: string, y: string, z: string)
    ensures Concat([x, y, z]) == x + y + z
  {
    assert [x, y, z][1..] == [y, z];
    assert [y, z][1..] == [z];
    assert Concat([z]) == z + Concat([]) == z;
    assert Concat([y, z]) == y + Concat([z]);
  }

  /** The segments of `/a/` followed by `s` and then `b`. */
  lemma SplitRooted(a: string, s: string, b: string)
    requires PlainName(a) && PlainName(b) && (s == "../" || s == "./")
    ensures Segments("/" + a + "/" + s + b) == ["/", a + "/", s, b]
  {
    var d := a + "/";
    PlainDir(a);
    var rs := ["/", d, s, b];
    Concat4("/", d, s, b);
    assert "/" + a + "/" + s + b == "/" + d + s + b;
    SplitAs("/" + a + "/" + s + b, rs);
  }

  lemma PlainNotDot(b: string)
    requires PlainName(b)
    ensures !IsDotSegment(b)
  {
    assert '/' in "./" && '/' in "../";
  }

  lemma StepPlain(resolved: seq<string>, seg: string)
    requires !IsDotSegment(seg)
    ensures FoldStep(resolved, seg) == resolved + [seg]
  {
  }

  lemma StepCurrent(resolved: seq<string>)
    ensures FoldStep(resolved, "./") == resolved
  {
  }

  lemma StepParent(resolved: seq<string>)
    requires |resolved| > 1
    ensures FoldStep(resolved, "../") == resolved[..|resolved| - 1]
  {
  }

  lemma FoldParentSteps(a: string, b: string)
    requires PlainName(a) && PlainName(b)
    ensures FoldSegments([], ["/", a + "/", "../", b]) == ["/", b]
  {
    var d := a + "/";
    Fold4("/", d, "../", b);
    PlainDir(a);
    PlainNotDot(b);
    StepPlain([], "/");
    StepPlain(["/"], d);
    StepParent(["/", d]);
    StepPlain(["/"], b);
    assert [] + ["/"] == ["/"];
    assert ["/"] + [d] == ["/", d];
    assert ["/", d][..1] == ["/"];
    assert ["/"] + [b] == ["/", b];
  }

  lemma FoldCurrentSteps(a: string, b: string)
    requires PlainName(a) && PlainName(b)
    ensures FoldSegments([], ["/", a + "/", "./", b]) == ["/", a + "/", b]
  {
    var d := a + "/";
    Fold4("/", d, "./", b);
    PlainDir(a);
    PlainNotDot(b);
    StepPlain([], "/");
    StepPlain(["/"], d);
    StepCurrent(["/", d]);
    StepPlain(["/", d], b);
    assert [] + ["/"] == ["/"];
    assert ["/"] + [d] == ["/", d];
    assert ["/", d] + [b] == ["/", d, b];
  }

  /** A parent segment removes the segment before it: `/a/../b` folds to `/b`. */
  lemma FoldParentSegment(a: string, b: string)
    requires PlainName(a) && PlainName(b)
    ensures RemoveDotSegments("/" + a + "/../" + b) == "/" + b
  {
    assert "/" + a + "/../" + b == "/" + a + "/" + "../" + b;
    SplitRooted(a, "../", b);
    FoldParentSteps(a, b);
    RemoveDotsVia("/" + a + "/../" + b, ["/", a + "/", "../", b], ["/", b]);
    assert Concat(["/", b]) == "/" + (b + "");
  }

  /** A current segment disappears: `/a/./b` folds to `/a/b`. */
  lemma FoldCurrentSegment(a: string, b: string)
    requires PlainName(a) && PlainName(b)
    ensures RemoveDotSegments("/" + a + "/./" + b) == "/" + a + "/" + b
  {
    assert "/" + a + "/./" + b == "/" + a + "/" + "./" + b;
    SplitRooted(a, "./", b);
    FoldCurrentSteps(a, b);
    RemoveDotsVia("/" + a + "/./" + b, ["/", a + "/", "./", b], ["/", a + "/", b]);
    JoinCurrent(a, b);
  }

  lemma JoinCurrent(a: string, b: string)
    ensures Concat(["/", a + "/", b]) == "/" + a + "/" + b
  {
    Concat3("/", a + "/", b);
  }

  /** A space between two runs of unescaped characters becomes `%20`: `/first second` encodes to `/first%20second`. */
  lemma QuoteSpace(a: string, b: string)
    requires AllUnescaped(a) && AllUnescaped(b)
    ensures Quote(a + " " + b) == a + "%20" + b
  {
    QuoteAppend(a + " ", b);
    QuoteAppend(a, " ");
    QuoteEscapesSpace();
    assert Quote(" ") == QuoteChar(' ') + Quote("");
  }

  // ---------------------------------------------------------------------------
  // Whole URLs

  /** Lower-casing never creates a space. */
  lemma LowerNoSpace(h: string)
    requires ' ' !in h
    ensures ' ' !in Lower(h)
  {
    forall i | 0 <= i < |h|
      ensures Lower(h)[i] != ' '
    {
      assert h[i] != ' ';
    }
  }

  /** Text that encoding leaves alone holds no space. */
  lemma UnescapedNoSpace(s: string)
    requires AllUnescaped(s)
    ensures ' ' !in s
  {
    assert !Unescaped(' ');
  }

  /** A rooted plain name is already folded. */
  lemma RemoveDotsPlain(p: string)
    requires PlainName(p)
    ensures RemoveDotSegments("/" + p) == "/" + p
  {
    assert Concat([p]) == p + Concat([]);
    assert Concat(["/", p]) == "/" + p;
    SplitAs("/" + p, ["/", p]);
    PlainNotDot(p);
    assert !IsDotSegment("/");
    NoDotsAfterConcat(["/", p]);
  }

  /** The `http` scheme is already lower case. */
  lemma LowerHttp()
    ensures Lower("http") == "http" && Lower("https") == "https"
  {
    assert HasNoUpper("http") && HasNoUpper("https");
  }

  /** A URL whose normal components are known, are kept by the constructor and render without a space. */
  lemma NormalizeUrlVia(u: Url, v: Url)
    requires NormalizeParts(u) == Ok(v) && Construct(v) == v && ' ' !in Render(v)
    ensures NormalizeUrl(Some(u)) == Ok(Render(v))
  {
  }

  /** The normal components of an HTTP URL on the default port whose path folds and encodes to `path`. */
  lemma PartsHttpDefault(h: string, raw: string, path: string)
    requires RemoveDotSegments(raw) == path && Quote(path) == path && path != ""
    ensures NormalizeParts(Url(Some("http"), None, Some(h), Some(80), Some(raw), None, None))
            == Ok(Url(Some("http"), None, Some(Lower(h)), None, Some(path), None, None))
  {
    var u := Url(Some("http"), None, Some(h), Some(80), Some(raw), None, None);
    assert NormalPath(u) == path;
    assert KeptPort(u.scheme, u.port) == None;
  }

  /** The normal components of an HTTPS URL with a query and no port, whose path folds and encodes to `path`. */
  lemma PartsHttpsQuery(h: string, raw: string, path: string, q: string)
    requires RemoveDotSegments(raw) == path && Quote(path) == path && path != ""
    ensures NormalizeParts(Url(Some("https"), None, Some(h), None, Some(raw), Some(q), None))
            == Ok(Url(Some("https"), None, Some(Lower(h)), None, Some(path), Some(q), None))
  {
    var u := Url(Some("https"), None, Some(h), None, Some(raw), Some(q), None);
    assert NormalPath(u) == path;
  }

  /** A rooted path that encoding leaves alone. */
  lemma QuoteRooted(b: string)
    requires AllUnescaped(b)
    ensures Quote("/" + b) == "/" + b
  {
    RootFixed();
    QuoteAppend("/", b);
  }

  /**
   * `HTTP://ASDF.com:80/a/../b` normalises to `http://asdf.com/b`: for every
   * host and every pair of plain names, the default port is dropped, the
   * parent segment folds away and the host is lower-cased.
   */
  lemma NormalizeDefaultPortParent(h: string, a: string, b: string)
    requires PlainName(a) && PlainName(b) && AllUnescaped(b) && ' ' !in h
    ensures NormalizeUrl(Some(Url(Some("http"), None, Some(h), Some(80), Some("/" + a + "/../" + b), None, None)))
            == Ok("http://" + Lower(h) + "/" + b)
  {
    var u := Url(Some("http"), None, Some(h), Some(80), Some("/" + a + "/../" + b), None, None);
    FoldParentSegment(a, b);
    QuoteRooted(b);
    PartsHttpDefault(h, "/" + a + "/../" + b, "/" + b);
    var v := Url(Some("http"), None, Some(Lower(h)), None, Some("/" + b), None, None);
    ConstructKeeps(v);
    RenderHttp(Lower(h), b);
    LowerNoSpace(h);
    UnescapedNoSpace(b);
    NormalizeUrlVia(u, v);
  }

  lemma RenderHttp(host: string, b: string)
    ensures Render(Url(Some("http"), None, Some(host), None, Some("/" + b), None, None)) == "http://" + host + "/" + b
  {
  }

  lemma RenderHttpsQuery(host: string, p: string, q1: string, q2: string)
    ensures Render(Url(Some("https"), None, Some(host), None, Some("/" + p), Some(q1 + " " + q2), None))
            == ("https://" + host + "/" + p + "?" + q1) + " " + q2
  {
  }

  /** The constructor keeps components whose scheme is `http` or `https` and whose path is rooted. */
  lemma ConstructKeeps(v: Url)
    requires v.scheme == Some("http") || v.scheme == Some("https")
    requires v.path.Some? && StartsWith(v.path.value, "/")
    ensures Construct(v) == v
  {
    LowerHttp();
  }

  /**
   * A space in the query becomes `%20` (the `filename=A case.pdf` example):
   * for every host, plain path name and pair of space-free query parts.
   */
  lemma NormalizeQuerySpace(h: string, p: string, q1: string, q2: string)
    requires PlainName(p) && AllUnescaped(p) && ' ' !in h && ' ' !in q1 && ' ' !in q2
    ensures NormalizeUrl(Some(Url(Some("https"), None, Some(h), None, Some("/" + p), Some(q1 + " " + q2), None)))
            == Ok("https://" + Lower(h) + "/" + p + "?" + q1 + "%20" + q2)
  {
    var u := Url(Some("https"), None, Some(h), None, Some("/" + p), Some(q1 + " " + q2), None);
    RemoveDotsPlain(p);
    QuoteRooted(p);
    PartsHttpsQuery(h, "/" + p, "/" + p, q1 + " " + q2);
    var v := Url(Some("https"), None, Some(Lower(h)), None, Some("/" + p), Some(q1 + " " + q2), None);
    ConstructKeeps(v);
    RenderHttpsQuery(Lower(h), p, q1, q2);
    var x := "https://" + Lower(h) + "/" + p + "?" + q1;
    LowerNoSpace(h);
    UnescapedNoSpace(p);
    HttpsNoSpace(Lower(h), p, q1);
    NormalizeUrlSpaceVia(u, v, x, q2);
  }

  lemma HttpsNoSpace(host: string, p: string, q: string)
    requires ' ' !in host && ' ' !in p && ' ' !in q
    ensures ' ' !in "https://" + host + "/" + p + "?" + q
  {
  }

  /** A URL whose normal components are known, are kept by the constructor and render with one space. */
  lemma NormalizeUrlSpaceVia(u: Url, v: Url, x: string, y: string)
    requires NormalizeParts(u) == Ok(v) && Construct(v) == v && Render(v) == x + " " + y
    requires ' ' !in x && ' ' !in y
    ensures NormalizeUrl(Some(u)) == Ok(x + "%20" + y)
  {
    assert EscapeSpaces(x) == x && EscapeSpaces(y) == y;
  }
}
