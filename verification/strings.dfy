/**
 * The handful of Python string operations the normalisers rely on:
 * truthiness, ASCII lower-casing, prefix/suffix/substring tests and
 * `str.replace`.
 */
module Strings {
  import opened Options

  /** Python truthiness of an optional string: present and non-empty. */
  predicate Truthy(o: Option<string>)
  {
    o.Some? && o.value != ""
  }

  predicate IsUpper(c: char) { 'A' <= c <= 'Z' }

  /** Python's `str.lower()` restricted to ASCII letters. */
  function LowerChar(c: char): (r: char)
    ensures !IsUpper(r)
    ensures !IsUpper(c) ==> r == c
    ensures IsUpper(c) ==> r as int == c as int + 32 && 'a' <= r <= 'z'
  {
    if IsUpper(c) then (c as int - 'A' as int + 'a' as int) as char else c
  }

  predicate HasNoUpper(s: string)
  {
    forall c :: c in s ==> !IsUpper(c)
  }

  /** Lower-casing character by character. */
  function Lower(s: string): (r: string)
    ensures |r| == |s|
    ensures forall i :: 0 <= i < |s| ==> r[i] == LowerChar(s[i])
    ensures HasNoUpper(r)
    ensures HasNoUpper(s) ==> r == s
    ensures forall c :: c in r ==> c in s || ('a' <= c <= 'z')
  {
    if s == [] then [] else [LowerChar(s[0])] + Lower(s[1..])
  }

  predicate StartsWith(s: string, prefix: string)
  {
    |prefix| <= |s| && s[..|prefix|] == prefix
  }

  predicate EndsWith(s: string, suffix: string)
  {
    |suffix| <= |s| && s[|s| - |suffix|..] == suffix
  }

  /** Python's `needle in s` for strings: some suffix of `s` starts with `needle`. */
  predicate Contains(s: string, needle: string)
    decreases |s|
  {
    StartsWith(s, needle) || (|s| > 0 && Contains(s[1..], needle))
  }

  /**
   * Python's `s.replace(pat, rep)`: every non-overlapping occurrence of a
   * non-empty `pat`, scanning left to right, is replaced by `rep`.
   */
  function ReplaceAll(s: string, pat: string, rep: string): string
    requires |pat| > 0
    decreases |s|
  {
    if |s| < |pat| then s
    else if s[..|pat|] == pat then rep + ReplaceAll(s[|pat|..], pat, rep)
    else [s[0]] + ReplaceAll(s[1..], pat, rep)
  }

  /** Replacing a pattern that does not occur leaves the string unchanged. */
  lemma {:induction false} ReplaceAllAbsent(s: string, pat: string, rep: string)
    requires |pat| > 0
    requires !Contains(s, pat)
    ensures ReplaceAll(s, pat, rep) == s
    decreases |s|
  {
    if |s| >= |pat| {
      ReplaceAllAbsent(s[1..], pat, rep);
      assert [s[0]] + s[1..] == s;
    }
  }

  /**
   * Replacing a single character: the result holds no occurrence of it
   * (unless `rep` reintroduces it) and no character that was not in `s`
   * or in `rep`.
   */
  lemma {:induction false} ReplaceCharFacts(s: string, c: char, rep: string)
    ensures c !in rep ==> c !in ReplaceAll(s, [c], rep)
    ensures forall x :: x in ReplaceAll(s, [c], rep) ==> (x in s && x != c) || x in rep
    ensures c !in s ==> ReplaceAll(s, [c], rep) == s
    decreases |s|
  {
    if |s| >= 1 {
      ReplaceCharFacts(s[1..], c, rep);
      assert s == [s[0]] + s[1..];
      if s[..1] == [c] {
        assert s[1..] == s[|[c]|..];
      } else {
        assert s[0] != c;
      }
    }
  }

  /** Lower-casing distributes over concatenation. */
  lemma LowerAppend(a: string, b: string)
    ensures Lower(a + b) == Lower(a) + Lower(b)
  {
    var ab := a + b;
    var r, la, lb := Lower(ab), Lower(a), Lower(b);
    var q := la + lb;
    assert |r| == |q|;
    forall i | 0 <= i < |r|
      ensures r[i] == q[i]
    {
      if i < |a| {
        assert ab[i] == a[i] && q[i] == la[i];
      } else {
        assert ab[i] == b[i - |a|] && q[i] == lb[i - |a|];
      }
    }
    assert r == q;
  }

  /** Replacing a character in a one-character string. */
  lemma ReplaceOne(x: char, c: char, rep: string)
    ensures ReplaceAll([x], [c], rep) == if x == c then rep else [x]
  {
    assert [x][..1] == [x] && [x][1..] == [];
  }

  /** Replacing a single character distributes over concatenation. */
  lemma {:induction false} ReplaceCharAppend(a: string, b: string, c: char, rep: string)
    ensures ReplaceAll(a + b, [c], rep) == ReplaceAll(a, [c], rep) + ReplaceAll(b, [c], rep)
    decreases |a|
  {
    if a == [] {
      assert a + b == b;
    } else {
      assert (a + b)[1..] == a[1..] + b;
      assert (a + b)[..1] == a[..1];
      ReplaceCharAppend(a[1..], b, c, rep);
    }
  }
}
