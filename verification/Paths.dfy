/**
 Canonical absolute paths: sequences of non-empty, slash-free names, and their rendering as
 strings.  Component-wise comparison (Rust's `Path`) and string comparison (cache keys, trie
 keys) agree only as far as the lemmas here say.
 */
module Paths {

  ghost predicate SlashFree(s: string) {
    forall i :: 0 <= i < |s| ==> s[i] != '/'
  }

  ghost predicate ValidName(s: string) {
    s != "" && SlashFree(s)
  }

  type Name = s: string | ValidName(s) ghost witness "a"

  type Path = seq<Name>

  /** `"/a" + "/b" + ...`; the empty string for the root. */
  function Join(p: Path): string {
    if p == [] then "" else "/" + p[0] + Join(p[1..])
  }

  function Render(p: Path): string {
    if p == [] then "/" else Join(p)
  }

  lemma JoinStartsWithSlash(p: Path)
    ensures Join(p) == "" <==> p == []
    ensures p != [] ==> Join(p)[0] == '/' && |Join(p)| > 1
  {
  }

  /** Where the first slash is, or the end. */
  function SlashAt(s: string): nat {
    if s == "" || s[0] == '/' then 0 else 1 + SlashAt(s[1..])
  }

  lemma {:induction false} SlashAfterName(a: string, s: string)
    requires SlashFree(a) && (s == "" || s[0] == '/')
    ensures SlashAt(a + s) == |a|
  {
    if a == "" {
      assert a + s == s;
    } else {
      assert (a + s)[1..] == a[1..] + s;
      SlashAfterName(a[1..], s);
    }
  }

  /** Two names followed by nothing or a slash can only be equal piecewise. */
  lemma CutAtSlash(a: string, s: string, b: string, t: string)
    requires SlashFree(a) && SlashFree(b)
    requires (s == "" || s[0] == '/') && (t == "" || t[0] == '/')
    requires a + s == b + t
    ensures a == b && s == t
  {
    SlashAfterName(a, s);
    SlashAfterName(b, t);
    assert a == (a + s)[..|a|] && b == (b + t)[..|a|];
    assert s == (a + s)[|a|..] && t == (b + t)[|a|..];
  }

  lemma {:induction false} JoinInjective(p: Path, q: Path)
    requires Join(p) == Join(q)
    ensures p == q
  {
    JoinStartsWithSlash(p);
    JoinStartsWithSlash(q);
    if p != [] {
      JoinStartsWithSlash(p[1..]);
      JoinStartsWithSlash(q[1..]);
      assert Join(p)[1..] == p[0] + Join(p[1..]);
      assert Join(q)[1..] == q[0] + Join(q[1..]);
      CutAtSlash(p[0], Join(p[1..]), q[0], Join(q[1..]));
      JoinInjective(p[1..], q[1..]);
      assert p == [p[0]] + p[1..] && q == [q[0]] + q[1..];
    }
  }

  /** Different canonical paths render differently. */
  lemma RenderInjective(p: Path, q: Path)
    requires Render(p) == Render(q)
    ensures p == q
  {
    JoinStartsWithSlash(p);
    JoinStartsWithSlash(q);
    JoinInjective(p, q);
  }

  lemma {:induction false} JoinConcat(p: Path, q: Path)
    ensures Join(p + q) == Join(p) + Join(q)
  {
    if p == [] {
      assert p + q == q;
    } else {
      assert (p + q)[1..] == p[1..] + q;
      JoinConcat(p[1..], q);
    }
  }

  lemma JoinCons(n: Name, p: Path)
    ensures Join([n] + p) == "/" + n + Join(p)
  {
    assert ([n] + p)[1..] == p;
  }

  /** A descendant's string starts with its ancestor's string. */
  lemma RenderPrefix(p: Path, q: Path)
    requires p <= q
    ensures Render(p) <= Render(q)
  {
    var rest := q[|p|..];
    assert q == p + rest;
    JoinConcat(p, rest);
    JoinStartsWithSlash(q);
  }

  lemma {:induction false} BoundaryPrefix(p: Path, q: Path, t: string)
    requires Join(q) == Join(p) + t && (t == "" || t[0] == '/')
    ensures p <= q
  {
    if p != [] {
      JoinStartsWithSlash(p);
      JoinStartsWithSlash(q);
      JoinStartsWithSlash(p[1..]);
      JoinStartsWithSlash(q[1..]);
      assert Join(q)[1..] == q[0] + Join(q[1..]);
      assert Join(q)[1..] == p[0] + (Join(p[1..]) + t);
      CutAtSlash(p[0], Join(p[1..]) + t, q[0], Join(q[1..]));
      BoundaryPrefix(p[1..], q[1..], t);
      assert p == [p[0]] + p[1..] && q == [q[0]] + q[1..];
    }
  }

  /** A string prefix is an ancestor exactly when it ends on a component boundary. */
  lemma PrefixAtBoundary(p: Path, q: Path)
    requires Join(p) <= Join(q)
    ensures p <= q <==> |Join(p)| == |Join(q)| || Join(q)[|Join(p)|] == '/'
  {
    if p <= q {
      var rest := q[|p|..];
      assert q == p + rest;
      JoinConcat(p, rest);
      JoinStartsWithSlash(rest);
    }
    if |Join(p)| == |Join(q)| || Join(q)[|Join(p)|] == '/' {
      BoundaryPrefix(p, q, Join(q)[|Join(p)|..]);
    }
  }
}
