/** The string and path operations genfiles builds its file names with:
    Python's str.replace and posixpath's basename, dirname and join. */
module Paths {

  /** pat occurs in s starting at index i. */
  predicate OccursAt(s: string, pat: string, i: nat)
  {
    i + |pat| <= |s| && s[i..i + |pat|] == pat
  }

  ghost predicate Contains(s: string, pat: string)
  {
    exists i: nat :: OccursAt(s, pat, i)
  }

  /** s.replace(pat, rep) for a non-empty pat: every non-overlapping
      occurrence, scanning from the left, is replaced. */
  function ReplaceAll(s: string, pat: string, rep: string): string
    requires |pat| > 0
    decreases |s|
  {
    if |s| < |pat| then s
    else if s[..|pat|] == pat then rep + ReplaceAll(s[|pat|..], pat, rep)
    else [s[0]] + ReplaceAll(s[1..], pat, rep)
  }

  lemma AppendAssoc<T>(a: seq<T>, b: seq<T>, c: seq<T>)
    ensures (a + b) + c == a + (b + c)
  {
  }

  /** Replacing a pattern that does not occur changes nothing. */
  lemma {:induction false} ReplaceAllAbsent(s: string, pat: string, rep: string)
    requires |pat| > 0 && !Contains(s, pat)
    ensures ReplaceAll(s, pat, rep) == s
    decreases |s|
  {
    if |s| >= |pat| {
      assert !OccursAt(s, pat, 0);
      assert !Contains(s[1..], pat) by {
        forall i: nat | OccursAt(s[1..], pat, i) ensures OccursAt(s, pat, i + 1) {
          assert s[1..][i..i + |pat|] == s[i + 1..i + 1 + |pat|];
        }
      }
      ReplaceAllAbsent(s[1..], pat, rep);
    }
  }

  /** Every character of the result comes from the subject or from the
      replacement. */
  lemma {:induction false} ReplaceAllChars(s: string, pat: string, rep: string)
    requires |pat| > 0
    ensures forall c :: c in ReplaceAll(s, pat, rep) ==> c in s || c in rep
    decreases |s|
  {
    if |s| >= |pat| {
      if s[..|pat|] == pat {
        ReplaceAllChars(s[|pat|..], pat, rep);
        forall c | c in s[|pat|..] ensures c in s {
          var k :| 0 <= k < |s[|pat|..]| && s[|pat|..][k] == c;
          assert s[|pat| + k] == c;
        }
      } else {
        ReplaceAllChars(s[1..], pat, rep);
        forall c | c in s[1..] ensures c in s {
          var k :| 0 <= k < |s[1..]| && s[1..][k] == c;
          assert s[1 + k] == c;
        }
      }
    }
  }

  /** The scan passes over a prefix none of whose characters can start the
      pattern. */
  lemma {:induction false} ReplaceAllSkip(a: string, b: string, pat: string, rep: string)
    requires |pat| > 0 && pat[0] !in a
    ensures ReplaceAll(a + b, pat, rep) == a + ReplaceAll(b, pat, rep)
    decreases |a|
  {
    if a == [] {
      assert a + b == b;
    } else {
      var s := a + b;
      assert s[0] == a[0];
      assert s[1..] == a[1..] + b;
      ReplaceAllSkip(a[1..], b, pat, rep);
    }
  }

  /** A pattern at the front is replaced and the scan goes on behind it. */
  lemma ReplaceAllHit(b: string, pat: string, rep: string)
    requires |pat| > 0
    ensures ReplaceAll(pat + b, pat, rep) == rep + ReplaceAll(b, pat, rep)
  {
    assert (pat + b)[..|pat|] == pat;
    assert (pat + b)[|pat|..] == b;
  }

  /** A character that does not start an occurrence is kept. */
  lemma ReplaceAllMiss(c: char, b: string, pat: string, rep: string)
    requires |pat| > 0
    requires |b| + 1 < |pat| || ([c] + b)[..|pat|] != pat
    ensures ReplaceAll([c] + b, pat, rep) == [c] + ReplaceAll(b, pat, rep)
  {
    assert ([c] + b)[1..] == b;
  }

  /** Replacing with slash-free text keeps a slash-free string slash-free. */
  lemma ReplaceAllNoSlash(s: string, pat: string, rep: string)
    requires |pat| > 0 && '/' !in s && '/' !in rep
    ensures '/' !in ReplaceAll(s, pat, rep)
  {
    ReplaceAllChars(s, pat, rep);
  }

  /** A name without '/' is its own base name. */
  lemma {:induction false} BasenameOfName(n: string)
    requires '/' !in n
    ensures Basename(n) == n
    decreases |n|
  {
    if n != [] {
      assert n[|n| - 1] in n;
      var n' := n[..|n| - 1];
      assert '/' !in n' by {
        forall i | 0 <= i < |n'| ensures n'[i] != '/' { assert n'[i] == n[i]; }
      }
      BasenameOfName(n');
    }
  }

  /** When the pattern's first character does not recur inside it, an
      occurrence appended to a string that has none is the only one
      replaced: "x.html" + ".tmpl" loses exactly the suffix. */
  lemma {:induction false} ReplaceAllSuffix(s: string, pat: string, rep: string)
    requires |pat| > 0 && pat[0] !in pat[1..]
    requires !Contains(s, pat)
    ensures ReplaceAll(s + pat, pat, rep) == s + rep
    decreases |s|
  {
    var t := s + pat;
    if s == [] {
      assert t == pat;
      assert t[|pat|..] == [];
    } else {
      assert t[..|pat|] != pat by {
        if |s| >= |pat| {
          assert t[..|pat|] == s[..|pat|];
          assert !OccursAt(s, pat, 0);
        } else {
          // the occurrence would put pat[0] at position |s| of pat
          assert t[..|pat|][|s|] == t[|s|] == pat[0];
          assert pat[1..][|s| - 1] == pat[|s|];
        }
      }
      assert !Contains(s[1..], pat) by {
        forall i: nat | OccursAt(s[1..], pat, i) ensures OccursAt(s, pat, i + 1) {
          assert s[1..][i..i + |pat|] == s[i + 1..i + 1 + |pat|];
        }
      }
      assert t[1..] == s[1..] + pat;
      ReplaceAllSuffix(s[1..], pat, rep);
      assert ReplaceAll(t, pat, rep) == [s[0]] + (s[1..] + rep);
      AppendAssoc([s[0]], s[1..], rep);
      assert [s[0]] + s[1..] == s;
    }
  }

  /** posixpath.basename: the part after the last '/'. The result is the
      longest suffix of p that holds no '/'. */
  function Basename(p: string): (r: string)
    ensures '/' !in r
    ensures |r| <= |p| && r == p[|p| - |r|..]
    ensures |r| < |p| ==> p[|p| - |r| - 1] == '/'
  {
    if p == [] || p[|p| - 1] == '/' then [] else Basename(p[..|p| - 1]) + [p[|p| - 1]]
  }

  predicate AllSlashes(s: string) { forall i :: 0 <= i < |s| ==> s[i] == '/' }

  /** s.rstrip('/') */
  function StripTrailingSlashes(s: string): (r: string)
    ensures |r| <= |s| && r == s[..|r|]
    ensures r == [] || r[|r| - 1] != '/'
  {
    if s != [] && s[|s| - 1] == '/' then StripTrailingSlashes(s[..|s| - 1]) else s
  }

  /** posixpath.dirname: everything up to the last '/', with the trailing
      slashes removed unless the head consists of slashes only. */
  function Dirname(p: string): (r: string)
    ensures |r| <= |p| && r == p[..|r|]
    ensures |r| + |Basename(p)| <= |p|
  {
    var head := p[..|p| - |Basename(p)|];
    if head != [] && !AllSlashes(head) then StripTrailingSlashes(head) else head
  }

  /** Two-argument posixpath.join: an absolute second part replaces the
      first; otherwise a '/' is inserted unless the first part is empty or
      already ends in one. The many-argument form folds this from the left. */
  function Join(a: string, b: string): (r: string)
    ensures |b| <= |r| && r[|r| - |b|..] == b
  {
    if b != [] && b[0] == '/' then b
    else if a == [] || a[|a| - 1] == '/' then a + b
    else a + "/" + b
  }

  /** Whatever is joined in front, the base name is that of the last part. */
  lemma JoinKeepsBasename(a: string, b: string)
    ensures Basename(Join(a, b)) == Basename(b)
  {
    if !(b != [] && b[0] == '/') {
      if a == [] || a[|a| - 1] == '/' {
        BasenameAfterSlash(a, b);
      } else {
        BasenameAfterSlash(a + "/", b);
        assert a + "/" + b == (a + "/") + b;
      }
    }
  }

  lemma {:induction false} BasenameAfterSlash(u: string, b: string)
    requires u == [] || u[|u| - 1] == '/'
    ensures Basename(u + b) == Basename(b)
    decreases |b|
  {
    if b == [] {
      assert u + b == u;
    } else {
      var b', c := b[..|b| - 1], b[|b| - 1];
      assert (u + b)[..|u + b| - 1] == u + b';
      assert (u + b)[|u + b| - 1] == c;
      if c != '/' {
        BasenameAfterSlash(u, b');
      }
    }
  }

  /** A name without '/' joined to a fixed directory identifies the name:
      distinct file names give distinct paths. */
  lemma JoinInjective(d: string, n1: string, n2: string)
    requires '/' !in n1 && '/' !in n2
    requires Join(d, n1) == Join(d, n2)
    ensures n1 == n2
  {
    var pre := if d == [] || d[|d| - 1] == '/' then d else d + "/";
    if n1 != [] { assert n1[0] in n1; }
    if n2 != [] { assert n2[0] in n2; }
    assert Join(d, n1) == pre + n1 && Join(d, n2) == pre + n2;
    assert n1 == (pre + n1)[|pre|..];
    assert n2 == (pre + n2)[|pre|..];
  }

  /** Stripping the trailing slashes of a + "/" gives a back when a does
      not end in '/'. */
  lemma StripOneSlash(a: string)
    requires a != "" && a[|a| - 1] != '/'
    ensures StripTrailingSlashes(a + "/") == a
    ensures !AllSlashes(a + "/")
  {
    var s := a + "/";
    assert s[..|s| - 1] == a;
    assert s[|a| - 1] == a[|a| - 1];
  }

  /** The directory of a name joined under a directory is that directory:
      for a path "<a>/<n>" with n slash-free and a not ending in '/', dirname
      gives a. */
  lemma DirnameOfJoin(a: string, n: string)
    requires a != "" && a[|a| - 1] != '/' && '/' !in n
    ensures Dirname(a + "/" + n) == a
  {
    var s := a + "/";
    BasenameAfterSlash(s, n);
    BasenameOfName(n);
    StripOneSlash(a);
    assert (s + n)[..|s + n| - |n|] == s;
  }

  /** A path without '/' has the empty directory. */
  lemma DirnameOfName(n: string)
    requires '/' !in n
    ensures Dirname(n) == ""
  {
    BasenameOfName(n);
    assert n[..|n| - |Basename(n)|] == "";
  }
}
