/** Paths as sequences of name components, and the lexical order in which
    directory listings are returned.  The root directory "/" is the empty
    path; "/a/b" is ["a", "b"].  Go's string-level `filepath.Clean`, `Join`
    and `Base` become sequence operations here. */
module Paths {

  /** One path component: a non-empty file name. */
  type Name = s: string | |s| > 0 witness "_"

  type Path = seq<Name>

  /** The longest path the kernel accepts: PATH_MAX (4096) less the
      terminating NUL. */
  const MAX_PATH_LEN: nat := 4095

  /** Length of the path string "/c1/c2/.../ck". */
  function PathLen(p: Path): nat
  {
    if p == [] then 0 else PathLen(p[..|p| - 1]) + 1 + |p[|p| - 1]|
  }

  function Parent(p: Path): Path
    requires p != []
  {
    p[..|p| - 1]
  }

  lemma PathLenAppend(p: Path, n: Name)
    ensures PathLen(p + [n]) == PathLen(p) + 1 + |n|
  {
    assert (p + [n])[..|p|] == p;
  }

  /** A prefix of a path is no longer than the path. */
  lemma {:induction false} PathLenPrefix(p: Path, k: nat)
    requires k <= |p|
    ensures PathLen(p[..k]) <= PathLen(p)
    decreases |p| - k
  {
    if k < |p| {
      PathLenPrefix(p, k + 1);
      assert p[..k + 1][..k] == p[..k];
    } else {
      assert p[..k] == p;
    }
  }

  /** `filepath.Base`: the last component, "/" for the root. */
  function Base(p: Path): Name
  {
    if p == [] then "/" else p[|p| - 1]
  }

  /** `q` is `p` or lies below it. */
  predicate Within(q: Path, p: Path)
  {
    |p| <= |q| && q[..|p|] == p
  }

  /** The path that `q`, lying under `from`, has once `from` is replaced by `to`. */
  function Rebase(q: Path, from: Path, to: Path): (r: Path)
    requires Within(q, from)
    ensures Within(r, to) && |r| - |to| == |q| - |from|
  {
    to + q[|from|..]
  }

  lemma RebaseRoundTrip(q: Path, from: Path, to: Path)
    requires Within(q, from)
    ensures Rebase(Rebase(q, from, to), to, from) == q
  {
    assert Rebase(q, from, to)[|to|..] == q[|from|..];
  }

  lemma WithinTransitive(a: Path, b: Path, c: Path)
    requires Within(a, b) && Within(b, c)
    ensures Within(a, c)
  {
    assert a[..|c|] == a[..|b|][..|c|];
  }

  /** Lying below the child `p + [n]` of `p` is lying below `p` on the
      branch through `n`. */
  lemma WithinChild(q: Path, p: Path, n: Name)
    ensures Within(q, p + [n]) <==> Within(q, p) && |q| > |p| && q[|p|] == n
  {
    if Within(q, p) && |q| > |p| && q[|p|] == n {
      assert q[..|p| + 1] == q[..|p|] + [q[|p|]];
    }
    if Within(q, p + [n]) {
      assert q[..|p|] == q[..|p| + 1][..|p|];
    }
  }

  /** A path below `p` goes through the child of `p` named by its first
      step. */
  lemma StepBelow(p: Path, rel: Path)
    requires rel != []
    ensures p + rel == (p + [rel[0]]) + rel[1..]
  {
    assert rel == [rel[0]] + rel[1..];
  }

  /** Extending both paths by the same name keeps them apart. */
  lemma WithinDrop(a: Path, b: Path, n: Name)
    ensures Within(a + [n], b + [n]) ==> Within(a, b)
  {
    if Within(a + [n], b + [n]) {
      assert a[..|b|] == (a + [n])[..|b| + 1][..|b|];
    }
  }

  /** Two prefixes of the same path are ordered by `Within`. */
  lemma WithinComparable(q: Path, a: Path, b: Path)
    requires Within(q, a) && Within(q, b)
    ensures Within(a, b) || Within(b, a)
  {
    if |a| <= |b| {
      assert b[..|a|] == q[..|b|][..|a|];
    } else {
      assert a[..|b|] == q[..|a|][..|b|];
    }
  }

  /** Lexicographic order on names, character by character: the order of
      Go's `sort.Strings`, because UTF-8 preserves code point order. */
  predicate Less(a: string, b: string)
  {
    if a == [] then b != []
    else if b == [] then false
    else a[0] < b[0] || (a[0] == b[0] && Less(a[1..], b[1..]))
  }

  lemma {:induction false} LessIrreflexive(a: string)
    ensures !Less(a, a)
  {
    if a != [] {
      LessIrreflexive(a[1..]);
    }
  }

  lemma {:induction false} LessTotal(a: string, b: string)
    requires a != b
    ensures Less(a, b) || Less(b, a)
  {
    if a != [] && b != [] && a[0] == b[0] {
      assert a == [a[0]] + a[1..] && b == [b[0]] + b[1..];
      LessTotal(a[1..], b[1..]);
    }
  }

  lemma {:induction false} LessTransitive(a: string, b: string, c: string)
    requires Less(a, b) && Less(b, c)
    ensures Less(a, c)
  {
    if a != [] && b != [] && c != [] && a[0] == b[0] == c[0] {
      LessTransitive(a[1..], b[1..], c[1..]);
    }
  }

  lemma LessAsymmetric(a: string, b: string)
    requires Less(a, b)
    ensures !Less(b, a)
  {
    if Less(b, a) {
      LessTransitive(a, b, a);
      LessIrreflexive(a);
    }
  }

  /** `m` is the least name of `s`. */
  predicate IsLeast(m: Name, s: set<Name>)
  {
    m in s && forall y :: y in s ==> !Less(y, m)
  }

  lemma {:induction false} LeastExists(s: set<Name>)
    requires s != {}
    ensures exists m :: IsLeast(m, s)
    decreases |s|
  {
    var x :| x in s;
    var rest := s - {x};
    if rest == {} {
      assert s == {x};
      LessIrreflexive(x);
      assert IsLeast(x, s);
    } else {
      LeastExists(rest);
      var m: Name :| IsLeast(m, rest);
      if Less(x, m) {
        forall y | y in s
          ensures !Less(y, x)
        {
          if y == x {
            LessIrreflexive(x);
          } else if Less(y, x) {
            LessTransitive(y, x, m);
          }
        }
        assert IsLeast(x, s);
      } else {
        assert IsLeast(m, s);
      }
    }
  }

  lemma LeastUnique(s: set<Name>)
    ensures forall m: Name, m': Name :: IsLeast(m, s) && IsLeast(m', s) ==> m == m'
  {
    forall m: Name, m': Name | IsLeast(m, s) && IsLeast(m', s)
      ensures m == m'
    {
      if m != m' {
        LessTotal(m, m');
      }
    }
  }

  /** Every element of `r` precedes every later one. */
  predicate StrictlySorted(r: seq<Name>)
  {
    forall i, j :: 0 <= i < j < |r| ==> Less(r[i], r[j])
  }

  lemma SortedDistinct(r: seq<Name>)
    requires StrictlySorted(r)
    ensures forall i, j :: 0 <= i < j < |r| ==> r[i] != r[j]
  {
    forall i, j | 0 <= i < j < |r| ensures r[i] != r[j] {
      LessIrreflexive(r[i]);
    }
  }

  /** The names of `s` in increasing order: the order in which
      `ioutil.ReadDir` and `filepath.Walk` list a directory. */
  function SortedNames(s: set<Name>): (r: seq<Name>)
    ensures StrictlySorted(r)
    ensures forall n :: n in r <==> n in s
    ensures |r| == |s|
    decreases |s|
  {
    if s == {} then []
    else
      LeastExists(s);
      LeastUnique(s);
      var m: Name :| IsLeast(m, s);
      var rest := SortedNames(s - {m});
      assert forall y :: y in s - {m} ==> Less(m, y) by {
        forall y | y in s - {m} ensures Less(m, y) {
          LessTotal(m, y);
        }
      }
      [m] + rest
  }
}
