/** Small helper datatypes shared by the other modules. */
module Wrappers {
  datatype Option<+T> = None | Some(value: T)
}

/**
 * Paths of the remote filesystem, kept as their components: "/a/bar.txt" is
 * ["a", "bar.txt"] and "/" is []. Joining a directory and a name
 * ("#{dir}/#{name}") is `dir + [name]`.
 */
module Paths {

  type Name = string
  type Path = seq<Name>

  /** `q` is `p` itself or lies somewhere below `p`. */
  predicate Under(p: Path, q: Path) {
    |p| <= |q| && q[..|p|] == p
  }

  /** `q` lies strictly below `p`. */
  predicate Below(p: Path, q: Path) {
    Under(p, q) && p != q
  }

  /** Neither path lies inside the other. */
  predicate Disjoint(p: Path, q: Path) {
    !Under(p, q) && !Under(q, p)
  }

  function Parent(p: Path): Path
    requires p != []
  {
    p[..|p| - 1]
  }

  /** `q` (below `from`) moved to the same place below `to`. */
  function Rebase(q: Path, from: Path, to: Path): Path
    requires Under(from, q)
  {
    to + q[|from|..]
  }

  /**
   * "#{dir}/#{File.basename(source)}": the last component of `source` joined to
   * `dir`. The basename of "/" is "/" and "dir//" names `dir` itself.
   */
  function Destination(dir: Path, source: Path): Path {
    if source == [] then dir else dir + [source[|source| - 1]]
  }

  lemma UnderTransitive(p: Path, q: Path, r: Path)
    ensures Under(p, q) && Under(q, r) ==> Under(p, r)
  {
    if Under(p, q) && Under(q, r) {
      assert r[..|q|][..|p|] == r[..|p|];
    }
  }

  /** Two ancestors of one path are themselves ordered. */
  lemma UnderComparable(p: Path, q: Path, r: Path)
    ensures Under(p, r) && Under(q, r) ==> Under(p, q) || Under(q, p)
  {
    if Under(p, r) && Under(q, r) {
      if |p| <= |q| {
        assert q[..|p|] == r[..|q|][..|p|];
      } else {
        assert p[..|q|] == r[..|p|][..|q|];
      }
    }
  }

  /** Dropping the same last name from both sides keeps the order. */
  lemma UnderChild(p: Path, q: Path, n: Name)
    ensures Under(p + [n], q + [n]) ==> Under(p, q)
  {
    if Under(p + [n], q + [n]) {
      assert q[..|p|] == (q + [n])[..|p| + 1][..|p|];
    }
  }

  /** Going one level down on both sides keeps two paths apart. */
  lemma ChildrenDisjoint(p: Path, q: Path, n: Name)
    ensures Disjoint(p, q) ==> Disjoint(p + [n], q + [n])
  {
    UnderChild(p, q, n);
    UnderChild(q, p, n);
  }

  /** Nothing below `q` lies below a child of `p` when `p` and `q` are apart. */
  lemma ChildApart(p: Path, q: Path, n: Name, r: Path)
    ensures Disjoint(p, q) && Under(q, r) ==> !Under(p + [n], r)
  {
    assert Under(p, p + [n]);
    UnderTransitive(p, p + [n], r);
    UnderComparable(p, q, r);
  }

  /** Nothing below `q` contains `p` when the two are apart. */
  lemma DisjointBelow(p: Path, q: Path, x: Path)
    ensures Disjoint(p, q) ==> !Under(p, q + x)
  {
    assert Under(q, q + x);
    UnderComparable(p, q, q + x);
  }

  /** A proper ancestor of `q + [n]` is an ancestor of `q`. */
  lemma UnderParent(p: Path, q: Path, n: Name)
    ensures Under(p, q + [n]) && p != q + [n] ==> Under(p, q)
  {
    if Under(p, q + [n]) && |p| <= |q| {
      assert q[..|p|] == (q + [n])[..|p|];
    }
  }

  /** Two different children of one directory are apart. */
  lemma SiblingsDisjoint(q: Path, n: Name, m: Name)
    ensures n != m ==> Disjoint(q + [n], q + [m])
  {
    assert (q + [n])[|q|] == n && (q + [m])[|q|] == m;
    assert (q + [n])[..|q| + 1] == q + [n];
    assert (q + [m])[..|q| + 1] == q + [m];
  }

  // Names are listed in the order an HDFS NameNode keeps a directory's
  // children: lexicographic, character by character.

  predicate NameLe(a: Name, b: Name) {
    a == [] || (b != [] && (a[0] < b[0] || (a[0] == b[0] && NameLe(a[1..], b[1..]))))
  }

  lemma {:induction false} NameLeReflexive(a: Name)
    ensures NameLe(a, a)
  {
    if a != [] {
      NameLeReflexive(a[1..]);
    }
  }

  lemma {:induction false} NameLeTotal(a: Name, b: Name)
    ensures NameLe(a, b) || NameLe(b, a)
  {
    if a != [] && b != [] && a[0] == b[0] {
      NameLeTotal(a[1..], b[1..]);
    }
  }

  lemma {:induction false} NameLeAntisymmetric(a: Name, b: Name)
    requires NameLe(a, b) && NameLe(b, a)
    ensures a == b
  {
    if a != [] && b != [] {
      NameLeAntisymmetric(a[1..], b[1..]);
      assert a == [a[0]] + a[1..];
      assert b == [b[0]] + b[1..];
    }
  }

  lemma {:induction false} NameLeTransitive(a: Name, b: Name, c: Name)
    requires NameLe(a, b) && NameLe(b, c)
    ensures NameLe(a, c)
  {
    if a != [] && b != [] && c != [] && a[0] == b[0] == c[0] {
      NameLeTransitive(a[1..], b[1..], c[1..]);
    }
  }

  predicate IsLeast(m: Name, s: set<Name>) {
    m in s && forall y :: y in s ==> NameLe(m, y)
  }

  lemma {:induction false} LeastExists(s: set<Name>)
    requires s != {}
    ensures exists m :: IsLeast(m, s)
    decreases |s|
  {
    var x :| x in s;
    if s != {x} {
      LeastExists(s - {x});
      var m :| IsLeast(m, s - {x});
      NameLeTotal(x, m);
      if NameLe(x, m) {
        forall y | y in s ensures NameLe(x, y) {
          if y == x { NameLeReflexive(x); } else { NameLeTransitive(x, m, y); }
        }
        assert IsLeast(x, s);
      } else {
        assert IsLeast(m, s);
      }
    } else {
      NameLeReflexive(x);
      assert IsLeast(x, s);
    }
  }

  lemma LeastUnique(s: set<Name>)
    ensures forall m, m' :: IsLeast(m, s) && IsLeast(m', s) ==> m == m'
  {
    forall m, m' | IsLeast(m, s) && IsLeast(m', s) ensures m == m' {
      NameLeAntisymmetric(m, m');
    }
  }

  /** The names of `s`, each once, in ascending order. */
  function SortedNames(s: set<Name>): (r: seq<Name>)
    ensures |r| == |s|
    ensures forall i :: 0 <= i < |r| ==> r[i] in s
    ensures forall n :: n in s ==> n in r
    ensures forall i, j :: 0 <= i < j < |r| ==> r[i] != r[j] && NameLe(r[i], r[j])
    decreases |s|
  {
    if s == {} then []
    else
      LeastExists(s);
      LeastUnique(s);
      var m :| IsLeast(m, s);
      [m] + SortedNames(s - {m})
  }
}
