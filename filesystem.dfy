/**
 * The remote HDFS namespace as a value: which paths exist and what each one
 * names, with the effect of the WebHDFS calls the move engine makes
 * (GETFILESTATUS, LISTSTATUS, DELETE, RENAME) stated as functions on it.
 */
module FileSystem {
  import opened Wrappers
  import opened Paths

  /** What a path names: a file with its content, or a directory. */
  datatype Node = File(content: string) | Dir

  /** The 'type' field of a file status. */
  datatype Kind = FILE | DIRECTORY

  function KindOf(n: Node): Kind {
    if n.File? then FILE else DIRECTORY
  }

  /** Every existing path and what it names. */
  type Namespace = map<Path, Node>

  predicate ParentIsDir(ns: Namespace, p: Path)
    requires p != []
  {
    Parent(p) in ns && ns[Parent(p)] == Dir
  }

  /** The root is a directory and every other path hangs off an existing directory. */
  ghost predicate WellFormed(ns: Namespace) {
    && [] in ns && ns[[]] == Dir
    && forall p {:trigger ParentIsDir(ns, p)} :: p in ns && p != [] ==> ParentIsDir(ns, p)
  }

  /** Everything above an existing path exists and is a directory. */
  lemma {:induction false} Ancestors(ns: Namespace, p: Path, q: Path)
    requires WellFormed(ns) && q in ns && Under(p, q)
    ensures p in ns && (p != q ==> ns[p] == Dir)
    decreases |q|
  {
    if p != q {
      assert ParentIsDir(ns, q);
      assert Under(p, Parent(q)) by {
        assert Parent(q)[..|p|] == q[..|p|];
      }
      if p != Parent(q) {
        Ancestors(ns, p, Parent(q));
      }
    }
  }

  /** Nothing exists below a missing path or below a file. */
  lemma NothingBelow(ns: Namespace, p: Path, q: Path)
    requires WellFormed(ns) && Under(p, q) && p != q
    requires p !in ns || ns[p].File?
    ensures q !in ns
  {
    if q in ns {
      Ancestors(ns, p, q);
    }
  }

  /** Nothing exists at or below a missing path. */
  lemma AbsentSubtree(ns: Namespace, p: Path)
    requires WellFormed(ns) && p !in ns
    ensures forall q :: Under(p, q) ==> q !in ns
  {
    forall q | Under(p, q) ensures q !in ns {
      if q != p {
        NothingBelow(ns, p, q);
      }
    }
  }

  /** One entry of a directory listing: its 'pathSuffix' and 'type'. */
  datatype Entry = Entry(name: Name, kind: Kind)

  /** The names of the immediate children of `p`. */
  function ChildNames(ns: Namespace, p: Path): (r: set<Name>)
    ensures forall n :: n in r <==> p + [n] in ns
  {
    var r := set q | q in ns && |q| == |p| + 1 && q[..|p|] == p :: q[|p|];
    assert forall n :: p + [n] in ns ==> n in r by {
      forall n | p + [n] in ns ensures n in r {
        var q := p + [n];
        assert q[..|p|] == p && q[|p|] == n;
      }
    }
    assert forall n :: n in r ==> p + [n] in ns by {
      forall n | n in r ensures p + [n] in ns {
        var q :| q in ns && |q| == |p| + 1 && q[..|p|] == p && q[|p|] == n;
        assert q == p + [n];
      }
    }
    r
  }

  function EntryNames(es: seq<Entry>): set<Name> {
    set e | e in es :: e.name
  }

  /** The entries for the children of `p` named `names`, in that order. */
  function EntriesOf(ns: Namespace, p: Path, names: seq<Name>): (r: seq<Entry>)
    requires forall i :: 0 <= i < |names| ==> p + [names[i]] in ns
    ensures |r| == |names|
    ensures forall i :: 0 <= i < |r| ==> r[i].name == names[i] && r[i].kind == KindOf(ns[p + [names[i]]])
  {
    if names == [] then []
    else [Entry(names[0], KindOf(ns[p + [names[0]]]))] + EntriesOf(ns, p, names[1..])
  }

  /** The entries for a list of names are those names, with their kinds. */
  lemma EntriesOfNames(ns: Namespace, p: Path, names: seq<Name>, children: set<Name>)
    requires forall i :: 0 <= i < |names| ==> names[i] in children
    requires forall n :: n in children ==> n in names
    requires forall n :: n in children <==> p + [n] in ns
    ensures EntryNames(EntriesOf(ns, p, names)) == children
    ensures forall e :: e in EntriesOf(ns, p, names) ==> p + [e.name] in ns && e.kind == KindOf(ns[p + [e.name]])
  {
    var r := EntriesOf(ns, p, names);
    forall n | n in children ensures n in EntryNames(r) {
      var i :| 0 <= i < |names| && names[i] == n;
      assert r[i] in r;
    }
    forall e | e in r ensures e.name in children && p + [e.name] in ns && e.kind == KindOf(ns[p + [e.name]]) {
      var i :| 0 <= i < |r| && r[i] == e;
    }
  }

  /**
   * list?: the children of `p`, each once, in ascending name order (the order
   * in which a NameNode lists a directory), each with its kind at the time of
   * the call.
   */
  function Listing(ns: Namespace, p: Path): (r: seq<Entry>)
    ensures EntryNames(r) == ChildNames(ns, p)
    ensures forall e :: e in r ==> p + [e.name] in ns && e.kind == KindOf(ns[p + [e.name]])
    ensures forall i, j :: 0 <= i < j < |r| ==> r[i].name != r[j].name && NameLe(r[i].name, r[j].name)
  {
    var children := ChildNames(ns, p);
    var names := SortedNames(children);
    EntriesOfNames(ns, p, names, children);
    EntriesOf(ns, p, names)
  }

  /**
   * DELETE (recursive): `p` and everything below it disappear. The NameNode
   * refuses to delete the root, and deleting a missing path changes nothing.
   */
  function AfterDelete(ns: Namespace, p: Path): (r: Namespace)
    ensures forall q :: q in r ==> q in ns && r[q] == ns[q]
    ensures forall q :: q in ns && !Under(p, q) ==> q in r
    ensures p != [] ==> forall q :: Under(p, q) ==> q !in r
  {
    if p == [] then ns else map q | q in ns && !Under(p, q) :: ns[q]
  }

  lemma DeleteWellFormed(ns: Namespace, p: Path)
    requires WellFormed(ns)
    ensures WellFormed(AfterDelete(ns, p))
  {
    var r := AfterDelete(ns, p);
    forall q | q in r && q != [] ensures ParentIsDir(r, q) {
      assert ParentIsDir(ns, q);
      assert Under(Parent(q), q);
      UnderTransitive(p, Parent(q), q);
    }
  }

  /**
   * The conditions under which the NameNode carries out RENAME of `s` to `t`:
   * the source exists and is not the root, the target does not exist, its
   * parent is an existing directory, and it is not inside the source.
   */
  predicate RenameAccepted(ns: Namespace, s: Path, t: Path) {
    && s in ns && s != []
    && t != [] && t !in ns
    && Parent(t) in ns && ns[Parent(t)] == Dir
    && !Under(s, t)
  }

  /** Re-rooting is one-to-one, so the renamed subtree has no collisions. */
  lemma RebaseInjective(s: Path, t: Path)
    ensures forall q, q' :: Under(s, q) && Under(s, q') && Rebase(q, s, t) == Rebase(q', s, t) ==> q == q'
  {
    forall q, q' | Under(s, q) && Under(s, q') && Rebase(q, s, t) == Rebase(q', s, t) ensures q == q' {
      assert q[|s|..] == Rebase(q, s, t)[|t|..] == q'[|s|..];
      assert q == s + q[|s|..];
      assert q' == s + q'[|s|..];
    }
  }

  /**
   * RENAME: the subtree at `s` re-rooted at `t`. A rename the NameNode refuses
   * leaves the namespace as it was.
   */
  function AfterRename(ns: Namespace, s: Path, t: Path): (r: Namespace)
    ensures forall q :: q in r && !Under(t, q) ==> q in ns && r[q] == ns[q]
    ensures forall q :: q in ns && !Under(s, q) ==> q in r && r[q] == ns[q]
  {
    if RenameAccepted(ns, s, t) then
      Graft(ns, s, t) + AfterDelete(ns, s)
    else
      ns
  }

  /** The subtree at `s`, re-rooted at `t`. */
  function Graft(ns: Namespace, s: Path, t: Path): (m: Namespace)
    ensures forall q :: q in ns && Under(s, q) ==> Rebase(q, s, t) in m && m[Rebase(q, s, t)] == ns[q]
    ensures forall k :: k in m ==> Under(t, k) && Rebase(k, t, s) in ns && Under(s, Rebase(k, t, s))
  {
    RebaseInjective(s, t);
    var m := map q | q in ns && Under(s, q) :: Rebase(q, s, t) := ns[q];
    assert forall k :: k in m ==> Under(t, k) && Rebase(k, t, s) in ns && Under(s, Rebase(k, t, s)) by {
      forall k | k in m ensures Under(t, k) && Rebase(k, t, s) in ns && Under(s, Rebase(k, t, s)) {
        var q :| q in ns && Under(s, q) && Rebase(q, s, t) == k;
        assert k[..|t|] == t;
        assert Rebase(k, t, s) == q;
      }
    }
    m
  }

  lemma RenameMovesAt(ns: Namespace, s: Path, t: Path, x: Path)
    requires WellFormed(ns) && RenameAccepted(ns, s, t)
    ensures var r := AfterRename(ns, s, t);
      && (t + x in r <==> s + x in ns)
      && (s + x in ns ==> r[t + x] == ns[s + x])
      && s + x !in r
  {
    var r, g, d := AfterRename(ns, s, t), Graft(ns, s, t), AfterDelete(ns, s);
    assert r == g + d;
    assert Under(s, s + x) && Rebase(s + x, s, t) == t + x;
    assert Under(t, t + x) && Rebase(t + x, t, s) == s + x;
    assert t + x !in ns by {
      if x != [] {
        NothingBelow(ns, t, t + x);
      } else {
        assert t + x == t;
      }
    }
    assert s + x !in g by {
      UnderComparable(s, t, s + x);
      if Under(t, s) {
        Ancestors(ns, t, s);
      }
    }
  }

  /**
   * After an accepted rename, `t` and what lies below it are exactly what `s`
   * and what lay below it were, and nothing remains at or below `s`.
   */
  lemma RenameMoves(ns: Namespace, s: Path, t: Path)
    requires WellFormed(ns) && RenameAccepted(ns, s, t)
    ensures var r := AfterRename(ns, s, t);
      && (forall x :: t + x in r <==> s + x in ns)
      && (forall x :: s + x in ns ==> r[t + x] == ns[s + x])
      && (forall x :: s + x !in r)
  {
    forall x {
      RenameMovesAt(ns, s, t, x);
    }
  }

  /** A path that a rename brought in hangs off a directory. */
  lemma RenamedParentIsDir(ns: Namespace, s: Path, t: Path, x: Path)
    requires WellFormed(ns) && RenameAccepted(ns, s, t) && s + x in ns
    ensures ParentIsDir(AfterRename(ns, s, t), t + x)
  {
    var r := AfterRename(ns, s, t);
    RenameMovesAt(ns, s, t, x);
    if x == [] {
      assert t + x == t;
      assert Under(Parent(t), t);
      UnderTransitive(s, Parent(t), t);
    } else {
      assert ParentIsDir(ns, s + x);
      assert Parent(t + x) == t + Parent(x);
      assert Parent(s + x) == s + Parent(x);
      RenameMovesAt(ns, s, t, Parent(x));
    }
  }

  /** A path that a rename left in place still hangs off a directory. */
  lemma KeptParentIsDir(ns: Namespace, s: Path, t: Path, q: Path)
    requires WellFormed(ns) && RenameAccepted(ns, s, t)
    requires q in AfterRename(ns, s, t) && q != [] && !Under(t, q)
    ensures ParentIsDir(AfterRename(ns, s, t), q)
  {
    assert ParentIsDir(ns, q);
    assert Under(Parent(q), q);
    UnderTransitive(s, Parent(q), q);
    UnderTransitive(t, Parent(q), q);
  }

  lemma RenameWellFormed(ns: Namespace, s: Path, t: Path)
    requires WellFormed(ns)
    ensures WellFormed(AfterRename(ns, s, t))
  {
    var r := AfterRename(ns, s, t);
    if RenameAccepted(ns, s, t) {
      forall q | q in r && q != [] ensures ParentIsDir(r, q) {
        if Under(t, q) {
          var x := q[|t|..];
          assert q == t + x;
          RenameMovesAt(ns, s, t, x);
          RenamedParentIsDir(ns, s, t, x);
        } else {
          KeptParentIsDir(ns, s, t, q);
        }
      }
      RenameMovesAt(ns, s, t, []);
      assert t + [] == t;
    }
  }
}
