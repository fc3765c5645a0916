/**
 * The plain-mode cases of the hdmv test suite, each a run of `Move` on the
 * small namespace the test builds: what is printed, whether it raises, and
 * what the test then lists or reads back.
 */
module MoveExamples {
  import opened Wrappers
  import opened Paths
  import opened FileSystem
  import opened MoveSpec
  import opened MoveProps

  /** -v */
  const Verbose: Settings := Settings(overlay := false, force := false, noOverwrite := false, interactive := false, verbose := true)
  /** -v -f */
  const VerboseForce: Settings := Settings(overlay := false, force := true, noOverwrite := false, interactive := false, verbose := true)
  /** -v -n */
  const VerboseKeep: Settings := Settings(overlay := false, force := false, noOverwrite := true, interactive := false, verbose := true)

  const A: Path := ["a"]
  const B: Path := ["b"]

  lemma NamesDiffer()
    ensures "a" != "b" && "bar.txt" != "foo.txt" && "a" != "bar.txt" && "b" != "bar.txt"
    ensures "c" != "a" && "c" != "b" && "c" != "bar.txt"
  {
    assert "bar.txt"[0] != "foo.txt"[0];
    assert "a"[0] != "b"[0] && "c"[0] != "a"[0] && "c"[0] != "b"[0];
  }

  /**
   * A namespace `r` that is `ns` with the tree at `s` moved to `t`: a path
   * exists in `r` exactly when it is at or below `t` and its counterpart
   * below `s` existed, or it lies outside both and existed before.
   */
  lemma MovedTreeAt(ns: Namespace, r: Namespace, s: Path, t: Path, q: Path)
    requires MovedTree(ns, r, s, t) && Disjoint(s, t)
    ensures q in r <==> (Under(t, q) && s + q[|t|..] in ns) || (!Under(s, q) && !Under(t, q) && q in ns)
    ensures Under(t, q) && s + q[|t|..] in ns ==> r[q] == ns[s + q[|t|..]]
  {
    if Under(t, q) {
      assert q == t + q[|t|..];
    } else if Under(s, q) {
      assert q == s + q[|s|..];
    } else {
      assert Unchanged(ns, r, q);
    }
  }

  // hdmv -v /a/bar.txt /a/foo.txt (spec/utils/hdmv_spec.rb:19-42)

  const OneFile: Namespace := map[[] := Dir, A := Dir, A + ["bar.txt"] := File("now is the time")]

  lemma OneFileWellFormed()
    ensures WellFormed(OneFile)
  {
    assert Parent(A) == [] && Parent(A + ["bar.txt"]) == A;
  }

  /** The move to a free name is printed, and /a then lists foo.txt alone, with the moved content. */
  lemma RenameInPlace(ask: Oracle)
    ensures var o := Move(Verbose, ask, OneFile, A + ["foo.txt"], [A + ["bar.txt"]]);
      && o.events == [Renamed(A + ["bar.txt"], A + ["foo.txt"])] && o.failure == None
      && ChildNames(o.ns, A) == {"foo.txt"}
      && o.ns[A + ["foo.txt"]] == File("now is the time")
  {
    var s, t := A + ["bar.txt"], A + ["foo.txt"];
    RenameInPlaceAccepted();
    SingleMove(Verbose, ask, OneFile, t, s);
    MoveToAbsentTarget(Verbose, ask, OneFile, t, s);
    OnlyFooAfter(OneFile, MoveToFile(Verbose, ask, OneFile, t, s).ns);
  }

  lemma RenameInPlaceAccepted()
    ensures WellFormed(OneFile) && RenameAccepted(OneFile, A + ["bar.txt"], A + ["foo.txt"])
    ensures Disjoint(A + ["bar.txt"], A + ["foo.txt"])
  {
    var s, t := A + ["bar.txt"], A + ["foo.txt"];
    NamesDiffer();
    OneFileWellFormed();
    assert s != t by {
      assert s[1] != t[1];
    }
    assert Parent(t) == A;
  }

  /** Plain mode with one source onto a path that is not a directory is mv_to_file. */
  lemma SingleMove(cfg: Settings, ask: Oracle, ns: Namespace, target: Path, source: Path)
    requires !cfg.overlay && !(target in ns && ns[target] == Dir)
    ensures Move(cfg, ask, ns, target, [source]) == MoveToFile(cfg, ask, ns, target, source)
  {
  }

  /** After /a/bar.txt moved onto /a/foo.txt, /a lists foo.txt alone, holding the content of bar.txt. */
  lemma OnlyFooAfter(ns: Namespace, r: Namespace)
    requires ns == OneFile || ns == TwoFiles
    requires MovedTree(ns, r, A + ["bar.txt"], A + ["foo.txt"])
    ensures ChildNames(r, A) == {"foo.txt"}
    ensures r[A + ["foo.txt"]] == File("now is the time")
  {
    var s, t := A + ["bar.txt"], A + ["foo.txt"];
    NamesDiffer();
    assert s != t by {
      assert s[1] != t[1];
    }
    forall n ensures A + [n] in r <==> n == "foo.txt" {
      OnlyFooAt(ns, r, n);
    }
    MovedTreeAt(ns, r, s, t, t);
    assert t[|t|..] == [] && s + [] == s;
  }

  lemma OnlyFooAt(ns: Namespace, r: Namespace, n: string)
    requires ns == OneFile || ns == TwoFiles
    requires MovedTree(ns, r, A + ["bar.txt"], A + ["foo.txt"])
    ensures A + [n] in r <==> n == "foo.txt"
  {
    var s, t, q := A + ["bar.txt"], A + ["foo.txt"], A + [n];
    NamesDiffer();
    assert s[1] != t[1];
    MovedTreeAt(ns, r, s, t, q);
    if n == "foo.txt" {
      assert q == t && q[|t|..] == [] && s + [] == s;
      assert Under(t, q);
    } else if n == "bar.txt" {
      assert q == s && Under(s, q);
      assert !Under(t, q) by {
        assert q[1] != t[1];
      }
    } else {
      assert !Under(t, q) && !Under(s, q) by {
        assert q[1] == n;
      }
      assert q != s && q != t && q != A && q != [];
      assert q !in ns;
    }
  }

  // hdmv -v -f /a/bar.txt /a/foo.txt and hdmv -v -n /a/bar.txt /a/foo.txt (spec/utils/hdmv_spec.rb:44-95)

  const TwoFiles: Namespace := map[
    [] := Dir, A := Dir,
    A + ["bar.txt"] := File("now is the time"),
    A + ["foo.txt"] := File("now is no longer the time")
  ]

  lemma TwoFilesWellFormed()
    ensures WellFormed(TwoFiles)
  {
    assert Parent(A) == [] && Parent(A + ["bar.txt"]) == A && Parent(A + ["foo.txt"]) == A;
  }

  /** With -f the target is replaced: /a lists foo.txt alone, holding the moved content, and the move is printed. */
  lemma ForcedOverwrite(ask: Oracle)
    ensures var o := Move(VerboseForce, ask, TwoFiles, A + ["foo.txt"], [A + ["bar.txt"]]);
      && o.events == [Renamed(A + ["bar.txt"], A + ["foo.txt"])] && o.failure == None
      && ChildNames(o.ns, A) == {"foo.txt"}
      && o.ns[A + ["foo.txt"]] == File("now is the time")
  {
    var s, t := A + ["bar.txt"], A + ["foo.txt"];
    RenameInPlaceAccepted();
    TwoFilesWellFormed();
    SingleMove(VerboseForce, ask, TwoFiles, t, s);
    SameTypeOverwritten(VerboseForce, ask, TwoFiles, t, s);
    OnlyFooAfter(TwoFiles, MoveToFile(VerboseForce, ask, TwoFiles, t, s).ns);
  }

  /** With -n nothing changes and nothing is printed. */
  lemma KeptWithNoOverwrite(ask: Oracle)
    ensures Move(VerboseKeep, ask, TwoFiles, A + ["foo.txt"], [A + ["bar.txt"]]) == Outcome(TwoFiles, [], None)
  {
    SameTypeKept(VerboseKeep, ask, TwoFiles, A + ["foo.txt"], A + ["bar.txt"]);
  }

  // hdmv -v /a /b with /b a directory (spec/utils/hdmv_spec.rb:169-204)

  const FileAndDir: Namespace := map[[] := Dir, A := Dir, A + ["bar.txt"] := File("now is the time"), B := Dir]

  lemma FileAndDirWellFormed()
    ensures WellFormed(FileAndDir)
  {
    assert Parent(A) == [] && Parent(B) == [] && Parent(A + ["bar.txt"]) == A;
  }

  /** The directory /a moves into /b: the move is printed, /a is gone, and /b holds /b/a and /b/a/bar.txt. */
  lemma DirectoryIntoDirectory(ask: Oracle)
    ensures var o := Move(Verbose, ask, FileAndDir, B, [A]);
      && o.events == [Renamed(A, B + A)] && o.failure == None
      && A !in o.ns
      && (forall q :: Under(B, q) ==> (q in o.ns <==> q in {B, B + A, B + A + ["bar.txt"]}))
      && B + A + ["bar.txt"] in o.ns && o.ns[B + A + ["bar.txt"]] == File("now is the time")
  {
    IntoBAccepted();
    MoveToAbsentTarget(Verbose, ask, FileAndDir, B + A, A);
    IntoDirectory(Verbose, ask, FileAndDir, B, A);
    FoundBelowB(MoveToFile(Verbose, ask, FileAndDir, B + A, A).ns);
  }

  lemma IntoBAccepted()
    ensures WellFormed(FileAndDir) && RenameAccepted(FileAndDir, A, B + A)
    ensures Destination(B, A) == B + A && Disjoint(A, B + A)
  {
    var t := B + A;
    NamesDiffer();
    FileAndDirWellFormed();
    assert Parent(t) == B;
    assert A[0] != t[0];
  }

  /** Plain mode with one source into a directory is mv_to_file onto the name inside it. */
  lemma IntoDirectory(cfg: Settings, ask: Oracle, ns: Namespace, dir: Path, source: Path)
    requires !cfg.overlay && dir in ns && ns[dir] == Dir
    ensures Move(cfg, ask, ns, dir, [source]) == MoveToFile(cfg, ask, ns, Destination(dir, source), source)
  {
    var first := MoveToFile(cfg, ask, ns, Destination(dir, source), source);
    assert [source][0] == source && [source][1..] == [];
    if first.failure.None? {
      assert MoveToDir(cfg, ask, first.ns, dir, []) == Outcome(first.ns, [], None);
      assert MoveToDir(cfg, ask, ns, dir, [source]) == Prefixed(first.events, Outcome(first.ns, [], None));
      assert first.events + [] == first.events;
    }
  }

  /** After /a moved to /b/a, /a is gone and /b holds /b/a and /b/a/bar.txt with the moved content. */
  lemma FoundBelowB(r: Namespace)
    requires MovedTree(FileAndDir, r, A, B + A)
    ensures A !in r
    ensures forall q :: Under(B, q) ==> (q in r <==> q in {B, B + A, B + A + ["bar.txt"]})
    ensures B + A + ["bar.txt"] in r && r[B + A + ["bar.txt"]] == File("now is the time")
  {
    IntoBAccepted();
    assert A + [] == A;
    forall q | Under(B, q) ensures q in r <==> q in {B, B + A, B + A + ["bar.txt"]} {
      MovedTreeAt(FileAndDir, r, A, B + A, q);
      FoundAt(q);
    }
    MovedTreeAt(FileAndDir, r, A, B + A, B + A + ["bar.txt"]);
    assert (B + A + ["bar.txt"])[2..] == ["bar.txt"];
  }

  lemma FoundAt(q: Path)
    requires Under(B, q)
    ensures (Under(B + A, q) && A + q[2..] in FileAndDir) || (!Under(A, q) && !Under(B + A, q) && q in FileAndDir)
      <==> q in {B, B + A, B + A + ["bar.txt"]}
  {
    NamesDiffer();
    assert q[0] == "b";
    assert !Under(A, q) by {
      assert q[0] != A[0];
    }
    if Under(B + A, q) {
      var y := q[2..];
      assert q == B + A + y;
      assert (A + y)[0] == "a" && (A + y)[1..] == y;
      assert q[2..] == y;
      if y == [] {
        assert A + y == A && q == B + A;
      } else if y == ["bar.txt"] {
        assert q == B + A + ["bar.txt"];
      } else {
        assert A + y != A by {
          assert |A + y| > 1;
        }
        assert A + y != A + ["bar.txt"] by {
          if |y| == 1 {
            assert (A + y)[1] == y[0];
            assert y[0] != "bar.txt";
          }
        }
        assert A + y != B;
        assert A + y != [];
        assert A + y !in FileAndDir;
        assert q != B + A + ["bar.txt"] by {
          assert (B + A + ["bar.txt"])[2..] == ["bar.txt"];
        }
      }
    } else {
      assert q != B + A && q != B + A + ["bar.txt"];
      if q != B {
        assert |q| > 1 by {
          assert q[..1] == B;
        }
        assert q !in FileAndDir by {
          assert |A + ["bar.txt"]| == 2 && (A + ["bar.txt"])[0] == "a";
        }
      }
    }
  }

  // hdmv -v /a/c /b/c with /a/c a directory and /b/c a file (spec/utils/hdmv_spec.rb:271-288)

  const DirAndFile: Namespace := map[
    [] := Dir, A := Dir, A + ["c"] := Dir, A + ["c", "bar.txt"] := File("now is the time"),
    B := Dir, B + ["c"] := File("now is the time to create file")
  ]

  /** A directory onto a file: one conflict is printed, naming both paths and kinds, and nothing changes. */
  lemma DirectoryOntoFile(ask: Oracle)
    ensures Move(Verbose, ask, DirAndFile, B + ["c"], [A + ["c"]])
      == Outcome(DirAndFile, [Conflict(A + ["c"], DIRECTORY, B + ["c"], FILE)], None)
  {
    NamesDiffer();
    assert (B + ["c"])[0] != (A + ["c"])[0];
    TypeConflict(Verbose, ask, DirAndFile, B + ["c"], A + ["c"]);
  }
}
