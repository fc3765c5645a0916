/**
 * The overlay case of the hdmv test suite: `hdmv --overlay /source /target`
 * on two small trees prints nothing and leaves under /target the union of
 * the two trees.
 */
module OverlayExample {
  import opened Wrappers
  import opened Paths
  import opened FileSystem
  import opened MoveSpec
  import opened OverlayProps

  const Source: Path := ["source"]
  const Target: Path := ["target"]

  /** The paths below /source, relative to it. */
  const SourceTree: set<Path> := {[], ["a"], ["a", "b"], ["a", "b", "bar.txt"], ["a", "b", "foo.txt"], ["a", "c"], ["a", "c", "baz.txt"]}

  /** The paths below /target, relative to it. */
  const TargetTree: set<Path> := {[], ["a"], ["a", "b"], ["a", "b", "baz.txt"], ["a", "d"], ["a", "d", "fizz.txt"]}

  function SourceNode(x: Path): Node {
    if x == ["a", "b", "bar.txt"] then File("now is the time")
    else if x == ["a", "b", "foo.txt"] then File("now is not the time")
    else if x == ["a", "c", "baz.txt"] then File("this is another time")
    else Dir
  }

  function TargetNode(x: Path): Node {
    if x == ["a", "b", "baz.txt"] || x == ["a", "d", "fizz.txt"] then File("blah blah blah") else Dir
  }

  /** The namespace the test starts from: the root, and /source and /target with their trees. */
  const Before: Namespace := map[
    [] := Dir,
    Source + [] := Dir,
    Source + ["a"] := Dir,
    Source + ["a", "b"] := Dir,
    Source + ["a", "b", "bar.txt"] := File("now is the time"),
    Source + ["a", "b", "foo.txt"] := File("now is not the time"),
    Source + ["a", "c"] := Dir,
    Source + ["a", "c", "baz.txt"] := File("this is another time"),
    Target + [] := Dir,
    Target + ["a"] := Dir,
    Target + ["a", "b"] := Dir,
    Target + ["a", "b", "baz.txt"] := File("blah blah blah"),
    Target + ["a", "d"] := Dir,
    Target + ["a", "d", "fizz.txt"] := File("blah blah blah")
  ]

  /** What `hdfind /target` lists afterwards, relative to /target. */
  const Found: set<Path> := {
    [], ["a"], ["a", "b"], ["a", "b", "bar.txt"], ["a", "b", "baz.txt"], ["a", "b", "foo.txt"],
    ["a", "c"], ["a", "c", "baz.txt"], ["a", "d"], ["a", "d", "fizz.txt"]
  }

  /** The names of the test that differ only inside. */
  lemma NamesDiffer()
    ensures "source" != "target" && "bar.txt" != "baz.txt"
  {
    assert "source"[0] != "target"[0];
    assert "bar.txt"[2] != "baz.txt"[2];
  }

  /** Below /source, `Before` holds exactly the source tree. */
  lemma SourceTreeIs(x: Path)
    ensures Source + x in Before <==> x in SourceTree
    ensures x in SourceTree ==> Before[Source + x] == SourceNode(x)
  {
    NamesDiffer();
    var k := Source + x;
    assert k[0] == "source" && x == k[|Source|..];
    if k in Before {
      forall y ensures k == Source + y ==> x == y {
        assert (Source + y)[|Source|..] == y;
      }
      forall y ensures k != Target + y {
        assert (Target + y)[0] == "target";
      }
    }
  }

  /** Below /target, `Before` holds exactly the target tree. */
  lemma TargetTreeIs(x: Path)
    ensures Target + x in Before <==> x in TargetTree
    ensures x in TargetTree ==> Before[Target + x] == TargetNode(x)
  {
    NamesDiffer();
    var k := Target + x;
    assert k[0] == "target" && x == k[|Target|..];
    if k in Before {
      forall y ensures k == Target + y ==> x == y {
        assert (Target + y)[|Target|..] == y;
      }
      forall y ensures k != Source + y {
        assert (Source + y)[0] == "source";
      }
    }
  }

  /** A relative path of one of the trees hangs off a directory of the same tree. */
  lemma TreesClosed()
    ensures forall x :: x in SourceTree && x != [] ==> Parent(x) in SourceTree && SourceNode(Parent(x)) == Dir
    ensures forall x :: x in TargetTree && x != [] ==> Parent(x) in TargetTree && TargetNode(Parent(x)) == Dir
  {
    NamesDiffer();
    assert Parent(["a"]) == [];
    assert Parent(["a", "b"]) == ["a"] && Parent(["a", "c"]) == ["a"] && Parent(["a", "d"]) == ["a"];
    assert Parent(["a", "b", "bar.txt"]) == ["a", "b"] && Parent(["a", "b", "foo.txt"]) == ["a", "b"];
    assert Parent(["a", "b", "baz.txt"]) == ["a", "b"] && Parent(["a", "c", "baz.txt"]) == ["a", "c"];
    assert Parent(["a", "d", "fizz.txt"]) == ["a", "d"];
  }

  lemma ParentOfJoin(p: Path, x: Path)
    requires x != []
    ensures Parent(p + x) == p + Parent(x)
  {
    assert (p + x)[..|p + x| - 1] == p + x[..|x| - 1];
  }

  lemma SourceHangs(x: Path)
    requires x in SourceTree
    ensures ParentIsDir(Before, Source + x)
  {
    TreesClosed();
    if x == [] {
      assert Parent(Source + x) == [];
    } else {
      ParentOfJoin(Source, x);
      SourceTreeIs(Parent(x));
    }
  }

  lemma TargetHangs(x: Path)
    requires x in TargetTree
    ensures ParentIsDir(Before, Target + x)
  {
    TreesClosed();
    if x == [] {
      assert Parent(Target + x) == [];
    } else {
      ParentOfJoin(Target, x);
      TargetTreeIs(Parent(x));
    }
  }

  /** The namespace of the test is a tree. */
  lemma BeforeWellFormed()
    ensures WellFormed(Before)
  {
    forall p | p in Before && p != [] ensures ParentIsDir(Before, p) {
      var x := p[1..];
      if p[0] == "source" {
        assert p == Source + x;
        SourceTreeIs(x);
        SourceHangs(x);
      } else {
        assert p == Target + x;
        TargetTreeIs(x);
        TargetHangs(x);
      }
    }
  }

  /** /source and /target are apart. */
  lemma TestPathsApart()
    ensures Disjoint(Target, Source)
  {
    NamesDiffer();
    assert Source[..1] == Source && Target[..1] == Target;
    assert Source[0] != Target[0];
  }

  /** The two trees meet only at directories. */
  lemma NoClashInTest()
    ensures NoClash(Before, Target, Source)
  {
    NamesDiffer();
    forall x ensures !ClashAt(Before, Target, Source, x) {
      SourceTreeIs(x);
      TargetTreeIs(x);
    }
  }

  /** The flags of the test: --overlay alone. */
  const Flags: Settings := Settings(overlay := true, force := false, noOverwrite := false, interactive := false, verbose := false)

  /** The run of the test merges the two trees, prints nothing and raises nothing. */
  lemma TestRunMerges(ask: Oracle)
    ensures Disjoint(Target, Source) && var o := Move(Flags, ask, Before, Target, [Source]);
      o.failure == None && o.events == [] && Merged(Flags, ask, Before, o.ns, Target, Source)
  {
    TestPathsApart();
    BeforeWellFormed();
    SourceTreeIs([]);
    TargetTreeIs([]);
    assert Source + [] == Source && Target + [] == Target;
    NoClashInTest();
    OverlayMoveMerges(Flags, ask, Before, Target, Source);
    SingleOverlay(Flags, ask, Before, Target, Source);
    SilentWithoutVerbose(Flags, ask, Before, Target, Source);
  }

  /**
   * hdmv --overlay /source /target, without -v: nothing is printed, nothing
   * raises, and /target then holds exactly the paths the test finds there,
   * the files moved in with their contents.
   */
  lemma OverlayTestCase(ask: Oracle)
    ensures Disjoint(Target, Source) && var o := Move(Flags, ask, Before, Target, [Source]);
      && o.failure == None && o.events == []
      && (forall x :: Target + x in o.ns <==> x in Found)
      && o.ns[Target + ["a", "b", "bar.txt"]] == File("now is the time")
      && o.ns[Target + ["a", "b", "baz.txt"]] == File("blah blah blah")
  {
    TestRunMerges(ask);
    var o := Move(Flags, ask, Before, Target, [Source]);
    forall x ensures Target + x in o.ns <==> x in Found {
      FoundAt(ask, o.ns, x);
    }
    MovedInFiles(ask, o.ns);
  }

  /** A merged namespace has a path below /target exactly where the test finds one. */
  lemma FoundAt(ask: Oracle, r: Namespace, x: Path)
    requires Merged(Flags, ask, Before, r, Target, Source)
    ensures Target + x in r <==> x in Found
  {
    assert MergedAt(Flags, ask, Before, r, Target, Source, x);
    assert Found == SourceTree + TargetTree;
    SourceTreeIs(x);
    TargetTreeIs(x);
  }

  /** In a merged namespace, /target/a/b holds the file moved in from /source and the one it had. */
  lemma MovedInFiles(ask: Oracle, r: Namespace)
    requires Merged(Flags, ask, Before, r, Target, Source)
    ensures Target + ["a", "b", "bar.txt"] in r && r[Target + ["a", "b", "bar.txt"]] == File("now is the time")
    ensures Target + ["a", "b", "baz.txt"] in r && r[Target + ["a", "b", "baz.txt"]] == File("blah blah blah")
  {
    NamesDiffer();
    var moved, kept := ["a", "b", "bar.txt"], ["a", "b", "baz.txt"];
    assert MergedAt(Flags, ask, Before, r, Target, Source, moved);
    assert MergedAt(Flags, ask, Before, r, Target, Source, kept);
    SourceTreeIs(moved);
    TargetTreeIs(moved);
    SourceTreeIs(kept);
    TargetTreeIs(kept);
  }
}
