/**
 * What mv_to_dir promises when it can do its job: every source, in input
 * order, ends up under the directory at its basename, each move is printed
 * under -v, and nothing else in the namespace changes.
 */
module MoveToDirProps {
  import opened Wrappers
  import opened Paths
  import opened FileSystem
  import opened MoveSpec
  import opened MoveProps

  /**
   * The sources exist, none of them is the directory or lies above it, no
   * destination exists yet, and the sources are apart with distinct basenames.
   */
  ghost predicate FanOutReady(ns: Namespace, dir: Path, sources: seq<Path>) {
    && WellFormed(ns) && dir in ns && ns[dir] == Dir
    && (forall i :: 0 <= i < |sources| ==>
          sources[i] in ns && !Under(sources[i], dir) && Destination(dir, sources[i]) !in ns)
    && (forall i, j :: 0 <= i < j < |sources| ==>
          Disjoint(sources[i], sources[j]) && Destination(dir, sources[i]) != Destination(dir, sources[j]))
  }

  /** The lines -v prints for the sources moved in order. */
  function RenamedEach(dir: Path, sources: seq<Path>): (r: seq<Event>)
    ensures |r| == |sources|
    ensures forall i :: 0 <= i < |r| ==> r[i] == Renamed(sources[i], Destination(dir, sources[i]))
  {
    if sources == [] then [] else [Renamed(sources[0], Destination(dir, sources[0]))] + RenamedEach(dir, sources[1..])
  }

  /** Sources and destinations never contain one another. */
  lemma FanOutApart(ns: Namespace, dir: Path, sources: seq<Path>)
    requires FanOutReady(ns, dir, sources)
    ensures forall i, j :: 0 <= i < |sources| && 0 <= j < |sources| ==>
      Disjoint(sources[i], Destination(dir, sources[j]))
    ensures forall i, j :: 0 <= i < j < |sources| ==>
      Disjoint(Destination(dir, sources[i]), Destination(dir, sources[j]))
  {
    forall i, j | 0 <= i < |sources| && 0 <= j < |sources|
      ensures Disjoint(sources[i], Destination(dir, sources[j]))
    {
      var s, d := sources[i], Destination(dir, sources[j]);
      assert sources[j] != [] by {
        assert Under([], dir);
      }
      AbsentSubtree(ns, d);
      UnderParent(s, dir, sources[j][|sources[j]| - 1]);
    }
    forall i, j | 0 <= i < j < |sources|
      ensures Disjoint(Destination(dir, sources[i]), Destination(dir, sources[j]))
    {
      assert sources[i] != [] && sources[j] != [] by {
        assert Under([], dir);
      }
      SiblingsDisjoint(dir, sources[i][|sources[i]| - 1], sources[j][|sources[j]| - 1]);
    }
  }

  /** `q` lies outside every source and every destination. */
  ghost predicate Untouched(dir: Path, sources: seq<Path>, q: Path) {
    forall i :: 0 <= i < |sources| ==> !Under(sources[i], q) && !Under(Destination(dir, sources[i]), q)
  }

  /**
   * `r` is `ns` with each source tree re-rooted at its destination and
   * everything outside the sources and destinations unchanged.
   */
  ghost predicate FannedOut(ns: Namespace, r: Namespace, dir: Path, sources: seq<Path>) {
    && (forall i, x :: 0 <= i < |sources| ==> (Destination(dir, sources[i]) + x in r <==> sources[i] + x in ns))
    && (forall i, x :: 0 <= i < |sources| && sources[i] + x in ns ==>
          r[Destination(dir, sources[i]) + x] == ns[sources[i] + x])
    && (forall i, x :: 0 <= i < |sources| ==> sources[i] + x !in r)
    && (forall q :: Untouched(dir, sources, q) ==> Unchanged(ns, r, q))
  }

  /** A path below something apart from every later source and destination is untouched by them. */
  lemma UntouchedBelow(ns: Namespace, dir: Path, sources: seq<Path>, p: Path, x: Path)
    requires forall j :: 0 <= j < |sources| ==> Disjoint(sources[j], p) && Disjoint(Destination(dir, sources[j]), p)
    ensures Untouched(dir, sources, p + x)
  {
    forall j | 0 <= j < |sources|
      ensures !Under(sources[j], p + x) && !Under(Destination(dir, sources[j]), p + x)
    {
      DisjointBelow(sources[j], p, x);
      DisjointBelow(Destination(dir, sources[j]), p, x);
    }
  }

  /** The first source can be renamed onto its destination. */
  lemma FirstRenameAccepted(ns: Namespace, dir: Path, sources: seq<Path>)
    requires FanOutReady(ns, dir, sources) && |sources| > 0
    ensures RenameAccepted(ns, sources[0], Destination(dir, sources[0]))
  {
    var s0 := sources[0];
    var d0 := Destination(dir, s0);
    FanOutApart(ns, dir, sources);
    assert s0 != [] by {
      assert Under([], dir);
    }
    assert Parent(d0) == dir;
    assert Disjoint(s0, d0);
  }

  /** After the first source tree is moved, the rest are still ready to go. */
  lemma ReadyAfterFirst(ns: Namespace, ns1: Namespace, dir: Path, sources: seq<Path>)
    requires FanOutReady(ns, dir, sources) && |sources| > 0 && WellFormed(ns1)
    requires MovedTree(ns, ns1, sources[0], Destination(dir, sources[0]))
    ensures FanOutReady(ns1, dir, sources[1..])
  {
    var s0, rest := sources[0], sources[1..];
    var d0 := Destination(dir, s0);
    FanOutApart(ns, dir, sources);
    assert !Under(d0, dir);
    assert Unchanged(ns, ns1, dir);
    forall i | 0 <= i < |rest|
      ensures rest[i] in ns1 && Destination(dir, rest[i]) !in ns1
    {
      assert rest[i] == sources[i + 1];
      assert Unchanged(ns, ns1, rest[i]);
      assert Unchanged(ns, ns1, Destination(dir, rest[i]));
    }
  }

  /** Moving the first source tree, then fanning out the rest, fans out them all. */
  lemma FannedOutAfterFirst(ns: Namespace, ns1: Namespace, r: Namespace, dir: Path, sources: seq<Path>)
    requires FanOutReady(ns, dir, sources) && |sources| > 0
    requires MovedTree(ns, ns1, sources[0], Destination(dir, sources[0]))
    requires FannedOut(ns1, r, dir, sources[1..])
    ensures FannedOut(ns, r, dir, sources)
  {
    var s0, rest := sources[0], sources[1..];
    var d0 := Destination(dir, s0);
    FanOutApart(ns, dir, sources);
    assert forall j :: 0 <= j < |rest| ==> rest[j] == sources[j + 1];
    forall x ensures (d0 + x in r <==> s0 + x in ns) && (s0 + x in ns ==> r[d0 + x] == ns[s0 + x]) && s0 + x !in r {
      UntouchedBelow(ns, dir, rest, d0, x);
      UntouchedBelow(ns, dir, rest, s0, x);
    }
    forall i, x | 1 <= i < |sources|
      ensures (Destination(dir, sources[i]) + x in r <==> sources[i] + x in ns)
      ensures sources[i] + x in ns ==> r[Destination(dir, sources[i]) + x] == ns[sources[i] + x]
      ensures sources[i] + x !in r
    {
      assert rest[i - 1] == sources[i];
      DisjointBelow(s0, sources[i], x);
      DisjointBelow(d0, sources[i], x);
      assert Unchanged(ns, ns1, sources[i] + x);
    }
    forall q | Untouched(dir, sources, q) ensures Unchanged(ns, r, q) {
      assert Untouched(dir, rest, q);
    }
  }

  /**
   * mv_to_dir with its preconditions met: each source tree ends up at its
   * destination, the sources are gone, nothing else changes, the namespace
   * stays a tree, and -v prints one line per source in input order.
   */
  lemma {:induction false} MoveToDirMovesEach(cfg: Settings, ask: Oracle, ns: Namespace, dir: Path, sources: seq<Path>)
    requires FanOutReady(ns, dir, sources)
    ensures var o := MoveToDir(cfg, ask, ns, dir, sources);
      && FannedOut(ns, o.ns, dir, sources) && WellFormed(o.ns)
      && o.events == (if cfg.verbose then RenamedEach(dir, sources) else [])
      && o.failure == None
    decreases |sources|
  {
    if sources != [] {
      var s0, rest := sources[0], sources[1..];
      var d0 := Destination(dir, s0);
      FirstRenameAccepted(ns, dir, sources);
      MoveToAbsentTarget(cfg, ask, ns, d0, s0);
      var first := MoveToFile(cfg, ask, ns, d0, s0);
      ReadyAfterFirst(ns, first.ns, dir, sources);
      MoveToDirMovesEach(cfg, ask, first.ns, dir, rest);
      var next := MoveToDir(cfg, ask, first.ns, dir, rest);
      FannedOutAfterFirst(ns, first.ns, next.ns, dir, sources);
      assert MoveToDir(cfg, ask, ns, dir, sources) == Prefixed(first.events, next);
    }
  }
}
