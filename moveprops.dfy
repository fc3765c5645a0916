/**
 * What mv_to_file and the dispatch of mv promise: a move onto a free path
 * re-roots the source tree there, a type clash changes nothing and reports
 * one conflict, a same-type target is replaced exactly when the overwrite
 * decision says so, and argument errors leave the namespace alone.
 */
module MoveProps {
  import opened Wrappers
  import opened Paths
  import opened FileSystem
  import opened MoveSpec

  /** `r` is `ns` with the tree at `s` re-rooted at `t` and nothing else changed. */
  ghost predicate MovedTree(ns: Namespace, r: Namespace, s: Path, t: Path) {
    && (forall x :: t + x in r <==> s + x in ns)
    && (forall x :: s + x in ns ==> r[t + x] == ns[s + x])
    && (forall x :: s + x !in r)
    && (forall q :: !Under(s, q) && !Under(t, q) ==> Unchanged(ns, r, q))
  }

  /** An accepted rename moves the tree and changes nothing else. */
  lemma RenameMovesTree(ns: Namespace, s: Path, t: Path)
    requires WellFormed(ns) && RenameAccepted(ns, s, t)
    ensures MovedTree(ns, AfterRename(ns, s, t), s, t)
    ensures WellFormed(AfterRename(ns, s, t))
  {
    RenameMoves(ns, s, t);
    RenameWellFormed(ns, s, t);
  }

  /**
   * Moving onto a path that does not exist: the target then holds the source
   * tree, the source is gone, nothing else changes, and -v prints the move.
   */
  lemma MoveToAbsentTarget(cfg: Settings, ask: Oracle, ns: Namespace, target: Path, source: Path)
    requires WellFormed(ns) && RenameAccepted(ns, source, target)
    ensures var o := MoveToFile(cfg, ask, ns, target, source);
      && MovedTree(ns, o.ns, source, target) && WellFormed(o.ns)
      && o.events == (if cfg.verbose then [Renamed(source, target)] else [])
      && o.failure == None
  {
    RenameMovesTree(ns, source, target);
  }

  /**
   * A move onto a free path that the NameNode refuses (missing source or
   * parent, or a target inside the source) changes nothing, and -v still
   * prints it: rename_file ignores the result of the call.
   */
  lemma RefusedMoveStillPrinted(cfg: Settings, ask: Oracle, ns: Namespace, target: Path, source: Path)
    requires target !in ns && !RenameAccepted(ns, source, target)
    ensures var o := MoveToFile(cfg, ask, ns, target, source);
      && o.ns == ns
      && o.events == (if cfg.verbose then [Renamed(source, target)] else [])
      && o.failure == None
  {
  }

  /** A file moved onto a directory, or the reverse: one conflict is printed and nothing changes. */
  lemma TypeConflict(cfg: Settings, ask: Oracle, ns: Namespace, target: Path, source: Path)
    requires source in ns && target in ns && KindOf(ns[source]) != KindOf(ns[target])
    ensures var o := MoveToFile(cfg, ask, ns, target, source);
      && o.ns == ns
      && o.events == [Conflict(source, KindOf(ns[source]), target, KindOf(ns[target]))]
      && o.failure == None
  {
  }

  /** mv_to_file dereferences the status of a missing source when the target exists. */
  lemma MissingSourceRaises(cfg: Settings, ask: Oracle, ns: Namespace, target: Path, source: Path)
    requires source !in ns && target in ns
    ensures MoveToFile(cfg, ask, ns, target, source) == Outcome(ns, [], Some(MissingSource(source)))
  {
  }

  /**
   * A target of the same type that the overwrite decision replaces: it is
   * deleted, the source tree takes its place, and nothing else changes.
   */
  lemma SameTypeOverwritten(cfg: Settings, ask: Oracle, ns: Namespace, target: Path, source: Path)
    requires WellFormed(ns) && source in ns && target in ns && Disjoint(source, target)
    requires KindOf(ns[source]) == KindOf(ns[target]) && Overwrites(cfg, ask(target))
    ensures var o := MoveToFile(cfg, ask, ns, target, source);
      && MovedTree(ns, o.ns, source, target) && WellFormed(o.ns)
      && o.events == (if cfg.verbose then [Renamed(source, target)] else [])
      && o.failure == None
  {
    var cleared := AfterDelete(ns, target);
    DeleteWellFormed(ns, target);
    assert Under(source, source + []) && Under(target, target + []);
    assert target != [] && source != [];
    Ancestors(ns, Parent(target), target);
    assert Under(Parent(target), target) && Parent(target) != target;
    assert RenameAccepted(cleared, source, target);
    RenameMovesTree(cleared, source, target);
    MoveAfterClearing(ns, AfterRename(cleared, source, target), source, target);
  }

  /** Moving a tree onto a path that was deleted first moves it relative to the state before the delete. */
  lemma MoveAfterClearing(ns: Namespace, r: Namespace, s: Path, t: Path)
    requires Disjoint(s, t) && MovedTree(AfterDelete(ns, t), r, s, t)
    ensures MovedTree(ns, r, s, t)
  {
    var cleared := AfterDelete(ns, t);
    assert t != [];
    forall x ensures (s + x in cleared <==> s + x in ns) && (s + x in ns ==> cleared[s + x] == ns[s + x]) {
      UnderComparable(t, s, s + x);
      assert Under(s, s + x);
    }
    forall q | !Under(s, q) && !Under(t, q) ensures Unchanged(ns, r, q) {
      assert Unchanged(cleared, r, q);
    }
  }

  /** A target of the same type that the overwrite decision keeps: nothing changes and nothing is printed. */
  lemma SameTypeKept(cfg: Settings, ask: Oracle, ns: Namespace, target: Path, source: Path)
    requires source in ns && target in ns && KindOf(ns[source]) == KindOf(ns[target])
    requires !Overwrites(cfg, ask(target))
    ensures MoveToFile(cfg, ask, ns, target, source) == Outcome(ns, [], None)
  {
  }

  /**
   * Moving a path onto itself with overwriting on deletes it: the target is
   * deleted first, and the rename of the now missing source is refused.
   */
  lemma SelfMoveDeletes(cfg: Settings, ask: Oracle, ns: Namespace, p: Path)
    requires p in ns && p != [] && Overwrites(cfg, ask(p))
    ensures var o := MoveToFile(cfg, ask, ns, p, p);
      && (forall q :: Under(p, q) ==> q !in o.ns)
      && (forall q :: !Under(p, q) ==> Unchanged(ns, o.ns, q))
      && o.events == (if cfg.verbose then [Renamed(p, p)] else [])
  {
    var cleared := AfterDelete(ns, p);
    assert Under(p, p);
    assert !RenameAccepted(cleared, p, p);
  }

  /** Plain mode with several sources and a target that is not a directory fails before any change. */
  lemma ManySourcesNeedDirectory(cfg: Settings, ask: Oracle, ns: Namespace, target: Path, sources: seq<Path>)
    requires !cfg.overlay && |sources| > 1 && !(target in ns && ns[target] == Dir)
    ensures Move(cfg, ask, ns, target, sources) == Outcome(ns, [], Some(NotADirectory(target)))
  {
  }

  /** Overlay mode stops with the usage error, before any change, when the target or the first source is not a directory. */
  lemma OverlayNeedsDirectories(cfg: Settings, ask: Oracle, ns: Namespace, target: Path, sources: seq<Path>)
    requires cfg.overlay && |sources| > 0 && forall s :: s in sources ==> Disjoint(target, s)
    requires !(target in ns && ns[target] == Dir && sources[0] in ns && ns[sources[0]] == Dir)
    ensures Move(cfg, ask, ns, target, sources) == Outcome(ns, [], Some(OverlayUsage))
  {
  }

  /** A merge never changes the merge target itself, so its one stat before the loop stays true. */
  lemma OverlayKeepsTarget(cfg: Settings, ask: Oracle, ns: Namespace, target: Path, source: Path)
    requires Disjoint(target, source)
    ensures var o := Overlay(cfg, ask, ns, target, source);
      Unchanged(ns, o.ns, target) && Unchanged(ns, o.ns, source)
  {
  }
}
