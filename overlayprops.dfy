/**
 * What an overlay merge (mv_suboverlay) does to two directory trees. Below
 * the target, a path exists afterwards exactly when it existed below the
 * target or below the source, and holds the source's node when the source
 * had one and the target had none or was overwritten. Below the source, only
 * directories and the files that were not overwritten remain. The merge
 * raises exactly when a file faces a directory at the same relative path.
 */
module OverlayProps {
  import opened Wrappers
  import opened Paths
  import opened FileSystem
  import opened MoveSpec
  import opened MoveProps

  /** The merge of `ps` into `pt` left relative path `x` as it should in `r`. */
  ghost predicate MergedAt(cfg: Settings, ask: Oracle, ns: Namespace, r: Namespace, pt: Path, ps: Path, x: Path) {
    var src, tgt := ps + x in ns, pt + x in ns;
    var overwrite := Overwrites(cfg, ask(pt + x));
    && (pt + x in r <==> src || tgt)
    && (pt + x in r ==> r[pt + x] == if src && (!tgt || overwrite) then ns[ps + x] else ns[pt + x])
    && (ps + x in r <==> src && tgt && (ns[ps + x] == Dir || !overwrite))
    && (ps + x in r ==> r[ps + x] == ns[ps + x])
  }

  ghost predicate Merged(cfg: Settings, ask: Oracle, ns: Namespace, r: Namespace, pt: Path, ps: Path) {
    forall x :: MergedAt(cfg, ask, ns, r, pt, ps, x)
  }

  /** A file faces a directory at relative path `x`. */
  ghost predicate ClashAt(ns: Namespace, pt: Path, ps: Path, x: Path) {
    ps + x in ns && pt + x in ns && KindOf(ns[ps + x]) != KindOf(ns[pt + x])
  }

  ghost predicate NoClash(ns: Namespace, pt: Path, ps: Path) {
    forall x :: !ClashAt(ns, pt, ps, x)
  }

  /** No clash below the child `n`. */
  ghost predicate ChildClashFree(ns: Namespace, pt: Path, ps: Path, n: Name) {
    forall x :: !ClashAt(ns, pt, ps, [n] + x)
  }

  /** The child `n` is merged. */
  ghost predicate ChildMerged(cfg: Settings, ask: Oracle, ns: Namespace, r: Namespace, pt: Path, ps: Path, n: Name) {
    forall x :: MergedAt(cfg, ask, ns, r, pt, ps, [n] + x)
  }

  /** Nothing at or below the child `n` differs between `ns0` and `ns`. */
  ghost predicate ChildUntouched(ns0: Namespace, ns: Namespace, pt: Path, ps: Path, n: Name) {
    forall x :: Unchanged(ns0, ns, pt + ([n] + x)) && Unchanged(ns0, ns, ps + ([n] + x))
  }

  /**
   * Part way through the loop: the children named in `done` are merged, and
   * everything else below `pt` and `ps` is as it was in `ns0`.
   */
  ghost predicate PartMergedAt(cfg: Settings, ask: Oracle, ns0: Namespace, ns: Namespace, pt: Path, ps: Path,
                               done: set<Name>, x: Path) {
    if x != [] && x[0] in done then MergedAt(cfg, ask, ns0, ns, pt, ps, x)
    else Unchanged(ns0, ns, pt + x) && Unchanged(ns0, ns, ps + x)
  }

  ghost predicate PartMerged(cfg: Settings, ask: Oracle, ns0: Namespace, ns: Namespace, pt: Path, ps: Path,
                             done: set<Name>) {
    forall x :: PartMergedAt(cfg, ask, ns0, ns, pt, ps, done, x)
  }

  lemma ChildPath(p: Path, n: Name, x: Path)
    ensures p + ([n] + x) == p + [n] + x
  {
  }

  /** A merge of the children `pt + [n]` and `ps + [n]` is the merge below `n`. */
  lemma MergedChild(cfg: Settings, ask: Oracle, ns: Namespace, r: Namespace, pt: Path, ps: Path, n: Name)
    requires Merged(cfg, ask, ns, r, pt + [n], ps + [n])
    ensures ChildMerged(cfg, ask, ns, r, pt, ps, n)
  {
    forall x ensures MergedAt(cfg, ask, ns, r, pt, ps, [n] + x) {
      ChildPath(pt, n, x);
      ChildPath(ps, n, x);
      assert MergedAt(cfg, ask, ns, r, pt + [n], ps + [n], x);
    }
  }

  lemma ClashChild(ns: Namespace, pt: Path, ps: Path, n: Name)
    ensures NoClash(ns, pt + [n], ps + [n]) <==> ChildClashFree(ns, pt, ps, n)
  {
    forall x ensures ClashAt(ns, pt + [n], ps + [n], x) <==> ClashAt(ns, pt, ps, [n] + x) {
      ChildPath(pt, n, x);
      ChildPath(ps, n, x);
    }
  }

  /** What the merge needs at `x` reads only `pt + x` and `ps + x`. */
  lemma MergedAtTransfer(cfg: Settings, ask: Oracle, ns0: Namespace, ns: Namespace, r: Namespace, pt: Path, ps: Path, x: Path)
    requires Unchanged(ns0, ns, pt + x) && Unchanged(ns0, ns, ps + x)
    ensures MergedAt(cfg, ask, ns, r, pt, ps, x) == MergedAt(cfg, ask, ns0, r, pt, ps, x)
    ensures ClashAt(ns, pt, ps, x) == ClashAt(ns0, pt, ps, x)
  {
  }

  lemma MergedAtFrame(cfg: Settings, ask: Oracle, ns0: Namespace, ns: Namespace, r: Namespace, pt: Path, ps: Path, x: Path)
    requires Unchanged(ns, r, pt + x) && Unchanged(ns, r, ps + x)
    ensures MergedAt(cfg, ask, ns0, ns, pt, ps, x) == MergedAt(cfg, ask, ns0, r, pt, ps, x)
  {
  }

  /** A relative path that does not start with `n` lies outside the child `n`. */
  lemma OtherChild(p: Path, n: Name, x: Path)
    ensures (x == [] || x[0] != n) ==> !Under(p + [n], p + x)
  {
    if |x| > 0 && Under(p + [n], p + x) {
      assert (p + x)[|p|] == x[0];
      assert (p + x)[..|p| + 1][|p|] == n;
    }
  }

  /** Two directories merge into each other's place with nothing else to do. */
  lemma DirsAlreadyMerged(cfg: Settings, ask: Oracle, ns: Namespace, r: Namespace, pt: Path, ps: Path)
    requires pt in ns && ns[pt] == Dir && ps in ns && ns[ps] == Dir
    requires Unchanged(ns, r, pt) && Unchanged(ns, r, ps)
    ensures MergedAt(cfg, ask, ns, r, pt, ps, [])
  {
    assert pt + [] == pt && ps + [] == ps;
  }

  /** A child that a merge moved in whole, because the target had nothing there. */
  lemma AbsentChildMerged(cfg: Settings, ask: Oracle, ns: Namespace, r: Namespace, pt: Path, ps: Path, n: Name)
    requires WellFormed(ns) && pt + [n] !in ns && MovedTree(ns, r, ps + [n], pt + [n])
    ensures ChildMerged(cfg, ask, ns, r, pt, ps, n)
    ensures ChildClashFree(ns, pt, ps, n)
  {
    AbsentSubtree(ns, pt + [n]);
    forall x ensures MergedAt(cfg, ask, ns, r, pt, ps, [n] + x) && !ClashAt(ns, pt, ps, [n] + x) {
      ChildPath(pt, n, x);
      ChildPath(ps, n, x);
      assert Under(pt + [n], pt + [n] + x);
    }
  }

  /** Two files: the source file replaces the target file, or both stay, as the overwrite decision says. */
  lemma FileChildMerged(cfg: Settings, ask: Oracle, ns: Namespace, pt: Path, ps: Path, n: Name)
    requires WellFormed(ns) && Disjoint(pt, ps)
    requires pt + [n] in ns && ps + [n] in ns && ns[pt + [n]].File? && ns[ps + [n]].File?
    ensures var o := MoveToFile(cfg, ask, ns, pt + [n], ps + [n]);
      && WellFormed(o.ns) && o.failure == None
      && ChildMerged(cfg, ask, ns, o.ns, pt, ps, n) && ChildClashFree(ns, pt, ps, n)
  {
    var tp, sp := pt + [n], ps + [n];
    var o := MoveToFile(cfg, ask, ns, tp, sp);
    ChildrenDisjoint(pt, ps, n);
    if Overwrites(cfg, ask(tp)) {
      SameTypeOverwritten(cfg, ask, ns, tp, sp);
    } else {
      SameTypeKept(cfg, ask, ns, tp, sp);
    }
    forall x ensures MergedAt(cfg, ask, ns, o.ns, pt, ps, [n] + x) && !ClashAt(ns, pt, ps, [n] + x) {
      ChildPath(pt, n, x);
      ChildPath(ps, n, x);
      if x != [] {
        NothingBelow(ns, tp, tp + x);
        NothingBelow(ns, sp, sp + x);
      } else {
        assert tp + x == tp && sp + x == sp;
      }
    }
  }

  /**
   * The merge of `ps` into `pt`: it raises exactly when a file faces a
   * directory somewhere below them, and otherwise leaves both trees merged.
   * Either way the namespace stays a tree.
   */
  lemma OverlayMerges(cfg: Settings, ask: Oracle, ns: Namespace, pt: Path, ps: Path)
    requires WellFormed(ns) && Disjoint(pt, ps)
    requires pt in ns && ns[pt] == Dir && ps in ns && ns[ps] == Dir
    ensures var o := Overlay(cfg, ask, ns, pt, ps);
      && WellFormed(o.ns)
      && (o.failure == None <==> NoClash(ns, pt, ps))
      && (o.failure == None ==> Merged(cfg, ask, ns, o.ns, pt, ps))
    decreases |Desc(ns, ps)|, 2
  {
    ListingMerges(cfg, ask, ns, pt, ps, Listing(ns, ps));
  }

  /** The loop of mv_suboverlay over the listing of `ps`, from its start. */
  lemma ListingMerges(cfg: Settings, ask: Oracle, ns: Namespace, pt: Path, ps: Path, entries: seq<Entry>)
    requires WellFormed(ns) && Disjoint(pt, ps)
    requires pt in ns && ns[pt] == Dir && ps in ns && ns[ps] == Dir
    requires forall e :: e in entries ==> Listed(ns, ps, e)
    requires forall i, j :: 0 <= i < j < |entries| ==> entries[i].name != entries[j].name
    requires EntryNames(entries) == ChildNames(ns, ps)
    ensures var o := OverlayEntries(cfg, ask, ns, ns, pt, ps, entries);
      && WellFormed(o.ns)
      && (o.failure == None <==> NoClash(ns, pt, ps))
      && (o.failure == None ==> Merged(cfg, ask, ns, o.ns, pt, ps))
    decreases |Desc(ns, ps)|, 1, |entries| + 1
  {
    NothingMergedYet(cfg, ask, ns, pt, ps);
    OverlayEntriesMerge(cfg, ask, ns, ns, pt, ps, entries, {});
    assert {} + EntryNames(entries) == ChildNames(ns, ps);
    MergedByChildren(cfg, ask, ns, pt, ps, entries, OverlayEntries(cfg, ask, ns, ns, pt, ps, entries));
  }

  lemma NothingMergedYet(cfg: Settings, ask: Oracle, ns: Namespace, pt: Path, ps: Path)
    ensures PartMerged(cfg, ask, ns, ns, pt, ps, {})
  {
    forall x ensures PartMergedAt(cfg, ask, ns, ns, pt, ps, {}, x) {
    }
  }

  /** The outcome of the loop over the children of `ps` is the outcome of the whole merge. */
  lemma MergedByChildren(cfg: Settings, ask: Oracle, ns: Namespace, pt: Path, ps: Path, entries: seq<Entry>, o: Outcome)
    requires WellFormed(ns) && pt in ns && ns[pt] == Dir && ps in ns && ns[ps] == Dir
    requires EntryNames(entries) == ChildNames(ns, ps)
    requires o.failure == None <==> forall i :: 0 <= i < |entries| ==> ChildClashFree(ns, pt, ps, entries[i].name)
    requires o.failure == None ==> PartMerged(cfg, ask, ns, o.ns, pt, ps, ChildNames(ns, ps))
    ensures o.failure == None <==> NoClash(ns, pt, ps)
    ensures o.failure == None ==> Merged(cfg, ask, ns, o.ns, pt, ps)
  {
    ClashFreeByChildren(ns, pt, ps, entries);
    if o.failure == None {
      MergedFromChildren(cfg, ask, ns, o.ns, pt, ps);
    }
  }

  /** A clash below two directories lies below one of the children of the source. */
  lemma ClashFreeByChildren(ns: Namespace, pt: Path, ps: Path, entries: seq<Entry>)
    requires WellFormed(ns) && pt in ns && ns[pt] == Dir && ps in ns && ns[ps] == Dir
    requires EntryNames(entries) == ChildNames(ns, ps)
    ensures NoClash(ns, pt, ps) <==> forall i :: 0 <= i < |entries| ==> ChildClashFree(ns, pt, ps, entries[i].name)
  {
    forall x | ClashAt(ns, pt, ps, x)
      ensures exists i :: 0 <= i < |entries| && !ChildClashFree(ns, pt, ps, entries[i].name)
    {
      assert pt + [] == pt && ps + [] == ps;
      assert x != [];
      assert x == [x[0]] + x[1..];
      Ancestors(ns, ps + [x[0]], ps + x);
      assert x[0] in EntryNames(entries);
      var i :| 0 <= i < |entries| && entries[i].name == x[0];
      assert ClashAt(ns, pt, ps, [x[0]] + x[1..]);
    }
  }

  /** Once every child of the source is merged, the two directories are. */
  lemma MergedFromChildren(cfg: Settings, ask: Oracle, ns: Namespace, r: Namespace, pt: Path, ps: Path)
    requires WellFormed(ns) && pt in ns && ns[pt] == Dir && ps in ns && ns[ps] == Dir
    requires PartMerged(cfg, ask, ns, r, pt, ps, ChildNames(ns, ps))
    ensures Merged(cfg, ask, ns, r, pt, ps)
  {
    forall x ensures MergedAt(cfg, ask, ns, r, pt, ps, x) {
      assert PartMergedAt(cfg, ask, ns, r, pt, ps, ChildNames(ns, ps), x);
      if x == [] {
        assert pt + x == pt && ps + x == ps;
        DirsAlreadyMerged(cfg, ask, ns, r, pt, ps);
      } else if ps + [x[0]] !in ns {
        AbsentSubtree(ns, ps + [x[0]]);
        assert x == [x[0]] + x[1..];
        assert Under(ps + [x[0]], ps + x);
      }
    }
  }

  /** The loop of mv_suboverlay, from `ns` part way through to its end. */
  lemma {:induction false} OverlayEntriesMerge(cfg: Settings, ask: Oracle, ns0: Namespace, ns: Namespace, pt: Path, ps: Path,
                                               entries: seq<Entry>, done: set<Name>)
    requires WellFormed(ns) && Disjoint(pt, ps)
    requires pt in ns0 && ns0[pt] == Dir && ps in ns0 && ns0[ps] == Dir
    requires forall e :: e in entries ==> Listed(ns0, ps, e) && e.name !in done
    requires forall i, j :: 0 <= i < j < |entries| ==> entries[i].name != entries[j].name
    requires SourceShrinks(ns0, ns, ps)
    requires PartMerged(cfg, ask, ns0, ns, pt, ps, done)
    ensures var o := OverlayEntries(cfg, ask, ns0, ns, pt, ps, entries);
      && WellFormed(o.ns)
      && (o.failure == None <==> forall i :: 0 <= i < |entries| ==> ChildClashFree(ns0, pt, ps, entries[i].name))
      && (o.failure == None ==> PartMerged(cfg, ask, ns0, o.ns, pt, ps, done + EntryNames(entries)))
    decreases |Desc(ns0, ps)|, 1, |entries|
  {
    if entries == [] {
      assert done + EntryNames(entries) == done;
    } else {
      var e, rest := entries[0], entries[1..];
      var n := e.name;
      NotYetMerged(cfg, ask, ns0, ns, pt, ps, done, n);
      OverlayEntryMerge(cfg, ask, ns0, ns, pt, ps, e);
      OverlayEntriesStep(cfg, ask, ns0, ns, pt, ps, entries, 0);
      assert entries[0..] == entries;
      var first := OverlayEntry(cfg, ask, ns0, ns, pt, ps, e);
      if first.failure.None? {
        PartMergedStep(cfg, ask, ns0, ns, first.ns, pt, ps, done, n);
        OverlayEntriesMerge(cfg, ask, ns0, first.ns, pt, ps, rest, done + {n});
        var later := OverlayEntries(cfg, ask, ns0, first.ns, pt, ps, rest);
        MergedFurther(cfg, ask, ns0, pt, ps, entries, done, later);
      }
    }
  }

  /** The first child merged without a clash, so the loop ends as its remainder does. */
  lemma MergedFurther(cfg: Settings, ask: Oracle, ns0: Namespace, pt: Path, ps: Path, entries: seq<Entry>,
                      done: set<Name>, later: Outcome)
    requires entries != [] && ChildClashFree(ns0, pt, ps, entries[0].name)
    requires later.failure == None <==> forall i :: 0 <= i < |entries[1..]| ==> ChildClashFree(ns0, pt, ps, entries[1..][i].name)
    requires later.failure == None ==> PartMerged(cfg, ask, ns0, later.ns, pt, ps, done + {entries[0].name} + EntryNames(entries[1..]))
    ensures later.failure == None <==> forall i :: 0 <= i < |entries| ==> ChildClashFree(ns0, pt, ps, entries[i].name)
    ensures later.failure == None ==> PartMerged(cfg, ask, ns0, later.ns, pt, ps, done + EntryNames(entries))
  {
    assert done + {entries[0].name} + EntryNames(entries[1..]) == done + EntryNames(entries);
    assert forall i :: 1 <= i < |entries| ==> entries[i] == entries[1..][i - 1];
  }

  /** A child not merged yet is as it was, and so are the two directories. */
  lemma NotYetMerged(cfg: Settings, ask: Oracle, ns0: Namespace, ns: Namespace, pt: Path, ps: Path,
                     done: set<Name>, n: Name)
    requires pt in ns0 && ns0[pt] == Dir && ps in ns0 && ns0[ps] == Dir
    requires PartMerged(cfg, ask, ns0, ns, pt, ps, done) && n !in done
    ensures pt in ns && ns[pt] == Dir && ps in ns && ns[ps] == Dir
    ensures ChildUntouched(ns0, ns, pt, ps, n)
    ensures ChildClashFree(ns, pt, ps, n) <==> ChildClashFree(ns0, pt, ps, n)
  {
    assert PartMergedAt(cfg, ask, ns0, ns, pt, ps, done, []);
    assert pt + [] == pt && ps + [] == ps;
    forall x ensures Unchanged(ns0, ns, pt + ([n] + x)) && Unchanged(ns0, ns, ps + ([n] + x)) {
      assert PartMergedAt(cfg, ask, ns0, ns, pt, ps, done, [n] + x);
    }
    forall x ensures ClashAt(ns, pt, ps, [n] + x) <==> ClashAt(ns0, pt, ps, [n] + x) {
      MergedAtTransfer(cfg, ask, ns0, ns, ns, pt, ps, [n] + x);
    }
  }

  /** After one more child is merged, the loop is merged that much further. */
  lemma PartMergedStep(cfg: Settings, ask: Oracle, ns0: Namespace, ns: Namespace, r: Namespace, pt: Path, ps: Path,
                       done: set<Name>, n: Name)
    requires Disjoint(pt, ps)
    requires PartMerged(cfg, ask, ns0, ns, pt, ps, done) && n !in done
    requires ChildUntouched(ns0, ns, pt, ps, n)
    requires ChildMerged(cfg, ask, ns, r, pt, ps, n)
    requires EntryFrame(ns, r, pt + [n], ps + [n])
    ensures PartMerged(cfg, ask, ns0, r, pt, ps, done + {n})
  {
    forall x ensures PartMergedAt(cfg, ask, ns0, r, pt, ps, done + {n}, x) {
      assert PartMergedAt(cfg, ask, ns0, ns, pt, ps, done, x);
      if x != [] && x[0] == n {
        assert x == [n] + x[1..];
        assert Unchanged(ns0, ns, pt + ([n] + x[1..])) && Unchanged(ns0, ns, ps + ([n] + x[1..]));
        assert MergedAt(cfg, ask, ns, r, pt, ps, [n] + x[1..]);
        MergedAtTransfer(cfg, ask, ns0, ns, r, pt, ps, x);
      } else {
        OtherChild(pt, n, x);
        OtherChild(ps, n, x);
        assert Under(pt, pt + x) && Under(ps, ps + x);
        ChildApart(ps, pt, n, pt + x);
        ChildApart(pt, ps, n, ps + x);
        assert Unchanged(ns, r, pt + x) && Unchanged(ns, r, ps + x);
        MergedAtFrame(cfg, ask, ns0, ns, r, pt, ps, x);
      }
    }
  }

  /** One child of the loop of mv_suboverlay. */
  lemma OverlayEntryMerge(cfg: Settings, ask: Oracle, ns0: Namespace, ns: Namespace, pt: Path, ps: Path, e: Entry)
    requires WellFormed(ns) && Disjoint(pt, ps)
    requires pt in ns && ns[pt] == Dir && ps in ns && ns[ps] == Dir
    requires Listed(ns0, ps, e) && SourceShrinks(ns0, ns, ps)
    requires ChildUntouched(ns0, ns, pt, ps, e.name)
    ensures var o := OverlayEntry(cfg, ask, ns0, ns, pt, ps, e);
      && WellFormed(o.ns)
      && (o.failure == None <==> ChildClashFree(ns, pt, ps, e.name))
      && (o.failure == None ==> ChildMerged(cfg, ask, ns, o.ns, pt, ps, e.name))
    decreases |Desc(ns0, ps)|, 0
  {
    var n := e.name;
    var tp, sp := pt + [n], ps + [n];
    var o := OverlayEntry(cfg, ask, ns0, ns, pt, ps, e);
    ChildrenDisjoint(pt, ps, n);
    assert [n] + [] == [n];
    assert Unchanged(ns0, ns, ps + ([n] + []));
    assert sp in ns && e.kind == KindOf(ns[sp]);
    if tp !in ns {
      assert Parent(tp) == pt;
      MoveToAbsentTarget(cfg, ask, ns, tp, sp);
      AbsentChildMerged(cfg, ask, ns, o.ns, pt, ps, n);
    } else if e.kind != KindOf(ns[tp]) {
      assert pt + ([n] + []) == tp && ps + ([n] + []) == sp;
      assert ClashAt(ns, pt, ps, [n] + []);
    } else if e.kind == DIRECTORY {
      DescShrinks(ns0, ns, ps, n);
      OverlayMerges(cfg, ask, ns, tp, sp);
      ClashChild(ns, pt, ps, n);
      if o.failure == None {
        MergedChild(cfg, ask, ns, o.ns, pt, ps, n);
      }
    } else {
      FileChildMerged(cfg, ask, ns, pt, ps, n);
    }
  }

  /**
   * hdmv --overlay with one source directory: it stops with an exception
   * exactly when a file and a directory meet at the same place in the two
   * trees, and otherwise leaves the source merged into the target.
   */
  lemma OverlayMoveMerges(cfg: Settings, ask: Oracle, ns: Namespace, target: Path, source: Path)
    requires cfg.overlay && WellFormed(ns) && Disjoint(target, source)
    requires target in ns && ns[target] == Dir && source in ns && ns[source] == Dir
    ensures var o := Move(cfg, ask, ns, target, [source]);
      && WellFormed(o.ns)
      && (o.failure == None <==> NoClash(ns, target, source))
      && (o.failure == None ==> Merged(cfg, ask, ns, o.ns, target, source))
  {
    OverlayMerges(cfg, ask, ns, target, source);
    SingleOverlay(cfg, ask, ns, target, source);
  }

  /** With one source, hdmv --overlay is one merge. */
  lemma SingleOverlay(cfg: Settings, ask: Oracle, ns: Namespace, target: Path, source: Path)
    requires cfg.overlay && Disjoint(target, source)
    requires target in ns && ns[target] == Dir && source in ns && ns[source] == Dir
    ensures Move(cfg, ask, ns, target, [source]) == Overlay(cfg, ask, ns, target, source)
  {
    var first := Overlay(cfg, ask, ns, target, source);
    var o := OverlaySources(cfg, ask, ns, target, true, [source]);
    assert [source][0] == source && [source][1..] == [];
    if first.failure.None? {
      assert OverlaySources(cfg, ask, first.ns, target, true, []) == Outcome(first.ns, [], None);
      assert o == Prefixed(first.events, Outcome(first.ns, [], None));
      assert first.events + [] == first.events;
    }
  }

  /** Without -v a merge prints nothing: it never reports a conflict. */
  lemma SilentWithoutVerbose(cfg: Settings, ask: Oracle, ns: Namespace, pt: Path, ps: Path)
    requires Disjoint(pt, ps)
    ensures !cfg.verbose ==> Overlay(cfg, ask, ns, pt, ps).events == []
  {
    var events := Overlay(cfg, ask, ns, pt, ps).events;
    if events != [] {
      assert events[0] in events;
    }
  }
}
