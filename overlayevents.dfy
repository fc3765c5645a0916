/**
 * What an overlay merge (mv_suboverlay) prints under -v. When nothing
 * clashes, it prints one "<source> -> <target>" line for each relative path
 * it moves and no other line, and never the same line twice. A path is moved
 * when the merge descends to its parent and the target lacks it, or has a
 * file there that the overwrite decision replaces by the source's file. A
 * kept file and a pair of directories print nothing themselves.
 */
module OverlayEvents {
  import opened Wrappers
  import opened Paths
  import opened FileSystem
  import opened MoveSpec
  import opened OverlayProps

  /**
   * The merge of `ps` into `pt` moves relative path `x`: the target parent of
   * `x` is a directory, the source has `x`, and the target either lacks `x`
   * or has a file there that the decision replaces by the source's file.
   */
  ghost predicate MovedIn(cfg: Settings, ask: Oracle, ns: Namespace, pt: Path, ps: Path, x: Path) {
    && x != []
    && pt + Parent(x) in ns && ns[pt + Parent(x)] == Dir
    && ps + x in ns
    && (pt + x !in ns || (ns[ps + x].File? && ns[pt + x].File? && Overwrites(cfg, ask(pt + x))))
  }

  /** No line is printed twice. */
  predicate NoRepeats(events: seq<Event>) {
    forall i, j :: 0 <= i < j < |events| ==> events[i] != events[j]
  }

  /** `events` hold one move line for each moved path whose first component is in `names`, and nothing else. */
  ghost predicate PrintedFor(cfg: Settings, ask: Oracle, ns: Namespace, pt: Path, ps: Path, names: set<Name>,
                             events: seq<Event>) {
    && (forall x :: Renamed(ps + x, pt + x) in events <==> x != [] && x[0] in names && MovedIn(cfg, ask, ns, pt, ps, x))
    && NoRepeats(events)
  }

  /** `events` hold one move line for each moved path, and nothing else. */
  ghost predicate PrintedExactly(cfg: Settings, ask: Oracle, ns: Namespace, pt: Path, ps: Path, events: seq<Event>) {
    && (forall x :: Renamed(ps + x, pt + x) in events <==> MovedIn(cfg, ask, ns, pt, ps, x))
    && NoRepeats(events)
  }

  /**
   * A merge without a clash under -v prints "<ps + x> -> <pt + x>" exactly
   * for the relative paths `x` it moves, each once, and no other line.
   */
  lemma OverlayPrintsEachMove(cfg: Settings, ask: Oracle, ns: Namespace, pt: Path, ps: Path)
    requires cfg.verbose && WellFormed(ns) && Disjoint(pt, ps)
    requires pt in ns && ns[pt] == Dir && ps in ns && ns[ps] == Dir
    ensures var o := Overlay(cfg, ask, ns, pt, ps);
      o.failure == None ==>
        && (forall x :: Renamed(ps + x, pt + x) in o.events <==> MovedIn(cfg, ask, ns, pt, ps, x))
        && (forall e :: e in o.events ==>
              && e.Renamed? && Under(ps, e.source) && e.target == pt + e.source[|ps|..]
              && MovedIn(cfg, ask, ns, pt, ps, e.source[|ps|..]))
        && NoRepeats(o.events)
  {
    var o := Overlay(cfg, ask, ns, pt, ps);
    OverlayPrintsMoves(cfg, ask, ns, pt, ps);
    if o.failure == None {
      EveryLineMoves(cfg, ask, ns, pt, ps, o.events);
    }
  }

  /** A line of a merge that prints exactly the moves is the line of one move. */
  lemma EveryLineMoves(cfg: Settings, ask: Oracle, ns: Namespace, pt: Path, ps: Path, events: seq<Event>)
    requires MergeEvents(cfg, events, pt, ps) && PrintedExactly(cfg, ask, ns, pt, ps, events)
    ensures forall e :: e in events ==>
      && e.Renamed? && Under(ps, e.source) && e.target == pt + e.source[|ps|..]
      && MovedIn(cfg, ask, ns, pt, ps, e.source[|ps|..])
  {
    forall e | e in events ensures MovedIn(cfg, ask, ns, pt, ps, e.source[|ps|..]) {
      var x := e.source[|ps|..];
      assert e.source == ps + x;
      assert e == Renamed(ps + x, pt + x);
    }
  }

  /** hdmv --overlay -v with one source directory and no clash prints each move once and nothing else. */
  lemma OverlayMovePrintsEachMove(cfg: Settings, ask: Oracle, ns: Namespace, target: Path, source: Path)
    requires cfg.overlay && cfg.verbose && WellFormed(ns) && Disjoint(target, source)
    requires target in ns && ns[target] == Dir && source in ns && ns[source] == Dir
    requires NoClash(ns, target, source)
    ensures var o := Move(cfg, ask, ns, target, [source]);
      && o.failure == None
      && (forall x :: Renamed(source + x, target + x) in o.events <==> MovedIn(cfg, ask, ns, target, source, x))
      && NoRepeats(o.events)
  {
    SingleOverlay(cfg, ask, ns, target, source);
    OverlayMerges(cfg, ask, ns, target, source);
    OverlayPrintsMoves(cfg, ask, ns, target, source);
  }

  /** The induction behind `OverlayPrintsEachMove`. */
  lemma OverlayPrintsMoves(cfg: Settings, ask: Oracle, ns: Namespace, pt: Path, ps: Path)
    requires cfg.verbose && WellFormed(ns) && Disjoint(pt, ps)
    requires pt in ns && ns[pt] == Dir && ps in ns && ns[ps] == Dir
    ensures var o := Overlay(cfg, ask, ns, pt, ps);
      o.failure == None ==> PrintedExactly(cfg, ask, ns, pt, ps, o.events)
    decreases |Desc(ns, ps)|, 2
  {
    var entries := Listing(ns, ps);
    forall e | e in entries ensures ChildUntouched(ns, ns, pt, ps, e.name) {
    }
    EntriesPrintMoves(cfg, ask, ns, ns, pt, ps, entries);
    var o := Overlay(cfg, ask, ns, pt, ps);
    if o.failure == None {
      PrintedForAllChildren(cfg, ask, ns, pt, ps, EntryNames(entries), o.events);
    }
  }

  /** Every moved path lies below a child of the source, so printing for all children is printing exactly. */
  lemma PrintedForAllChildren(cfg: Settings, ask: Oracle, ns: Namespace, pt: Path, ps: Path, names: set<Name>,
                              events: seq<Event>)
    requires WellFormed(ns) && names == ChildNames(ns, ps)
    requires PrintedFor(cfg, ask, ns, pt, ps, names, events)
    ensures PrintedExactly(cfg, ask, ns, pt, ps, events)
  {
    forall x | MovedIn(cfg, ask, ns, pt, ps, x) ensures x[0] in names {
      assert ps + x == ps + [x[0]] + x[1..];
      Ancestors(ns, ps + [x[0]], ps + x);
    }
  }

  /** The loop of mv_suboverlay over `entries`, from `ns` part way through to its end. */
  lemma {:induction false} EntriesPrintMoves(cfg: Settings, ask: Oracle, ns0: Namespace, ns: Namespace, pt: Path, ps: Path,
                                             entries: seq<Entry>)
    requires cfg.verbose && WellFormed(ns0) && WellFormed(ns) && Disjoint(pt, ps)
    requires pt in ns0 && ns0[pt] == Dir
    requires pt in ns && ns[pt] == Dir && ps in ns && ns[ps] == Dir
    requires forall e :: e in entries ==> Listed(ns0, ps, e) && ChildUntouched(ns0, ns, pt, ps, e.name)
    requires forall i, j :: 0 <= i < j < |entries| ==> entries[i].name != entries[j].name
    requires SourceShrinks(ns0, ns, ps)
    ensures var o := OverlayEntries(cfg, ask, ns0, ns, pt, ps, entries);
      o.failure == None ==> PrintedFor(cfg, ask, ns0, pt, ps, EntryNames(entries), o.events)
    decreases |Desc(ns0, ps)|, 1, |entries|
  {
    if entries != [] {
      var e, rest := entries[0], entries[1..];
      var n := e.name;
      OverlayEntriesStep(cfg, ask, ns0, ns, pt, ps, entries, 0);
      assert entries[0..] == entries;
      var first := OverlayEntry(cfg, ask, ns0, ns, pt, ps, e);
      if first.failure.None? {
        EntryPrintsMoves(cfg, ask, ns0, ns, pt, ps, e);
        OverlayEntryMerge(cfg, ask, ns0, ns, pt, ps, e);
        TopsKept(ns, first.ns, pt, ps, n);
        RestUntouched(ns0, ns, first.ns, pt, ps, entries);
        EntriesPrintMoves(cfg, ask, ns0, first.ns, pt, ps, rest);
        var later := OverlayEntries(cfg, ask, ns0, first.ns, pt, ps, rest);
        MergeEventsChild(cfg, first.events, pt, ps, n);
        if later.failure == None {
          EntriesJoined(cfg, ask, ns0, pt, ps, entries, first.events, later.events);
        }
      }
    }
  }

  /** The lines of the first child, then those of the rest, are the lines for all of `entries`. */
  lemma EntriesJoined(cfg: Settings, ask: Oracle, ns0: Namespace, pt: Path, ps: Path, entries: seq<Entry>,
                      a: seq<Event>, b: seq<Event>)
    requires entries != []
    requires forall i, j :: 0 <= i < j < |entries| ==> entries[i].name != entries[j].name
    requires MergeEvents(cfg, a, pt, ps) && MergeEvents(cfg, b, pt, ps)
    requires PrintedFor(cfg, ask, ns0, pt, ps, {entries[0].name}, a)
    requires PrintedFor(cfg, ask, ns0, pt, ps, EntryNames(entries[1..]), b)
    ensures PrintedFor(cfg, ask, ns0, pt, ps, EntryNames(entries), a + b)
  {
    var n, rest := entries[0].name, entries[1..];
    assert n !in EntryNames(rest) by {
      forall e' | e' in rest ensures e'.name != n {
        var j :| 0 <= j < |rest| && rest[j] == e';
        assert entries[j + 1] == e';
      }
    }
    PrintedJoin(cfg, ask, ns0, pt, ps, {n}, EntryNames(rest), a, b);
    assert {n} + EntryNames(rest) == EntryNames(entries) by {
      assert entries == [entries[0]] + rest;
    }
  }

  /** The two directories themselves stay directories while a child pair is handled. */
  lemma TopsKept(ns: Namespace, r: Namespace, pt: Path, ps: Path, n: Name)
    requires Disjoint(pt, ps) && EntryFrame(ns, r, pt + [n], ps + [n])
    ensures Unchanged(ns, r, pt) && Unchanged(ns, r, ps)
  {
    assert Under(pt, pt) && Under(ps, ps);
    ChildApart(ps, pt, n, pt);
    ChildApart(pt, ps, n, ps);
  }

  /** Handling the first child leaves the children after it untouched, and their names distinct. */
  lemma RestUntouched(ns0: Namespace, ns: Namespace, r: Namespace, pt: Path, ps: Path, entries: seq<Entry>)
    requires Disjoint(pt, ps) && entries != []
    requires forall e :: e in entries ==> Listed(ns0, ps, e) && ChildUntouched(ns0, ns, pt, ps, e.name)
    requires forall i, j :: 0 <= i < j < |entries| ==> entries[i].name != entries[j].name
    requires EntryFrame(ns, r, pt + [entries[0].name], ps + [entries[0].name])
    ensures forall e :: e in entries[1..] ==> Listed(ns0, ps, e) && ChildUntouched(ns0, r, pt, ps, e.name)
    ensures forall i, j :: 0 <= i < j < |entries[1..]| ==> entries[1..][i].name != entries[1..][j].name
  {
    var n, rest := entries[0].name, entries[1..];
    forall e | e in rest ensures ChildUntouched(ns0, r, pt, ps, e.name) {
      var j :| 0 <= j < |rest| && rest[j] == e;
      assert entries[j + 1] == e;
      OtherUntouched(ns0, ns, r, pt, ps, n, e.name);
    }
    forall i, j | 0 <= i < j < |rest| ensures rest[i].name != rest[j].name {
      assert rest[i] == entries[i + 1] && rest[j] == entries[j + 1];
    }
  }

  /** A child other than `n` stays untouched while `n` is handled. */
  lemma OtherUntouched(ns0: Namespace, ns: Namespace, r: Namespace, pt: Path, ps: Path, n: Name, m: Name)
    requires Disjoint(pt, ps) && n != m
    requires ChildUntouched(ns0, ns, pt, ps, m) && EntryFrame(ns, r, pt + [n], ps + [n])
    ensures ChildUntouched(ns0, r, pt, ps, m)
  {
    forall x ensures Unchanged(ns0, r, pt + ([m] + x)) && Unchanged(ns0, r, ps + ([m] + x)) {
      var qt, qs := pt + ([m] + x), ps + ([m] + x);
      OtherChild(pt, n, [m] + x);
      OtherChild(ps, n, [m] + x);
      assert Under(pt, qt) && Under(ps, qs);
      ChildApart(ps, pt, n, qt);
      ChildApart(pt, ps, n, qs);
      assert Unchanged(ns, r, qt) && Unchanged(ns, r, qs);
    }
  }

  /** What two consecutive parts printed, for two sets of children with no name in common. */
  lemma PrintedJoin(cfg: Settings, ask: Oracle, ns: Namespace, pt: Path, ps: Path, na: set<Name>, nb: set<Name>,
                    a: seq<Event>, b: seq<Event>)
    requires na !! nb
    requires MergeEvents(cfg, a, pt, ps) && MergeEvents(cfg, b, pt, ps)
    requires PrintedFor(cfg, ask, ns, pt, ps, na, a) && PrintedFor(cfg, ask, ns, pt, ps, nb, b)
    ensures PrintedFor(cfg, ask, ns, pt, ps, na + nb, a + b)
  {
    forall e | e in a ensures e !in b {
      var x := e.source[|ps|..];
      assert e.source == ps + x;
      assert e == Renamed(ps + x, pt + x);
    }
    forall i, j | 0 <= i < j < |a + b| ensures (a + b)[i] != (a + b)[j] {
      if i < |a| && j >= |a| {
        assert (a + b)[i] in a && (a + b)[j] == b[j - |a|];
      }
    }
  }

  /** One child of the loop of mv_suboverlay prints the moves at or below that child. */
  lemma EntryPrintsMoves(cfg: Settings, ask: Oracle, ns0: Namespace, ns: Namespace, pt: Path, ps: Path, e: Entry)
    requires cfg.verbose && WellFormed(ns0) && WellFormed(ns) && Disjoint(pt, ps)
    requires pt in ns0 && ns0[pt] == Dir
    requires Listed(ns0, ps, e) && SourceShrinks(ns0, ns, ps) && ChildUntouched(ns0, ns, pt, ps, e.name)
    ensures var o := OverlayEntry(cfg, ask, ns0, ns, pt, ps, e);
      o.failure == None ==> PrintedFor(cfg, ask, ns0, pt, ps, {e.name}, o.events)
    decreases |Desc(ns0, ps)|, 0
  {
    var n := e.name;
    var tp, sp := pt + [n], ps + [n];
    var o := OverlayEntry(cfg, ask, ns0, ns, pt, ps, e);
    ChildrenDisjoint(pt, ps, n);
    assert pt + ([n] + []) == tp && ps + ([n] + []) == sp;
    assert Unchanged(ns0, ns, tp) && Unchanged(ns0, ns, sp);
    if tp !in ns {
      AbsentChildPrints(cfg, ask, ns0, pt, ps, n, o.events);
    } else if e.kind != KindOf(ns[tp]) {
    } else if e.kind == DIRECTORY {
      DescShrinks(ns0, ns, ps, n);
      OverlayPrintsMoves(cfg, ask, ns, tp, sp);
      if o.failure == None {
        DirPairPrints(cfg, ask, ns0, ns, pt, ps, n, o.events);
      }
    } else {
      FilePairPrints(cfg, ask, ns0, pt, ps, n, o.events);
    }
  }

  /** A child the target lacks is moved in whole, with one line. */
  lemma AbsentChildPrints(cfg: Settings, ask: Oracle, ns: Namespace, pt: Path, ps: Path, n: Name, events: seq<Event>)
    requires WellFormed(ns) && pt in ns && ns[pt] == Dir
    requires ps + [n] in ns && pt + [n] !in ns
    requires events == [Renamed(ps + [n], pt + [n])]
    ensures PrintedFor(cfg, ask, ns, pt, ps, {n}, events)
  {
    AbsentSubtree(ns, pt + [n]);
    forall x ensures Renamed(ps + x, pt + x) in events <==> x != [] && x[0] == n && MovedIn(cfg, ask, ns, pt, ps, x) {
      if x == [n] {
        assert Parent(x) == [] && pt + [] == pt;
      } else {
        assert (ps + x)[|ps|..] == x && (ps + [n])[|ps|..] == [n];
        if x != [] && x[0] == n {
          assert x == [n] + x[1..];
          assert Parent(x) == [n] + Parent(x[1..]);
          assert pt + Parent(x) == pt + [n] + Parent(x[1..]);
        }
      }
    }
  }

  /** Two files: one line when the decision replaces the target, none when it keeps it. */
  lemma FilePairPrints(cfg: Settings, ask: Oracle, ns: Namespace, pt: Path, ps: Path, n: Name, events: seq<Event>)
    requires WellFormed(ns) && pt in ns && ns[pt] == Dir
    requires ps + [n] in ns && pt + [n] in ns && ns[ps + [n]].File? && ns[pt + [n]].File?
    requires events == if Overwrites(cfg, ask(pt + [n])) then [Renamed(ps + [n], pt + [n])] else []
    ensures PrintedFor(cfg, ask, ns, pt, ps, {n}, events)
  {
    forall x ensures Renamed(ps + x, pt + x) in events <==> x != [] && x[0] == n && MovedIn(cfg, ask, ns, pt, ps, x) {
      if x == [n] {
        assert Parent(x) == [] && pt + [] == pt;
      } else {
        assert (ps + x)[|ps|..] == x && (ps + [n])[|ps|..] == [n];
        if x != [] && x[0] == n {
          assert ps + x == ps + [n] + x[1..];
          NothingBelow(ns, ps + [n], ps + x);
        }
      }
    }
  }

  /** Two directories: the lines of the nested merge, which are the moves below that child. */
  lemma DirPairPrints(cfg: Settings, ask: Oracle, ns0: Namespace, ns: Namespace, pt: Path, ps: Path, n: Name,
                      events: seq<Event>)
    requires ChildUntouched(ns0, ns, pt, ps, n)
    requires pt + [n] in ns0 && ns0[pt + [n]] == Dir
    requires MergeEvents(cfg, events, pt + [n], ps + [n])
    requires PrintedExactly(cfg, ask, ns, pt + [n], ps + [n], events)
    ensures PrintedFor(cfg, ask, ns0, pt, ps, {n}, events)
  {
    forall x ensures Renamed(ps + x, pt + x) in events <==> x != [] && x[0] == n && MovedIn(cfg, ask, ns0, pt, ps, x) {
      if x != [] && x[0] == n {
        var y := x[1..];
        assert x == [n] + y;
        ChildPath(pt, n, y);
        ChildPath(ps, n, y);
        MovedInChild(cfg, ask, ns0, ns, pt, ps, n, y);
      } else {
        OtherChild(ps, n, x);
      }
    }
  }

  /** Below two directory children, moving `y` below the child is moving `[n] + y` below the parents. */
  lemma MovedInChild(cfg: Settings, ask: Oracle, ns0: Namespace, ns: Namespace, pt: Path, ps: Path, n: Name, y: Path)
    requires ChildUntouched(ns0, ns, pt, ps, n)
    requires pt + [n] in ns0 && ns0[pt + [n]] == Dir
    ensures MovedIn(cfg, ask, ns, pt + [n], ps + [n], y) <==> MovedIn(cfg, ask, ns0, pt, ps, [n] + y)
  {
    var x := [n] + y;
    if y == [] {
      assert x == [n] && Parent(x) == [];
      assert pt + x == pt + [n];
    } else {
      assert Parent(x) == [n] + Parent(y);
      ChildPath(pt, n, Parent(y));
      ChildPath(pt, n, y);
      ChildPath(ps, n, y);
      assert Unchanged(ns0, ns, pt + ([n] + Parent(y)));
      assert Unchanged(ns0, ns, pt + ([n] + y)) && Unchanged(ns0, ns, ps + ([n] + y));
    }
  }
}
