/**
 * What one run of hdmv does to the remote namespace, written as functions:
 * the overwrite decision, the single-pair move (mv_to_file), the fan-out into
 * a directory (mv_to_dir), the recursive tree merge (mv_suboverlay) and the
 * top-level dispatch (mv). Each returns the namespace afterwards, the lines
 * printed (as events) and the exception raised, if any.
 */
module MoveSpec {
  import opened Wrappers
  import opened Paths
  import opened FileSystem

  /** The flags hdmv reads: --overlay, -f, -n, -i and -v. */
  datatype Settings = Settings(overlay: bool, force: bool, noOverwrite: bool, interactive: bool, verbose: bool)

  /** The answer typed at the "overwrite <target>? (y/n)" prompt for a target. */
  type Oracle = Path -> string

  /** A line the engine prints: "<source> -> <target>", or the type-mismatch error. */
  datatype Event =
    | Renamed(source: Path, target: Path)
    | Conflict(source: Path, sourceKind: Kind, target: Path, targetKind: Kind)

  /** The exceptions that end a run. */
  datatype Failure =
    | OverlayUsage                           // "Usage: hdmv [source_directory] [target_directory] --overlay"
    | NotADirectory(target: Path)            // "target `...' is not a directory"
    | MissingSource(source: Path)            // the nil status of a missing source is dereferenced
    | UndefinedName(source: Path, target: Path)  // the overlay mismatch message names undefined locals

  /** The namespace afterwards, what was printed, and the exception raised, if any. */
  datatype Outcome = Outcome(ns: Namespace, events: seq<Event>, failure: Option<Failure>)

  /** `o`, after `events` were printed first. */
  function Prefixed(events: seq<Event>, o: Outcome): Outcome {
    o.(events := events + o.events)
  }

  /**
   * The overwrite decision of mv_to_file for a target of the same kind: `-n`
   * presets the answer "n" (otherwise "y"), `-i` replaces it by the typed
   * answer, and `-f` overwrites whatever the answer.
   */
  function Overwrites(cfg: Settings, answer: string): (r: bool)
    ensures r <==> cfg.force || (cfg.interactive && answer == "y") || (!cfg.interactive && !cfg.noOverwrite)
  {
    var preset := if cfg.noOverwrite then "n" else "y";
    var overwrite := if cfg.interactive then answer else preset;
    cfg.force || overwrite == "y"
  }

  /** rename_file: RENAME `source` to `target`, then print the move under -v. */
  function RenameFile(cfg: Settings, ns: Namespace, target: Path, source: Path): Outcome {
    Outcome(AfterRename(ns, source, target), if cfg.verbose then [Renamed(source, target)] else [], None)
  }

  /**
   * mv_to_file: move `source` onto the literal path `target`. Nothing outside
   * `target` appears or changes, and nothing outside `target` and `source`
   * disappears.
   */
  function MoveToFile(cfg: Settings, ask: Oracle, ns: Namespace, target: Path, source: Path): (o: Outcome)
    ensures forall q :: !Under(target, q) && q in o.ns ==> q in ns && o.ns[q] == ns[q]
    ensures forall q :: !Under(target, q) && !Under(source, q) && q in ns ==> q in o.ns
    ensures forall e :: e in o.events ==> e.source == source && e.target == target && (e.Renamed? ==> cfg.verbose)
    ensures forall e :: e in o.events && e.Conflict? ==>
      source in ns && target in ns && e.sourceKind == KindOf(ns[source]) != e.targetKind == KindOf(ns[target])
  {
    if target in ns then
      if source !in ns then
        Outcome(ns, [], Some(MissingSource(source)))
      else if KindOf(ns[source]) != KindOf(ns[target]) then
        Outcome(ns, [Conflict(source, KindOf(ns[source]), target, KindOf(ns[target]))], None)
      else if Overwrites(cfg, ask(target)) then
        RenameFile(cfg, AfterDelete(ns, target), target, source)
      else
        Outcome(ns, [], None)
    else
      RenameFile(cfg, ns, target, source)
  }

  /** mv_to_dir: move each source, in order, to `dir` joined with its basename. */
  function MoveToDir(cfg: Settings, ask: Oracle, ns: Namespace, dir: Path, sources: seq<Path>): Outcome
    decreases |sources|
  {
    if sources == [] then
      Outcome(ns, [], None)
    else
      var first := MoveToFile(cfg, ask, ns, Destination(dir, sources[0]), sources[0]);
      if first.failure.Some? then first
      else Prefixed(first.events, MoveToDir(cfg, ask, first.ns, dir, sources[1..]))
  }

  /**
   * `printed` followed by what `rest` prints is what `all` printed after
   * `p0`, and `rest` ends where `all` ends.
   */
  ghost predicate Tracks(all: Outcome, rest: Outcome, printed: seq<Event>, p0: seq<Event>) {
    all.ns == rest.ns && all.failure == rest.failure && printed + rest.events == p0 + all.events
  }

  /** Tracking survives one step that printed `first.events` and either stopped or goes on with `next`. */
  lemma TracksStep(all: Outcome, rest: Outcome, first: Outcome, next: Outcome, printed: seq<Event>, p0: seq<Event>)
    requires Tracks(all, rest, printed, p0)
    requires if first.failure.Some? then rest == first else rest == Prefixed(first.events, next)
    ensures Tracks(all, if first.failure.Some? then first.(events := []) else next, printed + first.events, p0)
  {
    if first.failure.None? {
      assert printed + first.events + next.events == printed + (first.events + next.events);
    }
  }

  /** One step of mv_to_dir: the first source, then the rest unless the first raised. */
  lemma MoveToDirStep(cfg: Settings, ask: Oracle, ns: Namespace, dir: Path, sources: seq<Path>, i: nat)
    requires i < |sources|
    ensures var first := MoveToFile(cfg, ask, ns, Destination(dir, sources[i]), sources[i]);
      if first.failure.Some? then MoveToDir(cfg, ask, ns, dir, sources[i..]) == first
      else MoveToDir(cfg, ask, ns, dir, sources[i..]) == Prefixed(first.events, MoveToDir(cfg, ask, first.ns, dir, sources[i + 1..]))
  {
    var rest := sources[i..];
    assert rest[0] == sources[i] && rest[1..] == sources[i + 1..];
  }

  // The tree merge. It recurses into the source tree while it renames parts
  // of that tree away, so its termination measure is the number of paths
  // still below the source directory, which the merge never increases.

  ghost function Desc(ns: Namespace, p: Path): set<Path> {
    set q | q in ns && Below(p, q)
  }

  ghost predicate Unchanged(ns: Namespace, ns': Namespace, q: Path) {
    (q in ns' <==> q in ns) && (q in ns ==> ns'[q] == ns[q])
  }

  /**
   * Merging below `pt` and `ps` changes nothing but what lies strictly below
   * them, and below `ps` things only disappear.
   */
  ghost predicate MergeFrame(ns: Namespace, ns': Namespace, pt: Path, ps: Path) {
    && (forall q :: !Below(pt, q) && !Below(ps, q) ==> Unchanged(ns, ns', q))
    && (forall q :: Under(ps, q) && q in ns' ==> q in ns && ns'[q] == ns[q])
  }

  /** Handling one child pair changes nothing but what lies at or below the pair. */
  ghost predicate EntryFrame(ns: Namespace, ns': Namespace, tp: Path, sp: Path) {
    && (forall q :: !Under(tp, q) && !Under(sp, q) ==> Unchanged(ns, ns', q))
    && (forall q :: Under(sp, q) && q in ns' ==> q in ns && ns'[q] == ns[q])
  }

  /**
   * Every line a merge prints is a verbose "<source> -> <target>" for a source
   * below `ps` and its counterpart below `pt`: a merge never reports a conflict.
   */
  ghost predicate MergeEvents(cfg: Settings, events: seq<Event>, pt: Path, ps: Path) {
    forall e :: e in events ==>
      && e.Renamed? && cfg.verbose
      && Under(ps, e.source) && e.target == Rebase(e.source, ps, pt)
  }

  /** Below `ps`, `ns` keeps only what `ns0` had there, unchanged. */
  ghost predicate SourceShrinks(ns0: Namespace, ns: Namespace, ps: Path) {
    forall q :: Below(ps, q) && q in ns ==> q in ns0 && ns[q] == ns0[q]
  }

  /** `e` is the entry list? gave for a child of `ps` in `ns0`. */
  ghost predicate Listed(ns0: Namespace, ps: Path, e: Entry) {
    ps + [e.name] in ns0 && e.kind == KindOf(ns0[ps + [e.name]])
  }

  lemma {:induction false} SubsetSize<T>(a: set<T>, b: set<T>)
    requires a <= b
    ensures |a| <= |b|
    decreases |a|
  {
    if a != {} {
      var x :| x in a;
      SubsetSize(a - {x}, b - {x});
    }
  }

  /** A listed child has fewer paths below it than its parent had when it was listed. */
  lemma DescShrinks(ns0: Namespace, ns: Namespace, ps: Path, n: Name)
    requires ps + [n] in ns0 && SourceShrinks(ns0, ns, ps)
    ensures |Desc(ns, ps + [n])| < |Desc(ns0, ps)|
  {
    var sp := ps + [n];
    assert Below(ps, sp);
    forall q | q in Desc(ns, sp) ensures q in Desc(ns0, ps) - {sp} {
      UnderTransitive(ps, sp, q);
    }
    SubsetSize(Desc(ns, sp), Desc(ns0, ps) - {sp});
  }

  /** One handled child keeps the source side from growing. */
  lemma EntryKeepsShrinking(ns0: Namespace, ns: Namespace, ns': Namespace, pt: Path, ps: Path, n: Name)
    requires Disjoint(pt, ps) && SourceShrinks(ns0, ns, ps)
    requires EntryFrame(ns, ns', pt + [n], ps + [n])
    ensures SourceShrinks(ns0, ns', ps)
  {
    forall q | Below(ps, q) && q in ns' ensures q in ns0 && ns'[q] == ns0[q] {
      ChildApart(pt, ps, n, q);
      if !Under(ps + [n], q) {
        assert Unchanged(ns, ns', q);
      }
    }
  }

  /** A pair's frame follows from the merge frame of the same pair. */
  lemma MergeFrameIsEntryFrame(ns: Namespace, ns': Namespace, tp: Path, sp: Path)
    requires MergeFrame(ns, ns', tp, sp)
    ensures EntryFrame(ns, ns', tp, sp)
  {
    forall q | !Under(tp, q) && !Under(sp, q) ensures Unchanged(ns, ns', q) {
      assert !Below(tp, q) && !Below(sp, q);
    }
  }

  /** A pair's frame, for a pair that lies apart from each other. */
  lemma MoveToFileFrame(cfg: Settings, ask: Oracle, ns: Namespace, tp: Path, sp: Path)
    requires Disjoint(tp, sp)
    ensures EntryFrame(ns, MoveToFile(cfg, ask, ns, tp, sp).ns, tp, sp)
  {
    var o := MoveToFile(cfg, ask, ns, tp, sp);
    forall q | !Under(tp, q) && !Under(sp, q) ensures Unchanged(ns, o.ns, q) {
    }
    forall q | Under(sp, q) && q in o.ns ensures q in ns && o.ns[q] == ns[q] {
      UnderComparable(tp, sp, q);
    }
  }

  /** Merging one pair of children keeps the merge frame of their parents. */
  lemma EntryFrameIsMergeFrame(ns: Namespace, ns1: Namespace, ns2: Namespace, pt: Path, ps: Path, n: Name)
    requires Disjoint(pt, ps)
    requires EntryFrame(ns, ns1, pt + [n], ps + [n]) && MergeFrame(ns1, ns2, pt, ps)
    ensures MergeFrame(ns, ns2, pt, ps)
  {
    forall q | !Below(pt, q) && !Below(ps, q) ensures Unchanged(ns, ns2, q) {
      assert Under(pt, pt + [n]) && Under(ps, ps + [n]);
      UnderTransitive(pt, pt + [n], q);
      UnderTransitive(ps, ps + [n], q);
      assert Unchanged(ns, ns1, q);
    }
    forall q | Under(ps, q) && q in ns2 ensures q in ns && ns2[q] == ns[q] {
      ChildApart(pt, ps, n, q);
      assert q in ns1 && ns2[q] == ns1[q];
      assert Unchanged(ns, ns1, q) || Under(ps + [n], q);
    }
  }

  lemma MergeEventsChild(cfg: Settings, events: seq<Event>, pt: Path, ps: Path, n: Name)
    requires MergeEvents(cfg, events, pt + [n], ps + [n])
    ensures MergeEvents(cfg, events, pt, ps)
  {
    forall e | e in events
      ensures Under(ps, e.source) && e.target == Rebase(e.source, ps, pt)
    {
      assert Under(ps, ps + [n]);
      UnderTransitive(ps, ps + [n], e.source);
      var x := e.source[|ps + [n]|..];
      assert e.source == ps + [n] + x;
      assert e.source[|ps|..] == [n] + x;
      assert e.target == pt + [n] + x;
    }
  }

  /**
   * mv_suboverlay: merge the directory `ps` into the directory `pt`, one
   * listed child of `ps` at a time.
   */
  function Overlay(cfg: Settings, ask: Oracle, ns: Namespace, pt: Path, ps: Path): (o: Outcome)
    requires Disjoint(pt, ps)
    ensures MergeFrame(ns, o.ns, pt, ps)
    ensures MergeEvents(cfg, o.events, pt, ps)
    decreases |Desc(ns, ps)|, 2
  {
    OverlayEntries(cfg, ask, ns, ns, pt, ps, Listing(ns, ps))
  }

  /** The loop of mv_suboverlay over the children `entries` listed in `ns0`. */
  function OverlayEntries(cfg: Settings, ask: Oracle, ns0: Namespace, ns: Namespace, pt: Path, ps: Path,
                          entries: seq<Entry>): (o: Outcome)
    requires Disjoint(pt, ps)
    requires forall e :: e in entries ==> Listed(ns0, ps, e)
    requires SourceShrinks(ns0, ns, ps)
    ensures MergeFrame(ns, o.ns, pt, ps)
    ensures MergeEvents(cfg, o.events, pt, ps)
    decreases |Desc(ns0, ps)|, 1, |entries|
  {
    if entries == [] then
      Outcome(ns, [], None)
    else
      var n := entries[0].name;
      var first := OverlayEntry(cfg, ask, ns0, ns, pt, ps, entries[0]);
      EntryKeepsShrinking(ns0, ns, first.ns, pt, ps, n);
      MergeEventsChild(cfg, first.events, pt, ps, n);
      if first.failure.Some? then
        EntryFrameIsMergeFrame(ns, first.ns, first.ns, pt, ps, n);
        first
      else
        var rest := OverlayEntries(cfg, ask, ns0, first.ns, pt, ps, entries[1..]);
        EntryFrameIsMergeFrame(ns, first.ns, rest.ns, pt, ps, n);
        Prefixed(first.events, rest)
  }

  /**
   * One child `e` of `ps`: a missing target child is renamed in, two
   * directories are merged, two files go through mv_to_file, and a kind
   * mismatch raises (the message it tries to print names undefined locals).
   */
  function OverlayEntry(cfg: Settings, ask: Oracle, ns0: Namespace, ns: Namespace, pt: Path, ps: Path,
                        e: Entry): (o: Outcome)
    requires Disjoint(pt, ps)
    requires Listed(ns0, ps, e)
    requires SourceShrinks(ns0, ns, ps)
    ensures EntryFrame(ns, o.ns, pt + [e.name], ps + [e.name])
    ensures MergeEvents(cfg, o.events, pt + [e.name], ps + [e.name])
    decreases |Desc(ns0, ps)|, 0, 0
  {
    var tp, sp := pt + [e.name], ps + [e.name];
    ChildrenDisjoint(pt, ps, e.name);
    MoveToFileFrame(cfg, ask, ns, tp, sp);
    assert Rebase(sp, sp, tp) == tp;
    if tp in ns then
      if e.kind != KindOf(ns[tp]) then
        Outcome(ns, [], Some(UndefinedName(sp, tp)))
      else if e.kind == DIRECTORY then
        DescShrinks(ns0, ns, ps, e.name);
        var o := Overlay(cfg, ask, ns, tp, sp);
        MergeFrameIsEntryFrame(ns, o.ns, tp, sp);
        o
      else
        MoveToFile(cfg, ask, ns, tp, sp)
    else
      MoveToFile(cfg, ask, ns, tp, sp)
  }

  /** One step of the loop of mv_suboverlay. */
  lemma OverlayEntriesStep(cfg: Settings, ask: Oracle, ns0: Namespace, ns: Namespace, pt: Path, ps: Path,
                           entries: seq<Entry>, i: nat)
    requires Disjoint(pt, ps) && i < |entries|
    requires forall e :: e in entries ==> Listed(ns0, ps, e)
    requires SourceShrinks(ns0, ns, ps)
    ensures SourceShrinks(ns0, OverlayEntry(cfg, ask, ns0, ns, pt, ps, entries[i]).ns, ps)
    ensures var first := OverlayEntry(cfg, ask, ns0, ns, pt, ps, entries[i]);
      if first.failure.Some? then OverlayEntries(cfg, ask, ns0, ns, pt, ps, entries[i..]) == first
      else (OverlayEntries(cfg, ask, ns0, ns, pt, ps, entries[i..])
        == Prefixed(first.events, OverlayEntries(cfg, ask, ns0, first.ns, pt, ps, entries[i + 1..])))
  {
    var rest := entries[i..];
    assert rest[0] == entries[i] && rest[1..] == entries[i + 1..];
    EntryKeepsShrinking(ns0, ns, OverlayEntry(cfg, ask, ns0, ns, pt, ps, entries[i]).ns, pt, ps, entries[i].name);
  }

  /** The overlay branch of mv: check each source, then merge it into `target`. */
  function OverlaySources(cfg: Settings, ask: Oracle, ns: Namespace, target: Path, targetIsDir: bool,
                          sources: seq<Path>): Outcome
    requires forall s :: s in sources ==> Disjoint(target, s)
    decreases |sources|
  {
    if sources == [] then
      Outcome(ns, [], None)
    else
      var s := sources[0];
      if !(s in ns && ns[s] == Dir && targetIsDir) then
        Outcome(ns, [], Some(OverlayUsage))
      else
        var first := Overlay(cfg, ask, ns, target, s);
        if first.failure.Some? then first
        else Prefixed(first.events, OverlaySources(cfg, ask, first.ns, target, targetIsDir, sources[1..]))
  }

  /** One step of the overlay branch of mv. */
  lemma OverlaySourcesStep(cfg: Settings, ask: Oracle, ns: Namespace, target: Path, targetIsDir: bool,
                           sources: seq<Path>, i: nat)
    requires forall s :: s in sources ==> Disjoint(target, s)
    requires i < |sources|
    ensures var s := sources[i];
      !(s in ns && ns[s] == Dir && targetIsDir) ==>
        OverlaySources(cfg, ask, ns, target, targetIsDir, sources[i..]) == Outcome(ns, [], Some(OverlayUsage))
    ensures var s := sources[i];
      s in ns && ns[s] == Dir && targetIsDir ==>
        var first := Overlay(cfg, ask, ns, target, s);
        if first.failure.Some? then OverlaySources(cfg, ask, ns, target, targetIsDir, sources[i..]) == first
        else (OverlaySources(cfg, ask, ns, target, targetIsDir, sources[i..])
          == Prefixed(first.events, OverlaySources(cfg, ask, first.ns, target, targetIsDir, sources[i + 1..])))
  {
    var rest := sources[i..];
    assert rest[0] == sources[i] && rest[1..] == sources[i + 1..];
  }

  /**
   * mv: with --overlay, merge every source directory into the target
   * directory; otherwise move the sources into an existing target directory,
   * or the single source onto the target path.
   */
  function Move(cfg: Settings, ask: Oracle, ns: Namespace, target: Path, sources: seq<Path>): Outcome
    requires !cfg.overlay && !(target in ns && ns[target] == Dir) ==> |sources| > 0
    requires cfg.overlay ==> forall s :: s in sources ==> Disjoint(target, s)
  {
    var targetIsDir := target in ns && ns[target] == Dir;
    if cfg.overlay then
      OverlaySources(cfg, ask, ns, target, targetIsDir, sources)
    else if targetIsDir then
      MoveToDir(cfg, ask, ns, target, sources)
    else if |sources| > 1 then
      Outcome(ns, [], Some(NotADirectory(target)))
    else
      MoveToFile(cfg, ask, ns, target, sources[0])
  }
}
