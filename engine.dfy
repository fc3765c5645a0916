/**
 * The move engine as the program runs it: an object holding the client, the
 * flags and the prompt, whose methods query and update the remote namespace
 * step by step and append what they print to `printed`. Each method is proved
 * to end in the namespace, output and exception the MoveSpec functions give.
 */
module MoveEngine {
  import opened Wrappers
  import opened Paths
  import opened FileSystem
  import opened Remote
  import opened MoveSpec

  class Mover {
    const client: Client
    const settings: Settings
    /** The answer typed at the overwrite prompt for each target. */
    const ask: Oracle
    /** Everything printed so far, oldest first. */
    var printed: seq<Event>

    ghost predicate Valid()
      reads this, client
    {
      client.Valid()
    }

    constructor(client: Client, settings: Settings, ask: Oracle)
      requires client.Valid()
      ensures Valid()
      ensures this.client == client && this.settings == settings && this.ask == ask
      ensures printed == []
    {
      this.client := client;
      this.settings := settings;
      this.ask := ask;
      printed := [];
    }

    /** mv: dispatch on --overlay and on whether `target` is an existing directory. */
    method Mv(target: Path, sources: seq<Path>) returns (failure: Option<Failure>)
      requires Valid()
      requires !settings.overlay && !(target in client.ns && client.ns[target] == Dir) ==> |sources| > 0
      requires settings.overlay ==> forall s :: s in sources ==> Disjoint(target, s)
      modifies this, client
      ensures Valid()
      ensures var o := Move(settings, ask, old(client.ns), target, sources);
        client.ns == o.ns && printed == old(printed) + o.events && failure == o.failure
    {
      var targetKind := client.Stat(target);
      var targetIsDir := targetKind == Some(DIRECTORY);
      if settings.overlay {
        failure := MvOverlays(target, targetIsDir, sources);
      } else if targetIsDir {
        failure := MvToDir(target, sources);
      } else if |sources| > 1 {
        failure := Some(NotADirectory(target));
      } else {
        failure := MvToFile(target, sources[0]);
      }
    }

    /** The overlay branch of mv: each source must be a directory, as must the target stat'ed before. */
    method MvOverlays(target: Path, targetIsDir: bool, sources: seq<Path>) returns (failure: Option<Failure>)
      requires Valid()
      requires forall s :: s in sources ==> Disjoint(target, s)
      modifies this, client
      ensures Valid()
      ensures var o := OverlaySources(settings, ask, old(client.ns), target, targetIsDir, sources);
        client.ns == o.ns && printed == old(printed) + o.events && failure == o.failure
    {
      ghost var all, p0 := OverlaySources(settings, ask, client.ns, target, targetIsDir, sources), printed;
      var i := 0;
      while i < |sources|
        invariant 0 <= i <= |sources| && Valid()
        invariant Tracks(all, OverlaySources(settings, ask, client.ns, target, targetIsDir, sources[i..]), printed, p0)
      {
        OverlaySourcesStep(settings, ask, client.ns, target, targetIsDir, sources, i);
        ghost var rest, p := OverlaySources(settings, ask, client.ns, target, targetIsDir, sources[i..]), printed;
        var sourceKind := client.Stat(sources[i]);
        if !(sourceKind == Some(DIRECTORY) && targetIsDir) {
          return Some(OverlayUsage);
        }
        failure := MvSubOverlay(target, sources[i]);
        ghost var first := Outcome(client.ns, printed[|p|..], failure);
        assert printed == p + first.events;
        TracksStep(all, rest, first, OverlaySources(settings, ask, client.ns, target, targetIsDir, sources[i + 1..]), p, p0);
        if failure.Some? {
          return;
        }
        i := i + 1;
      }
      return None;
    }

    /** mv_suboverlay: merge the children of directory `ps` into directory `pt`. */
    method MvSubOverlay(pt: Path, ps: Path) returns (failure: Option<Failure>)
      requires Valid() && Disjoint(pt, ps)
      modifies this, client
      ensures Valid()
      ensures var o := Overlay(settings, ask, old(client.ns), pt, ps);
        client.ns == o.ns && printed == old(printed) + o.events && failure == o.failure
      decreases |Desc(client.ns, ps)|, 1
    {
      var entries := client.List(ps);
      ghost var ns0, all, p0 := client.ns, Overlay(settings, ask, client.ns, pt, ps), printed;
      var i := 0;
      while i < |entries|
        invariant 0 <= i <= |entries| && Valid()
        invariant SourceShrinks(ns0, client.ns, ps)
        invariant Tracks(all, OverlayEntries(settings, ask, ns0, client.ns, pt, ps, entries[i..]), printed, p0)
      {
        OverlayEntriesStep(settings, ask, ns0, client.ns, pt, ps, entries, i);
        ghost var rest, p := OverlayEntries(settings, ask, ns0, client.ns, pt, ps, entries[i..]), printed;
        failure := MvOverlayEntry(ns0, pt, ps, entries[i]);
        ghost var first := Outcome(client.ns, printed[|p|..], failure);
        assert printed == p + first.events;
        TracksStep(all, rest, first, OverlayEntries(settings, ask, ns0, client.ns, pt, ps, entries[i + 1..]), p, p0);
        if failure.Some? {
          return;
        }
        i := i + 1;
      }
      return None;
    }

    /** The body of the loop of mv_suboverlay, for the child `e` of `ps` listed in `ns0`. */
    method MvOverlayEntry(ghost ns0: Namespace, pt: Path, ps: Path, e: Entry) returns (failure: Option<Failure>)
      requires Valid() && Disjoint(pt, ps)
      requires Listed(ns0, ps, e) && SourceShrinks(ns0, client.ns, ps)
      modifies this, client
      ensures Valid()
      ensures var o := OverlayEntry(settings, ask, ns0, old(client.ns), pt, ps, e);
        client.ns == o.ns && printed == old(printed) + o.events && failure == o.failure
      decreases |Desc(ns0, ps)|, 0
    {
      var tp, sp := pt + [e.name], ps + [e.name];
      var targetKind := client.Stat(tp);
      if targetKind.Some? {
        if e.kind != targetKind.value {
          return Some(UndefinedName(sp, tp));
        } else if e.kind == DIRECTORY {
          DescShrinks(ns0, client.ns, ps, e.name);
          ChildrenDisjoint(pt, ps, e.name);
          failure := MvSubOverlay(tp, sp);
        } else {
          failure := MvToFile(tp, sp);
        }
      } else {
        failure := MvToFile(tp, sp);
      }
    }

    /** mv_to_dir: move each source, in order, to `dir` joined with its basename. */
    method MvToDir(dir: Path, sources: seq<Path>) returns (failure: Option<Failure>)
      requires Valid()
      modifies this, client
      ensures Valid()
      ensures var o := MoveToDir(settings, ask, old(client.ns), dir, sources);
        client.ns == o.ns && printed == old(printed) + o.events && failure == o.failure
    {
      ghost var all, p0 := MoveToDir(settings, ask, client.ns, dir, sources), printed;
      var i := 0;
      while i < |sources|
        invariant 0 <= i <= |sources| && Valid()
        invariant Tracks(all, MoveToDir(settings, ask, client.ns, dir, sources[i..]), printed, p0)
      {
        MoveToDirStep(settings, ask, client.ns, dir, sources, i);
        ghost var rest, p := MoveToDir(settings, ask, client.ns, dir, sources[i..]), printed;
        failure := MvToFile(Destination(dir, sources[i]), sources[i]);
        ghost var first := Outcome(client.ns, printed[|p|..], failure);
        assert printed == p + first.events;
        TracksStep(all, rest, first, MoveToDir(settings, ask, client.ns, dir, sources[i + 1..]), p, p0);
        if failure.Some? {
          return;
        }
        i := i + 1;
      }
      return None;
    }

    /** mv_to_file: move `source` onto the literal path `target`. */
    method MvToFile(target: Path, source: Path) returns (failure: Option<Failure>)
      requires Valid()
      modifies this, client
      ensures Valid()
      ensures var o := MoveToFile(settings, ask, old(client.ns), target, source);
        client.ns == o.ns && printed == old(printed) + o.events && failure == o.failure
    {
      var sourceKind := client.Stat(source);
      var targetKind := client.Stat(target);
      if targetKind.Some? {
        if sourceKind.None? {
          return Some(MissingSource(source));
        }
        if sourceKind.value != targetKind.value {
          printed := printed + [Conflict(source, sourceKind.value, target, targetKind.value)];
        } else {
          var overwrite := if settings.noOverwrite then "n" else "y";
          if settings.interactive {
            overwrite := ask(target);
          }
          if settings.force || overwrite == "y" {
            client.Delete(target);
            RenameFile(target, source);
          }
        }
      } else {
        RenameFile(target, source);
      }
      return None;
    }

    /** rename_file: RENAME `source` to `target`, then print the move under -v. */
    method RenameFile(target: Path, source: Path)
      requires Valid()
      modifies this, client
      ensures Valid()
      ensures var o := MoveSpec.RenameFile(settings, old(client.ns), target, source);
        client.ns == o.ns && printed == old(printed) + o.events
    {
      client.Rename(source, target);
      if settings.verbose {
        printed := printed + [Renamed(source, target)];
      }
    }
  }
}
