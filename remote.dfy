/**
 * The WebHDFS client the move engine talks to, as an object holding the
 * remote namespace. Its four calls are the lookups (stat?, list?) and the two
 * updates (delete, rename) the engine makes.
 */
module Remote {
  import opened Wrappers
  import opened Paths
  import opened FileSystem

  class Client {
    /** The remote namespace as the NameNode holds it. */
    var ns: Namespace

    ghost predicate Valid()
      reads this
    {
      WellFormed(ns)
    }

    constructor(initial: Namespace)
      requires WellFormed(initial)
      ensures Valid() && ns == initial
    {
      ns := initial;
    }

    /** stat?: the 'type' of the status of `p`, or nothing when `p` does not exist. */
    method Stat(p: Path) returns (r: Option<Kind>)
      ensures r.Some? <==> p in ns
      ensures r.Some? ==> r.value == KindOf(ns[p])
    {
      if p in ns {
        r := Some(KindOf(ns[p]));
      } else {
        r := None;
      }
    }

    /** list?: the statuses of the children of `p`. */
    method List(p: Path) returns (entries: seq<Entry>)
      ensures entries == Listing(ns, p)
      ensures forall e :: e in entries ==> p + [e.name] in ns && e.kind == KindOf(ns[p + [e.name]])
      ensures forall n :: p + [n] in ns ==> exists e :: e in entries && e.name == n
    {
      entries := Listing(ns, p);
      forall n | p + [n] in ns ensures exists e :: e in entries && e.name == n {
        assert n in EntryNames(entries);
      }
    }

    /** DELETE with recursion: `p` and its subtree are removed. */
    method Delete(p: Path)
      requires Valid()
      modifies this
      ensures Valid()
      ensures ns == AfterDelete(old(ns), p)
    {
      DeleteWellFormed(ns, p);
      ns := AfterDelete(ns, p);
    }

    /** RENAME `s` to `t`: the subtree at `s` moves to `t`, when the NameNode accepts it. */
    method Rename(s: Path, t: Path)
      requires Valid()
      modifies this
      ensures Valid()
      ensures ns == AfterRename(old(ns), s, t)
    {
      RenameWellFormed(ns, s, t);
      ns := AfterRename(ns, s, t);
    }
  }
}
