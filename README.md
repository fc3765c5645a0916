# hdmv move engine, in Dafny

`hdmv` is the `mv` of the hdfsutils command-line tools: it moves paths of a
remote HDFS filesystem through WebHDFS. This project models its move engine
(`lib/hdfsutils/utils/hdmv/implementation.rb`) and proves what it does to the
remote namespace, what it prints and when it raises.

- `paths.dfy`: module `Wrappers` (`Option`) and module `Paths`. A path is its list of
  components (`"/a/bar.txt"` is `["a", "bar.txt"]`, `"/"` is `[]`). The module also holds
  prefix containment (`Under`, `Disjoint`), re-rooting (`Rebase`), the
  `"#{dir}/#{File.basename(source)}"` destination of `mv_to_dir`, and a total order on
  names used to list a directory.
- `filesystem.dfy`: module `FileSystem`. The namespace is a `map<Path, Node>`, where a
  node is a file with its content or a directory, and a well-formed namespace is a tree.
  The module states the effects of the four WebHDFS calls the engine makes:
  - the status lookup;
  - the directory listing;
  - recursive DELETE;
  - RENAME.
- `remote.dfy`: module `Remote`. The class `Client` holds the namespace in a mutable field.
  Its methods `Stat`, `List`, `Delete` and `Rename` are `stat?`, `list?`,
  `@client.delete` and `@client.rename`.
- `movespec.dfy`: module `MoveSpec`. One run of hdmv is written as functions that return
  an `Outcome`: the namespace afterwards, the lines printed (as events) and the exception
  raised, if any. There is one function per Ruby method, plus the overwrite decision.
- `engine.dfy`: module `MoveEngine`. The class `Mover` holds the client, the flags and the
  prompt, and has one method per Ruby method. The methods loop and recurse as the Ruby
  does and update the client step by step. Each is proved to end in the namespace,
  printed lines and exception that the `MoveSpec` function gives.
- `moveprops.dfy`, `movetodir.dfy`, `overlayprops.dfy`, `overlayevents.dfy`: modules
  `MoveProps`, `MoveToDirProps`, `OverlayProps` and `OverlayEvents`. These hold what hdmv
  promises, proved about the `MoveSpec` functions:
  - a single move;
  - the fan-out into a directory;
  - the overlay tree merge;
  - the lines the overlay merge prints under -v.
- `overlayexample.dfy`, `moveexamples.dfy`: modules `OverlayExample` and `MoveExamples`.
  These hold cases of `spec/utils/hdmv_spec.rb`, each a run of `Move` on the small
  namespace its test builds. They state what the run prints, whether it raises, and what
  the test then lists or reads back.

Exceptions are results, and what happened before one is kept:
- `OverlayUsage` is the overlay usage `raise`;
- `NotADirectory` is the `fail` for several sources;
- `MissingSource` is the nil status of a missing source that `mv_to_file` dereferences;
- `UndefinedName` is the overlay type-mismatch branch, whose message names locals that do
  not exist in `mv_suboverlay`, so it raises instead of printing.

The answer typed at the overwrite prompt is an oracle `Path -> string`. The flags are a
`Settings` value.

Where the code and the documentation disagree, the model follows the code:
- The comment `Priority: -f > -n > -i` does not describe what the code does.
  In the code, `-i` replaces the `-n` answer, and `-f` overwrites whatever the answer.
- The code prints "have different type", while its test expects "have different types".
  The model keeps the conflict as an event carrying both paths and both kinds, not as text.

## Model

| member | source | states |
|---|---|---|
| MoveSpec.Overwrites | lib/hdfsutils/utils/hdmv/implementation.rb:86-92 | a same-kind target is overwritten exactly when -f is set, or -i is set and the answer is "y", or neither -i nor -n is set |
| MoveSpec.MoveToFile | lib/hdfsutils/utils/hdmv/implementation.rb:76-100 | nothing outside the target appears or changes, nothing outside target and source disappears; every printed line names this source and target, a move line only under -v, a conflict line only when both exist with different kinds |
| MoveSpec.Overlay | lib/hdfsutils/utils/hdmv/implementation.rb:37-60 | a merge changes nothing outside the two directories' subtrees, below the source only removes, and prints only verbose move lines from a source path to the same place below the target, never a conflict. `OverlayEvents.OverlayPrintsEachMove` states which lines it does print |
| MoveSpec.OverlayEntries | lib/hdfsutils/utils/hdmv/implementation.rb:39-59 | the loop over the listed children keeps the same frame and printed-line guarantees as the whole merge |
| MoveSpec.OverlayEntry | lib/hdfsutils/utils/hdmv/implementation.rb:40-58 | one child pair changes nothing outside the two child subtrees and prints only move lines from below the source child to the same place below the target child |
| MoveSpec.DescShrinks | lib/hdfsutils/utils/hdmv/implementation.rb:51 | the recursive merge of a child runs on strictly fewer source descendants than its caller, so the recursion ends |
| FileSystem.Listing | lib/hdfsutils/utils/hdmv/implementation.rb:38 | list? returns each child of the directory exactly once, in ascending name order, with its current kind |
| FileSystem.AfterDelete | lib/hdfsutils/utils/hdmv/implementation.rb:93 | delete removes the path and its whole subtree and keeps everything else |
| FileSystem.DeleteWellFormed | lib/hdfsutils/utils/hdmv/implementation.rb:93 | deleting keeps the namespace a tree |
| FileSystem.AfterRename | lib/hdfsutils/utils/hdmv/implementation.rb:103 | rename changes nothing outside the target's subtree and removes nothing outside the source's subtree |
| FileSystem.RenameMoves | lib/hdfsutils/utils/hdmv/implementation.rb:103 | an accepted rename puts every path below the source at the same place below the target with the same node, and leaves nothing at the source |
| FileSystem.RenameWellFormed | lib/hdfsutils/utils/hdmv/implementation.rb:103 | renaming keeps the namespace a tree |
| Remote.Client.Stat | lib/hdfsutils/utils/hdmv/implementation.rb:77-78 | stat? finds a status exactly when the path exists, and its type is the node's kind |
| Remote.Client.List | lib/hdfsutils/utils/hdmv/implementation.rb:38 | list? gives the listing of the directory: every entry is an existing child with its kind, and every child has an entry |
| Remote.Client.Delete | lib/hdfsutils/utils/hdmv/implementation.rb:93 | the namespace becomes the one after the recursive delete, still a tree |
| Remote.Client.Rename | lib/hdfsutils/utils/hdmv/implementation.rb:103 | the namespace becomes the one after the rename, still a tree |
| MoveEngine.Mover.Mv | lib/hdfsutils/utils/hdmv/implementation.rb:17-35 | mv ends in the namespace, printed lines and exception that the dispatch gives |
| MoveEngine.Mover.MvOverlays | lib/hdfsutils/utils/hdmv/implementation.rb:19-26 | the overlay loop checks each source and the target stat'ed once before the loop, merges the sources in order, and stops at the first exception |
| MoveEngine.Mover.MvSubOverlay | lib/hdfsutils/utils/hdmv/implementation.rb:37-60 | mv_suboverlay ends where the merge function over the listing ends, printing what it prints |
| MoveEngine.Mover.MvOverlayEntry | lib/hdfsutils/utils/hdmv/implementation.rb:40-58 | one child: an absent target child is moved in, two directories merge recursively, two files go through mv_to_file, a kind mismatch raises |
| MoveEngine.Mover.MvToDir | lib/hdfsutils/utils/hdmv/implementation.rb:65-70 | mv_to_dir moves each source in order to the directory joined with its basename, stopping at the first exception |
| MoveEngine.Mover.MvToFile | lib/hdfsutils/utils/hdmv/implementation.rb:76-100 | mv_to_file ends in the namespace, printed lines and exception of the single-pair move |
| MoveEngine.Mover.RenameFile | lib/hdfsutils/utils/hdmv/implementation.rb:102-107 | rename_file renames, then prints the move under -v whether or not the rename took place |
| MoveProps.RenameMovesTree | lib/hdfsutils/utils/hdmv/implementation.rb:103 | an accepted rename moves the whole source tree to the target, removes the source and changes nothing else |
| MoveProps.MoveToAbsentTarget | lib/hdfsutils/utils/hdmv/implementation.rb:97-106 | moving onto a free path: the target holds the source tree with its contents, the source is gone, nothing else changes, and exactly one move line is printed under -v |
| MoveProps.RefusedMoveStillPrinted | lib/hdfsutils/utils/hdmv/implementation.rb:102-106 | a move onto a free path that the NameNode refuses changes nothing but is still printed under -v |
| MoveProps.TypeConflict | lib/hdfsutils/utils/hdmv/implementation.rb:80-84 | a file against a directory, or the reverse: nothing changes and exactly one conflict is printed |
| MoveProps.MissingSourceRaises | lib/hdfsutils/utils/hdmv/implementation.rb:77-81 | an existing target and a missing source raise before any change |
| MoveProps.SameTypeOverwritten | lib/hdfsutils/utils/hdmv/implementation.rb:86-95 | an overwritten same-kind target is replaced by the source tree with its contents, the source is gone, nothing else changes, and one move line is printed under -v |
| MoveProps.SameTypeKept | lib/hdfsutils/utils/hdmv/implementation.rb:86-95 | a same-kind target that is not overwritten: nothing changes and nothing is printed |
| MoveProps.SelfMoveDeletes | lib/hdfsutils/utils/hdmv/implementation.rb:92-94 | moving a path onto itself with overwriting deletes it and its subtree, and leaves the rest alone |
| MoveProps.ManySourcesNeedDirectory | lib/hdfsutils/utils/hdmv/implementation.rb:28-32 | several sources and a target that is not a directory fail before any change |
| MoveProps.OverlayNeedsDirectories | lib/hdfsutils/utils/hdmv/implementation.rb:18-24 | in overlay mode a target or first source that is not a directory raises the usage error before any change |
| MoveProps.OverlayKeepsTarget | lib/hdfsutils/utils/hdmv/implementation.rb:18-25 | a merge never changes the target directory or the source directory themselves, so the target's one stat before the loop stays true |
| MoveToDirProps.MoveToDirMovesEach | lib/hdfsutils/utils/hdmv/implementation.rb:65-70 | with existing, separate sources and free destinations, every source tree ends up at the directory joined with its basename, the sources are gone, nothing else changes, and -v prints one line per source in input order |
| OverlayProps.OverlayMerges | lib/hdfsutils/utils/hdmv/implementation.rb:37-60 | the merge raises exactly when a file and a directory meet at the same relative path. Otherwise, below the target a path exists exactly when it existed below the source or the target, and it holds the source's node when the source had one and the target had none or was overwritten. Below the source, only the directories and the files that were not overwritten remain. The namespace stays a tree either way |
| OverlayProps.OverlayEntriesMerge | lib/hdfsutils/utils/hdmv/implementation.rb:39-59 | the loop over the children raises exactly when one of the remaining children has a clash; otherwise each of them is merged and everything else is as before |
| OverlayProps.OverlayEntryMerge | lib/hdfsutils/utils/hdmv/implementation.rb:40-58 | one child raises exactly when a clash lies at or below it, and otherwise is merged |
| OverlayProps.OverlayMoveMerges | lib/hdfsutils/utils/hdmv/implementation.rb:19-25 | hdmv --overlay with one source directory raises exactly on a clash, and otherwise leaves the source merged into the target |
| OverlayProps.SingleOverlay | lib/hdfsutils/utils/hdmv/implementation.rb:20-25 | with one source directory and a directory target, the overlay branch is one merge |
| OverlayEvents.OverlayPrintsEachMove | lib/hdfsutils/utils/hdmv/implementation.rb:37-60 | a merge without a clash under -v prints "<source> -> <target>" for exactly the relative paths it moves, each once, and no other line. A path is moved when its target parent is a directory and the target lacks the path, or has a file there that the overwrite decision replaces by the source's file |
| OverlayEvents.OverlayMovePrintsEachMove | lib/hdfsutils/utils/hdmv/implementation.rb:19-26 | hdmv --overlay -v with one source directory and no clash raises nothing and prints each moved path once and nothing else |
| OverlayProps.SilentWithoutVerbose | lib/hdfsutils/utils/hdmv/implementation.rb:37-60 | without -v a merge prints nothing, since its only output is the verbose move line |
| MoveExamples.SingleMove | lib/hdfsutils/utils/hdmv/implementation.rb:28-33 | in plain mode, one source and a target that is not a directory go straight to mv_to_file |
| MoveExamples.IntoDirectory | lib/hdfsutils/utils/hdmv/implementation.rb:28-30 | in plain mode, one source and a directory target go to mv_to_file onto the directory joined with the source's basename |
| MoveExamples.RenameInPlace | spec/utils/hdmv_spec.rb:19-42 | hdmv -v /a/bar.txt /a/foo.txt prints the one move, raises nothing, and /a then lists foo.txt alone, holding the moved content |
| MoveExamples.ForcedOverwrite | spec/utils/hdmv_spec.rb:44-70 | hdmv -v -f onto an existing file prints the move, /a lists foo.txt alone, and foo.txt holds the content of bar.txt |
| MoveExamples.KeptWithNoOverwrite | spec/utils/hdmv_spec.rb:72-95 | hdmv -v -n onto an existing file prints nothing and leaves the namespace as it was, both files with their contents |
| MoveExamples.DirectoryIntoDirectory | spec/utils/hdmv_spec.rb:169-204 | hdmv -v /a /b prints "/a -> /b/a", /a is gone, and below /b exactly /b, /b/a and /b/a/bar.txt exist |
| MoveExamples.DirectoryOntoFile | spec/utils/hdmv_spec.rb:271-288 | hdmv -v /a/c /b/c with a directory onto a file prints one conflict naming both paths and their kinds, and changes nothing |
| OverlayExample.OverlayTestCase | spec/utils/hdmv_spec.rb:126-167 | hdmv --overlay /source /target prints nothing, raises nothing, and below /target exactly the union of the two trees exists, the moved-in file and the kept file with their contents |

The cases of `spec/utils/hdmv_spec.rb` are stated by the lemmas of `MoveExamples` and
`OverlayExample` on the namespaces those tests build. Each one is derived from the general
lemmas:
- moving onto a free path (lines 19-42) from `MoveToAbsentTarget`;
- overwriting with `-f`, or keeping with `-n` (lines 44-95), from `SameTypeOverwritten`
  and `SameTypeKept`;
- the overlay union (lines 126-167) from `OverlayMerges`;
- moving a directory into a directory (lines 169-204) from `MoveToAbsentTarget`;
- the kind conflict (lines 271-288) from `TypeConflict`.

## Left out

- The WebHDFS transport, its HTTP requests and remote failures are not modelled. RENAME
  and DELETE are total updates of the namespace:
  - a rename the NameNode would refuse leaves the namespace unchanged;
  - deleting "/" changes nothing.

  The engine ignores the result of both calls, as the Ruby does.
- The highline prompt and its input check (`/[yn]/i`) are not modelled; the answer is an
  oracle value. An answer of "Y" therefore counts as not "y", as in the code.
- The oracle (`MoveSpec.Oracle`) gives one answer per target path, but the code prompts
  anew each time. So two prompts for the same target in one run always get the same
  answer in the model. That happens with `hdmv -i /x/f /y/f /d` when `/d/f` exists, and
  with `hdmv -i --overlay /s1 /s2 /t` when both sources hold `f` and `/t/f` exists. A user
  who answers "n" and then "y" is not represented.
- Exact output text is not modelled. A printed line is an event.
- The NameNode's listing order is taken to be ascending by name (`FileSystem.Listing`).
  Only the top-level loop, `OverlayProps.ListingMerges`, is proved for any listing that
  names each child once. The nested merges go through `MoveSpec.Overlay`, which always
  lists in this order.
- Another client changing the namespace between calls is not modelled.
- `lib/hdfsutils/utils/util.rb` and `lib/hdfsutils/utils/hdfind/find.rb` are not modelled.
  They parse settings, build the HTTP client and wire up `hdfind`.
- MoveEngine.Mover.Mv: requires a source in plain mode when the target is not a
  directory. The code would pass `nil` to `mv_to_file`.
- MoveEngine.Mover.Mv: requires every overlay source to be apart from the target (neither
  inside the other). The Ruby ends on every input, because each nested `mv_suboverlay`
  goes one level deeper into an existing target directory. But the model's termination
  measure is the number of paths below the source. That number shrinks only when the two
  trees are apart: when one lies inside the other, a rename into the target can add paths
  below the source. The calls left out, and what the Ruby does with them:
  - `hdmv --overlay / /staging` and `hdmv --overlay /p /p/sub`: the source contains the
    target. Each child of the source is paired with the same name below the target, as
    usual. The child on the way to the target (`staging`, `sub`) is paired with a path one
    level deeper inside the target. If that path is missing, the rename of a directory
    into its own subtree is refused by the NameNode, but it is still printed under -v. If
    it is a directory, the merge descends, with the source again containing the target.
  - `hdmv --overlay /p/sub /p`: the target contains the source. The children of `/p/sub`
    are merged one level up into `/p`. The child `sub`, if the source has one, is paired
    with the source directory itself.
  - `hdmv --overlay /a /a`: every child is paired with itself. Directories are merged into
    themselves, and each file goes through `mv_to_file` onto itself. When the overwrite
    decision says yes (the default, `-f`, or `-i` answered "y"), the file is deleted and
    the rename of the now missing source is refused, as `MoveProps.SelfMoveDeletes` states
    for one path. So every file below `/a` is deleted and the directories stay. With `-n`
    nothing changes.
- MoveEngine.Mover.MvOverlays: requires every overlay source to be apart from the target,
  for the same reason.
- MoveEngine.Mover.MvSubOverlay: requires the two directories to be apart, for the same
  reason.
- MoveEngine.Mover.MvOverlayEntry: requires the two parent directories to be apart, for
  the same reason.
- MoveSpec.Overlay: requires the source to be apart from the target, for the same reason.
- MoveSpec.OverlayEntries: requires the two directories to be apart, for the same reason.
- MoveSpec.OverlayEntry: requires the two parent directories to be apart, for the same
  reason.
- OverlayEvents.OverlayPrintsEachMove: states which lines a merge prints and that each is
  printed once, but not their order (listing order, depth first). It covers only merges
  without a clash. After a clash, `MoveSpec.Overlay` still bounds what was printed.
- MoveToDirProps.MoveToDirMovesEach: is stated only for existing, separate sources with
  free destinations. Sources whose destination exists, or that are missing or overlap, go
  through the single-move lemmas of `MoveProps` one step at a time. They are not composed
  into one statement.
- OverlayProps.OverlayMoveMerges: is stated for one source directory. Several sources are
  merged one after the other, each by `OverlayMerges`, but the composition is not stated
  as one theorem.
- OverlayProps.OverlayMerges: after a clash it does not say what the partial merge left
  behind. It says only that the namespace stays a tree. `MoveSpec.Overlay` bounds what
  changed and what was printed.
- A root path as a source in plain mode is not modelled beyond the namespace level. Its
  destination is the directory itself, and the NameNode refuses the rename.
