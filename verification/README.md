# AutoSync in Dafny

AutoSync publishes part of a markdown note vault as posts of a Hugo blog. A
run has four steps:

1. It walks the vault from `src.baseDir` and collects every path that passes
   the markdown test. That test splits the whole path at `.` and looks for a
   piece equal to `md`. Entries whose base name is in `src.exclude` are not
   entered.
2. It keeps the collected paths that pass the publication test. That test
   splits the path at `#` and looks for a piece equal to `pub`.
3. For each kept note, in order:
   - `hugo new` scaffolds a post named after the note with its first
     `#pub#` cut out;
   - the note's bytes are written over the scaffold at
     `postsDir/<base name>`;
   - the note is renamed to drop the marker.

   A failed scaffold, read or write removes the destination and ends the
   program.
4. If at least one note was kept, it builds the site and pushes both
   repositories.

The model has five modules:

- `GoStrings`: the Go library functions the program depends on, with Go's
  semantics. These are `strings.Index`, `strings.Split` on one character,
  `strings.Join`, `strings.Replace(…, 1)`, `path.Base` and the joining part
  of `path.Join`.
- `Settings`: the configuration records.
- `Discovery`: the walk and the filter.
  - The vault is a tree of `Node`s.
  - The pointer-passed slice the walk appends to is the class `FileList`.
  - The walk and the filter are methods with loops, proved against the
    functions `Collected` and `Selected`.
- `Materializer`: the per-note copy and rename.
  - The disk is a map from paths to byte sequences, held by the class
    `Disk`.
  - The loop `PrepareBlogPost` is proved against the function `PrepareAll`.
- `AutoSync`: the whole run (`Run`) and the method `AutoSyncOnce`, which
  runs the program's steps in order.

The vault tree and the disk map are separate inputs, and the model does not
tie one to the other.

`IsDir` (main.go:33-39) returns false when `stat` fails, so the walk applies
the markdown test to such an entry's path. `File` stands for every entry
`IsDir` reports as not a directory.

## Model

| member | source | states |
|---|---|---|
| GoStrings.Index | main.go:154 | the result is -1 or an index where the pattern occurs, and the pattern occurs at no earlier index (none at all when the result is -1) |
| GoStrings.IndexByte | main.go:130 | the first index of the character, or -1 when the string lacks it |
| GoStrings.LastIndexByte | main.go:155 | the last index of the character, or -1 when the string lacks it |
| GoStrings.Join | main.go:130 | definition of Go's `strings.Join` with a one-character separator, the inverse the split is proved against; see JoinSplit, SplitUnique |
| GoStrings.Split | main.go:130 | the split has at least one piece and no piece contains the separator |
| GoStrings.JoinSplit | main.go:130 | joining the pieces of a split with the separator gives back the original string |
| GoStrings.SplitUnique | main.go:143 | splitting the join of separator-free pieces gives back exactly those pieces |
| GoStrings.SplitContainsIffDelimited | main.go:130-131 | a separator-free word is a piece of the split iff it stands in the string between separators or the ends |
| GoStrings.ReplaceFirst | main.go:154 | with no occurrence of the pattern the string is unchanged; otherwise exactly the first occurrence is replaced |
| GoStrings.TrimTrailingSlashes | main.go:155 | the result is a prefix without a trailing slash, and only slashes were removed |
| GoStrings.Base | main.go:155 | the base name is never empty and is "/" or free of slashes |
| GoStrings.BaseIsLastElement | main.go:155 | a non-empty path not ending in "/" is a directory prefix (empty or ending in "/") followed by its base name |
| GoStrings.PathJoin | main.go:159 | an empty directory is dropped; otherwise the result starts with the directory and has a `/` just before the element, and is at most one character longer than the two; it always ends with the element |
| GoStrings.BaseOfPathJoin | main.go:159 | the base of a directory joined with a plain name is that name |
| GoStrings.BaseAfterDirectory | main.go:155 | the base of a directory prefix followed by a plain name is that name |
| Discovery.ChildPath | main.go:126 | definition: the parent path, one `/`, the child's name, as the `Sprintf` builds it; used by CollectedSound/CollectedComplete through `PathOf` |
| Discovery.IsMarkdownPath | main.go:130-131 | definition: "md" is a piece of the path split at `.`; see MarkdownPathIffDelimited, MarkdownExtension, MarkdownInsidePath, MarkdownOneDot, MarkdownNoDot |
| Discovery.IsPublishedPath | main.go:143-144 | definition: "pub" is a piece of the path split at `#`; see PublishedPathIffDelimited, MarkerMeansPublished |
| Discovery.IsIncludeElement | main.go:41-48 | true iff the element is in the slice (so false on an empty slice) |
| Discovery.MarkdownPathIffDelimited | main.go:130-131 | a path passes the markdown test iff "md" stands in it between dots or the ends of the path |
| Discovery.PublishedPathIffDelimited | main.go:143-144 | a path passes the publication test iff "pub" stands in it between `#`s or the ends of the path |
| Discovery.MarkerMeansPublished | main.go:143-144 | every path containing `#pub#` passes the publication test |
| Discovery.MarkdownExtension | main.go:130-131 | any path ending in ".md" passes the markdown test |
| Discovery.MarkdownInsidePath | main.go:130-131 | any path containing ".md." passes (a backup `a.md.bak`, any file under a directory `a.md.b`) |
| Discovery.MarkdownOneDot | main.go:130-131 | a path with exactly one dot passes iff one side is "md" (so `x/a.mdx` does not) |
| Discovery.MarkdownNoDot | main.go:130-131 | a path with no dot passes only if it is "md" itself (so `x/md` does not) |
| Discovery.Collected | main.go:114-136 | definition of what the walk appends for one entry; see CollectedSound/CollectedComplete, UnreadableDirSkipped |
| Discovery.CollectedChildren | main.go:120-127 | definition: the entries' contributions in listing order; see CollectedChildrenAppend, CollectedAround |
| Discovery.ChildContribution | main.go:122-126 | definition: nothing for an excluded name, else the child's own walk; see ExcludedChildSkipped, ChildContributes |
| Discovery.FileList.constructor | main.go:193 | the accumulator starts empty |
| Discovery.CollectMarkdownFiles | main.go:114-136 | the walk only appends: the old list is kept as a prefix, followed by what `Collected` gives for the entry |
| Discovery.CollectedSound | main.go:114-136 | every collected path passes the markdown test and is reached from the root through names none of which is excluded |
| Discovery.CollectedComplete | main.go:114-136 | every file reached through non-excluded names whose path passes the markdown test is collected |
| Discovery.CollectedChildrenSound | main.go:120-127 | every path of a listing comes from one non-excluded child |
| Discovery.ChildContributes | main.go:120-127 | every path a non-excluded child contributes is among the listing's paths |
| Discovery.CollectedChildrenAppend | main.go:120-127 | a listing's paths are those of its first part followed by those of the rest |
| Discovery.CollectedAround | main.go:120-127 | a listing's paths are those before an entry, then the entry's, then those after it |
| Discovery.UnreadableDirSkipped | main.go:116-119 | an unreadable directory contributes nothing and its siblings are still walked |
| Discovery.ExcludedChildSkipped | main.go:122-125 | nothing under an excluded entry is collected, whatever lies below it |
| Discovery.Selected | main.go:140-149 | definition of the filter's result; see SelectedMembers, SelectedLength, SelectedAppend, SelectedKeepsMarked, SelectedIdempotent |
| Discovery.FilterNotPublishedMarkdownFile | main.go:140-149 | the loop builds exactly `Selected` of its input |
| Discovery.SelectedMembers | main.go:140-149 | a path is kept iff it is in the input and passes the publication test |
| Discovery.SelectedLength | main.go:140-149 | the filter never lengthens its input |
| Discovery.SelectedAppend | main.go:140-149 | filtering a concatenation filters each part and keeps their order |
| Discovery.SelectedKeepsMarked | main.go:140-149 | a list of marked paths passes the filter unchanged |
| Discovery.SelectedIdempotent | main.go:140-149 | filtering twice is filtering once |
| Materializer.PublishedName | main.go:154 | definition: the path with its first `#pub#` replaced by nothing; see PublishedNameCutsFirstMarker, PublishedNameUnchangedIffUnmarked |
| Materializer.Destination | main.go:155-159 | definition: the posts directory joined with the base of the new name; see DestinationOfMarkedNote, DestinationKeepsBase |
| Materializer.Move | main.go:177 | definition of `os.Rename` on the disk map; see KeepsOther, PrepareOneSuccessCopies |
| Materializer.PrepareOne | main.go:153-177 | definition of one iteration; see PrepareOneFailureRemovesDestination, PrepareOneFailsIff, PrepareOneSuccessCopies, PrepareOneFrame |
| Materializer.PrepareAll | main.go:152-178 | definition of the loop, stopping at the first failure; see PrepareAllAppend, PrepareAllStopsAtFailure, PrepareAllFailureRemovesDestination |
| Materializer.PublishedNameCutsFirstMarker | main.go:154 | when the marker after `before` is the first one in the name, exactly that marker is cut out and the rest is kept (`a#pub#b#pub#.md` becomes `ab#pub#.md`) |
| Materializer.NoMarkerBefore | main.go:154 | no marker starts inside a part of the name that has no `#`, so the marker after such a part is the first one |
| Materializer.PublishedNameUnchangedIffUnmarked | main.go:154 | the new name equals the old one iff the old one has no marker; otherwise it is five characters shorter |
| Materializer.DestinationOfMarkedNote | main.go:154-159 | the post for `<dir><before>#pub#<after>` is the posts directory joined with `<before><after>`, when `dir` is empty or ends in `/`, no `#` comes before the marker, and `<before><after>` is non-empty and free of `/` |
| Materializer.DestinationKeepsBase | main.go:155-159 | the destination's base name is the new name's base name (unless the new name is only slashes), and the destination starts with the posts directory |
| Materializer.PrepareOneFailureRemovesDestination | main.go:160-175 | after a failed scaffold, read or write, the disk is as before the note, minus the destination |
| Materializer.PrepareOneFailsIff | main.go:160-175 | for a note that is not its own destination: it fails iff the scaffold fails, the note is missing, or the destination cannot be written |
| Materializer.PrepareOneSuccessCopies | main.go:165-177 | for a note that is not its own destination, on success the destination holds the note's original bytes; the note moves to its new name when the rename succeeds and stays put when it fails |
| Materializer.PrepareOneFrame | main.go:159-177 | a note touches no path other than itself, its new name and its destination |
| Materializer.KeepsOther | main.go:177 | a rename leaves every third path as it was |
| Materializer.PrepareAllAppend | main.go:152-178 | processing two lists in a row is processing the first, then the second from the disk it left, unless the first failed |
| Materializer.PrepareAllStopsAtFailure | main.go:152-178 | a failed run stops at one note: all notes before it succeeded, it failed, and no later note was touched |
| Materializer.PrepareAllFailureRemovesDestination | main.go:152-178 | after a failed run the failing note is one of the inputs and its destination does not exist |
| Materializer.PrepareAllFrom | main.go:152-178 | the remaining notes are the current one, then the rest unless it failed |
| Materializer.PreparePost | main.go:153-177 | one iteration changes the disk exactly as `PrepareOne` says and reports its outcome |
| Materializer.PrepareBlogPost | main.go:151-179 | the loop leaves the disk as `PrepareAll` says, returning at the first failure |
| AutoSync.Notes | main.go:192-195 | definition: the filter applied to the walk from `src.baseDir`; see VaultWithExcludedDirectory, PublishingIff |
| AutoSync.Run | main.go:192-201 | definition of the whole run; see PublishingIff, PublishingIffMarkedNoteInVault, NothingToDoIff, StoppedRunRemovesDestination |
| AutoSync.AutoSyncOnce | main.go:192-201 | the program's steps produce exactly the outcome and the disk that `Run` describes |
| AutoSync.PublishingIff | main.go:195-201 | the site step runs iff some collected path is marked and no note failed |
| AutoSync.PublishingIffMarkedNoteInVault | main.go:192-201 | the site step runs iff some non-excluded file in the vault passes both tests and no note failed |
| AutoSync.NothingToDoIff | main.go:197-201 | the run does nothing iff no collected path is marked, and then the disk is unchanged |
| AutoSync.StoppedRunRemovesDestination | main.go:194-196 | a run that stops does so at a collected, marked note whose destination is then absent |
| AutoSync.VaultWithExcludedDirectory | main.go:194-195 | a vault with an unmarked note, a marked note and an excluded directory yields just the marked note |
| AutoSync.VaultWithExcludedDirectoryCollects | main.go:114-136 | the walk over that vault collects both notes in listing order and nothing under the excluded directory |
| AutoSync.TrailingMarkerStaysSelected | main.go:143-154 | a name whose stem has no `#` and that ends in `#pub` passes the publication test, yet its new name is the old one, so every later run selects it again |

## Left out

- `LoadConfig`, the home-directory lookup and the configuration-file checks (main.go:81-91, 182-192) are not modelled. The configuration is an input.
- `Command` (main.go:50-67) is not modelled as a process. Its outcome is a parameter: the scaffold `hugo new` writes, or its failure.
- `UpdateGithubPage` (main.go:93-109) is not modelled as commands. Whether the build and the pushes succeed is one flag of `Environment`, and the model does not include what they do to the repositories.
- The argument string given to `hugo new` is not modelled. The model assumes the scaffold is written at the destination `postsDir/<base>`.
- `os.Chdir` is not modelled, and neither is resolving a relative path against the working directory. Paths are keys of the disk map, as written.
- A read fails only when the note is missing from the disk map; any other read failure (permissions, I/O errors) is represented by leaving the note out of the map. Whether a write or a rename succeeds is decided by the parameters `canWrite` and `canRename`. The 0330 permission bits are not modelled.
- Logging is not modelled. The `log.Fatalf` calls in `PrepareBlogPost` and the failing scaffold become an `Aborted` outcome (`Stopped` for the run). A failing site build or push becomes `PublishFailed`. The fatal errors of configuration loading (main.go:84, 88, 184, 189) are not modelled, as said above.
- `CheckFileState` (main.go:69-75) is unused by the program and is not modelled.
- `IsDir` (main.go:33-39) is folded into the tree: a `Dir` or `UnreadableDir` is what `IsDir` reports as a directory. Symbolic links are not modelled.
- The listing order of a `Dir` is its `children` sequence. `ioutil.ReadDir` sorts by name, and the model does not impose that order.
- GoStrings.PathJoin: does not apply `path.Clean` to the joined path. Doubled slashes, `.` and `..` are left as they are.
- The path separator is the Unix `/`.
- Strings are sequences of characters, while Go strings are byte strings. Nothing modelled depends on the difference: every separator and marker (`.`, `#`, `/`, `#pub#`) is ASCII.
