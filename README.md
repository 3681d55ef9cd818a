# Photo folder numbering, modelled in Dafny

This project models `photo_numbering.py`, a one-shot script that renumbers the
image files of a folder tree by their timestamps and then removes the folders
left empty.

The model works on an abstract folder tree, the class `PhotoNumbering.FolderTree`.
Its field `entries` maps each path below the base folder to a file, which carries
its timestamp, or to a directory. A path is the sequence of its name components,
and the base folder is the empty path. The methods of the class change that map
in place, as the script changes the disk:

- `CollectPhotos` stands for the `rglob` scan. It collects every listed image
  file, chosen by its lower-cased suffix, together with its timestamp.
- `OrganizePhotos` is `organize_photos`. It stops with `NotFound` or `NoPhotos`
  before changing anything. Otherwise it sorts the collected files stably by
  timestamp and hands them to `RenamePhotos`.
- `RenamePhotos` gives the i-th file (counting from 1) the name `{i}{suffix}`
  directly in the base folder. `ResolveTarget` runs the collision loop: it
  bumps a counter (`{i}_1{suffix}`, `{i}_2{suffix}`, ...) while the name is
  taken by another entry.
- `MovePhoto` either leaves a file that is already in place, moves it, or skips
  it when the move fails. It reports whether the file counts as processed, and
  `RenamePhotos` adds up those reports.
- The renaming loop also returns a ghost record of its steps, the `Trace`. For
  every step it keeps the tree before and after, the counter value where the
  collision loop stopped, the name chosen and whether the file counted. The
  `Placed` facts then say where each file ended up.
- `CleanupEmptyFolders` is `cleanup_empty_folders`. It visits the listed entries
  deepest first and removes each directory other than the base folder that is
  empty at its turn.

The script gets some of its inputs from the platform. Here they are parameters:

- the order in which `rglob` lists a tree is a function `enumerate` from trees to
  path sequences;
- the files whose move raises are the set `failing`;
- the directories whose removal raises are the set `undeletable`.

The modules:

- `Names`: how file names are read and built. This covers `Path.suffix`, the
  case-insensitive extension test, decimal rendering, the candidate names of
  the collision loop and `rsplit('.', 1)`.
- `Sorting`: a stable sort by an integer key, standing for `list.sort(key=...)`
  and `sorted(..., key=...)`. It is proved sorted, a permutation and stable.
  It is also proved to be the only sequence with those three properties.
- `FileTree`: trees as values. This covers paths, well-formedness (every entry
  sits in a directory of the tree), a move seen as a map update, and facts
  about files and removals.
- `PhotoNumbering`: the selection, the renaming pass and the cleanup pass, with
  the invariants and lemmas that connect them.
- `Prompt`: the folder path read from the prompt. Surrounding whitespace is
  stripped, then double quotes, then single quotes, and empty input is
  refused.

When no image file is found, the script returns before the cleanup
(`photo_numbering.py:33-35`). So a tree holding only empty folders is left
unchanged, and its empty folders are not removed.

One might expect a second run over the result of a first to find every file
in place. It need not, and the model follows the code. There are two causes:

- A name that was taken during the first run can be free on the second. The
  cleanup may have removed what held it, or the file that held it may have
  moved on.
- Files with equal timestamps are numbered in listing order. A second run
  over a different listing order can number them differently.

`RunTwice.SecondRunMovesAgain` shows the first cause on a concrete tree:
`1.jpg` (timestamp 2) and `sub/a.jpg` (timestamp 1).

- The first run moves `sub/a.jpg` to `1_1.jpg`, because `1.jpg` is taken.
- It then moves `1.jpg` to `2.jpg`.
- The cleanup removes `sub`.
- The second run finds `1.jpg` free and moves `1_1.jpg` there.

A counter bump does not always lead to a second move. If the name stays taken,
say by a non-empty directory, the second run stops at the file's own bumped
name.

## Model

| member | source | states |
|---|---|---|
| Names.LastIndex | photo_numbering.py:55-56 | the result is the position of the last occurrence of the character, or -1 when there is none |
| Names.Lower | photo_numbering.py:24 | the result has the same length, with every ASCII capital replaced by its small letter and every other character kept |
| Names.Suffix | photo_numbering.py:24 | a name's suffix is empty, or is a dot followed by at least one non-dot character that ends the name, leaving at least one character before it |
| Names.SuffixIffInnerLastDot | photo_numbering.py:24 | a name has a non-empty suffix exactly when its last dot is neither its first nor its last character |
| Names.IsImageName | photo_numbering.py:9-24 | definition: the lower-cased suffix is one of the nine extensions |
| Names.ImageNameHasSuffix | photo_numbering.py:9 | every name accepted by the extension test has a proper dot-suffix, so the candidate names always contain a dot |
| Names.Decimal | photo_numbering.py:47 | the rendering of a number is a non-empty string of digits, one digit long exactly for numbers below 10 |
| Names.DecimalValue | photo_numbering.py:47 | the digits denote the number, and only zero's rendering starts with a zero |
| Names.DecimalInjective | photo_numbering.py:57 | different numbers have different decimal renderings |
| Names.CandidateName | photo_numbering.py:47-57 | definition: `{i}{suffix}` for counter 0, `{i}_{k}{suffix}` for counter k |
| Names.CandidateNameShape | photo_numbering.py:47-57 | every candidate starts with the sequence number and ends with the suffix, and only the one for counter 0 has nothing in between |
| Names.RSplitDot | photo_numbering.py:55-56 | the two parts joined by a dot give the name back, and the second part contains no dot |
| Names.SplitCandidate | photo_numbering.py:55-56 | splitting `{i}{suffix}` at its last dot gives the decimal index and the extension without its dot |
| Names.RebuiltName | photo_numbering.py:55-58 | the name the loop builds for counter k is `{i}_{k}{suffix}`, so the original extension's casing is preserved |
| Names.CandidateNameInjective | photo_numbering.py:52-59 | different counter values give different candidate names |
| Sorting.WithKey | photo_numbering.py:38 | the elements with a given key, in order, are never more than the whole sequence |
| Sorting.Insert | photo_numbering.py:38 | insertion adds exactly one element and keeps every other one |
| Sorting.InsertSorted | photo_numbering.py:38 | inserting into a sorted sequence keeps it sorted |
| Sorting.SortBy | photo_numbering.py:38 | the sorted sequence has the input's length and its elements, and is non-decreasing in the key |
| Sorting.WithKeyInsert | photo_numbering.py:38 | insertion puts the new element after every element with the same key and leaves the others in order |
| Sorting.SortByStable | photo_numbering.py:38 | for every key, the elements with that key keep their input order: the sort is stable |
| Sorting.WithKeyMembers | photo_numbering.py:38 | an element is among those with key t iff it is in the sequence and its key is t |
| Sorting.LastIsMaximal | photo_numbering.py:38 | in a sorted sequence no element's key exceeds the last element's |
| Sorting.SameLastKey | photo_numbering.py:38 | two sorted sequences that agree on every key's elements end with equal keys |
| Sorting.SameLast | photo_numbering.py:38 | two such sequences end with the same element, and what precedes it agrees on every key again |
| Sorting.SortedUnique | photo_numbering.py:38 | two sorted sequences that agree, key by key, on their elements in order are equal |
| Sorting.StableSortIsSortBy | photo_numbering.py:38 | every sorted, stable rearrangement of the input is the one this model computes, so any stable sort gives the same order |
| Sorting.PermutationDistinct | photo_numbering.py:38 | a rearrangement of a sequence without repetitions has none either |
| FileTree.PrefixTransitive | photo_numbering.py:86 | a descendant of a descendant is a descendant |
| FileTree.HasChildren | photo_numbering.py:90 | definition: some entry of the tree sits directly inside the directory (`any(folder_path.iterdir())`) |
| FileTree.AncestorPresent | photo_numbering.py:23 | in a well-formed tree every ancestor of an entry is present, and every proper ancestor is a directory |
| FileTree.RootIsDir | photo_numbering.py:14 | a well-formed tree with an entry below the base folder has the base folder as a directory |
| FileTree.DescendantMeansChild | photo_numbering.py:90 | an entry anywhere below a directory means it has an entry directly inside, so a directory without children has nothing below it |
| FileTree.Moved | photo_numbering.py:68 | after a move the source is gone, the target holds the source's entry, and every other path is unchanged |
| FileTree.MovedWellFormed | photo_numbering.py:68 | moving a file to a free name directly in the base folder keeps the tree well-formed |
| FileTree.MovedFiles | photo_numbering.py:68 | a move to a free name keeps the number of files: the source's path is replaced by the target's |
| FileTree.RemovedWellFormed | photo_numbering.py:91 | removing a directory without children keeps the tree well-formed |
| FileTree.OnlyDirsRemoved | photo_numbering.py:87-91 | removing only directories below the base folder keeps every file and the base folder |
| PhotoNumbering.IsPhoto | photo_numbering.py:24 | definition: a path below the base folder that is a file of the tree and whose last component is an image name |
| PhotoNumbering.SelectPhotos | photo_numbering.py:23-31 | the selection is never longer than the listing |
| PhotoNumbering.SelectPhotosMembers | photo_numbering.py:23-31 | a record is collected iff its path is listed, is a file below the base folder, has an image name, and the record's timestamp is that file's |
| PhotoNumbering.SelectionIsImageFiles | photo_numbering.py:23-24 | when the listing enumerates the tree, a path is collected iff it is a file with an image extension: directories and other files never are |
| PhotoNumbering.SelectPhotosDistinct | photo_numbering.py:23-31 | a listing without repetitions gives at most one record per path |
| PhotoNumbering.SelectPhotosConcat | photo_numbering.py:23-31 | selection keeps listing order: selecting from two listings one after the other gives the first selection followed by the second |
| PhotoNumbering.DepthDescending | photo_numbering.py:86 | definition: the sort key is the negated number of path parts, so the ascending stable sort is Python's `reverse=True` sort by depth |
| PhotoNumbering.FirstFree | photo_numbering.py:52-59 | definition: the collision loop stops at counter k, because the candidate for k is free or is the file's own path, and every smaller counter's candidate is held by another entry |
| PhotoNumbering.FirstFreeUnique | photo_numbering.py:54 | at most one counter value satisfies the loop's stopping condition, so the resolved name is determined by the tree |
| PhotoNumbering.NotYetTried | photo_numbering.py:54-59 | the candidate for a counter value not yet reached is not among the names already tried |
| PhotoNumbering.PhotoSortIsStable | photo_numbering.py:38 | the timestamp order is a permutation of the collected records, non-decreasing in timestamp, with ties kept in collection order |
| PhotoNumbering.SortedSelection | photo_numbering.py:38-45 | the sorted records are as many as the collected ones, all have image names, and a path that was not collected is not among them |
| PhotoNumbering.SamePathSameRecord | photo_numbering.py:38 | after sorting a selection that has one record per path, two records with the same path are the same record |
| PhotoNumbering.SortedPending | photo_numbering.py:38-45 | the sorted selection of a listing without repetitions has one record per path, each for a file of the tree |
| PhotoNumbering.Numbered | photo_numbering.py:23-38 | definition: the order in which files are numbered is the stable timestamp sort of the image files, in listing order |
| PhotoNumbering.CleanupOrder | photo_numbering.py:86 | the cleanup visits every listed entry as often as it is listed, in non-increasing depth, and keeps the listing order among equal depths |
| PhotoNumbering.DeeperComesFirst | photo_numbering.py:86 | in the visiting order no later entry is deeper than an earlier one |
| PhotoNumbering.ChildrenRemovedFirst | photo_numbering.py:86-91 | at the turn of a directory that is clean below (only removable listed directories under it), all its children were visited earlier and are gone |
| PhotoNumbering.CleanupRemove | photo_numbering.py:90-93 | removing an empty, removable directory keeps the cleanup invariant and counts one removal |
| PhotoNumbering.CleanupKeep | photo_numbering.py:87-90 | visiting an entry that is not removed keeps the cleanup invariant and the count |
| PhotoNumbering.CleanupVisit | photo_numbering.py:86-95 | one visit, whether it removes the entry or not, keeps the cleanup invariant |
| PhotoNumbering.CleanupVisitedAll | photo_numbering.py:86-93 | after the last visit the invariant's facts hold for the whole listing |
| PhotoNumbering.RenameStep | photo_numbering.py:68-70 | one step of the renaming loop keeps the base folder and the number of files, and adds a path only directly in the base folder |
| PhotoNumbering.MoveStep | photo_numbering.py:47-73 | definition: one file's step. The target is the first free candidate for its sequence number, and the step counts iff the file already has that name or is still a file whose move does not fail. The tree changes by exactly that move when the step counts and the name is new, and not at all otherwise |
| PhotoNumbering.Step | photo_numbering.py:45-73 | definition: step n handles the n-th sorted record with sequence number n + 1 |
| PhotoNumbering.Trace | photo_numbering.py:45-73 | definition: the record of the first steps of the renaming loop, one `Step` per record from each tree to the next |
| PhotoNumbering.StepDeterministic | photo_numbering.py:45-73 | a step is determined by its starting tree, its record and the failing moves: the counter value, the name, whether it counts and the resulting tree |
| PhotoNumbering.TraceStep | photo_numbering.py:45-73 | the record of the steps so far, extended by the step just taken, is the record of one more step |
| PhotoNumbering.CountTrue | photo_numbering.py:43-70 | the number of records that counted is at most the number of steps, and equals it exactly when every step counted |
| PhotoNumbering.CountTrueAppend | photo_numbering.py:64-70 | one more step adds one to the count exactly when it counted |
| PhotoNumbering.UntouchedStep | photo_numbering.py:62-70 | a step changes nothing but its own file and its chosen name: entries under other names and uncollected entries stay as they were |
| PhotoNumbering.PlacedAtKept | photo_numbering.py:62-70 | for records of distinct files, a step leaves every earlier file where its own step put it |
| PhotoNumbering.PlacedAtNew | photo_numbering.py:62-73 | after a step its file is under the chosen name when the step counted, and unchanged where it was when the move failed |
| PhotoNumbering.PlaceStep | photo_numbering.py:45-73 | a step keeps the placement of all earlier files and adds its own, and the later files stay where they were |
| PhotoNumbering.RenameLoopStep | photo_numbering.py:45-73 | one step keeps everything the renaming loop maintains: the trace, the invariant, the untouched entries and, for distinct present records, the placements |
| PhotoNumbering.AllPlaced | photo_numbering.py:45-73 | with distinct present records and no failing move, every record counts and its file ends up, unchanged, under its chosen name directly in the base folder |
| PhotoNumbering.RenamedFacts | photo_numbering.py:43-75 | a finished renaming run has a step in the trace for every record; it keeps the base folder and the number of files and adds entries only directly in the base folder; it touches nothing but the collected files and the chosen names; it places every file for distinct present records; and then, with no failing move, every record counts |
| PhotoNumbering.FolderTree.CollectPhotos | photo_numbering.py:21-31 | the collection loop yields exactly the selection of the listing, in listing order |
| PhotoNumbering.FolderTree.ResolveTarget | photo_numbering.py:52-59 | the loop ends at the candidate `{i}{suffix}` or `{i}_{k}{suffix}` for the first k whose name is free or is the file's own path; every earlier candidate was taken by another entry; the loop always terminates |
| PhotoNumbering.FolderTree.MovePhoto | photo_numbering.py:47-73 | the target is the first free candidate; the file counts iff it is already in place or its move succeeds; nothing is overwritten; the tree changes by exactly that move or not at all |
| PhotoNumbering.FolderTree.RenamePhotos | photo_numbering.py:43-75 | the steps recorded in the ghost trace are exactly the loop's moves, one per record with sequence numbers 1, 2, ...; the processed count is the number of steps that counted; the loop's invariants hold at the end |
| PhotoNumbering.FolderTree.OrganizePhotos | photo_numbering.py:6-78 | `NotFound` iff the base folder is missing and `NoPhotos` iff nothing is collected, both leaving the tree unchanged; otherwise the files are renamed in timestamp order as the trace records, the processed count is the number of steps that counted, at most the number collected, and equal to it when no move fails on a listing without repetitions; every file is placed where its step put it; no file is lost; non-collected files are untouched; the base folder stays; the cleanup then runs over the renamed tree's listing and its removal count is the number of directories removed |
| PhotoNumbering.FolderTree.RemoveIfEmpty | photo_numbering.py:87-95 | an entry is removed iff it is a directory other than the base folder, has no entries and is removable; otherwise nothing changes |
| PhotoNumbering.FolderTree.CleanupEmptyFolders | photo_numbering.py:80-100 | only listed, removable directories below the base folder are removed, so files and the base folder remain; nothing else changes; no entry below a removed one remains; the count is the number removed; every listed directory with only removable listed directories below it, such as a nested chain of empty folders, is removed in one pass |
| Prompt.IsWhitespace | photo_numbering.py:103 | definition: the characters for which Python's `str.isspace()` holds, which `str.strip()` removes |
| Prompt.LeadingRun | photo_numbering.py:103-106 | the result is the length of the longest prefix made of characters of the class |
| Prompt.TrailingRun | photo_numbering.py:103-106 | the result is the length of the longest suffix made of characters of the class |
| Prompt.Strip | photo_numbering.py:103-106 | the result is no longer than the input and neither starts nor ends with a character of the class |
| Prompt.StripPadded | photo_numbering.py:103-106 | removing padding from both ends gives back the middle part when that neither starts nor ends with a padding character |
| Prompt.StripIdempotent | photo_numbering.py:106 | stripping twice is stripping once |
| Prompt.Unquote | photo_numbering.py:103-106 | the cleaned path is no longer than the input and neither starts nor ends with a single quote |
| Prompt.FolderPathFromInput | photo_numbering.py:103-111 | a path is returned only when it is non-empty; otherwise input is refused |
| Prompt.PlainPath | photo_numbering.py:103-109 | a path typed without quotes, with whitespace around, gives the bare path |
| Prompt.DoubleQuotedPath | photo_numbering.py:103-109 | a path in double quotes, with whitespace around, gives the bare path |
| Prompt.SingleQuotedPath | photo_numbering.py:106-109 | a path in single quotes gives the bare path |
| Prompt.BlankInput | photo_numbering.py:103-111 | input made only of whitespace is refused |
| Prompt.EmptyQuotes | photo_numbering.py:106-111 | a pair of double quotes with nothing inside, with whitespace around, is refused |
| RunTwice.FirstRun | photo_numbering.py:45-70 | on the concrete tree, the first run moves `sub/a.jpg` to `1_1.jpg` and `1.jpg` to `2.jpg`, and both count |
| RunTwice.FirstRunCleanup | photo_numbering.py:86-93 | the cleanup after that run removes the empty `sub` and nothing else |
| RunTwice.SecondRunMovesAgain | photo_numbering.py:45-93 | a second run over the result of the first does not find every file in place: it moves `1_1.jpg` to `1.jpg` |

## Left out

- Console output, the prompt and the final key press (`print` and `input`) are left out. The prompt line is a parameter of `Prompt.FolderPathFromInput`.
- Turning the folder string into the base folder (`Path(folder_path)`) is left out. The tree given to `OrganizePhotos` is the one that string names.
- Timestamps are integers, not the platform's floating-point seconds. The choice between `st_birthtime` and `st_mtime` (lines 26-29) is made before the model runs: each file simply carries its timestamp.
- The `rglob` order is an input function. The model does not fix it, and listings that do not match the tree are allowed.
- `shutil.move` is an atomic rename. Any exception it raises is a member of `failing`, and cross-device copying is not modelled.
- A move whose source is no longer a file counts as a failed move. The script's `shutil.move` would raise there too. It can only happen when the listing repeats a path.
- A failing `iterdir` or `rmdir` is a member of `undeletable`. Both are caught by the same `except` clause.
- Symbolic links, permissions, other processes changing the tree during the run, and case-insensitive filesystems are not modelled. Two paths are the same here only when their components are equal.
- Names.Lower: lower-cases ASCII letters only. Python's `str.lower` also maps other Unicode capitals, so an extension written with non-ASCII capitals that lower-case to one of the nine extensions is not recognised here.
- Names.Suffix: follows the classic `Path.suffix` rule only. Under that rule a trailing dot gives no suffix, and a leading dot does not start one.
- PhotoNumbering.FolderTree.RenamePhotos: where each file ends up (`Placed`) is stated only when the records are for distinct files present at the start. With a listing that repeats a path, the model still records every step in the trace and keeps the other entries untouched, but does not say where the repeated file ends up.
- PhotoNumbering.FolderTree.MovePhoto: requires the file name to have an image extension, which every collected record has. It is never called with other names.
- A second run need not find every file in place, so no idempotence lemma is stated. `RunTwice.SecondRunMovesAgain` is a counterexample that follows the code. No lemma states the conditions under which a second run does leave every file in place.
