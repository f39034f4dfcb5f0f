# Virtual file system projection filter

A Dafny model of `virtualfilesystem.c`, the layer that lets a virtualising
file system tell git which paths are projected into the working tree.

An external hook writes a list of NUL-terminated paths. A path ending in `/`
projects a whole directory. From that buffer the filter builds two sets:

- the pattern set: every projected path;
- the parent-directory set: every slash-terminated prefix of a projected path.

It answers two tri-state questions the directory walker asks:

- `is_included`: 1 included, 0 not included, -1 undecided;
- `is_excluded`: 1 exclude, 0 include, -1 undecided.

It also projects the list onto the index: every entry is first marked
`CE_SKIP_WORKTREE`, and the bit is then cleared on every entry a pattern covers.

The model is four modules:

- `Projection` (`projection.dfy`): the buffer, its NUL-terminated patterns
  (`Segments`), the two sets as sets of normalised keys, and the three loops
  that build and probe them (`BuildIncludeSet`, `BuildParentSet`,
  `CheckIncludes`).
- `Index` (`index.dfy`): cache entries sorted by name in an `array`, the
  flags word as the set of its 32 bit positions, the positional binary
  search, and the sweep of `clear_ce_flags_virtualfilesystem_1`. Each loop is
  a method proved against a function (`Swept`, `Projected`) whose properties
  are lemmas.
- `VirtualFileSystem` (`filter.dfy`): the file-scope statics as a class
  `Filter` (the buffer and the two lazily built sets), the two predicates as
  methods proved equal to the functions `IncludedAnswer` and `ExcludedAnswer`,
  the sweep entry points, `apply_virtualfilesystem` and
  `free_virtualfilesystem`.
- `Scenarios` (`scenarios.dfy`): worked examples, small projections run
  through the answers and through `Projected`.

Empty entries of the hook's output (two NULs in a row) are not skipped. The code inserts an empty pattern into the pattern set
(virtualfilesystem.c:123-128) and, in the sweep, counts it as one more row and
one more unknown file (virtualfilesystem.c:275-279, 333). `Segments` keeps
empty patterns for that reason.

A hash map counts as built once its table is allocated. That happens at the
first use with a non-empty buffer, even when the buffer holds no NUL, so a
buffer without a terminator makes `is_included` answer 0, not -1.

## Model

| member | source | states |
|---|---|---|
| Projection.SegmentsHaveNoNul | virtualfilesystem.c:123-128 | no pattern cut from the buffer contains a NUL |
| Projection.SegmentsAppend | virtualfilesystem.c:123-128 | a buffer that is empty or ends in NUL splits independently of what follows it: the patterns of `p + q` are those of `p` followed by those of `q` |
| Projection.SegmentsWithoutNul | virtualfilesystem.c:123-128 | bytes with no NUL form no pattern; followed by one NUL they form exactly one |
| Projection.SegmentsOfTerminated | virtualfilesystem.c:123-128 | the hook's wire format round-trips: splitting NUL-terminated NUL-free paths gives back exactly those paths, empty ones included |
| Projection.UnterminatedTailIgnored | virtualfilesystem.c:123-124 | bytes after the last NUL are never a pattern, since the scan only acts at a NUL |
| Projection.SegmentsRoundTrip | virtualfilesystem.c:123-128 | every buffer is its patterns re-terminated followed by a NUL-free tail, so splitting loses only that tail |
| Projection.SegmentsClose | virtualfilesystem.c:125-127 | one step of the scan: a NUL at `i` closes the pattern that began at `entry` |
| Projection.KeyMatchesComparator | virtualfilesystem.c:28-39 | two paths have the same key iff the active comparator cannot tell them apart: `strncmp` byte equality, or `strncasecmp` ASCII case folding, over equal lengths |
| Projection.IncludeKeysMembership | virtualfilesystem.c:96-105 | a path's key is in the pattern set iff some pattern of the buffer matches it under the comparator |
| Projection.BuildIncludeSet | virtualfilesystem.c:107-129 | the scan inserts the key of every NUL-terminated pattern and nothing else |
| Projection.ParentPrefixesMembership | virtualfilesystem.c:158-170 | a pattern contributes exactly its prefixes of two bytes or more that end in `/`: `a/b/` gives `a/` and `a/b/`; a lone `/` gives nothing |
| Projection.ParentKeysOfMembership | virtualfilesystem.c:183-195 | a key is in the parent-directory set iff it is the key of a parent prefix of some pattern |
| Projection.ParentKeysExactly | virtualfilesystem.c:148-172 | case-sensitive: `dir/` is in the parent-directory set iff `dir` is non-empty and some pattern begins with `dir/` |
| Projection.ParentKeysMatching | virtualfilesystem.c:148-172 | under either comparator: `dir/` is in the parent-directory set iff `dir` is non-empty and some pattern begins with a prefix the comparator cannot tell apart from `dir/` |
| Projection.AddParentDirectories | virtualfilesystem.c:148-172 | the slash scan from offset 1 adds exactly the pattern's parent prefixes to the set, skipping those already present |
| Projection.BuildParentSet | virtualfilesystem.c:174-196 | the scan builds exactly the union of the parent prefixes of every pattern |
| Projection.CheckIncludes | virtualfilesystem.c:58-94 | the result is true iff the path itself, or its prefix through a `/` found before any NUL, is a key of the set |
| Projection.CheckDirectory | virtualfilesystem.c:198-217 | 0 iff the key of `path + "/"` is in the parent-directory set, else 1; `Projection.ParentKeysExactly` and `VirtualFileSystem.ExcludedDirectory` say which directories that is in terms of the patterns |
| Index.NameLessIrreflexive | virtualfilesystem.c:288 | the index's name order is strict: no name sorts before itself, and it is antisymmetric |
| Index.NameLessTransitive | virtualfilesystem.c:288 | the name order is transitive |
| Index.NameLessTotal | virtualfilesystem.c:288 | any two distinct names are ordered one way or the other |
| Index.PrefixNotBelow | virtualfilesystem.c:290 | a name beginning with a pattern never sorts before the pattern, so the run of such names starts at the insertion point |
| Index.PrefixBetween | virtualfilesystem.c:293-294 | a name between a pattern and a name beginning with it also begins with it, so the run is contiguous and stopping at the first mismatch misses nothing |
| Index.InsertionPointMeansAbsent | virtualfilesystem.c:288-289 | a negative `index_name_pos` answer means no entry has that name |
| Index.IndexNamePos | virtualfilesystem.c:307-311 | binary search: a non-negative answer is the position of an entry with that name; a negative one encodes the insertion point |
| Index.ClearFacts | virtualfilesystem.c:300 | `flags &= ~mask` twice is the same as once, and it changes the word iff the word holds a bit of the mask |
| Index.ClearIfCovered | virtualfilesystem.c:316-320 | one entry after a sweep keeps its name, only loses `clr` bits, and changes iff it is covered, admitted by `sel` and holds a `clr` bit |
| Index.SweptFacts | virtualfilesystem.c:290-320 | frame property of the sweep: names and count kept, only `clr` bits cleared, all other bits kept, and an entry changes iff a pattern covers it, `sel` admits it and it held a `clr` bit |
| Index.SweptStep | virtualfilesystem.c:274-338 | sweeping the patterns one after another is sweeping them all at once |
| Index.ChangedCompose | virtualfilesystem.c:298-300 | two clearing passes change disjoint sets of entries, so the skip counters of successive patterns add up to the number of entries changed |
| Index.MarkAll | virtualfilesystem.c:369-370 | after the marking loop every entry has `CE_SKIP_WORKTREE`, with its name and other bits unchanged |
| Index.Projected | virtualfilesystem.c:358-385 | after apply, an entry has `CE_SKIP_WORKTREE` iff no pattern covers it; its name and other bits are unchanged |
| Index.MarkThenSweep | virtualfilesystem.c:369-372 | marking every entry and then sweeping with select mask 0 and clear mask `CE_SKIP_WORKTREE` gives exactly `Projected` |
| Index.ProjectedIdempotent | virtualfilesystem.c:358-385 | applying the same projection twice gives the same flags as applying it once |
| Index.UnknownFileMarksAll | virtualfilesystem.c:303-335 | a file pattern that names no entry covers nothing: applying it leaves every entry marked skip-worktree, exactly as the marking loop left it |
| Index.ClearEntry | virtualfilesystem.c:316-320 | one entry: `clr` cleared when `sel` admits it, nothing else changed, and the hit (the counter increment) reports exactly whether the entry changed |
| Index.ClearRun | virtualfilesystem.c:289-301 | the run from the insertion point leaves the index exactly as sweeping the one directory pattern does, and counts exactly the entries it changed |
| Index.ClearPattern | virtualfilesystem.c:281-335 | one pattern: the index becomes its sweep; `nr_vfs_dirs` rises iff it ends in `/`; `nr_unknown` rises iff it is a file pattern naming no entry; a directory pattern adds the entries it changes to `nr_bulk_skip` only, a file pattern to `nr_explicit_skip` only |
| Index.SweepPattern | virtualfilesystem.c:275-337 | at each NUL the index and all counters move from the sweep of the patterns so far to the sweep of one more |
| Index.Sweep | virtualfilesystem.c:272-339 | after the buffer loop the index is the sweep of all patterns; `nr_vfs_rows` is their number, `nr_vfs_dirs` the directory patterns, `nr_unknown` the unmatched file patterns, `nr_bulk_skip` and `nr_explicit_skip` the entries changed by directory and by file patterns in buffer order, together every entry changed |
| Index.SkipsAddUp | virtualfilesystem.c:281-335 | the bulk and explicit skip counts of a sweep add up to the number of entries it changes: no entry is counted twice, since a cleared bit is not cleared again |
| Index.NoBulkWithoutDirectories | virtualfilesystem.c:298-299 | a projection with no directory pattern bulk-skips nothing |
| Index.NoExplicitWithoutFiles | virtualfilesystem.c:316-318 | a projection with no file pattern explicitly skips nothing |
| VirtualFileSystem.IncludedIff | virtualfilesystem.c:135-146 | with a buffer loaded, `is_included` answers 1 iff some pattern matches the path, or the path's prefix through one of its slashes, and 0 otherwise |
| VirtualFileSystem.IncludedUnderProjectedDirectory | virtualfilesystem.c:74-90 | every path under a projected directory is included, under either case policy |
| VirtualFileSystem.ExcludedFile | virtualfilesystem.c:230-237 | for a file or symlink with a buffer loaded, `is_excluded` answers 0 iff the path is included and 1 otherwise |
| VirtualFileSystem.ExcludedDirectory | virtualfilesystem.c:239-250 | case-sensitive directory: undecided with nothing loaded; otherwise 0 iff the directory is included or some pattern lies under `dir/`, else 1 |
| VirtualFileSystem.ExcludedDirectoryMatching | virtualfilesystem.c:239-250 | a directory under either comparator: undecided with nothing loaded; otherwise 0 iff the directory is included or some pattern begins with a prefix the comparator matches to `dir/`, else 1 |
| VirtualFileSystem.Filter.constructor | virtualfilesystem.c:15-17 | the state starts with no buffer and neither set built |
| VirtualFileSystem.Filter.IsIncluded | virtualfilesystem.c:135-146 | answers -1 with no hook or nothing loaded, else as `IncludedAnswer`; builds the pattern set on first use and keeps it equal to the buffer's keys |
| VirtualFileSystem.Filter.IsExcluded | virtualfilesystem.c:222-253 | -1 with no hook; dies on any type but regular file, directory or symlink; otherwise the answer `ExcludedAnswer` gives; both sets stay equal to what the buffer determines |
| VirtualFileSystem.Filter.LoadData | virtualfilesystem.c:269-270 | the hook runs only while nothing is loaded; a failed run is reported; a loaded buffer is never replaced |
| VirtualFileSystem.Filter.ClearCeFlags1 | virtualfilesystem.c:263-340 | dies, leaving the index as it was, iff the hook had to run and failed; otherwise the index becomes the sweep of the buffer's patterns and the five counters are as in `Index.Sweep` |
| VirtualFileSystem.Filter.ClearCeFlags | virtualfilesystem.c:347-353 | the same sweep, returning the index size rather than a count of changes |
| VirtualFileSystem.Filter.Apply | virtualfilesystem.c:358-385 | no-op without the configuration; otherwise the index becomes `Projected` of the buffer's patterns, or stays all-marked if the hook fails; the five counters behind the trace2 data are those of sweeping the all-marked index with `CE_SKIP_WORKTREE` |
| VirtualFileSystem.Filter.Free | virtualfilesystem.c:390-394 | both sets and the buffer are released, back to the initial state |
| Scenarios.OneFileFiles | virtualfilesystem.c:135-146 | with only `a/b/c.txt` projected, the file is included (not excluded) and its sibling `a/b/d.txt` is not included (excluded) |
| Scenarios.OneFileDirectories | virtualfilesystem.c:239-250 | with only `a/b/c.txt` projected, `a` and `a/b` are descended into and `a/x` is excluded |
| Scenarios.OnePatternDirectory | virtualfilesystem.c:239-250 | case-sensitive, with a single pattern loaded: a directory is descended into iff it is included or the pattern begins with the directory and a `/` |
| Scenarios.NotIncluded | virtualfilesystem.c:58-94 | case-sensitive, with a single pattern: a path that neither equals it nor has it as a slash prefix is not included |
| Scenarios.DirectoryFiles | virtualfilesystem.c:58-94 | with `src/` projected, `src/main.c` and `src/sub/x` are included |
| Scenarios.DirectoryDirectories | virtualfilesystem.c:239-250 | with `src/` projected, `src` is descended into and `doc` is excluded |
| Scenarios.ApplyDirectory | virtualfilesystem.c:358-385 | applying `a/` to `a/one`, `a/two`, `b/one` clears the bit on the first two and leaves it on `b/one` |
| Scenarios.ApplyUnknownFile | virtualfilesystem.c:303-335 | applying `missing.txt` to an index holding only `README` leaves `README` skip-worktree |
| Scenarios.ApplyDirectoryCounts | virtualfilesystem.c:358-385 | applying `a/` to `a/one`, `a/two`, `b/one`: one directory pattern, no unknown pattern, two bulk skips, no explicit skip |
| Scenarios.ApplyUnknownFileCounts | virtualfilesystem.c:358-385 | applying `missing.txt` to `README`: no directory pattern, one unknown pattern, no skips |
| Scenarios.ApplyRows | virtualfilesystem.c:272-280 | the buffers `a/` NUL and `missing.txt` NUL of the apply examples each make one row |

## Left out

- VirtualFileSystem.Filter.ClearCeFlags1: requires case-sensitive mode. In case-insensitive mode the source calls `adjust_dirname_case`, `index_file_exists`, `index_file_next_match` and case-folding `fspathncmp`. Those live in git's name-hash code, which is not part of this model.
- VirtualFileSystem.Filter.ClearCeFlags: case-sensitive mode only, for the same reason.
- VirtualFileSystem.Filter.ClearCeFlags1 and ClearCeFlags require a configured hook. Their callers elsewhere in git call them only when `core_virtualfilesystem` is set; without one, the hook command would be a null pointer (virtualfilesystem.c:48).
- VirtualFileSystem.Filter.Apply: requires case-sensitive mode whenever the hook is configured, for the same reason.
- Running the hook (`get_virtual_filesystem_data`, virtualfilesystem.c:41-56) is a subprocess run through the shell in the work tree. It is modelled by a `HookRun` parameter that either gives the bytes or fails. The process dying becomes the `Died` and `Fatal` results.
- Hash functions and hash-map internals (`memhash`, `memihash`, table growth) are not modelled. Each set is a mathematical set of normalised keys. `vfs_hashmap_cmp` compares only as many bytes as the stored entry holds, so the model assumes hashes separate keys of different lengths.
- The process-wide `vfshash`/`vfscmp` latch, re-bound at every set build, is modelled by one `ignoreCase` fixed for the life of the `Filter`. A change of `ignore_case` between the two builds is not modelled.
- The read of `buf[i - 1]` before the buffer when the buffer starts with a NUL (virtualfilesystem.c:284) is not reproduced. An empty pattern is treated as a file pattern, which is what every other empty pattern reads as.
- The index is reduced to stage-0 entries with unique names, sorted by bytewise name order. Sparse-index expansion, conflict stages and the rest of `struct cache_entry` are not part of this model.
- The `int` counters of `apply_virtual_filesystem_stats` are unbounded naturals. C overflow is not modelled.
- The trace2 region and data events (virtualfilesystem.c:366-384) are I/O. `Apply` returns the counters they would print.
- The final `return -1` of `is_excluded_from_virtualfilesystem` (virtualfilesystem.c:252) cannot be reached after the type check, so it has no counterpart.
- Memory ownership (set entries borrowing from the buffer, `free`) becomes value semantics; `Free` resets the state.
- `core_virtualfilesystem` and `git_config_get_virtualfilesystem` are both read as the single `configured` flag. `CE_SKIP_WORKTREE` is bit 30, and `DT_DIR`, `DT_REG` and `DT_LNK` take their Linux `<dirent.h>` values. The headers that define them are not part of this model.
- `builtin/var.c` is not part of this model. It dispatches to foreign functions and prints, and its only local logic is a linear name lookup.
