/**
 * The virtual file system filter: the process-wide state (hook output and the
 * two lazily built sets), the two tri-state predicates the directory walker
 * asks, and the pass that projects the hook output onto the index's
 * skip-worktree bits.
 */
module VirtualFileSystem {
  import opened Projection
  import opened Index

  datatype Option<T> = None | Some(value: T)

  /** An answer of `is_excluded_from_virtualfilesystem`, or the process dying. */
  datatype Verdict = Decided(value: int) | Fatal(message: string)

  /** A result of the sweep, or the process dying. */
  datatype Result<T> = Ok(value: T) | Died(message: string)

  /** One run of the hook: what it wrote to standard output, or a failed run. */
  datatype HookRun = Output(bytes: string) | Failed

  /** Directory-entry types as <dirent.h> numbers them on Linux. */
  const DT_DIR: int := 4
  const DT_REG: int := 8
  const DT_LNK: int := 10

  const UnhandledDtype: string := "is_excluded_from_virtualfilesystem passed unhandled dtype"
  const LoadFailure: string := "unable to load virtual file system"

  // ---------------------------------------------------------------------
  // The answers, as functions of the configuration and the loaded buffer

  /**
   * `is_included_in_virtualfilesystem`: -1 when no hook is configured or
   * nothing is loaded (the pattern set is never built), else 1 when the path
   * or one of its slash-terminated prefixes is a pattern, else 0.
   */
  function IncludedAnswer(configured: bool, ignoreCase: bool, data: string, path: string): (r: int)
  {
    if !configured || data == [] then -1
    else if Included(ignoreCase, IncludeKeys(ignoreCase, data), path) then 1
    else 0
  }

  /** `is_excluded_from_virtualfilesystem`: 1 exclude, 0 include, -1 undecided. */
  function ExcludedAnswer(configured: bool, ignoreCase: bool, data: string, path: string, dtype: int): (v: Verdict)
  {
    if !configured then Decided(-1)
    else if dtype != DT_REG && dtype != DT_DIR && dtype != DT_LNK then Fatal(UnhandledDtype)
    else
      var included := IncludedAnswer(configured, ignoreCase, data, path);
      if dtype == DT_REG || dtype == DT_LNK then
        Decided(if included > 0 then 0 else if included == 0 then 1 else included)
      else if included > 0 then Decided(0)
      else if data == [] then Decided(-1)
      else Decided(CheckDirectory(ignoreCase, ParentKeys(ignoreCase, data), path))
  }

  /**
   * With a buffer loaded, a path is included iff a pattern matches it, or a
   * pattern matches the prefix through one of its slashes, under the active
   * comparator.
   */
  lemma IncludedIff(ignoreCase: bool, data: string, path: string)
    requires data != []
    ensures IncludedAnswer(true, ignoreCase, data, path) in {0, 1}
    ensures IncludedAnswer(true, ignoreCase, data, path) == 1 <==>
      (exists p :: p in Segments(data) && SameName(ignoreCase, p, path))
      || (exists j :: 0 <= j < |path| && SlashPrefixAt(path, j)
            && exists p :: p in Segments(data) && SameName(ignoreCase, p, path[..j + 1]))
  {
    IncludeKeysMembership(ignoreCase, data, path);
    forall j | 0 <= j < |path| && SlashPrefixAt(path, j)
      ensures Key(ignoreCase, path[..j + 1]) in IncludeKeys(ignoreCase, data)
          <==> exists p :: p in Segments(data) && SameName(ignoreCase, p, path[..j + 1])
    {
      IncludeKeysMembership(ignoreCase, data, path[..j + 1]);
    }
  }

  /** A path under a projected directory is included, whatever the case policy. */
  lemma IncludedUnderProjectedDirectory(ignoreCase: bool, data: string, dir: string, path: string)
    requires dir in Segments(data) && IsDirPattern(dir) && dir <= path
    ensures IncludedAnswer(true, ignoreCase, data, path) == 1
  {
    var j := |dir| - 1;
    assert path[..j] == dir[..j];
    SegmentsHaveNoNul(data);
    assert SlashPrefixAt(path, j);
    assert path[..j + 1] == dir;
    assert Key(ignoreCase, dir) in IncludeKeys(ignoreCase, data);
  }

  /**
   * Files and symlinks, with a buffer loaded: `is_excluded` says "include" (0)
   * iff a pattern matches the path or a prefix of it through one of its
   * slashes, and "exclude" (1) otherwise.
   */
  lemma ExcludedFile(ignoreCase: bool, data: string, path: string, dtype: int)
    requires dtype == DT_REG || dtype == DT_LNK
    requires data != []
    ensures ExcludedAnswer(true, ignoreCase, data, path, dtype)
        == Decided(if (exists p :: p in Segments(data) && SameName(ignoreCase, p, path))
                      || (exists j :: 0 <= j < |path| && SlashPrefixAt(path, j)
                            && exists p :: p in Segments(data) && SameName(ignoreCase, p, path[..j + 1]))
                   then 0 else 1)
  {
    IncludedIff(ignoreCase, data, path);
  }

  /**
   * Case-sensitive directories: with a buffer loaded, `is_excluded` says
   * "include" (0) iff the directory is itself included or some pattern lies
   * under `path + "/"`, and "exclude" (1) otherwise; with nothing loaded it is
   * undecided.
   */
  lemma ExcludedDirectory(data: string, path: string)
    ensures data == [] ==> ExcludedAnswer(true, false, data, path, DT_DIR) == Decided(-1)
    ensures data != [] ==>
      ExcludedAnswer(true, false, data, path, DT_DIR)
        == Decided(if IncludedAnswer(true, false, data, path) == 1
                      || (path != [] && exists p :: p in Segments(data) && path + "/" <= p)
                   then 0 else 1)
  {
    ParentKeysExactly(data, path);
  }

  /**
   * Directories under either comparator: with a buffer loaded, "include" (0)
   * iff the directory is itself included or some pattern begins with a prefix
   * the comparator cannot tell apart from `path + "/"`.
   */
  lemma ExcludedDirectoryMatching(ignoreCase: bool, data: string, path: string)
    ensures data == [] ==> ExcludedAnswer(true, ignoreCase, data, path, DT_DIR) == Decided(-1)
    ensures data != [] ==>
      ExcludedAnswer(true, ignoreCase, data, path, DT_DIR)
        == Decided(if IncludedAnswer(true, ignoreCase, data, path) == 1
                      || (path != [] && exists p :: p in Segments(data) && |path| < |p|
                                                    && SameName(ignoreCase, path + "/", p[..|path| + 1]))
                   then 0 else 1)
  {
    ParentKeysMatching(ignoreCase, data, path);
  }

  // ---------------------------------------------------------------------
  // The process-wide state

  /** The state `virtualfilesystem.c` keeps in file-scope statics. */
  class Filter {
    /** `core_virtualfilesystem` names a hook (and the configuration enables it). */
    const configured: bool
    /** `ignore_case`, fixed while the sets exist. */
    const ignoreCase: bool
    /** `virtual_filesystem_data`: the hook's output, empty until loaded. */
    var data: string
    /** `virtual_filesystem_hashmap`: `None` while its table is unallocated. */
    var includes: Option<set<string>>
    /** `parent_directory_hashmap`: `None` while its table is unallocated. */
    var parents: Option<set<string>>

    /** A built set always holds what the loaded buffer determines. */
    ghost predicate Valid()
      reads this
    {
      && (includes.Some? ==> data != [] && includes.value == IncludeKeys(ignoreCase, data))
      && (parents.Some? ==> data != [] && parents.value == ParentKeys(ignoreCase, data))
    }

    constructor (configured: bool, ignoreCase: bool)
      ensures Valid()
      ensures this.configured == configured && this.ignoreCase == ignoreCase
      ensures data == [] && includes == None && parents == None
    {
      this.configured := configured;
      this.ignoreCase := ignoreCase;
      data := [];
      includes := None;
      parents := None;
    }

    /** `is_included_in_virtualfilesystem`, building the pattern set on first use. */
    method IsIncluded(path: string) returns (r: int)
      requires Valid()
      modifies this`includes
      ensures Valid()
      ensures r == IncludedAnswer(configured, ignoreCase, data, path)
      ensures includes == if configured && data != [] then Some(IncludeKeys(ignoreCase, data)) else old(includes)
    {
      if !configured {
        return -1;
      }
      if includes.None? && data != [] {
        var keys := BuildIncludeSet(ignoreCase, data);
        includes := Some(keys);
      }
      if includes.None? {
        return -1;
      }
      var found := CheckIncludes(ignoreCase, includes.value, path);
      r := if found then 1 else 0;
    }

    /** `is_excluded_from_virtualfilesystem`, building the sets on first use. */
    method IsExcluded(path: string, dtype: int) returns (v: Verdict)
      requires Valid()
      modifies this`includes, this`parents
      ensures Valid()
      ensures v == ExcludedAnswer(configured, ignoreCase, data, path, dtype)
    {
      if !configured {
        return Decided(-1);
      }
      if dtype != DT_REG && dtype != DT_DIR && dtype != DT_LNK {
        return Fatal(UnhandledDtype);
      }
      if dtype == DT_REG || dtype == DT_LNK {
        var ret := IsIncluded(path);
        if ret > 0 {
          return Decided(0);
        }
        if ret == 0 {
          return Decided(1);
        }
        return Decided(ret);
      }
      var ret := IsIncluded(path);
      if ret > 0 {
        return Decided(0);
      }
      if parents.None? && data != [] {
        var keys := BuildParentSet(ignoreCase, data);
        parents := Some(keys);
      }
      if parents.None? {
        return Decided(-1);
      }
      v := Decided(CheckDirectory(ignoreCase, parents.value, path));
    }

    /** Runs the hook when nothing is loaded yet; a failed run kills the process. */
    method LoadData(hook: HookRun) returns (ok: bool)
      requires Valid()
      modifies this`data
      ensures Valid()
      ensures ok <==> !(old(data) == [] && hook.Failed?)
      ensures data == if old(data) == [] && hook.Output? then hook.bytes else old(data)
    {
      ok := true;
      if data == [] {
        match hook
        case Output(bytes) => data := bytes;
        case Failed => ok := false;
      }
    }

    /**
     * `clear_ce_flags_virtualfilesystem_1` in case-sensitive mode: for each
     * pattern of the buffer, clear `clr` on the selected entries it covers,
     * counting what it sees.
     */
    method ClearCeFlags1(index: array<CacheEntry>, sel: Flags, clr: Flags, hook: HookRun) returns (r: Result<Stats>)
      requires Valid() && configured && !ignoreCase && Sorted(index[..])
      modifies this`data, index
      ensures Valid()
      ensures data == if old(data) == [] && hook.Output? then hook.bytes else old(data)
      ensures r.Died? <==> old(data) == [] && hook.Failed?
      ensures r.Died? ==> r.message == LoadFailure && index[..] == old(index[..])
      ensures r.Ok? ==> index[..] == Swept(old(index[..]), Segments(data), sel, clr)
      ensures r.Ok? ==> r.value.vfsRows == |Segments(data)|
      ensures r.Ok? ==> r.value.vfsDirs == CountDirs(Segments(data))
      ensures r.Ok? ==> r.value.unknown == CountUnknown(Names(old(index[..])), Segments(data))
      ensures r.Ok? ==> r.value.bulkSkip == BulkSkipped(old(index[..]), Segments(data), sel, clr)
      ensures r.Ok? ==> r.value.explicitSkip == ExplicitSkipped(old(index[..]), Segments(data), sel, clr)
      ensures r.Ok? ==> r.value.bulkSkip + r.value.explicitSkip == |Changed(old(index[..]), index[..])|
    {
      var ok := LoadData(hook);
      if !ok {
        return Died(LoadFailure);
      }
      var st := Sweep(index, data, sel, clr);
      r := Ok(st);
    }

    /** `clear_ce_flags_virtualfilesystem`: the sweep, answering the index's size. */
    method ClearCeFlags(index: array<CacheEntry>, sel: Flags, clr: Flags, hook: HookRun) returns (r: Result<int>)
      requires Valid() && configured && !ignoreCase && Sorted(index[..])
      modifies this`data, index
      ensures Valid()
      ensures data == if old(data) == [] && hook.Output? then hook.bytes else old(data)
      ensures r.Died? <==> old(data) == [] && hook.Failed?
      ensures r.Ok? ==> r.value == index.Length && index[..] == Swept(old(index[..]), Segments(data), sel, clr)
    {
      var swept := ClearCeFlags1(index, sel, clr, hook);
      if swept.Died? {
        return Died(swept.message);
      }
      r := Ok(index.Length);
    }

    /**
     * `apply_virtualfilesystem`: with the hook configured, mark every entry
     * skip-worktree, then clear the bit on every entry a pattern covers.
     */
    method Apply(index: array<CacheEntry>, hook: HookRun) returns (r: Result<Stats>)
      requires Valid() && Sorted(index[..])
      requires configured ==> !ignoreCase
      modifies this`data, index
      ensures Valid()
      ensures !configured ==> r == Ok(Stats(0, 0, 0, 0, 0)) && index[..] == old(index[..]) && data == old(data)
      ensures configured ==> data == if old(data) == [] && hook.Output? then hook.bytes else old(data)
      ensures configured ==> (r.Died? <==> old(data) == [] && hook.Failed?)
      ensures configured && r.Died? ==> r.message == LoadFailure && index[..] == MarkAll(old(index[..]))
      ensures configured && r.Ok? ==> index[..] == Projected(old(index[..]), Segments(data))
      ensures configured && r.Ok? ==> r.value.vfsRows == |Segments(data)|
      ensures configured && r.Ok? ==> r.value.vfsDirs == CountDirs(Segments(data))
      ensures configured && r.Ok? ==> r.value.unknown == CountUnknown(Names(old(index[..])), Segments(data))
      ensures configured && r.Ok? ==>
        r.value.bulkSkip == BulkSkipped(MarkAll(old(index[..])), Segments(data), {}, CE_SKIP_WORKTREE)
      ensures configured && r.Ok? ==>
        r.value.explicitSkip == ExplicitSkipped(MarkAll(old(index[..])), Segments(data), {}, CE_SKIP_WORKTREE)
      ensures configured && r.Ok? ==>
        r.value.bulkSkip + r.value.explicitSkip == |Changed(MarkAll(old(index[..])), index[..])|
    {
      if !configured {
        return Ok(Stats(0, 0, 0, 0, 0));
      }
      ghost var before := index[..];
      var i := 0;
      while i < index.Length
        modifies index
        invariant 0 <= i <= index.Length
        invariant forall j :: 0 <= j < i ==> index[j] == before[j].(flags := before[j].flags + CE_SKIP_WORKTREE)
        invariant forall j :: i <= j < index.Length ==> index[j] == before[j]
      {
        index[i] := index[i].(flags := index[i].flags + CE_SKIP_WORKTREE);
        i := i + 1;
      }
      assert index[..] == MarkAll(before);
      assert Names(index[..]) == Names(before);
      SortedKeptByNames(before, index[..]);
      r := ClearCeFlags1(index, {}, CE_SKIP_WORKTREE, hook);
      MarkThenSweep(before, Segments(data));
    }

    /** `free_virtualfilesystem`: release both sets and the buffer. */
    method Free()
      modifies this`data, this`includes, this`parents
      ensures Valid()
      ensures data == [] && includes == None && parents == None
    {
      includes := None;
      parents := None;
      data := [];
    }
  }
}
