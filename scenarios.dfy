/**
 * Worked examples: small projections run through the answers of the two
 * predicates and through the effect of `apply_virtualfilesystem`.
 */
module Scenarios {
  import opened Projection
  import opened Index
  import opened VirtualFileSystem

  /** A one-file projection: the file is included, its sibling is not. */
  lemma OneFileFiles()
    ensures IncludedAnswer(true, false, "a/b/c.txt\0", "a/b/c.txt") == 1
    ensures ExcludedAnswer(true, false, "a/b/c.txt\0", "a/b/c.txt", DT_REG) == Decided(0)
    ensures IncludedAnswer(true, false, "a/b/c.txt\0", "a/b/d.txt") == 0
    ensures ExcludedAnswer(true, false, "a/b/c.txt\0", "a/b/d.txt", DT_REG) == Decided(1)
  {
    SegmentsWithoutNul("a/b/c.txt");
    assert "a/b/c.txt\0" == "a/b/c.txt" + [NUL];
    NotIncluded("a/b/c.txt\0", "a/b/c.txt", "a/b/d.txt");
  }

  /** A one-file projection: its directories are descended into, others are not. */
  lemma OneFileDirectories()
    ensures ExcludedAnswer(true, false, "a/b/c.txt\0", "a", DT_DIR) == Decided(0)
    ensures ExcludedAnswer(true, false, "a/b/c.txt\0", "a/b", DT_DIR) == Decided(0)
    ensures ExcludedAnswer(true, false, "a/b/c.txt\0", "a/x", DT_DIR) == Decided(1)
  {
    var data, p := "a/b/c.txt\0", "a/b/c.txt";
    SegmentsWithoutNul("a/b/c.txt");
    assert "a/b/c.txt\0" == "a/b/c.txt" + [NUL];
    OnePatternDirectory(data, p, "a");
    assert "a" + "/" <= p;
    OnePatternDirectory(data, p, "a/b");
    assert "a/b" + "/" <= p;
    NotIncluded(data, p, "a/x");
    OnePatternDirectory(data, p, "a/x");
    assert !("a/x" + "/" <= p) by { assert ("a/x" + "/")[2] != p[2]; }
  }

  /** Case-sensitive, a single pattern loaded: a directory is descended into iff it is included or the pattern lies under it. */
  lemma OnePatternDirectory(data: string, p: string, dir: string)
    requires Segments(data) == [p] && data != []
    ensures ExcludedAnswer(true, false, data, dir, DT_DIR)
        == Decided(if IncludedAnswer(true, false, data, dir) == 1 || (dir != [] && dir + "/" <= p) then 0 else 1)
  {
    ExcludedDirectory(data, dir);
    assert p in Segments(data);
  }

  /** Case-sensitive, a single pattern loaded: a path that is neither the pattern nor has it as a slash prefix is not included. */
  lemma NotIncluded(data: string, p: string, path: string)
    requires Segments(data) == [p] && data != []
    requires path != p
    requires forall j :: 0 <= j < |path| && j + 1 == |p| && path[j] == '/' ==> path[..j + 1] != p
    ensures IncludedAnswer(true, false, data, path) == 0
  {
    IncludedIff(false, data, path);
  }

  /** A directory projection includes everything beneath it. */
  lemma DirectoryFiles()
    ensures IncludedAnswer(true, false, "src/\0", "src/main.c") == 1
    ensures IncludedAnswer(true, false, "src/\0", "src/sub/x") == 1
  {
    SegmentsWithoutNul("src/");
    assert "src/\0" == "src/" + [NUL];
    assert "src/" in Segments("src/\0");
    IncludedUnderProjectedDirectory(false, "src/\0", "src/", "src/main.c");
    IncludedUnderProjectedDirectory(false, "src/\0", "src/", "src/sub/x");
  }

  /** A directory projection: the directory is descended into, a sibling is not. */
  lemma DirectoryDirectories()
    ensures ExcludedAnswer(true, false, "src/\0", "src", DT_DIR) == Decided(0)
    ensures ExcludedAnswer(true, false, "src/\0", "doc", DT_DIR) == Decided(1)
  {
    var data, p := "src/\0", "src/";
    SegmentsWithoutNul("src/");
    assert "src/\0" == "src/" + [NUL];
    OnePatternDirectory(data, p, "src");
    assert "src" + "/" == p;
    NotIncluded(data, p, "doc");
    OnePatternDirectory(data, p, "doc");
    assert !("doc" + "/" <= p) by { assert ("doc" + "/")[0] != p[0]; }
  }

  /** Applying a directory projection: the entries under it lose `CE_SKIP_WORKTREE`, the rest keep it. */
  lemma ApplyDirectory()
    ensures var es := [CacheEntry("a/one", {}), CacheEntry("a/two", {}), CacheEntry("b/one", {})];
      Projected(es, ["a/"])
        == [CacheEntry("a/one", {}), CacheEntry("a/two", {}), CacheEntry("b/one", CE_SKIP_WORKTREE)]
  {
    var es := [CacheEntry("a/one", {}), CacheEntry("a/two", {}), CacheEntry("b/one", {})];
    var p := "a/";
    var names := Names(es);
    assert names == ["a/one", "a/two", "b/one"];
    assert p !in names;
    CoveredBySingle(names, p, "a/one");
    CoveredBySingle(names, p, "a/two");
    CoveredBySingle(names, p, "b/one");
    assert !(p <= "b/one") by { assert p[0] != "b/one"[0]; }
    var r := Projected(es, [p]);
    assert r[0].flags == {} - CE_SKIP_WORKTREE == {};
    assert r[1].flags == {} - CE_SKIP_WORKTREE == {};
    assert r[2].flags == {} + CE_SKIP_WORKTREE == CE_SKIP_WORKTREE;
  }

  /** Applying `missing.txt` to an index holding only `README` leaves `README` skip-worktree. */
  lemma ApplyUnknownFile()
    ensures Projected([CacheEntry("README", {})], ["missing.txt"]) == [CacheEntry("README", CE_SKIP_WORKTREE)]
  {
    var es := [CacheEntry("README", {})];
    var p := "missing.txt";
    assert Names(es) == ["README"];
    assert p != "README" by { assert p[0] != "README"[0]; }
    UnknownFileMarksAll(es, p);
    assert MarkAll(es)[0].flags == {} + CE_SKIP_WORKTREE == CE_SKIP_WORKTREE;
  }

  /**
   * The counters of the directory example: one row, one directory pattern, no
   * unknown pattern, two entries bulk-skipped and none explicitly.
   */
  lemma ApplyDirectoryCounts()
    ensures var es := [CacheEntry("a/one", {}), CacheEntry("a/two", {}), CacheEntry("b/one", {})];
      var marked := MarkAll(es);
      && CountDirs(["a/"]) == 1
      && CountUnknown(Names(es), ["a/"]) == 0
      && BulkSkipped(marked, ["a/"], {}, CE_SKIP_WORKTREE) == 2
      && ExplicitSkipped(marked, ["a/"], {}, CE_SKIP_WORKTREE) == 0
  {
    var es := [CacheEntry("a/one", {}), CacheEntry("a/two", {}), CacheEntry("b/one", {})];
    var marked := MarkAll(es);
    var pats := ["a/"];
    assert pats[..0] == [];
    ApplyDirectory();
    MarkThenSweep(es, pats);
    var after := Projected(es, pats);
    assert Swept(marked, [], {}, CE_SKIP_WORKTREE) == marked;
    assert marked[0] != after[0] && marked[1] != after[1] && marked[2] == after[2] by {
      assert CE_SKIP_WORKTREE <= marked[0].flags && CE_SKIP_WORKTREE <= marked[1].flags;
      assert marked[2].flags == {} + CE_SKIP_WORKTREE;
    }
    assert Changed(marked, after) == {0, 1};
    NoExplicitWithoutFiles(marked, pats, {}, CE_SKIP_WORKTREE);
  }

  /**
   * The counters of the unknown-file example: one row, no directory pattern,
   * one unknown pattern, nothing skipped.
   */
  lemma ApplyUnknownFileCounts()
    ensures var es := [CacheEntry("README", {})];
      var marked := MarkAll(es);
      && CountDirs(["missing.txt"]) == 0
      && CountUnknown(Names(es), ["missing.txt"]) == 1
      && BulkSkipped(marked, ["missing.txt"], {}, CE_SKIP_WORKTREE) == 0
      && ExplicitSkipped(marked, ["missing.txt"], {}, CE_SKIP_WORKTREE) == 0
  {
    var es := [CacheEntry("README", {})];
    var marked := MarkAll(es);
    var pats := ["missing.txt"];
    assert pats[..0] == [];
    assert Names(es) == ["README"];
    assert "missing.txt" != "README" by { assert "missing.txt"[0] != "README"[0]; }
    ApplyUnknownFile();
    MarkThenSweep(es, pats);
    var after := Projected(es, pats);
    assert Swept(marked, [], {}, CE_SKIP_WORKTREE) == marked;
    assert marked[0] == after[0] by {
      assert marked[0].flags == {} + CE_SKIP_WORKTREE;
    }
    assert Changed(marked, after) == {};
    NoBulkWithoutDirectories(marked, pats, {}, CE_SKIP_WORKTREE);
  }

  /** The buffers `a/` NUL and `missing.txt` NUL of the two examples above each make one row. */
  lemma ApplyRows()
    ensures |Segments("a/\0")| == 1
    ensures |Segments("missing.txt\0")| == 1
  {
    SegmentsWithoutNul("a/");
    assert "a/\0" == "a/" + [NUL];
    SegmentsWithoutNul("missing.txt");
    assert "missing.txt\0" == "missing.txt" + [NUL];
  }
}
