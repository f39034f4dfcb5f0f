/**
 * The slice of the in-memory index the filter touches: an array of cache
 * entries sorted by name, each with a flags word, and the per-pattern step of
 * the skip-worktree sweep (`clear_ce_flags_virtualfilesystem_1`).
 *
 * Only the case-sensitive branch is modelled: names are compared bytewise and
 * looked up by positional binary search.
 */
module Index {
  import opened Projection

  /** A bit position of the 32-bit `ce_flags` word. */
  type Bit = b: int | 0 <= b < 32

  /**
   * A flags word or mask, as the set of its bits: `a & b` is `a * b`,
   * `a & ~b` is `a - b`, `a | b` is `a + b`, and `a == 0` is `a == {}`.
   */
  type Flags = set<Bit>

  /** A cache entry as far as the filter sees it: its path and its `ce_flags`. */
  datatype CacheEntry = CacheEntry(name: string, flags: Flags)

  /** `CE_SKIP_WORKTREE`, `1 << 30`. */
  const CE_SKIP_WORKTREE: Flags := {30}

  // ---------------------------------------------------------------------
  // Name order

  /** The index's name order: bytewise, a proper prefix sorting first. */
  predicate NameLess(a: string, b: string)
    decreases |a|
  {
    if a == [] then b != []
    else if b == [] then false
    else if a[0] != b[0] then a[0] < b[0]
    else NameLess(a[1..], b[1..])
  }

  lemma {:induction false} NameLessIrreflexive(a: string, b: string)
    requires NameLess(a, b)
    ensures a != b && !NameLess(b, a)
    decreases |a|
  {
    if a != [] && b != [] && a[0] == b[0] {
      NameLessIrreflexive(a[1..], b[1..]);
    }
  }

  lemma {:induction false} NameLessTransitive(a: string, b: string, c: string)
    requires NameLess(a, b) && NameLess(b, c)
    ensures NameLess(a, c)
    decreases |a|
  {
    if a != [] && b != [] && c != [] && a[0] == b[0] && b[0] == c[0] {
      NameLessTransitive(a[1..], b[1..], c[1..]);
    }
  }

  lemma {:induction false} NameLessTotal(a: string, b: string)
    ensures a == b || NameLess(a, b) || NameLess(b, a)
    decreases |a|
  {
    if a != [] && b != [] && a[0] == b[0] {
      NameLessTotal(a[1..], b[1..]);
      if a[1..] == b[1..] {
        assert a == [a[0]] + a[1..] && b == [b[0]] + b[1..];
      }
    }
  }

  /** A name that begins with `s` never sorts before `s`. */
  lemma {:induction false} PrefixNotBelow(s: string, x: string)
    requires s <= x
    ensures !NameLess(x, s)
    decreases |s|
  {
    if s != [] {
      PrefixNotBelow(s[1..], x[1..]);
    }
  }

  /** Between `s` and a name beginning with `s`, every name begins with `s`. */
  lemma {:induction false} PrefixBetween(s: string, x: string, y: string)
    requires s <= y && !NameLess(x, s) && NameLess(x, y)
    ensures s <= x
    decreases |s|
  {
    if s != [] {
      PrefixBetween(s[1..], x[1..], y[1..]);
    }
  }

  function Names(es: seq<CacheEntry>): (ns: seq<string>)
    ensures |ns| == |es| && forall i :: 0 <= i < |es| ==> ns[i] == es[i].name
  {
    seq(|es|, i requires 0 <= i < |es| => es[i].name)
  }

  /** The index invariant: names strictly increasing (one entry per name). */
  predicate Sorted(es: seq<CacheEntry>)
  {
    forall i, j :: 0 <= i < j < |es| ==> NameLess(es[i].name, es[j].name)
  }

  /** `ip` is where `name` belongs: every earlier name sorts before it, every later one after it. */
  predicate InsertionPoint(es: seq<CacheEntry>, name: string, ip: int)
  {
    && 0 <= ip <= |es|
    && (forall j :: 0 <= j < ip ==> NameLess(es[j].name, name))
    && (forall j :: ip <= j < |es| ==> NameLess(name, es[j].name))
  }

  lemma InsertionPointMeansAbsent(es: seq<CacheEntry>, name: string, ip: int)
    requires InsertionPoint(es, name, ip)
    ensures name !in Names(es)
  {
    forall j | 0 <= j < |es| ensures es[j].name != name {
      if j < ip {
        NameLessIrreflexive(es[j].name, name);
      } else {
        NameLessIrreflexive(name, es[j].name);
      }
    }
  }

  /**
   * `index_name_pos` on stage-0 names: the position of `name` when some entry
   * has it, otherwise `-(insertion point) - 1`.
   */
  method IndexNamePos(index: array<CacheEntry>, name: string) returns (pos: int)
    requires Sorted(index[..])
    ensures 0 <= pos ==> pos < index.Length && index[pos].name == name
    ensures pos < 0 ==> InsertionPoint(index[..], name, -pos - 1)
  {
    var lo, hi := 0, index.Length;
    while lo < hi
      invariant 0 <= lo <= hi <= index.Length
      invariant forall j :: 0 <= j < lo ==> NameLess(index[j].name, name)
      invariant forall j :: hi <= j < index.Length ==> NameLess(name, index[j].name)
    {
      var mid := (lo + hi) / 2;
      var here := index[mid].name;
      if here == name {
        return mid;
      }
      NameLessTotal(here, name);
      if NameLess(here, name) {
        forall j | 0 <= j < mid ensures NameLess(index[j].name, name) {
          NameLessTransitive(index[j].name, here, name);
        }
        lo := mid + 1;
      } else {
        forall j | mid < j < index.Length ensures NameLess(name, index[j].name) {
          NameLessTransitive(name, here, index[j].name);
        }
        hi := mid;
      }
    }
    pos := -lo - 1;
  }

  // ---------------------------------------------------------------------
  // What a pattern covers, and the flags after a sweep

  /**
   * A directory pattern ends in `/`.  An empty pattern is a file pattern (the
   * source reads the byte before it, which for a pattern at the very start of
   * the buffer lies outside the buffer).
   */
  predicate IsDirPattern(s: string)
  {
    |s| > 0 && s[|s| - 1] == '/'
  }

  /**
   * Whether pattern `s` reaches the entry called `name` in an index holding
   * `names`: a file pattern reaches the entry of that exact name; a directory
   * pattern reaches every entry whose name begins with it, unless the pattern
   * is itself the name of an entry.
   */
  predicate Covers(names: seq<string>, s: string, name: string)
  {
    if IsDirPattern(s) then s !in names && s <= name else name == s
  }

  predicate CoveredBy(names: seq<string>, pats: seq<string>, name: string)
  {
    exists s :: s in pats && Covers(names, s, name)
  }

  lemma CoveredBySingle(names: seq<string>, s: string, name: string)
    ensures CoveredBy(names, [s], name) <==> Covers(names, s, name)
  {
    if Covers(names, s, name) {
      assert s in [s];
    }
  }

  /** `select_mask` admits an entry: the mask is 0, or the entry shares a bit with it. */
  predicate Selected(flags: Flags, sel: Flags)
  {
    sel == {} || flags * sel != {}
  }

  /** Clearing bits twice is clearing them once; clearing changes a word iff it holds one of the bits. */
  lemma ClearFacts(f: Flags, c: Flags)
    ensures (f - c) - c == f - c
    ensures (f - c == f) <==> f * c == {}
  {
    if f * c != {} {
      var b :| b in f * c;
      assert b in f && b !in f - c;
    } else {
      assert forall b :: b in f && b in c ==> b in f * c;
    }
  }

  /** One entry after a sweep: `clr` is cleared when a pattern covers it and `sel` admits it. */
  function ClearIfCovered(e: CacheEntry, covered: bool, sel: Flags, clr: Flags): (r: CacheEntry)
    ensures r.name == e.name
    ensures r.flags == e.flags || r.flags == e.flags - clr
    ensures r.flags - clr == e.flags - clr
    ensures r != e <==> covered && Selected(e.flags, sel) && e.flags * clr != {}
  {
    ClearFacts(e.flags, clr);
    if covered && Selected(e.flags, sel) then e.(flags := e.flags - clr) else e
  }

  /**
   * The index after sweeping `pats` with `(sel, clr)`: every selected entry a
   * pattern covers loses its `clr` bits; nothing else changes.
   */
  function Swept(es: seq<CacheEntry>, pats: seq<string>, sel: Flags, clr: Flags): (r: seq<CacheEntry>)
    ensures |r| == |es|
  {
    seq(|es|, i requires 0 <= i < |es| => ClearIfCovered(es[i], CoveredBy(Names(es), pats, es[i].name), sel, clr))
  }

  /**
   * A sweep keeps every name, only ever removes `clr` bits, and changes exactly
   * the selected entries a pattern covers that hold one of those bits.
   */
  lemma SweptFacts(es: seq<CacheEntry>, pats: seq<string>, sel: Flags, clr: Flags)
    ensures var r := Swept(es, pats, sel, clr);
      && Names(r) == Names(es)
      && ClearsOnly(es, r, clr)
      && (forall i :: 0 <= i < |es| ==> r[i].flags - clr == es[i].flags - clr)
      && (forall i :: 0 <= i < |es| ==>
            (r[i] != es[i] <==> CoveredBy(Names(es), pats, es[i].name) && Selected(es[i].flags, sel) && es[i].flags * clr != {}))
  {
    var r := Swept(es, pats, sel, clr);
    assert Names(r) == Names(es);
  }

  /** Sweeping one more pattern over a swept index is sweeping the longer list. */
  lemma SweptStep(es: seq<CacheEntry>, pats: seq<string>, s: string, sel: Flags, clr: Flags)
    ensures Swept(Swept(es, pats, sel, clr), [s], sel, clr) == Swept(es, pats + [s], sel, clr)
  {
    var mid := Swept(es, pats, sel, clr);
    assert Names(mid) == Names(es);
    var l := Swept(mid, [s], sel, clr);
    var r := Swept(es, pats + [s], sel, clr);
    forall i | 0 <= i < |es| ensures l[i] == r[i] {
      var n := es[i].name;
      if CoveredBy(Names(es), pats + [s], n) {
        var p :| p in pats + [s] && Covers(Names(es), p, n);
        if p in pats {
          assert CoveredBy(Names(es), pats, n);
        } else {
          assert CoveredBy(Names(es), [s], n);
        }
      }
      if CoveredBy(Names(es), pats, n) {
        var p :| p in pats && Covers(Names(es), p, n);
        assert p in pats + [s];
      }
      if CoveredBy(Names(es), [s], n) {
        assert s in pats + [s];
      }
    }
  }

  /** The positions whose entry differs between two views of the index. */
  function Changed(a: seq<CacheEntry>, b: seq<CacheEntry>): (changed: set<int>)
  {
    set i | 0 <= i < |a| && i < |b| && a[i] != b[i]
  }

  /** `b` arises from `a` by clearing `clr` bits only. */
  predicate ClearsOnly(a: seq<CacheEntry>, b: seq<CacheEntry>, clr: Flags)
  {
    |a| == |b|
    && forall i :: 0 <= i < |a| ==> b[i].name == a[i].name && (b[i].flags == a[i].flags || b[i].flags == a[i].flags - clr)
  }

  /** Two clearing passes change disjoint sets of entries: a cleared entry is not cleared again. */
  lemma ChangedCompose(a: seq<CacheEntry>, b: seq<CacheEntry>, c: seq<CacheEntry>, clr: Flags)
    requires ClearsOnly(a, b, clr) && ClearsOnly(b, c, clr)
    ensures |Changed(a, c)| == |Changed(a, b)| + |Changed(b, c)|
  {
    var ab, bc := Changed(a, b), Changed(b, c);
    forall i | i in ab ensures i !in bc && c[i] == b[i] {
      ClearFacts(a[i].flags, clr);
      assert b[i].flags == a[i].flags - clr;
      ClearFacts(b[i].flags, clr);
    }
    assert Changed(a, c) == ab + bc;
  }

  lemma ChangedUpdate(orig: seq<CacheEntry>, cur: seq<CacheEntry>, p: int, x: CacheEntry)
    requires |cur| == |orig| && 0 <= p < |cur| && cur[p] == orig[p]
    ensures p !in Changed(orig, cur)
    ensures Changed(orig, cur[p := x]) == Changed(orig, cur) + (if x != orig[p] then {p} else {})
  {
  }

  /** Names are all that sortedness depends on. */
  lemma SortedKeptByNames(a: seq<CacheEntry>, b: seq<CacheEntry>)
    requires Sorted(a) && |a| == |b| && forall i :: 0 <= i < |a| ==> b[i].name == a[i].name
    ensures Sorted(b)
  {
  }

  /** The index after the first loop of `apply_virtualfilesystem`: every entry gains `CE_SKIP_WORKTREE`. */
  function MarkAll(es: seq<CacheEntry>): (r: seq<CacheEntry>)
    ensures |r| == |es|
    ensures forall i :: 0 <= i < |es| ==> r[i].name == es[i].name
    ensures forall i :: 0 <= i < |es| ==> CE_SKIP_WORKTREE <= r[i].flags
    ensures forall i :: 0 <= i < |es| ==> r[i].flags - CE_SKIP_WORKTREE == es[i].flags - CE_SKIP_WORKTREE
  {
    seq(|es|, i requires 0 <= i < |es| => es[i].(flags := es[i].flags + CE_SKIP_WORKTREE))
  }

  /**
   * The index after applying the projection `pats`: an entry has
   * `CE_SKIP_WORKTREE` exactly when no pattern covers it; its name and its
   * other bits are as they were.
   */
  function Projected(es: seq<CacheEntry>, pats: seq<string>): (r: seq<CacheEntry>)
    ensures |r| == |es|
    ensures forall i :: 0 <= i < |es| ==> r[i].name == es[i].name
    ensures forall i :: 0 <= i < |es| ==> r[i].flags - CE_SKIP_WORKTREE == es[i].flags - CE_SKIP_WORKTREE
    ensures forall i :: 0 <= i < |es| ==>
      (CE_SKIP_WORKTREE <= r[i].flags <==> !CoveredBy(Names(es), pats, es[i].name))
  {
    seq(|es|, i requires 0 <= i < |es| =>
      es[i].(flags :=
        if CoveredBy(Names(es), pats, es[i].name) then es[i].flags - CE_SKIP_WORKTREE
        else es[i].flags + CE_SKIP_WORKTREE))
  }

  /**
   * A file pattern that names no entry covers nothing: applying it leaves
   * every entry marked, as the first loop of `apply_virtualfilesystem` left it.
   */
  lemma UnknownFileMarksAll(es: seq<CacheEntry>, s: string)
    requires !IsDirPattern(s) && s !in Names(es)
    ensures Projected(es, [s]) == MarkAll(es)
    ensures forall i :: 0 <= i < |es| ==> CE_SKIP_WORKTREE <= Projected(es, [s])[i].flags
  {
    forall i | 0 <= i < |es| ensures !CoveredBy(Names(es), [s], es[i].name) {
      CoveredBySingle(Names(es), s, es[i].name);
      assert es[i].name == Names(es)[i];
    }
  }

  /** Marking every entry and then sweeping with `(0, CE_SKIP_WORKTREE)` applies the projection. */
  lemma MarkThenSweep(es: seq<CacheEntry>, pats: seq<string>)
    ensures Swept(MarkAll(es), pats, {}, CE_SKIP_WORKTREE) == Projected(es, pats)
  {
    var marked := MarkAll(es);
    assert Names(marked) == Names(es);
    var l := Swept(marked, pats, {}, CE_SKIP_WORKTREE);
    var r := Projected(es, pats);
    forall i | 0 <= i < |es| ensures l[i] == r[i] {
      assert (es[i].flags + CE_SKIP_WORKTREE) - CE_SKIP_WORKTREE == es[i].flags - CE_SKIP_WORKTREE;
    }
  }

  /** Applying the same projection twice gives the flags of applying it once. */
  lemma ProjectedIdempotent(es: seq<CacheEntry>, pats: seq<string>)
    ensures Projected(Projected(es, pats), pats) == Projected(es, pats)
  {
    var once := Projected(es, pats);
    assert Names(once) == Names(es);
    var twice := Projected(once, pats);
    forall i | 0 <= i < |es| ensures twice[i] == once[i] {
      if CoveredBy(Names(es), pats, es[i].name) {
        assert (es[i].flags - CE_SKIP_WORKTREE) - CE_SKIP_WORKTREE == es[i].flags - CE_SKIP_WORKTREE;
      } else {
        assert (es[i].flags + CE_SKIP_WORKTREE) + CE_SKIP_WORKTREE == es[i].flags + CE_SKIP_WORKTREE;
      }
    }
  }

  // ---------------------------------------------------------------------
  // The sweep, one pattern at a time

  /** The counters of one sweep. */
  datatype Stats = Stats(unknown: nat, vfsDirs: nat, vfsRows: nat, bulkSkip: nat, explicitSkip: nat)

  /** How many of `pats` are directory patterns (`nr_vfs_dirs`). */
  function CountDirs(pats: seq<string>): (n: nat)
    ensures n <= |pats|
  {
    if pats == [] then 0
    else CountDirs(pats[..|pats| - 1]) + if IsDirPattern(pats[|pats| - 1]) then 1 else 0
  }

  /** How many of `pats` are file patterns naming no entry (`nr_unknown`). */
  function CountUnknown(names: seq<string>, pats: seq<string>): (n: nat)
    ensures n + CountDirs(pats) <= |pats|
  {
    if pats == [] then 0
    else
      var s := pats[|pats| - 1];
      CountUnknown(names, pats[..|pats| - 1]) + if !IsDirPattern(s) && s !in names then 1 else 0
  }

  /**
   * `nr_bulk_skip` after sweeping `pats` in order: each directory pattern adds
   * the entries its own pass changes, which no earlier pattern had changed.
   */
  function BulkSkipped(es: seq<CacheEntry>, pats: seq<string>, sel: Flags, clr: Flags): (n: nat)
  {
    if pats == [] then 0
    else
      var done := pats[..|pats| - 1];
      BulkSkipped(es, done, sel, clr)
        + if IsDirPattern(pats[|pats| - 1]) then |Changed(Swept(es, done, sel, clr), Swept(es, pats, sel, clr))| else 0
  }

  /** `nr_explicit_skip` after sweeping `pats` in order: the same, for the file patterns. */
  function ExplicitSkipped(es: seq<CacheEntry>, pats: seq<string>, sel: Flags, clr: Flags): (n: nat)
  {
    if pats == [] then 0
    else
      var done := pats[..|pats| - 1];
      ExplicitSkipped(es, done, sel, clr)
        + if IsDirPattern(pats[|pats| - 1]) then 0 else |Changed(Swept(es, done, sel, clr), Swept(es, pats, sel, clr))|
  }

  /** The two skip counters together count every entry the sweep changes, each once. */
  lemma {:induction false} SkipsAddUp(es: seq<CacheEntry>, pats: seq<string>, sel: Flags, clr: Flags)
    ensures BulkSkipped(es, pats, sel, clr) + ExplicitSkipped(es, pats, sel, clr)
         == |Changed(es, Swept(es, pats, sel, clr))|
  {
    if pats != [] {
      var done, s := pats[..|pats| - 1], pats[|pats| - 1];
      SkipsAddUp(es, done, sel, clr);
      var mid := Swept(es, done, sel, clr);
      assert pats == done + [s];
      SweptStep(es, done, s, sel, clr);
      SweptFacts(es, done, sel, clr);
      SweptFacts(mid, [s], sel, clr);
      ChangedCompose(es, mid, Swept(es, pats, sel, clr), clr);
    }
  }

  /** Without directory patterns nothing is bulk-skipped. */
  lemma {:induction false} NoBulkWithoutDirectories(es: seq<CacheEntry>, pats: seq<string>, sel: Flags, clr: Flags)
    requires forall k :: 0 <= k < |pats| ==> !IsDirPattern(pats[k])
    ensures BulkSkipped(es, pats, sel, clr) == 0
  {
    if pats != [] {
      NoBulkWithoutDirectories(es, pats[..|pats| - 1], sel, clr);
    }
  }

  /** Without file patterns nothing is explicitly skipped. */
  lemma {:induction false} NoExplicitWithoutFiles(es: seq<CacheEntry>, pats: seq<string>, sel: Flags, clr: Flags)
    requires forall k :: 0 <= k < |pats| ==> IsDirPattern(pats[k])
    ensures ExplicitSkipped(es, pats, sel, clr) == 0
  {
    if pats != [] {
      NoExplicitWithoutFiles(es, pats[..|pats| - 1], sel, clr);
    }
  }

  /**
   * One covered entry: when `sel` admits it, its `clr` bits are cleared; `hit`
   * tells whether it held one (the bulk or explicit skip counter goes up).
   */
  method ClearEntry(index: array<CacheEntry>, pos: int, sel: Flags, clr: Flags, ghost orig: seq<CacheEntry>)
    returns (hit: bool)
    requires 0 <= pos < index.Length == |orig| && index[pos] == orig[pos]
    modifies index
    ensures index[..] == old(index[..])[pos := ClearIfCovered(orig[pos], true, sel, clr)]
    ensures hit <==> index[pos] != orig[pos]
    ensures |Changed(orig, index[..])| == |Changed(orig, old(index[..]))| + if hit then 1 else 0
  {
    var e := index[pos];
    ChangedUpdate(orig, index[..], pos, ClearIfCovered(e, true, sel, clr));
    hit := false;
    if sel == {} || e.flags * sel != {} {
      hit := e.flags * clr != {};
      index[pos] := e.(flags := e.flags - clr);
    }
  }

  /**
   * The loop over the run of entries a directory pattern covers: from the
   * insertion point `ip` of `s`, forward while the name begins with `s`;
   * returns how many entries actually lost a `clr` bit.
   */
  method ClearRun(index: array<CacheEntry>, s: string, ip: int, sel: Flags, clr: Flags) returns (cleared: nat)
    requires Sorted(index[..]) && IsDirPattern(s) && InsertionPoint(index[..], s, ip)
    modifies index
    ensures index[..] == Swept(old(index[..]), [s], sel, clr)
    ensures cleared == |Changed(old(index[..]), index[..])|
  {
    ghost var orig := index[..];
    ghost var target := Swept(orig, [s], sel, clr);
    InsertionPointMeansAbsent(orig, s, ip);
    cleared := 0;
    var pos := ip;
    while pos < index.Length
      invariant ip <= pos <= index.Length
      invariant forall j :: 0 <= j < index.Length ==> index[j] == if ip <= j < pos then target[j] else orig[j]
      invariant cleared == |Changed(orig, index[..])|
    {
      if !(s <= index[pos].name) {
        // the run has ended: no later name begins with `s`
        forall j | pos < j < index.Length ensures !(s <= orig[j].name) {
          if s <= orig[j].name {
            NameLessIrreflexive(s, orig[pos].name);
            PrefixBetween(s, orig[pos].name, orig[j].name);
          }
        }
        break;
      }
      CoveredBySingle(Names(orig), s, orig[pos].name);
      var hit := ClearEntry(index, pos, sel, clr, orig);
      if hit {
        cleared := cleared + 1;
      }
      pos := pos + 1;
    }
    forall j | 0 <= j < ip ensures !(s <= orig[j].name) {
      if s <= orig[j].name {
        PrefixNotBelow(s, orig[j].name);
      }
    }
    assert index[..] == target;
  }

  /**
   * The body of the sweep for one pattern `s`: a directory pattern clears the
   * run of entries beginning with it; a file pattern clears the entry of that
   * name, or counts as unknown.
   */
  method ClearPattern(index: array<CacheEntry>, s: string, sel: Flags, clr: Flags, st: Stats) returns (st': Stats)
    requires Sorted(index[..])
    modifies index
    ensures index[..] == Swept(old(index[..]), [s], sel, clr)
    ensures st'.vfsRows == st.vfsRows
    ensures st'.vfsDirs == st.vfsDirs + if IsDirPattern(s) then 1 else 0
    ensures st'.unknown == st.unknown + if !IsDirPattern(s) && s !in Names(old(index[..])) then 1 else 0
    ensures st'.bulkSkip == st.bulkSkip + if IsDirPattern(s) then |Changed(old(index[..]), index[..])| else 0
    ensures st'.explicitSkip == st.explicitSkip + if IsDirPattern(s) then 0 else |Changed(old(index[..]), index[..])|
  {
    ghost var orig := index[..];
    ghost var target := Swept(orig, [s], sel, clr);
    st' := st;
    if IsDirPattern(s) {
      st' := st'.(vfsDirs := st'.vfsDirs + 1);
      var pos := IndexNamePos(index, s);
      if pos < 0 {
        var cleared := ClearRun(index, s, -pos - 1, sel, clr);
        st' := st'.(bulkSkip := st'.bulkSkip + cleared);
      } else {
        // the pattern names an entry itself: nothing is touched
        assert s in Names(orig);
        assert index[..] == target;
      }
    } else {
      var pos := IndexNamePos(index, s);
      if pos >= 0 {
        forall j | 0 <= j < index.Length && j != pos ensures !CoveredBy(Names(orig), [s], orig[j].name) {
          CoveredBySingle(Names(orig), s, orig[j].name);
          if j < pos {
            NameLessIrreflexive(orig[j].name, orig[pos].name);
          } else {
            NameLessIrreflexive(orig[pos].name, orig[j].name);
          }
        }
        CoveredBySingle(Names(orig), s, s);
        var hit := ClearEntry(index, pos, sel, clr, orig);
        if hit {
          st' := st'.(explicitSkip := st'.explicitSkip + 1);
        }
        assert index[..] == target;
      } else {
        InsertionPointMeansAbsent(orig, s, -pos - 1);
        st' := st'.(unknown := st'.unknown + 1);
        assert index[..] == target;
      }
    }
  }

  /** What sweeping one more pattern does to the index and to the counters. */
  lemma SweepStepFacts(orig: seq<CacheEntry>, done: seq<string>, s: string, mid: seq<CacheEntry>,
                       next: seq<CacheEntry>, sel: Flags, clr: Flags)
    requires mid == Swept(orig, done, sel, clr) && next == Swept(mid, [s], sel, clr)
    ensures next == Swept(orig, done + [s], sel, clr)
    ensures Names(mid) == Names(orig)
    ensures BulkSkipped(orig, done + [s], sel, clr)
         == BulkSkipped(orig, done, sel, clr) + if IsDirPattern(s) then |Changed(mid, next)| else 0
    ensures ExplicitSkipped(orig, done + [s], sel, clr)
         == ExplicitSkipped(orig, done, sel, clr) + if IsDirPattern(s) then 0 else |Changed(mid, next)|
    ensures CountDirs(done + [s]) == CountDirs(done) + if IsDirPattern(s) then 1 else 0
    ensures CountUnknown(Names(orig), done + [s])
         == CountUnknown(Names(orig), done) + if !IsDirPattern(s) && s !in Names(orig) then 1 else 0
  {
    SweptStep(orig, done, s, sel, clr);
    assert (done + [s])[..|done|] == done;
  }

  /** The index and the counters after sweeping the patterns `done`. */
  ghost predicate SweptUpTo(orig: seq<CacheEntry>, cur: seq<CacheEntry>, done: seq<string>, st: Stats, sel: Flags, clr: Flags)
  {
    && cur == Swept(orig, done, sel, clr)
    && st.vfsRows == |done|
    && st.vfsDirs == CountDirs(done)
    && st.unknown == CountUnknown(Names(orig), done)
    && st.bulkSkip == BulkSkipped(orig, done, sel, clr)
    && st.explicitSkip == ExplicitSkipped(orig, done, sel, clr)
  }

  /**
   * The body of the buffer loop at a NUL: the bytes from `entry` up to the NUL
   * at `i` are the next pattern, swept over the index.
   */
  method SweepPattern(index: array<CacheEntry>, data: string, entry: nat, i: nat, sel: Flags, clr: Flags, st: Stats,
                      ghost orig: seq<CacheEntry>) returns (st': Stats)
    requires entry <= i < |data| && (entry == 0 || data[entry - 1] == NUL) && data[i] == NUL
    requires forall k :: entry <= k < i ==> data[k] != NUL
    requires Sorted(orig) && SweptUpTo(orig, index[..], Segments(data[..entry]), st, sel, clr)
    modifies index
    ensures SweptUpTo(orig, index[..], Segments(data[..i + 1]), st', sel, clr)
  {
    ghost var mid := index[..];
    ghost var done := Segments(data[..entry]);
    var s := data[entry..i];
    SweptFacts(orig, done, sel, clr);
    SortedKeptByNames(orig, mid);
    st' := st.(vfsRows := st.vfsRows + 1);
    st' := ClearPattern(index, s, sel, clr, st');
    SweepStepFacts(orig, done, s, mid, index[..], sel, clr);
    SegmentsClose(data, entry, i);
  }

  /**
   * The loop of `clear_ce_flags_virtualfilesystem_1` over the buffer: one
   * pattern per NUL, each swept in turn.
   */
  method Sweep(index: array<CacheEntry>, data: string, sel: Flags, clr: Flags) returns (st: Stats)
    requires Sorted(index[..])
    modifies index
    ensures index[..] == Swept(old(index[..]), Segments(data), sel, clr)
    ensures st.vfsRows == |Segments(data)|
    ensures st.vfsDirs == CountDirs(Segments(data))
    ensures st.unknown == CountUnknown(Names(old(index[..])), Segments(data))
    ensures st.bulkSkip == BulkSkipped(old(index[..]), Segments(data), sel, clr)
    ensures st.explicitSkip == ExplicitSkipped(old(index[..]), Segments(data), sel, clr)
    ensures st.bulkSkip + st.explicitSkip == |Changed(old(index[..]), index[..])|
  {
    ghost var orig := index[..];
    st := Stats(0, 0, 0, 0, 0);
    var entry, i := 0, 0;
    assert Swept(orig, [], sel, clr) == orig;
    while i < |data|
      invariant 0 <= entry <= i <= |data|
      invariant entry == 0 || data[entry - 1] == NUL
      invariant forall k :: entry <= k < i ==> data[k] != NUL
      invariant SweptUpTo(orig, index[..], Segments(data[..entry]), st, sel, clr)
    {
      if data[i] == NUL {
        st := SweepPattern(index, data, entry, i, sel, clr, st, orig);
        entry := i + 1;
      }
      i := i + 1;
    }
    SegmentsExtend(data, entry, |data|);
    assert data[..|data|] == data;
    SkipsAddUp(orig, Segments(data), sel, clr);
  }
}
