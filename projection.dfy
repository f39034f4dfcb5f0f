/**
 * The raw projection buffer produced by the virtual file system hook, and the
 * two path sets built from it: the pattern set (every projected pattern) and
 * the parent-directory set (every slash-terminated prefix of a pattern).
 *
 * A hashed set keyed by (hash, comparator) is modelled as a mathematical set
 * of normalised keys: the identity when case is significant, ASCII
 * lower-casing when it is not.  The source's comparator compares only as many
 * bytes as the stored entry holds, so two keys of different lengths are told
 * apart by their hashes; the model assumes hashes separate keys of different
 * lengths and treats a hit as "same length and same bytes up to the comparator".
 */
module Projection {

  const NUL: char := '\0'

  /**
   * The patterns of a buffer: every run of bytes terminated by a NUL, in
   * order, empty runs included.  Bytes after the last NUL are not a pattern.
   * Read from the front: a NUL opens a new (so far empty) pattern, any other
   * byte is the first byte of the pattern that follows.
   */
  function Segments(buf: string): (ps: seq<string>)
    decreases |buf|
  {
    if buf == [] then []
    else
      var ps := Segments(buf[1..]);
      if buf[0] == NUL then [[]] + ps
      else if ps == [] then []
      else [[buf[0]] + ps[0]] + ps[1..]
  }

  /** No pattern holds a NUL. */
  lemma {:induction false} SegmentsHaveNoNul(buf: string)
    ensures forall p :: p in Segments(buf) ==> NUL !in p
    decreases |buf|
  {
    if buf != [] {
      SegmentsHaveNoNul(buf[1..]);
      var ps := Segments(buf[1..]);
      if buf[0] != NUL && ps != [] {
        assert forall p :: p in ps[1..] ==> p in ps;
        assert ps[0] in ps;
      }
    }
  }

  /** The hook's wire format: each pattern followed by a NUL. */
  function Terminated(ps: seq<string>): (buf: string)
  {
    if ps == [] then [] else ps[0] + [NUL] + Terminated(ps[1..])
  }

  /** A buffer ending in NUL has at least one pattern. */
  lemma {:induction false} SegmentsOfNulEnded(p: string)
    requires p != [] && p[|p| - 1] == NUL
    ensures Segments(p) != []
    decreases |p|
  {
    if p[0] != NUL {
      SegmentsOfNulEnded(p[1..]);
    }
  }

  /** The first byte of a buffer, read against the patterns of the rest. */
  lemma SegmentsCons(p: string, q: string)
    requires p != []
    ensures Segments(p + q) == Segments([p[0]] + (p[1..] + q))
  {
    assert p + q == [p[0]] + (p[1..] + q);
  }

  /** Appending after a closed list of patterns leaves its first pattern alone. */
  lemma ExtendFirst<T>(x: T, a: seq<seq<T>>, b: seq<seq<T>>)
    requires a != []
    ensures [[x] + (a + b)[0]] + (a + b)[1..] == ([[x] + a[0]] + a[1..]) + b
  {
    assert (a + b)[0] == a[0] && (a + b)[1..] == a[1..] + b;
  }

  /** A buffer that is empty or ends in NUL splits independently of what follows it. */
  lemma {:induction false} SegmentsAppend(p: string, q: string)
    requires p == [] || p[|p| - 1] == NUL
    ensures Segments(p + q) == Segments(p) + Segments(q)
    decreases |p|
  {
    if p == [] {
      assert p + q == q;
    } else {
      var rest := p[1..];
      assert rest == [] || rest[|rest| - 1] == NUL;
      SegmentsAppend(rest, q);
      SegmentsCons(p, q);
      var a, b := Segments(rest), Segments(q);
      if p[0] == NUL {
        assert [[]] + (a + b) == ([[]] + a) + b;
      } else {
        SegmentsOfNulEnded(rest);
        ExtendFirst(p[0], a, b);
      }
    }
  }

  lemma {:induction false} SegmentsWithoutNul(s: string)
    requires NUL !in s
    ensures Segments(s) == []
    ensures Segments(s + [NUL]) == [s]
    decreases |s|
  {
    if s != [] {
      assert NUL !in s[1..] by { assert forall c :: c in s[1..] ==> c in s; }
      SegmentsWithoutNul(s[1..]);
      assert (s + [NUL])[1..] == s[1..] + [NUL];
      assert [s[0]] + s[1..] == s;
    } else {
      assert [] + [NUL] == [NUL];
    }
  }

  /** Decoding the wire format gives back the patterns (the hook's round trip). */
  lemma {:induction false} SegmentsOfTerminated(ps: seq<string>)
    requires forall p :: p in ps ==> NUL !in p
    ensures Segments(Terminated(ps)) == ps
  {
    if ps != [] {
      var rest := Terminated(ps[1..]);
      SegmentsWithoutNul(ps[0]);
      assert Terminated(ps) == (ps[0] + [NUL]) + rest;
      SegmentsAppend(ps[0] + [NUL], rest);
      assert forall p :: p in ps[1..] ==> p in ps;
      SegmentsOfTerminated(ps[1..]);
      assert [ps[0]] + ps[1..] == ps;
    }
  }

  /** Trailing bytes without a terminating NUL add no pattern. */
  lemma UnterminatedTailIgnored(ps: seq<string>, tail: string)
    requires forall p :: p in ps ==> NUL !in p
    requires NUL !in tail
    ensures Segments(Terminated(ps) + tail) == ps
  {
    TerminatedEndsInNul(ps);
    SegmentsAppend(Terminated(ps), tail);
    SegmentsWithoutNul(tail);
    SegmentsOfTerminated(ps);
  }

  lemma {:induction false} TerminatedEndsInNul(ps: seq<string>)
    ensures Terminated(ps) == [] || Terminated(ps)[|Terminated(ps)| - 1] == NUL
  {
    if ps != [] {
      TerminatedEndsInNul(ps[1..]);
    }
  }

  /** The wire format of a non-empty pattern list, one pattern at a time. */
  lemma TerminatedCons(x: string, ps: seq<string>)
    ensures Terminated([x] + ps) == x + [NUL] + Terminated(ps)
  {
    assert ([x] + ps)[0] == x && ([x] + ps)[1..] == ps;
  }

  /**
   * Every buffer is its patterns re-terminated, followed by a tail holding no
   * NUL: splitting loses nothing but that tail.
   */
  lemma {:induction false} SegmentsRoundTrip(buf: string)
    ensures |Terminated(Segments(buf))| <= |buf|
    ensures buf[..|Terminated(Segments(buf))|] == Terminated(Segments(buf))
    ensures NUL !in buf[|Terminated(Segments(buf))|..]
    decreases |buf|
  {
    if buf != [] {
      var rest := buf[1..];
      SegmentsRoundTrip(rest);
      var ps := Segments(rest);
      var t := Terminated(ps);
      assert buf == [buf[0]] + rest;
      if buf[0] == NUL {
        TerminatedCons([], ps);
        assert Terminated(Segments(buf)) == [NUL] + t;
        PrependKeepsSplit(buf[0], rest, t);
      } else if ps == [] {
        assert NUL !in buf by {
          assert forall c :: c in buf ==> c == buf[0] || c in rest[0..];
        }
      } else {
        TerminatedCons(ps[0], ps[1..]);
        assert [ps[0]] + ps[1..] == ps;
        TerminatedCons([buf[0]] + ps[0], ps[1..]);
        assert Terminated(Segments(buf)) == [buf[0]] + t;
        PrependKeepsSplit(buf[0], rest, t);
      }
    }
  }

  /** One byte in front of a buffer moves the cut between its prefix and its tail by one. */
  lemma PrependKeepsSplit(c: char, rest: string, t: string)
    requires |t| <= |rest| && rest[..|t|] == t
    ensures ([c] + rest)[..1 + |t|] == [c] + t
    ensures ([c] + rest)[1 + |t|..] == rest[|t|..]
  {
  }

  /** One loop step over the buffer: bytes that are not NUL add no pattern. */
  lemma SegmentsExtend(buf: string, entry: nat, j: nat)
    requires entry <= j <= |buf|
    requires entry == 0 || buf[entry - 1] == NUL
    requires forall k :: entry <= k < j ==> buf[k] != NUL
    ensures Segments(buf[..j]) == Segments(buf[..entry])
  {
    assert NUL !in buf[entry..j];
    assert buf[..j] == buf[..entry] + buf[entry..j];
    SegmentsAppend(buf[..entry], buf[entry..j]);
    SegmentsWithoutNul(buf[entry..j]);
  }

  /** One loop step over the buffer: a NUL closes the pattern that started at `entry`. */
  lemma SegmentsClose(buf: string, entry: nat, i: nat)
    requires entry <= i < |buf|
    requires entry == 0 || buf[entry - 1] == NUL
    requires forall k :: entry <= k < i ==> buf[k] != NUL
    requires buf[i] == NUL
    ensures Segments(buf[..i + 1]) == Segments(buf[..entry]) + [buf[entry..i]]
  {
    assert NUL !in buf[entry..i];
    assert buf[..i + 1] == buf[..entry] + (buf[entry..i] + [NUL]);
    SegmentsAppend(buf[..entry], buf[entry..i] + [NUL]);
    SegmentsWithoutNul(buf[entry..i]);
  }

  // ---------------------------------------------------------------------
  // Comparators

  function LowerChar(c: char): (l: char)
  {
    if 'A' <= c <= 'Z' then (c as int + 32) as char else c
  }

  /** The key a path is stored and looked up under: identity, or ASCII lower case. */
  function Key(ignoreCase: bool, s: string): (k: string)
    ensures |k| == |s|
  {
    if ignoreCase then seq(|s|, i requires 0 <= i < |s| => LowerChar(s[i])) else s
  }

  /** Byte comparison as `strncmp` (exact) or `strncasecmp` (ASCII letters fold). */
  predicate CharsMatch(ignoreCase: bool, x: char, y: char)
  {
    if ignoreCase then
      x == y
      || ('A' <= x <= 'Z' && y as int == x as int + 32)
      || ('A' <= y <= 'Z' && x as int == y as int + 32)
    else x == y
  }

  /** Two paths the active comparator cannot tell apart. */
  predicate SameName(ignoreCase: bool, a: string, b: string)
  {
    |a| == |b| && forall i :: 0 <= i < |a| ==> CharsMatch(ignoreCase, a[i], b[i])
  }

  /** Looking up a key is the same as comparing under the active comparator. */
  lemma KeyMatchesComparator(ignoreCase: bool, a: string, b: string)
    ensures Key(ignoreCase, a) == Key(ignoreCase, b) <==> SameName(ignoreCase, a, b)
  {
    if ignoreCase && |a| == |b| {
      if Key(ignoreCase, a) == Key(ignoreCase, b) {
        forall i | 0 <= i < |a| ensures CharsMatch(ignoreCase, a[i], b[i]) {
          assert Key(ignoreCase, a)[i] == Key(ignoreCase, b)[i];
        }
      }
      if SameName(ignoreCase, a, b) {
        forall i | 0 <= i < |a| ensures Key(ignoreCase, a)[i] == Key(ignoreCase, b)[i] {
          assert CharsMatch(ignoreCase, a[i], b[i]);
        }
      }
    }
  }

  // ---------------------------------------------------------------------
  // The pattern set

  function KeysOf(ignoreCase: bool, ps: seq<string>): (keys: set<string>)
  {
    set p | p in ps :: Key(ignoreCase, p)
  }

  /** The pattern set: the key of every NUL-terminated segment of the buffer. */
  function IncludeKeys(ignoreCase: bool, buf: string): (keys: set<string>)
  {
    KeysOf(ignoreCase, Segments(buf))
  }

  lemma KeysOfAppend(ignoreCase: bool, ps: seq<string>, s: string)
    ensures KeysOf(ignoreCase, ps + [s]) == KeysOf(ignoreCase, ps) + {Key(ignoreCase, s)}
  {
    var l := KeysOf(ignoreCase, ps + [s]);
    var r := KeysOf(ignoreCase, ps) + {Key(ignoreCase, s)};
    forall x | x in r ensures x in l {
      if x != Key(ignoreCase, s) {
        var p :| p in ps && x == Key(ignoreCase, p);
        assert p in ps + [s];
      } else {
        assert s in ps + [s];
      }
    }
  }

  /** A path is in the pattern set iff some pattern matches it under the comparator. */
  lemma IncludeKeysMembership(ignoreCase: bool, buf: string, path: string)
    ensures Key(ignoreCase, path) in IncludeKeys(ignoreCase, buf)
        <==> exists p :: p in Segments(buf) && SameName(ignoreCase, p, path)
  {
    if Key(ignoreCase, path) in IncludeKeys(ignoreCase, buf) {
      var p :| p in Segments(buf) && Key(ignoreCase, p) == Key(ignoreCase, path);
      KeyMatchesComparator(ignoreCase, p, path);
    }
    if exists p :: p in Segments(buf) && SameName(ignoreCase, p, path) {
      var p :| p in Segments(buf) && SameName(ignoreCase, p, path);
      KeyMatchesComparator(ignoreCase, p, path);
    }
  }

  /** One NUL of the buffer adds the key of the pattern it closes. */
  lemma IncludeKeysStep(ignoreCase: bool, buf: string, entry: nat, i: nat)
    requires entry <= i < |buf|
    requires entry == 0 || buf[entry - 1] == NUL
    requires forall k :: entry <= k < i ==> buf[k] != NUL
    requires buf[i] == NUL
    ensures IncludeKeys(ignoreCase, buf[..i + 1]) == IncludeKeys(ignoreCase, buf[..entry]) + {Key(ignoreCase, buf[entry..i])}
  {
    SegmentsClose(buf, entry, i);
    KeysOfAppend(ignoreCase, Segments(buf[..entry]), buf[entry..i]);
  }

  /** The loop of `initialize_includes_hashmap`: one insertion per NUL. */
  method BuildIncludeSet(ignoreCase: bool, buf: string) returns (keys: set<string>)
    ensures keys == IncludeKeys(ignoreCase, buf)
  {
    keys := {};
    var entry, i := 0, 0;
    while i < |buf|
      invariant 0 <= entry <= i <= |buf|
      invariant entry == 0 || buf[entry - 1] == NUL
      invariant forall k :: entry <= k < i ==> buf[k] != NUL
      invariant keys == IncludeKeys(ignoreCase, buf[..entry])
    {
      if buf[i] == NUL {
        IncludeKeysStep(ignoreCase, buf, entry, i);
        keys := keys + {Key(ignoreCase, buf[entry..i])};
        entry := i + 1;
      }
      i := i + 1;
    }
    SegmentsExtend(buf, entry, |buf|);
    assert buf[..|buf|] == buf;
  }

  // ---------------------------------------------------------------------
  // The parent-directory set

  /**
   * The directories a pattern contributes: the prefix through each `/` at
   * offset 1 or later (the scan starts one byte in, so a leading `/` is not
   * one, and a trailing `/` yields the pattern itself).
   */
  function ParentPrefixes(p: string): (dirs: set<string>)
  {
    set k | 1 <= k < |p| && p[k] == '/' :: p[..k + 1]
  }

  /** The directories a pattern contributes are exactly its slash-terminated prefixes of two bytes or more. */
  lemma ParentPrefixesMembership(p: string, d: string)
    ensures d in ParentPrefixes(p) <==> 2 <= |d| <= |p| && d[|d| - 1] == '/' && d == p[..|d|]
  {
    if 2 <= |d| <= |p| && d[|d| - 1] == '/' && d == p[..|d|] {
      var k := |d| - 1;
      assert p[k] == d[k];
      assert p[..k + 1] == d;
    }
  }

  function PrefixKeys(ignoreCase: bool, p: string): (keys: set<string>)
  {
    set d | d in ParentPrefixes(p) :: Key(ignoreCase, d)
  }

  function ParentKeysOf(ignoreCase: bool, ps: seq<string>): (keys: set<string>)
  {
    if ps == [] then {}
    else ParentKeysOf(ignoreCase, ps[..|ps| - 1]) + PrefixKeys(ignoreCase, ps[|ps| - 1])
  }

  /** The parent-directory set: the keys of the parent prefixes of every pattern. */
  function ParentKeys(ignoreCase: bool, buf: string): (keys: set<string>)
  {
    ParentKeysOf(ignoreCase, Segments(buf))
  }

  lemma {:induction false} ParentKeysOfMembership(ignoreCase: bool, ps: seq<string>, x: string)
    ensures x in ParentKeysOf(ignoreCase, ps)
        <==> exists i, d :: 0 <= i < |ps| && d in ParentPrefixes(ps[i]) && x == Key(ignoreCase, d)
  {
    if ps != [] {
      var init := ps[..|ps| - 1];
      ParentKeysOfMembership(ignoreCase, init, x);
      if x in ParentKeysOf(ignoreCase, ps) {
        if x in ParentKeysOf(ignoreCase, init) {
          var i, d :| 0 <= i < |init| && d in ParentPrefixes(init[i]) && x == Key(ignoreCase, d);
          assert ps[i] == init[i];
        } else {
          var d :| d in ParentPrefixes(ps[|ps| - 1]) && x == Key(ignoreCase, d);
        }
      }
      if exists i, d :: 0 <= i < |ps| && d in ParentPrefixes(ps[i]) && x == Key(ignoreCase, d) {
        var i, d :| 0 <= i < |ps| && d in ParentPrefixes(ps[i]) && x == Key(ignoreCase, d);
        if i < |ps| - 1 {
          assert init[i] == ps[i];
        }
      }
    }
  }

  /**
   * Case-sensitive: `dir + "/"` is in the parent-directory set iff `dir` is
   * non-empty and `dir + "/"` begins some pattern -- that is, some projected
   * path lies inside `dir` (or is `dir/` itself).
   */
  lemma ParentKeysExactly(buf: string, dir: string)
    ensures Key(false, dir + "/") in ParentKeys(false, buf)
        <==> dir != [] && exists p :: p in Segments(buf) && dir + "/" <= p
  {
    var ps := Segments(buf);
    var x := dir + "/";
    ParentKeysOfMembership(false, ps, x);
    if x in ParentKeys(false, buf) {
      var i, d :| 0 <= i < |ps| && d in ParentPrefixes(ps[i]) && x == Key(false, d);
      ParentPrefixesMembership(ps[i], d);
      assert ps[i] in ps;
    }
    if dir != [] && exists p :: p in ps && x <= p {
      var p :| p in ps && x <= p;
      var i :| 0 <= i < |ps| && ps[i] == p;
      ParentPrefixesMembership(p, x);
      assert x in ParentPrefixes(ps[i]);
      assert Key(false, x) in ParentKeys(false, buf);
    }
    if Key(false, x) in ParentKeys(false, buf) {
      var i, d :| 0 <= i < |ps| && d in ParentPrefixes(ps[i]) && x == Key(false, d);
      ParentPrefixesMembership(ps[i], d);
      assert ps[i] in Segments(buf) && dir + "/" <= ps[i];
    }
  }

  /**
   * Under either comparator: `dir + "/"` is in the parent-directory set iff
   * `dir` is non-empty and some pattern begins with a prefix the comparator
   * cannot tell apart from `dir + "/"`.
   */
  lemma ParentKeysMatching(ignoreCase: bool, buf: string, dir: string)
    ensures Key(ignoreCase, dir + "/") in ParentKeys(ignoreCase, buf)
        <==> dir != [] && exists p :: p in Segments(buf) && |dir| < |p| && SameName(ignoreCase, dir + "/", p[..|dir| + 1])
  {
    var ps := Segments(buf);
    var x := dir + "/";
    ParentKeysOfMembership(ignoreCase, ps, Key(ignoreCase, x));
    if Key(ignoreCase, x) in ParentKeys(ignoreCase, buf) {
      var i, d :| 0 <= i < |ps| && d in ParentPrefixes(ps[i]) && Key(ignoreCase, x) == Key(ignoreCase, d);
      ParentPrefixesMembership(ps[i], d);
      KeyMatchesComparator(ignoreCase, x, d);
      assert ps[i] in ps && ps[i][..|dir| + 1] == d;
    }
    if dir != [] && exists p :: p in ps && |dir| < |p| && SameName(ignoreCase, x, p[..|dir| + 1]) {
      var p :| p in ps && |dir| < |p| && SameName(ignoreCase, x, p[..|dir| + 1]);
      var i :| 0 <= i < |ps| && ps[i] == p;
      var d := p[..|dir| + 1];
      assert x[|dir|] == '/' && CharsMatch(ignoreCase, x[|dir|], d[|dir|]);
      ParentPrefixesMembership(p, d);
      KeyMatchesComparator(ignoreCase, x, d);
      assert d in ParentPrefixes(ps[i]);
    }
  }

  /** The keys of the prefixes of `pattern` through a `/` at offset 1 up to, not including, `k`. */
  function PrefixKeysBelow(ignoreCase: bool, pattern: string, k: nat): (keys: set<string>)
    requires k <= |pattern|
  {
    set j | 1 <= j < k && pattern[j] == '/' :: Key(ignoreCase, pattern[..j + 1])
  }

  lemma PrefixKeysBelowStep(ignoreCase: bool, pattern: string, k: nat)
    requires 1 <= k < |pattern|
    ensures PrefixKeysBelow(ignoreCase, pattern, k + 1)
         == PrefixKeysBelow(ignoreCase, pattern, k) + if pattern[k] == '/' then {Key(ignoreCase, pattern[..k + 1])} else {}
  {
    var l := PrefixKeysBelow(ignoreCase, pattern, k + 1);
    var r := PrefixKeysBelow(ignoreCase, pattern, k) + if pattern[k] == '/' then {Key(ignoreCase, pattern[..k + 1])} else {};
    forall x | x in l ensures x in r {
      var j :| 1 <= j < k + 1 && pattern[j] == '/' && x == Key(ignoreCase, pattern[..j + 1]);
      if j < k {
        assert x in PrefixKeysBelow(ignoreCase, pattern, k);
      }
    }
  }

  /** The loop of `parent_directory_hashmap_add`: insert each prefix not already present. */
  method AddParentDirectories(ignoreCase: bool, keys: set<string>, pattern: string)
    returns (keys': set<string>)
    ensures keys' == keys + PrefixKeys(ignoreCase, pattern)
  {
    keys' := keys;
    if |pattern| > 1 {
      var k := 1;
      while k < |pattern|
        invariant 1 <= k <= |pattern|
        invariant keys' == keys + PrefixKeysBelow(ignoreCase, pattern, k)
      {
        PrefixKeysBelowStep(ignoreCase, pattern, k);
        if pattern[k] == '/' {
          var d := Key(ignoreCase, pattern[..k + 1]);
          // a prefix already in the map is not added twice
          if d !in keys' {
            keys' := keys' + {d};
          }
        }
        k := k + 1;
      }
    }
    assert PrefixKeys(ignoreCase, pattern) == PrefixKeysBelow(ignoreCase, pattern, |pattern|);
  }

  /** One NUL of the buffer adds the parent prefixes of the pattern it closes. */
  lemma ParentKeysStep(ignoreCase: bool, buf: string, entry: nat, i: nat)
    requires entry <= i < |buf|
    requires entry == 0 || buf[entry - 1] == NUL
    requires forall k :: entry <= k < i ==> buf[k] != NUL
    requires buf[i] == NUL
    ensures ParentKeys(ignoreCase, buf[..i + 1]) == ParentKeys(ignoreCase, buf[..entry]) + PrefixKeys(ignoreCase, buf[entry..i])
  {
    SegmentsClose(buf, entry, i);
    var ps := Segments(buf[..entry]) + [buf[entry..i]];
    assert ps[..|ps| - 1] == Segments(buf[..entry]);
  }

  /** The loop of `initialize_parent_directory_hashmap`. */
  method BuildParentSet(ignoreCase: bool, buf: string) returns (keys: set<string>)
    ensures keys == ParentKeys(ignoreCase, buf)
  {
    keys := {};
    var entry, i := 0, 0;
    while i < |buf|
      invariant 0 <= entry <= i <= |buf|
      invariant entry == 0 || buf[entry - 1] == NUL
      invariant forall k :: entry <= k < i ==> buf[k] != NUL
      invariant keys == ParentKeys(ignoreCase, buf[..entry])
    {
      if buf[i] == NUL {
        ParentKeysStep(ignoreCase, buf, entry, i);
        keys := AddParentDirectories(ignoreCase, keys, buf[entry..i]);
        entry := i + 1;
      }
      i := i + 1;
    }
    SegmentsExtend(buf, entry, |buf|);
    assert buf[..|buf|] == buf;
  }

  // ---------------------------------------------------------------------
  // Lookups

  /**
   * `path[..j + 1]` is a prefix `check_includes_hashmap` probes: `path[j]` is
   * a `/` found by scanning from the left, a scan that stops at a NUL.
   */
  predicate SlashPrefixAt(path: string, j: int)
  {
    0 <= j < |path| && path[j] == '/' && NUL !in path[..j]
  }

  /** What `check_includes_hashmap` decides: the path itself, or a prefix through one of its slashes, is a key. */
  predicate Included(ignoreCase: bool, keys: set<string>, path: string)
  {
    Key(ignoreCase, path) in keys
    || exists j :: 0 <= j < |path| && SlashPrefixAt(path, j) && Key(ignoreCase, path[..j + 1]) in keys
  }

  /** The strchr loop of `check_includes_hashmap`. */
  method CheckIncludes(ignoreCase: bool, keys: set<string>, path: string) returns (found: bool)
    ensures found <==> Included(ignoreCase, keys, path)
  {
    if Key(ignoreCase, path) in keys {
      return true;
    }
    var k := 0;
    while k < |path| && path[k] != NUL
      invariant 0 <= k <= |path|
      invariant NUL !in path[..k]
      invariant forall j :: 0 <= j < k && SlashPrefixAt(path, j) ==> Key(ignoreCase, path[..j + 1]) !in keys
    {
      if path[k] == '/' && Key(ignoreCase, path[..k + 1]) in keys {
        assert SlashPrefixAt(path, k);
        return true;
      }
      assert path[..k + 1] == path[..k] + [path[k]];
      k := k + 1;
    }
    assert k < |path| ==> forall j :: k < j <= |path| ==> path[..j][k] == NUL;
    found := false;
  }

  /** `check_directory_hashmap`: 0 (descend) when `path + "/"` is a parent directory, 1 otherwise. */
  function CheckDirectory(ignoreCase: bool, keys: set<string>, path: string): (r: int)
    ensures r == 0 || r == 1
    ensures r == 0 <==> Key(ignoreCase, path + "/") in keys
  {
    if Key(ignoreCase, path + "/") in keys then 0 else 1
  }
}
