/**
 * glob_match and __mingw_glob: the GLOB_BRACE preamble that globs each
 * expansion of the first expandable group in turn, and the leaf that globs
 * one pattern without a directory prefix in the current directory, with
 * the GLOB_NOCHECK literal case, the readdir scan that duplicates each
 * matching name and collates it (or stores it directly under GLOB_NOSORT),
 * and the flush of the collator into gl_pathv.
 *
 * Memory is an Allocator: each malloc, realloc or strdup succeeds while
 * grants remain.  The listing maps each directory opendir can open to the
 * names readdir returns from it.  A C string is the sequence of its
 * characters before the terminating NUL.
 */
module GlobMatch {
  import opened CInt
  import opened Glob
  import opened GlobVector
  import opened GlobBrace

  /** The flags glob_match consults, and the answer to a failed opendir. */
  datatype Options = Options(
    m: Flags,         // GLOB_NOESCAPE, GLOB_CASEMATCH and GLOB_PERIOD, for the matcher
    nocheck: bool,    // GLOB_NOCHECK
    nosort: bool,     // GLOB_NOSORT
    brace: bool,      // GLOB_BRACE
    err: bool,        // GLOB_ERR, or an errfn that asks to stop, when opendir fails
    dooffs: bool)     // GLOB_DOOFFS

  /** The names readdir returns for each directory opendir can open. */
  type Listing = map<seq<char>, seq<seq<char>>>

  /** What one glob_match leaves behind: the paths appended to gl_pathv, the grants left, the status. */
  datatype Res = Res(added: seq<seq<char>>, g: nat, status: Status)

  /** No directory separator and no drive designator: dirname() reports ".". */
  predicate NoPrefix(p: seq<char>)
  {
    forall i | 0 <= i < |p| :: !IsDirsep(p[i]) && p[i] != ':'
  }

  /** The grants left after one allocation request. */
  function Take(g: nat): (r: nat)
    ensures r == 0 || r + 1 == g
  {
    if g > 0 then g - 1 else 0
  }

  /**
   * The string glob_strdup copies: every DEL escape that is not itself
   * escaped is dropped and the character after it kept as it stands; the
   * copy ends at the terminating NUL.
   */
  function Unescape(s: seq<char>): (r: seq<char>)
    ensures |r| <= |s|
    decreases |s|
  {
    if s == [] || s[0] == '\0' then []
    else if s[0] == ESC then (if |s| == 1 || s[1] == '\0' then [] else [s[1]] + Unescape(s[2..]))
    else [s[0]] + Unescape(s[1..])
  }

  /** A string without escapes and NUL is copied unchanged. */
  lemma {:induction false} UnescapePlain(s: seq<char>)
    requires forall k | 0 <= k < |s| :: s[k] != ESC && s[k] != '\0'
    ensures Unescape(s) == s
    decreases |s|
  {
    if s != [] {
      UnescapePlain(s[1..]);
    }
  }

  /** glob_strdup: the unescaped copy of s, or NULL when the allocation fails. */
  method GlobStrdup(s: seq<char>, heap: Allocator) returns (r: Option<seq<char>>)
    modifies heap
    ensures r == if old(heap.grants) > 0 then Some(Unescape(s)) else None
    ensures heap.grants == Take(old(heap.grants))
  {
    var ok := heap.Allocate();
    r := if ok then Some(Unescape(s)) else None;
  }

  // ---------------------------------------------------------------- statuses

  function Severity(s: Status): nat
  {
    match s
    case NoMatch => 0
    case Success => 1
    case NoSpace => 2
    case Aborted => 3
  }

  /** The more severe of two statuses. */
  function Worst(a: Status, b: Status): (r: Status)
    ensures r == a || r == b
    ensures Severity(r) >= Severity(a) && Severity(r) >= Severity(b)
  {
    if Severity(a) >= Severity(b) then a else b
  }

  /**
   * The status of a brace expansion from the statuses of its iterations:
   * ABORTED if any aborted, else GLOB_NOSPACE if any ran out of memory,
   * else SUCCESS if any matched, else GLOB_NOMATCH.
   */
  function BraceStatus(sts: seq<Status>): (r: Status)
    ensures r == NoMatch <==> forall k | 0 <= k < |sts| :: sts[k] == NoMatch
    ensures r == Aborted <==> Aborted in sts
    ensures sts != [] ==> r in sts
  {
    if sts == [] then NoMatch
    else
      var init := sts[..|sts| - 1];
      assert sts == init + [sts[|sts| - 1]];
      Worst(BraceStatus(init), sts[|sts| - 1])
  }

  lemma BraceStatusSnoc(sts: seq<Status>, x: Status)
    ensures BraceStatus(sts + [x]) == Worst(BraceStatus(sts), x)
  {
    assert (sts + [x])[..|sts|] == sts;
  }

  /** The status glob_match returns after a brace expansion as written: that of the last iteration. */
  function AsWrittenBraceStatus(sts: seq<Status>): (r: Status)
    ensures sts != [] ==> r in sts
  {
    if sts == [] then NoMatch else sts[|sts| - 1]
  }

  // ---------------------------------------------------------------- the directory scan

  /** x is the glob_strdup copy of a name of names[k..] that the pattern matches. */
  ghost predicate CopiedFrom(p: seq<char>, names: seq<seq<char>>, k: nat, f: Flags, x: seq<char>)
  {
    exists j | k <= j < |names| :: GlobStrcmp(p, names[j], f) && x == Unescape(names[j])
  }

  /** The glob_strdup copies of the names of names[k..], in order, that the pattern matches. */
  function MatchesFrom(p: seq<char>, names: seq<seq<char>>, k: nat, f: Flags): (r: seq<seq<char>>)
    requires k <= |names|
    ensures |r| <= |names| - k
    ensures forall i | 0 <= i < |r| :: CopiedFrom(p, names, k, f, r[i])
    decreases |names| - k
  {
    if k == |names| then []
    else
      var rest := MatchesFrom(p, names, k + 1, f);
      assert forall i | 0 <= i < |rest| :: CopiedFrom(p, names, k, f, rest[i]) by {
        forall i | 0 <= i < |rest|
          ensures CopiedFrom(p, names, k, f, rest[i])
        {
          var j :| k + 1 <= j < |names| && GlobStrcmp(p, names[j], f) && rest[i] == Unescape(names[j]);
        }
      }
      if GlobStrcmp(p, names[k], f) then
        assert CopiedFrom(p, names, k, f, Unescape(names[k]));
        [Unescape(names[k])] + rest
      else rest
  }

  function Matches(p: seq<char>, names: seq<seq<char>>, f: Flags): seq<seq<char>>
  {
    MatchesFrom(p, names, 0, f)
  }

  /** The state of the readdir loop: paths stored, the collator, grants left, status. */
  datatype Scan = Scan(added: seq<seq<char>>, tree: Tree, g: nat, status: Status)

  /**
   * One readdir entry: a matching name is duplicated by glob_strdup (GLOB_NOSPACE when
   * that fails); the first match turns GLOB_NOMATCH into SUCCESS; the copy
   * goes to the collator, or under GLOB_NOSORT straight to gl_pathv, and it
   * is dropped when that allocation fails.
   */
  function ScanStep(p: seq<char>, n: seq<char>, o: Options, s: Scan): (r: Scan)
    ensures !GlobStrcmp(p, n, o.m) ==> r == s
    ensures r.status == NoMatch ==> s.status == NoMatch
    ensures GlobStrcmp(p, n, o.m) ==> r.status != NoMatch
    ensures r.added == s.added || r.added == s.added + [Unescape(n)]
  {
    if !GlobStrcmp(p, n, o.m) then s
    else if s.g == 0 then s.(status := NoSpace)
    else
      var st := if s.status == NoMatch then Success else s.status;
      var g := s.g - 1;
      var copy := Unescape(n);
      if !o.nosort then
        Scan(s.added, if g > 0 then Insert(s.tree, copy, o.m.casematch) else s.tree, Take(g), st)
      else
        Scan(if g > 0 then s.added + [copy] else s.added, s.tree, Take(g), st)
  }

  /** The readdir loop over names[k..]. */
  function ScanFrom(p: seq<char>, names: seq<seq<char>>, k: nat, o: Options, s: Scan): Scan
    requires k <= |names|
    decreases |names| - k
  {
    if k == |names| then s else ScanFrom(p, names, k + 1, o, ScanStep(p, names[k], o, s))
  }

  /** glob_store_collated_entries after a scan: the collated names while the grants last. */
  function Flush(s: Scan): (r: Res)
    ensures r.status == s.status
    ensures r.g <= s.g
  {
    var t := InOrder(s.tree);
    var n := Min(s.g, |t|);
    Res(s.added + t[..n], s.g - n, s.status)
  }

  /** One prefix directory: scan it when it opens, else abort under GLOB_ERR. */
  function DirStep(p: seq<char>, d: seq<char>, o: Options, fs: Listing, r: Res): Res
  {
    if d in fs then Flush(ScanFrom(p, fs[d], 0, o, Scan(r.added, Nil, r.g, r.status)))
    else if o.err then r.(status := Aborted)
    else r
  }

  /** The loop over the prefix directories dirs[k..]; once aborted, the rest are only released. */
  function DirsFrom(p: seq<char>, dirs: seq<seq<char>>, k: nat, o: Options, fs: Listing, r: Res): Res
    requires k <= |dirs|
    decreases |dirs| - k
  {
    if k == |dirs| then r
    else DirsFrom(p, dirs, k + 1, o, fs, if r.status == Aborted then r else DirStep(p, dirs[k], o, fs, r))
  }

  /**
   * The leaf of glob_match for a pattern without a directory prefix: the
   * local glob_t is initialised (GLOB_NOSPACE on failure) and given "." as
   * its one prefix (ABORTED when the strdup or the store fails); a
   * GLOB_NOCHECK pattern without wild cards is stored as it is and reports
   * SUCCESS even if that store fails; otherwise "." is scanned.  What is
   * stored is always the glob_strdup copy, without its escapes.
   */
  function Leaf(p: seq<char>, o: Options, fs: Listing, g: nat): Res
  {
    if g < 3 then Res([], 0, if g == 0 then NoSpace else Aborted)
    else LeafInDot(p, o, fs, g - 3)
  }

  /** The leaf once "." is stored, with g grants left. */
  function LeafInDot(p: seq<char>, o: Options, fs: Listing, g: nat): Res
  {
    if o.nocheck && !IsGlobPattern(p, o.m) then
      Res(if g >= 2 then [Unescape(p)] else [], if g >= 2 then g - 2 else 0, Success)
    else
      DirsFrom(p, ["."], 0, o, fs, Res([], g, NoMatch))
  }

  // ---------------------------------------------------------------- glob_match

  /** The state of the GLOB_BRACE loop: paths appended, grants left, the status of each iteration. */
  datatype Loop = Loop(added: seq<seq<char>>, g: nat, sts: seq<Status>)

  /**
   * glob_match: under GLOB_BRACE, a pattern with an expandable group globs
   * each pattern of its series in turn, appending to the same gl_pathv and
   * stopping after an iteration that aborts; any other pattern is a leaf.
   */
  function Expected(p: seq<char>, o: Options, fs: Listing, g: nat): Res
    decreases |p|, 2
  {
    var b := if o.brace then BraceAt(p, 0) else None;
    if b.None? then Leaf(p, o, fs, g)
    else
      var l := Run(Series(p, b.value, p[..b.value]), 0, o, fs, |p|, Loop([], g, []));
      Res(l.added, l.g, BraceStatus(l.sts))
  }

  /** The GLOB_BRACE loop from iteration k; an unterminated group (None) aborts. */
  function Run(subs: seq<Option<seq<char>>>, k: nat, o: Options, fs: Listing, bound: nat, acc: Loop): Loop
    requires forall j | 0 <= j < |subs| && subs[j].Some? :: |subs[j].value| < bound
    decreases bound, 1, |subs| - k
  {
    if k >= |subs| then acc
    else if subs[k].None? then Loop(acc.added, acc.g, acc.sts + [Aborted])
    else
      var r := Expected(subs[k].value, o, fs, acc.g);
      var next := Loop(acc.added + r.added, r.g, acc.sts + [r.status]);
      if r.status == Aborted then next else Run(subs, k + 1, o, fs, bound, next)
  }

  /** __mingw_glob after registration: a GLOB_NOCHECK glob that matched nothing stores the pattern. */
  function Call(p: seq<char>, o: Options, fs: Listing, g: nat): Res
  {
    var r := Expected(p, o, fs, g);
    if r.status == NoMatch && o.nocheck then
      Res(r.added + (if r.g >= 2 then [Unescape(p)] else []), if r.g >= 2 then r.g - 2 else 0, NoMatch)
    else r
  }

  // ---------------------------------------------------------------- methods

  /** The readdir loop over one directory whose listing is names. */
  method ScanDirectory(p: seq<char>, names: seq<seq<char>>, o: Options, gl: GlobT, heap: Allocator,
                       s0: Status, ghost base: seq<seq<char>>, ghost a0: seq<seq<char>>)
    returns (s: Status, t: Tree)
    requires gl.live && gl.Layout() && gl.Paths() == base + a0
    modifies gl, heap
    ensures gl.live && gl.Layout() && gl.offs == old(gl.offs) && gl.signed == old(gl.signed)
    ensures var r := ScanFrom(p, names, 0, o, Scan(a0, Nil, old(heap.grants), s0));
      gl.Paths() == base + r.added && heap.grants == r.g && s == r.status && t == r.tree
  {
    s, t := s0, Nil;
    ghost var cur := Scan(a0, Nil, heap.grants, s0);
    ghost var final := ScanFrom(p, names, 0, o, cur);
    var k := 0;
    while k < |names|
      invariant k <= |names|
      invariant gl.live && gl.Layout() && gl.offs == old(gl.offs) && gl.signed == old(gl.signed)
      invariant gl.Paths() == base + cur.added && heap.grants == cur.g && s == cur.status && t == cur.tree
      invariant ScanFrom(p, names, k, o, cur) == final
      decreases |names| - k
    {
      assert ScanFrom(p, names, k, o, cur) == ScanFrom(p, names, k + 1, o, ScanStep(p, names[k], o, cur));
      s, t := ScanEntry(p, names[k], o, gl, heap, s, t, base, cur);
      cur := ScanStep(p, names[k], o, cur);
      k := k + 1;
    }
  }

  /** One readdir entry n, in the scan state cur. */
  method ScanEntry(p: seq<char>, n: seq<char>, o: Options, gl: GlobT, heap: Allocator, s0: Status, t0: Tree,
                   ghost base: seq<seq<char>>, ghost cur: Scan)
    returns (s: Status, t: Tree)
    requires gl.live && gl.Layout()
    requires gl.Paths() == base + cur.added && heap.grants == cur.g && s0 == cur.status && t0 == cur.tree
    modifies gl, heap
    ensures gl.live && gl.Layout() && gl.offs == old(gl.offs) && gl.signed == old(gl.signed)
    ensures var next := ScanStep(p, n, o, cur);
      gl.Paths() == base + next.added && heap.grants == next.g && s == next.status && t == next.tree
  {
    s, t := s0, t0;
    if GlobStrcmp(p, n, o.m) {
      var found := GlobStrdup(n, heap);
      if found == None {
        s := NoSpace;
      } else {
        if s == NoMatch {
          s := Success;
        }
        if !o.nosort {
          t := CollateEntry(t, found.value, o.m.casematch, heap);
        } else {
          var _ := gl.StoreEntry(found, heap);
          Associative(base, cur.added, [Unescape(n)]);
        }
      }
    }
  }

  /** One prefix directory: opendir, the readdir loop, and the flush of the collator. */
  method MatchDir(p: seq<char>, d: seq<char>, o: Options, fs: Listing, gl: GlobT, heap: Allocator,
                  s0: Status, ghost base: seq<seq<char>>, ghost a0: seq<seq<char>>)
    returns (s: Status)
    requires gl.live && gl.Layout() && gl.Paths() == base + a0
    modifies gl, heap
    ensures gl.live && gl.Layout() && gl.offs == old(gl.offs) && gl.signed == old(gl.signed)
    ensures var r := DirStep(p, d, o, fs, Res(a0, old(heap.grants), s0));
      gl.Paths() == base + r.added && heap.grants == r.g && s == r.status
  {
    s := s0;
    var t := Nil;
    if d in fs {
      ghost var sc := ScanFrom(p, fs[d], 0, o, Scan(a0, Nil, heap.grants, s0));
      s, t := ScanDirectory(p, fs[d], o, gl, heap, s, base, a0);
      if t.Node? {
        gl.StoreCollated(t, heap);
        Associative(base, sc.added, InOrder(t)[..Min(sc.g, |InOrder(t)|)]);
      } else {
        assert InOrder(t)[..Min(sc.g, |InOrder(t)|)] == [];
      }
    } else if o.err {
      s := Aborted;
    }
  }

  /** The loop over the prefix directories, each scanned unless an earlier one aborted. */
  method MatchDirs(p: seq<char>, dirs: seq<seq<char>>, o: Options, fs: Listing, gl: GlobT, heap: Allocator)
    returns (s: Status)
    requires gl.live && gl.Layout()
    modifies gl, heap
    ensures gl.live && gl.Layout() && gl.offs == old(gl.offs) && gl.signed == old(gl.signed)
    ensures var r := DirsFrom(p, dirs, 0, o, fs, Res([], old(heap.grants), NoMatch));
      gl.Paths() == old(gl.Paths()) + r.added && heap.grants == r.g && s == r.status
  {
    ghost var p0 := gl.Paths();
    s := NoMatch;
    ghost var cur := Res([], heap.grants, NoMatch);
    ghost var final := DirsFrom(p, dirs, 0, o, fs, cur);
    var k := 0;
    while k < |dirs|
      invariant k <= |dirs|
      invariant gl.live && gl.Layout() && gl.offs == old(gl.offs) && gl.signed == old(gl.signed)
      invariant gl.Paths() == p0 + cur.added && heap.grants == cur.g && s == cur.status
      invariant DirsFrom(p, dirs, k, o, fs, cur) == final
      decreases |dirs| - k
    {
      if s != Aborted {
        s := MatchDir(p, dirs[k], o, fs, gl, heap, s, p0, cur.added);
        cur := DirStep(p, dirs[k], o, fs, cur);
      }
      k := k + 1;
    }
  }

  /** The leaf of glob_match, for a pattern without a directory prefix. */
  method MatchLeaf(p: seq<char>, o: Options, fs: Listing, gl: GlobT, heap: Allocator) returns (s: Status)
    requires gl.live && gl.Layout()
    modifies gl, heap
    ensures gl.live && gl.Layout() && gl.offs == old(gl.offs) && gl.signed == old(gl.signed)
    ensures var r := Leaf(p, o, fs, old(heap.grants));
      gl.Paths() == old(gl.Paths()) + r.added && heap.grants == r.g && s == r.status
  {
    ghost var g0 := heap.grants;
    var local := new GlobT(0);
    s := local.Initialise(heap);
    if s != Success {
      assert g0 == 0;
      return;
    }
    // dirname() reports "." and "." holds no wild card: store it as the one prefix
    var dot := GlobStrdup(".", heap);
    assert Unescape(".") == ".";
    s := local.StoreEntry(dot, heap);
    if s != Success {
      assert 0 < g0 < 3 && heap.grants == 0;
      return;
    }
    assert g0 >= 3 && heap.grants == g0 - 3;
    var dirs := Values(local.pathv[local.offs..local.offs + local.pathc]);
    assert dirs == local.Paths() == ["."];
    s := MatchInDot(p, dirs, o, fs, gl, heap);
  }

  /**
   * The leaf once "." is stored: there is no prefix to strip, so dir
   * becomes NULL and matches are bare names.
   */
  method MatchInDot(p: seq<char>, dirs: seq<seq<char>>, o: Options, fs: Listing, gl: GlobT, heap: Allocator)
    returns (s: Status)
    requires dirs == ["."] && gl.live && gl.Layout()
    modifies gl, heap
    ensures gl.live && gl.Layout() && gl.offs == old(gl.offs) && gl.signed == old(gl.signed)
    ensures var r := LeafInDot(p, o, fs, old(heap.grants));
      gl.Paths() == old(gl.Paths()) + r.added && heap.grants == r.g && s == r.status
  {
    if o.nocheck && !IsGlobPattern(p, o.m) {
      StorePattern(p, gl, heap);
      return Success;
    }
    s := MatchDirs(p, dirs, o, fs, gl, heap);
  }

  /** glob_match for a pattern without a directory prefix. */
  method GlobMatch(p: seq<char>, o: Options, fs: Listing, gl: GlobT, heap: Allocator) returns (s: Status)
    requires gl.live && gl.Layout() && NoPrefix(p)
    modifies gl, heap
    ensures gl.live && gl.Layout() && gl.offs == old(gl.offs) && gl.signed == old(gl.signed)
    ensures var r := Expected(p, o, fs, old(heap.grants));
      gl.Paths() == old(gl.Paths()) + r.added && heap.grants == r.g && s == r.status
    decreases |p|, 2
  {
    var b := if o.brace then BraceAt(p, 0) else None;
    if b.None? {
      s := MatchLeaf(p, o, fs, gl, heap);
      return;
    }
    var subs := Series(p, b.value, p[..b.value]);
    SeriesNoPrefix(p, b.value, subs);
    ghost var sts;
    s, sts := MatchBraces(subs, |p|, o, fs, gl, heap);
  }

  /** Every pattern of the series of a pattern without a prefix is without a prefix. */
  lemma SeriesNoPrefix(p: seq<char>, b: nat, subs: seq<Option<seq<char>>>)
    requires NoPrefix(p) && b < |p| && subs == Series(p, b, p[..b])
    ensures forall j | 0 <= j < |subs| && subs[j].Some? :: NoPrefix(subs[j].value)
  {
    SeriesChars(p, b, p[..b]);
    forall j | 0 <= j < |subs| && subs[j].Some?
      ensures NoPrefix(subs[j].value)
    {
      var q := subs[j].value;
      forall i | 0 <= i < |q|
        ensures !IsDirsep(q[i]) && q[i] != ':'
      {
        assert q[i] in q;
      }
    }
  }

  /**
   * The GLOB_BRACE loop of glob_match over the patterns subs of one group;
   * the result is the status of each iteration that ran.
   */
  method MatchBraces(subs: seq<Option<seq<char>>>, bound: nat, o: Options, fs: Listing, gl: GlobT,
                     heap: Allocator) returns (s: Status, ghost sts: seq<Status>)
    requires forall j | 0 <= j < |subs| && subs[j].Some? :: |subs[j].value| < bound
    requires forall j | 0 <= j < |subs| && subs[j].Some? :: NoPrefix(subs[j].value)
    requires gl.live && gl.Layout()
    modifies gl, heap
    ensures gl.live && gl.Layout() && gl.offs == old(gl.offs) && gl.signed == old(gl.signed)
    ensures var r := Run(subs, 0, o, fs, bound, Loop([], old(heap.grants), []));
      gl.Paths() == old(gl.Paths()) + r.added && heap.grants == r.g && sts == r.sts
    ensures s == BraceStatus(sts)
    decreases bound, 1
  {
    ghost var p0 := gl.Paths();
    ghost var cur := Loop([], heap.grants, []);
    ghost var final := Run(subs, 0, o, fs, bound, cur);
    s := NoMatch;
    var k := 0;
    var stop := false;
    while !stop && k < |subs|
      invariant k <= |subs|
      invariant gl.live && gl.Layout() && gl.offs == old(gl.offs) && gl.signed == old(gl.signed)
      invariant gl.Paths() == p0 + cur.added && heap.grants == cur.g && s == BraceStatus(cur.sts)
      invariant !stop ==> Run(subs, k, o, fs, bound, cur) == final
      invariant stop ==> cur == final
      decreases |subs| - k, if stop then 0 else 1
    {
      s, stop, cur := MatchBrace(subs, k, bound, o, fs, gl, heap, p0, cur, s);
      k := k + 1;
    }
    sts := cur.sts;
  }

  /**
   * One iteration of the GLOB_BRACE loop: an alternative without its
   * closing brace aborts the loop, any other is globbed; an aborted glob
   * ends the loop.
   */
  method MatchBrace(subs: seq<Option<seq<char>>>, k: nat, bound: nat, o: Options, fs: Listing, gl: GlobT,
                    heap: Allocator, ghost p0: seq<seq<char>>, ghost cur: Loop, s0: Status)
    returns (s: Status, stop: bool, ghost next: Loop)
    requires k < |subs|
    requires forall j | 0 <= j < |subs| && subs[j].Some? :: |subs[j].value| < bound
    requires forall j | 0 <= j < |subs| && subs[j].Some? :: NoPrefix(subs[j].value)
    requires gl.live && gl.Layout()
    requires gl.Paths() == p0 + cur.added && heap.grants == cur.g && s0 == BraceStatus(cur.sts)
    modifies gl, heap
    ensures gl.live && gl.Layout() && gl.offs == old(gl.offs) && gl.signed == old(gl.signed)
    ensures gl.Paths() == p0 + next.added && heap.grants == next.g && s == BraceStatus(next.sts)
    ensures stop ==> next == Run(subs, k, o, fs, bound, cur)
    ensures !stop ==> Run(subs, k + 1, o, fs, bound, next) == Run(subs, k, o, fs, bound, cur)
    decreases bound, 0
  {
    if subs[k].None? {
      // an alternative without its closing brace
      BraceStatusSnoc(cur.sts, Aborted);
      s := Worst(s0, Aborted);
      next := Loop(cur.added, cur.g, cur.sts + [Aborted]);
      stop := true;
    } else {
      RunStep(subs, k, o, fs, bound, cur);
      var r;
      r, next := MatchAlternative(subs[k].value, o, fs, gl, heap, p0, cur);
      s := Worst(s0, r);
      stop := r == Aborted;
    }
  }

  /** One iteration of the GLOB_BRACE loop: glob_match on one alternative. */
  method MatchAlternative(sub: seq<char>, o: Options, fs: Listing, gl: GlobT, heap: Allocator,
                          ghost p0: seq<seq<char>>, ghost cur: Loop) returns (r: Status, ghost next: Loop)
    requires gl.live && gl.Layout() && NoPrefix(sub)
    requires gl.Paths() == p0 + cur.added && heap.grants == cur.g
    modifies gl, heap
    ensures gl.live && gl.Layout() && gl.offs == old(gl.offs) && gl.signed == old(gl.signed)
    ensures var e := Expected(sub, o, fs, cur.g);
      r == e.status && next == Loop(cur.added + e.added, e.g, cur.sts + [r])
    ensures gl.Paths() == p0 + next.added && heap.grants == next.g
    ensures BraceStatus(next.sts) == Worst(BraceStatus(cur.sts), r)
    decreases |sub|, 3
  {
    ghost var e := Expected(sub, o, fs, cur.g);
    r := GlobMatch(sub, o, fs, gl, heap);
    Associative(p0, cur.added, e.added);
    BraceStatusSnoc(cur.sts, r);
    next := Loop(cur.added + e.added, e.g, cur.sts + [r]);
  }

  /**
   * __mingw_glob: gl_offs is cleared unless GLOB_DOOFFS, the glob_t is
   * registered, the pattern is globbed, and a GLOB_NOCHECK glob that
   * matched nothing stores the pattern's glob_strdup copy; the status is
   * glob_match's.  The source does not consult the registration: when its
   * allocation fails no memory is left, so glob_match's own first
   * allocation fails as well and its status is GLOB_NOSPACE, which is
   * returned here without making that call.
   */
  method MingwGlob(p: seq<char>, o: Options, fs: Listing, gl: GlobT, heap: Allocator) returns (s: Status)
    requires gl.Valid() && NoPrefix(p)
    requires !o.dooffs && gl.live ==> gl.offs == 0
    modifies gl, heap
    ensures gl.signed && gl.offs == if o.dooffs then old(gl.offs) else 0
    ensures !old(gl.signed) && old(heap.grants) == 0 ==> s == NoSpace && !gl.live
    ensures old(gl.signed) || old(heap.grants) > 0 ==>
      var r := Call(p, o, fs, if old(gl.signed) then old(heap.grants) else old(heap.grants) - 1);
      gl.live && gl.Layout() && heap.grants == r.g && s == r.status
      && gl.Paths() == (if old(gl.signed) then old(gl.Paths()) else []) + r.added
  {
    ghost var before: seq<seq<char>> := if gl.signed then gl.Paths() else [];
    if !o.dooffs {
      gl.offs := 0;
    }
    var reg := gl.Register(heap);
    if reg != Success {
      return NoSpace;
    }
    assert gl.Paths() == before;
    s := GlobRegistered(p, o, fs, gl, heap);
  }

  /** __mingw_glob once the glob_t is registered: glob_match, then the GLOB_NOCHECK fallback. */
  method GlobRegistered(p: seq<char>, o: Options, fs: Listing, gl: GlobT, heap: Allocator) returns (s: Status)
    requires gl.live && gl.Layout() && NoPrefix(p)
    modifies gl, heap
    ensures gl.live && gl.Layout() && gl.offs == old(gl.offs) && gl.signed == old(gl.signed)
    ensures var r := Call(p, o, fs, old(heap.grants));
      gl.Paths() == old(gl.Paths()) + r.added && heap.grants == r.g && s == r.status
  {
    ghost var p0 := gl.Paths();
    ghost var r := Expected(p, o, fs, heap.grants);
    s := GlobMatch(p, o, fs, gl, heap);
    if s == NoMatch && o.nocheck {
      StorePattern(p, gl, heap);
      Associative(p0, r.added, if r.g >= 2 then [Unescape(p)] else []);
    }
  }

  /** glob_store_entry(glob_strdup(pattern)): the pattern is duplicated and stored; either step may fail. */
  method StorePattern(p: seq<char>, gl: GlobT, heap: Allocator)
    requires gl.live && gl.Layout()
    modifies gl, heap
    ensures gl.live && gl.Layout() && gl.offs == old(gl.offs) && gl.signed == old(gl.signed)
    ensures gl.Paths() == old(gl.Paths()) + if old(heap.grants) >= 2 then [Unescape(p)] else []
    ensures heap.grants == if old(heap.grants) >= 2 then old(heap.grants) - 2 else 0
  {
    var copy := GlobStrdup(p, heap);
    var _ := gl.StoreEntry(copy, heap);
  }

  // ---------------------------------------------------------------- properties of the leaf

  /** With enough memory, a sorted scan collates every match and stores nothing yet. */
  lemma {:induction false} ScanSorted(p: seq<char>, names: seq<seq<char>>, k: nat, o: Options, s: Scan)
    requires k <= |names| && !o.nosort
    requires s.g >= 2 * |MatchesFrom(p, names, k, o.m)|
    ensures var r := ScanFrom(p, names, k, o, s);
      var ms := MatchesFrom(p, names, k, o.m);
      r.tree == Build(s.tree, ms, o.m.casematch) && r.added == s.added && r.g == s.g - 2 * |ms|
      && r.status == if ms == [] || s.status != NoMatch then s.status else Success
    decreases |names| - k
  {
    if k < |names| {
      var n := names[k];
      var rest := MatchesFrom(p, names, k + 1, o.m);
      MatchesStep(p, names, k, o.m);
      var s2 := ScanStep(p, n, o, s);
      assert ScanFrom(p, names, k, o, s) == ScanFrom(p, names, k + 1, o, s2);
      if GlobStrcmp(p, n, o.m) {
        SortedStep(p, n, o, s);
        ScanSorted(p, names, k + 1, o, s2);
        BuildStep(s.tree, Unescape(n), rest, o.m.casematch);
      } else {
        ScanSorted(p, names, k + 1, o, s);
      }
    }
  }

  /** The matches of names[k..] are names[k], when it matches, followed by those of names[k+1..]. */
  lemma MatchesStep(p: seq<char>, names: seq<seq<char>>, k: nat, f: Flags)
    requires k < |names|
    ensures MatchesFrom(p, names, k, f) ==
      if GlobStrcmp(p, names[k], f) then [Unescape(names[k])] + MatchesFrom(p, names, k + 1, f)
      else MatchesFrom(p, names, k + 1, f)
  {
  }

  /** With two grants, a sorted scan step duplicates and collates a matching name. */
  lemma SortedStep(p: seq<char>, n: seq<char>, o: Options, s: Scan)
    requires GlobStrcmp(p, n, o.m) && !o.nosort && s.g >= 2
    ensures ScanStep(p, n, o, s) ==
      Scan(s.added, Insert(s.tree, Unescape(n), o.m.casematch), s.g - 2, if s.status == NoMatch then Success else s.status)
  {
  }

  /** Building from a list that starts with n first inserts n. */
  lemma BuildStep(t: Tree, n: seq<char>, rest: seq<seq<char>>, cm: bool)
    ensures Build(t, [n] + rest, cm) == Build(Insert(t, n, cm), rest, cm)
  {
    assert ([n] + rest)[1..] == rest;
  }

  /** With enough memory, an unsorted scan stores every match in directory order. */
  lemma {:induction false} ScanUnsorted(p: seq<char>, names: seq<seq<char>>, k: nat, o: Options, s: Scan)
    requires k <= |names| && o.nosort
    requires s.g >= 2 * |MatchesFrom(p, names, k, o.m)|
    ensures var r := ScanFrom(p, names, k, o, s);
      var ms := MatchesFrom(p, names, k, o.m);
      r.added == s.added + ms && r.tree == s.tree && r.g == s.g - 2 * |ms|
      && r.status == if ms == [] || s.status != NoMatch then s.status else Success
    decreases |names| - k
  {
    if k < |names| {
      var n := names[k];
      var s2 := ScanStep(p, n, o, s);
      ScanUnsorted(p, names, k + 1, o, s2);
      if GlobStrcmp(p, n, o.m) {
        Associative(s.added, [Unescape(n)], MatchesFrom(p, names, k + 1, o.m));
      }
    }
  }

  /** The readdir loop keeps only copies of names of the directory that the pattern matches. */
  ghost predicate Found(p: seq<char>, names: seq<seq<char>>, f: Flags, x: seq<char>)
  {
    exists j | 0 <= j < |names| :: GlobStrcmp(p, names[j], f) && x == Unescape(names[j])
  }

  lemma {:induction false} ScanOnlyMatches(p: seq<char>, names: seq<seq<char>>, k: nat, o: Options, s: Scan)
    requires k <= |names|
    requires forall x | x in s.added :: Found(p, names, o.m, x)
    requires forall x | x in InOrder(s.tree) :: Found(p, names, o.m, x)
    ensures var r := ScanFrom(p, names, k, o, s);
      (forall x | x in r.added :: Found(p, names, o.m, x))
      && forall x | x in InOrder(r.tree) :: Found(p, names, o.m, x)
    decreases |names| - k
  {
    if k < |names| {
      var n := names[k];
      var s2 := ScanStep(p, n, o, s);
      if GlobStrcmp(p, n, o.m) && s.g > 1 && !o.nosort {
        var t2 := Insert(s.tree, Unescape(n), o.m.casematch);
        forall x | x in InOrder(t2)
          ensures Found(p, names, o.m, x)
        {
          assert x in multiset(InOrder(t2));
          assert x in multiset(InOrder(s.tree)) || x == Unescape(n);
        }
      }
      ScanOnlyMatches(p, names, k + 1, o, s2);
    }
  }

  /**
   * With enough memory (three allocations for the local glob_t and its "."
   * prefix, three per match), globbing a pattern without GLOB_NOSORT
   * stores exactly the matching names, sorted in collating order; status
   * SUCCESS when one matched and GLOB_NOMATCH otherwise.
   */
  lemma LeafSorted(p: seq<char>, o: Options, fs: Listing, g: nat)
    requires !(o.nocheck && !IsGlobPattern(p, o.m)) && !o.nosort && "." in fs
    requires g >= 3 + 3 * |Matches(p, fs["."], o.m)|
    ensures var r := Leaf(p, o, fs, g);
      var ms := Matches(p, fs["."], o.m);
      Sorted(r.added, o.m.casematch) && multiset(r.added) == multiset(ms)
      && r.g == g - 3 - 3 * |ms| && r.status == if ms == [] then NoMatch else Success
  {
    var ms := Matches(p, fs["."], o.m);
    var cm := o.m.casematch;
    var s0 := Scan([], Nil, g - 3, NoMatch);
    var sc := ScanFrom(p, fs["."], 0, o, s0);
    LeafScans(p, o, fs, g);
    ScanSorted(p, fs["."], 0, o, s0);
    CollatedIsSortedPermutation(ms, cm);
    var t := InOrder(sc.tree);
    assert |t| == |multiset(t)| == |ms|;
    FlushAll(sc);
  }

  /** Past the NOCHECK literal case, the leaf is the flushed scan of ".". */
  lemma LeafScans(p: seq<char>, o: Options, fs: Listing, g: nat)
    requires !(o.nocheck && !IsGlobPattern(p, o.m)) && "." in fs && g >= 3
    ensures Leaf(p, o, fs, g) == Flush(ScanFrom(p, fs["."], 0, o, Scan([], Nil, g - 3, NoMatch)))
  {
    OneDir(p, ".", o, fs, Res([], g - 3, NoMatch));
  }

  /** The loop over a single prefix directory is one step. */
  lemma OneDir(p: seq<char>, d: seq<char>, o: Options, fs: Listing, r: Res)
    requires r.status != Aborted
    ensures DirsFrom(p, [d], 0, o, fs, r) == DirStep(p, d, o, fs, r)
  {
    assert DirsFrom(p, [d], 0, o, fs, r) == DirsFrom(p, [d], 1, o, fs, DirStep(p, d, o, fs, r));
  }

  /** A flush with a grant for every collated entry stores all of them, in order. */
  lemma FlushAll(s: Scan)
    requires s.g >= |InOrder(s.tree)|
    ensures Flush(s) == Res(s.added + InOrder(s.tree), s.g - |InOrder(s.tree)|, s.status)
  {
    var t := InOrder(s.tree);
    assert t[..Min(s.g, |t|)] == t;
  }

  /** With enough memory, globbing under GLOB_NOSORT stores the matching names in directory order. */
  lemma LeafUnsorted(p: seq<char>, o: Options, fs: Listing, g: nat)
    requires !(o.nocheck && !IsGlobPattern(p, o.m)) && o.nosort && "." in fs
    requires g >= 3 + 2 * |Matches(p, fs["."], o.m)|
    ensures var r := Leaf(p, o, fs, g);
      var ms := Matches(p, fs["."], o.m);
      r.added == ms && r.g == g - 3 - 2 * |ms| && r.status == if ms == [] then NoMatch else Success
  {
    var s0 := Scan([], Nil, g - 3, NoMatch);
    ScanUnsorted(p, fs["."], 0, o, s0);
  }

  /**
   * A directory that cannot be opened contributes nothing; the glob
   * aborts under GLOB_ERR and otherwise reports GLOB_NOMATCH.
   */
  lemma LeafUnreadable(p: seq<char>, o: Options, fs: Listing, g: nat)
    requires !(o.nocheck && !IsGlobPattern(p, o.m)) && "." !in fs && g >= 3
    ensures Leaf(p, o, fs, g) == Res([], g - 3, if o.err then Aborted else NoMatch)
  {
  }

  /**
   * Whatever memory allows, the leaf stores only the pattern itself (the
   * GLOB_NOCHECK literal case) or names of the current directory that
   * the pattern matches.
   */
  lemma LeafOnlyMatches(p: seq<char>, o: Options, fs: Listing, g: nat)
    ensures forall x | x in Leaf(p, o, fs, g).added ::
      (x == Unescape(p) && o.nocheck && !IsGlobPattern(p, o.m)) || ("." in fs && Found(p, fs["."], o.m, x))
  {
    if g >= 3 && !(o.nocheck && !IsGlobPattern(p, o.m)) && "." in fs {
      var s0 := Scan([], Nil, g - 3, NoMatch);
      var sc := ScanFrom(p, fs["."], 0, o, s0);
      ScanOnlyMatches(p, fs["."], 0, o, s0);
      var t := InOrder(sc.tree);
      var r := Leaf(p, o, fs, g);
      assert r.added == sc.added + t[..Min(sc.g, |t|)];
      forall x | x in r.added
        ensures Found(p, fs["."], o.m, x)
      {
        if x !in sc.added {
          assert x in t;
        }
      }
    }
  }


  // ---------------------------------------------------------------- properties of glob_match

  /** A scan that has matched nothing has stored and collated nothing. */
  ghost predicate Quiet(s: Scan)
  {
    s.status == NoMatch ==> s.added == [] && s.tree == Nil
  }

  lemma {:induction false} ScanQuiet(p: seq<char>, names: seq<seq<char>>, k: nat, o: Options, s: Scan)
    requires k <= |names| && Quiet(s)
    ensures Quiet(ScanFrom(p, names, k, o, s))
    decreases |names| - k
  {
    if k < |names| {
      var s2 := ScanStep(p, names[k], o, s);
      assert ScanFrom(p, names, k, o, s) == ScanFrom(p, names, k + 1, o, s2);
      QuietStep(p, names[k], o, s);
      ScanQuiet(p, names, k + 1, o, s2);
    }
  }

  lemma QuietStep(p: seq<char>, n: seq<char>, o: Options, s: Scan)
    requires Quiet(s)
    ensures Quiet(ScanStep(p, n, o, s))
  {
  }

  lemma {:induction false} DirsQuiet(p: seq<char>, dirs: seq<seq<char>>, k: nat, o: Options, fs: Listing, r: Res)
    requires k <= |dirs| && (r.status == NoMatch ==> r.added == [])
    ensures var e := DirsFrom(p, dirs, k, o, fs, r); e.status == NoMatch ==> e.added == []
    decreases |dirs| - k
  {
    if k < |dirs| {
      if r.status != Aborted && dirs[k] in fs {
        ScanQuiet(p, fs[dirs[k]], 0, o, Scan(r.added, Nil, r.g, r.status));
      }
      DirsQuiet(p, dirs, k + 1, o, fs, if r.status == Aborted then r else DirStep(p, dirs[k], o, fs, r));
    }
  }

  /** A glob that reports GLOB_NOMATCH has appended nothing to gl_pathv. */
  lemma {:induction false} NoMatchAddsNothing(p: seq<char>, o: Options, fs: Listing, g: nat)
    ensures var r := Expected(p, o, fs, g); r.status == NoMatch ==> r.added == []
    decreases |p|, 2
  {
    var b := if o.brace then BraceAt(p, 0) else None;
    if b.None? {
      if g >= 3 {
        DirsQuiet(p, ["."], 0, o, fs, Res([], g - 3, NoMatch));
      }
    } else {
      RunNoMatch(Series(p, b.value, p[..b.value]), 0, o, fs, |p|, Loop([], g, []));
      assert Tidy(Loop([], g, []));
    }
  }

  lemma {:induction false} RunNoMatch(subs: seq<Option<seq<char>>>, k: nat, o: Options, fs: Listing, bound: nat,
                                      acc: Loop)
    requires forall j | 0 <= j < |subs| && subs[j].Some? :: |subs[j].value| < bound
    requires Tidy(acc)
    ensures Tidy(Run(subs, k, o, fs, bound, acc))
    decreases bound, 1, |subs| - k
  {
    if k < |subs| {
      if subs[k].None? {
        BraceStatusSnoc(acc.sts, Aborted);
        assert Run(subs, k, o, fs, bound, acc) == Loop(acc.added, acc.g, acc.sts + [Aborted]);
      } else {
        var r := Expected(subs[k].value, o, fs, acc.g);
        NoMatchAddsNothing(subs[k].value, o, fs, acc.g);
        var next := Loop(acc.added + r.added, r.g, acc.sts + [r.status]);
        TidyStep(acc, r);
        RunStep(subs, k, o, fs, bound, acc);
        if r.status != Aborted {
          RunNoMatch(subs, k + 1, o, fs, bound, next);
        }
      }
    }
  }

  /** A loop state whose statuses fold to GLOB_NOMATCH has appended nothing. */
  ghost predicate Tidy(l: Loop)
  {
    BraceStatus(l.sts) == NoMatch ==> l.added == []
  }

  lemma TidyStep(acc: Loop, r: Res)
    requires Tidy(acc) && (r.status == NoMatch ==> r.added == [])
    ensures Tidy(Loop(acc.added + r.added, r.g, acc.sts + [r.status]))
  {
    BraceStatusSnoc(acc.sts, r.status);
    if BraceStatus(acc.sts + [r.status]) == NoMatch {
      assert BraceStatus(acc.sts) == NoMatch && r.status == NoMatch;
    }
  }

  /** One iteration of the GLOB_BRACE loop. */
  lemma RunStep(subs: seq<Option<seq<char>>>, k: nat, o: Options, fs: Listing, bound: nat, acc: Loop)
    requires forall j | 0 <= j < |subs| && subs[j].Some? :: |subs[j].value| < bound
    requires k < |subs| && subs[k].Some?
    ensures var r := Expected(subs[k].value, o, fs, acc.g);
      var next := Loop(acc.added + r.added, r.g, acc.sts + [r.status]);
      Run(subs, k, o, fs, bound, acc) == if r.status == Aborted then next else Run(subs, k + 1, o, fs, bound, next)
  {
  }

  /**
   * Brace alternation: with GLOB_BRACE, globbing pre{a,b}suf appends the
   * matches of pre a suf and then those of pre b suf, and stops after the
   * first when it aborts.
   */
  lemma BraceUnion(pre: seq<char>, a: seq<char>, b: seq<char>, suf: seq<char>, o: Options, fs: Listing,
                   g: nat)
    requires o.brace && Plain(a) && Plain(b)
    requires forall k | 0 <= k < |pre| :: pre[k] != ESC && pre[k] != '{' && pre[k] != '\0'
    requires forall k | 0 <= k < |suf| :: suf[k] != '\0'
    ensures var r0 := Expected(pre + a + suf, o, fs, g);
      var r1 := Expected(pre + b + suf, o, fs, r0.g);
      Expected(pre + ['{'] + a + [','] + b + ['}'] + suf, o, fs, g) ==
        if r0.status == Aborted then r0 else Res(r0.added + r1.added, r1.g, Worst(r0.status, r1.status))
  {
    var p := pre + ['{'] + a + [','] + b + ['}'] + suf;
    var q0, q1 := pre + a + suf, pre + b + suf;
    var subs := Series(p, |pre|, pre);
    GroupOfTwo(pre, a, b, suf);
    ExpectedBrace(p, o, fs, g, |pre|, subs);
    RunTwo(q0, q1, o, fs, |p|, g);
    var r0 := Expected(q0, o, fs, g);
    var r1 := Expected(q1, o, fs, r0.g);
    BraceStatusSnoc([], r0.status);
    if r0.status != Aborted {
      BraceStatusSnoc([r0.status], r1.status);
      assert [r0.status] + [r1.status] == [r0.status, r1.status];
    }
  }

  /** The group of pre{a,b}suf is the first expandable one, and its series is pre a suf, then pre b suf. */
  lemma GroupOfTwo(pre: seq<char>, a: seq<char>, b: seq<char>, suf: seq<char>)
    requires Plain(a) && Plain(b)
    requires forall k | 0 <= k < |pre| :: pre[k] != ESC && pre[k] != '{' && pre[k] != '\0'
    requires forall k | 0 <= k < |suf| :: suf[k] != '\0'
    ensures var p := pre + ['{'] + a + [','] + b + ['}'] + suf;
      BraceAt(p, 0) == Some(|pre|) && p[..|pre|] == pre
      && Series(p, |pre|, pre) == [Some(pre + a + suf), Some(pre + b + suf)]
  {
    var alts := [a, b];
    PairExpands(pre, alts, suf);
    JoinTwo(a, b);
    JoinGroup(pre, a, b, suf);
    SubstitutedTwo(pre, a, b, suf);
  }

  lemma SubstitutedTwo(pre: seq<char>, a: seq<char>, b: seq<char>, suf: seq<char>)
    ensures Substituted(pre, [a, b], suf) == [Some(pre + a + suf), Some(pre + b + suf)]
  {
    var sub := Substituted(pre, [a, b], suf);
    assert |sub| == 2 && sub[0] == Some(pre + [a, b][0] + suf) && sub[1] == Some(pre + [a, b][1] + suf);
  }

  lemma PairExpands(pre: seq<char>, alts: seq<seq<char>>, suf: seq<char>)
    requires |alts| == 2 && Plain(alts[0]) && Plain(alts[1])
    requires forall k | 0 <= k < |pre| :: pre[k] != ESC && pre[k] != '{' && pre[k] != '\0'
    requires forall k | 0 <= k < |suf| :: suf[k] != '\0'
    ensures var p := pre + ['{'] + Join(alts) + ['}'] + suf;
      BraceAt(p, 0) == Some(|pre|) && p[..|pre|] == pre && Series(p, |pre|, pre) == Substituted(pre, alts, suf)
  {
    assert forall k | 0 <= k < |alts| :: Plain(alts[k]) by {
      forall k | 0 <= k < |alts|
        ensures Plain(alts[k])
      {
        assert k == 0 || k == 1;
      }
    }
    FlatGroupExpands(pre, alts, suf);
  }

  /** A pattern whose first expandable group is at b globs the series of that group. */
  lemma ExpectedBrace(p: seq<char>, o: Options, fs: Listing, g: nat, b: nat, subs: seq<Option<seq<char>>>)
    requires o.brace && BraceAt(p, 0) == Some(b) && b <= |p| && subs == Series(p, b, p[..b])
    ensures var l := Run(subs, 0, o, fs, |p|, Loop([], g, []));
      Expected(p, o, fs, g) == Res(l.added, l.g, BraceStatus(l.sts))
  {
  }

  /** The GLOB_BRACE loop over two patterns. */
  lemma RunTwo(q0: seq<char>, q1: seq<char>, o: Options, fs: Listing, bound: nat, g: nat)
    requires |q0| < bound && |q1| < bound
    ensures var r0 := Expected(q0, o, fs, g);
      var r1 := Expected(q1, o, fs, r0.g);
      Run([Some(q0), Some(q1)], 0, o, fs, bound, Loop([], g, [])) ==
        if r0.status == Aborted then Loop(r0.added, r0.g, [r0.status])
        else Loop(r0.added + r1.added, r1.g, [r0.status, r1.status])
  {
    var subs := [Some(q0), Some(q1)];
    var r0 := Expected(q0, o, fs, g);
    var r1 := Expected(q1, o, fs, r0.g);
    var acc1 := Loop([] + r0.added, r0.g, [] + [r0.status]);
    RunStep(subs, 0, o, fs, bound, Loop([], g, []));
    RunStep(subs, 1, o, fs, bound, acc1);
    assert [] + r0.added == r0.added && [] + [r0.status] == [r0.status];
    assert [r0.status] + [r1.status] == [r0.status, r1.status];
  }

  lemma JoinTwo(a: seq<char>, b: seq<char>)
    ensures Join([a, b]) == a + [','] + b
  {
    assert [a, b][1..] == [b];
  }

  lemma JoinGroup(pre: seq<char>, a: seq<char>, b: seq<char>, suf: seq<char>)
    ensures pre + ['{'] + (a + [','] + b) + ['}'] + suf == pre + ['{'] + a + [','] + b + ['}'] + suf
  {
  }

  /**
   * GLOB_NOCHECK: when nothing matched, __mingw_glob leaves the pattern,
   * as glob_strdup copies it, as the one new entry, and still reports
   * GLOB_NOMATCH.
   */
  lemma NocheckPlaceholder(p: seq<char>, o: Options, fs: Listing, g: nat)
    requires o.nocheck
    requires Expected(p, o, fs, g).status == NoMatch && Expected(p, o, fs, g).g >= 2
    ensures Call(p, o, fs, g) == Res([Unescape(p)], Expected(p, o, fs, g).g - 2, NoMatch)
  {
    NoMatchAddsNothing(p, o, fs, g);
  }


  // ---------------------------------------------------------------- the status of a brace expansion

  /** GLOB_BRACE alone, with case-insensitive matching. */
  function BraceOnly(): Options
  {
    Options(Flags(false, false, false), false, false, true, false, false)
  }

  /** The current directory holds the one file "a". */
  function OneFile(): Listing
  {
    map["." := ["a"]]
  }

  lemma OneFileMatches()
    ensures Matches("a", OneFile()["."], BraceOnly().m) == ["a"]
    ensures Matches("b", OneFile()["."], BraceOnly().m) == []
  {
    var f := BraceOnly().m;
    assert GlobStrcmp("a", "a", f) by {
      assert Strcmp("a", 1, "a", 1, f);
    }
    assert !GlobStrcmp("b", "a", f);
    assert Unescape("a") == "a";
  }

  /** A pattern without an expandable group is globbed as a leaf. */
  lemma LeafOnly(p: seq<char>, o: Options, fs: Listing, g: nat)
    requires BraceAt(p, 0) == None
    ensures Expected(p, o, fs, g) == Leaf(p, o, fs, g)
  {
  }

  lemma GlobsA(g: nat)
    requires g >= 6
    ensures Expected("a", BraceOnly(), OneFile(), g) == Res(["a"], g - 6, Success)
  {
    var o, fs := BraceOnly(), OneFile();
    assert BraceAt("a", 1) == None;
    LeafOnly("a", o, fs, g);
    OneFileMatches();
    LeafSorted("a", o, fs, g);
    var r := Leaf("a", o, fs, g);
    assert |r.added| == |multiset(r.added)| == 1;
    assert r.added[0] in multiset(r.added);
  }

  lemma GlobsB(g: nat)
    requires g >= 3
    ensures Expected("b", BraceOnly(), OneFile(), g) == Res([], g - 3, NoMatch)
  {
    var o, fs := BraceOnly(), OneFile();
    assert BraceAt("b", 1) == None;
    LeafOnly("b", o, fs, g);
    OneFileMatches();
    LeafSorted("b", o, fs, g);
  }

  /**
   * As written, glob_match returns the status of the last expansion only:
   * {a,b} in a directory holding "a" stores "a" and yet reports
   * GLOB_NOMATCH, so that under GLOB_NOCHECK __mingw_glob would then store
   * the pattern as well.  The corrected status is SUCCESS.
   */
  lemma AsWrittenBraceReportsNoMatch()
    ensures var l := Run(Series("{a,b}", 0, []), 0, BraceOnly(), OneFile(), 5, Loop([], 20, []));
      l.added == ["a"] && l.sts == [Success, NoMatch] && AsWrittenBraceStatus(l.sts) == NoMatch
  {
    SeriesAB();
    RunAB();
  }

  /** With the corrected status, the same glob stores "a" and reports SUCCESS. */
  lemma BraceReportsSuccess()
    ensures Expected("{a,b}", BraceOnly(), OneFile(), 20) == Res(["a"], 11, Success)
  {
    RunAB();
    SeriesAB();
    ExpectedLeadingBrace("{a,b}", BraceOnly(), OneFile(), 20);
    SuccessThenNoMatch();
  }

  lemma SuccessThenNoMatch()
    ensures BraceStatus([Success, NoMatch]) == Success
  {
    BraceStatusSnoc([], Success);
    BraceStatusSnoc([Success], NoMatch);
    assert [Success] + [NoMatch] == [Success, NoMatch];
  }

  /** A pattern whose first expandable group opens it globs the series of that group. */
  lemma ExpectedLeadingBrace(p: seq<char>, o: Options, fs: Listing, g: nat)
    requires o.brace && BraceAt(p, 0) == Some(0)
    ensures var l := Run(Series(p, 0, []), 0, o, fs, |p|, Loop([], g, []));
      Expected(p, o, fs, g) == Res(l.added, l.g, BraceStatus(l.sts))
  {
    assert p[..0] == [];
    ExpectedBrace(p, o, fs, g, 0, Series(p, 0, []));
  }

  /** The two iterations of the expansion loop over {a,b}. */
  lemma RunAB()
    ensures Run([Some("a"), Some("b")], 0, BraceOnly(), OneFile(), 5, Loop([], 20, [])) ==
      Loop(["a"], 11, [Success, NoMatch])
  {
    GlobsA(20);
    GlobsB(14);
    RunTwo("a", "b", BraceOnly(), OneFile(), 5, 20);
    assert ["a"] + [] == ["a"];
  }

  /** The group {a,b} is expandable and its series is a, then b. */
  lemma SeriesAB()
    ensures BraceAt("{a,b}", 0) == Some(0)
    ensures Series("{a,b}", 0, []) == [Some("a"), Some("b")]
  {
    GroupOfTwo([], "a", "b", []);
    BarePair('a', 'b');
  }

  lemma BarePair(x: char, y: char)
    ensures [] + ['{'] + [x] + [','] + [y] + ['}'] + [] == ['{', x, ',', y, '}']
    ensures [] + [x] + [] == [x] && [] + [y] + [] == [y]
  {
  }

  // ---------------------------------------------------------------- a quoted pattern under GLOB_NOCHECK

  /** GLOB_NOCHECK alone, with escapes honoured. */
  function NocheckOnly(): Options
  {
    Options(Flags(false, false, false), true, false, false, false, false)
  }

  /**
   * The startup code escapes a quoted *.c as DEL * . c; the pattern then
   * names nothing to expand, and what __mingw_glob stores for it under
   * GLOB_NOCHECK is the text *.c without its escape.
   */
  lemma QuotedPatternStoredPlain(fs: Listing, g: nat)
    requires g >= 5
    ensures Leaf([ESC, '*', '.', 'c'], NocheckOnly(), fs, g) == Res(["*.c"], g - 5, Success)
  {
    var p := [ESC, '*', '.', 'c'];
    assert !IsGlobPattern(p, NocheckOnly().m) by {
      NoTokensAt(p, 2, NocheckOnly().m);
    }
    assert Unescape(p) == "*.c" by {
      assert p[2..] == ".c";
      UnescapePlain(".c");
    }
  }
}
