/**
 * The leaf matcher of the MinGW glob(): is_glob_pattern, the character
 * set scanner (glob_in_set, glob_set_adjusted) and glob_strcmp, which
 * compares one directory entry name against one path component of a
 * pattern.  Strings are C strings: a position past the end reads NUL,
 * and an embedded NUL ends the string.  Characters are bytes, promoted
 * as the platform's signed char is.
 */
module Glob {
  import opened CInt

  datatype Option<T> = None | Some(value: T)

  /** GLOB_HARD_ESC, the Win32 escape character (ASCII DEL). */
  const ESC: char := 127 as char

  /** The flags the matcher consults: GLOB_NOESCAPE, GLOB_CASEMATCH, GLOB_PERIOD. */
  datatype Flags = Flags(noescape: bool, casematch: bool, period: bool)

  /** A byte as a promoted (signed) char. */
  function SChar(c: char): (v: int)
    ensures -128 <= v < 128
    ensures c as int < 128 ==> v == c as int
  {
    var b := (c as int) % 256;
    if b >= 128 then b - 256 else b
  }

  /** tolower() in the C locale, on promoted values. */
  function Lower(x: int): (y: int)
    ensures (y == x) != ('A' as int <= x <= 'Z' as int)
  {
    if 'A' as int <= x <= 'Z' as int then x + 32 else x
  }

  /** glob_case_match(...) == 0: equal, or equal ignoring ASCII case without GLOB_CASEMATCH. */
  predicate Same(f: Flags, x: int, y: int)
  {
    if f.casematch then x == y else Lower(x) == Lower(y)
  }

  predicate IsDirsep(c: char)
  {
    c == '/' || c == '\\'
  }

  // ---------------------------------------------------------------- is_glob_pattern

  /** The scan of is_glob_pattern from position i, with bracket characters of an open set seen. */
  function IsGlobAt(p: seq<char>, i: nat, bracket: nat, f: Flags): (r: bool)
    ensures r ==> exists k | i <= k < |p| :: p[k] == '*' || p[k] == '?' || p[k] == ']'
    decreases |p| - i
  {
    var c := At(p, i);
    if c == '\0' then false
    else if !f.noescape && c == ESC && At(p, i + 1) == '\0' then false
    else
      var next := if !f.noescape && c == ESC then i + 2 else i + 1;
      if bracket == 0 then
        if c == '*' || c == '?' then true
        else IsGlobAt(p, next, if c == '[' then 1 else 0, f)
      else if bracket > 1 && c == ']' then true
      else IsGlobAt(p, next, if c != '!' then bracket + 1 else bracket, f)
  }

  /** is_glob_pattern(): does p hold a wild card or a complete set? */
  function IsGlobPattern(p: seq<char>, f: Flags): (r: bool)
    ensures r ==> exists k | 0 <= k < |p| :: p[k] == '*' || p[k] == '?' || p[k] == ']'
  {
    IsGlobAt(p, 0, 0, f)
  }

  /** Without '*', '?' and '[' a pattern is a plain name. */
  lemma {:induction false} NoTokensAt(p: seq<char>, i: nat, f: Flags)
    requires forall k :: i <= k < |p| ==> p[k] != '*' && p[k] != '?' && p[k] != '['
    ensures !IsGlobAt(p, i, 0, f)
    decreases |p| - i
  {
    var c := At(p, i);
    if c != '\0' && !(!f.noescape && c == ESC && At(p, i + 1) == '\0') {
      NoTokensAt(p, if !f.noescape && c == ESC then i + 2 else i + 1, f);
    }
  }

  lemma PlainNameIsNoPattern(p: seq<char>, f: Flags)
    requires forall k :: 0 <= k < |p| ==> p[k] != '*' && p[k] != '?' && p[k] != '['
    ensures !IsGlobPattern(p, f)
  {
    NoTokensAt(p, 0, f);
  }

  /** A wild card preceded only by ordinary characters makes a glob pattern. */
  lemma {:induction false} WildcardAt(p: seq<char>, i: nat, k: nat, f: Flags)
    requires i <= k < |p| && (p[k] == '*' || p[k] == '?')
    requires forall m :: i <= m < k ==> p[m] != '\0' && p[m] != '[' && p[m] != ESC
    ensures IsGlobAt(p, i, 0, f)
    decreases k - i
  {
    if i < k {
      WildcardAt(p, i + 1, k, f);
    }
  }

  lemma WildcardMakesPattern(p: seq<char>, k: nat, f: Flags)
    requires k < |p| && (p[k] == '*' || p[k] == '?')
    requires forall m :: 0 <= m < k ==> p[m] != '\0' && p[m] != '[' && p[m] != ESC
    ensures IsGlobPattern(p, f)
  {
    WildcardAt(p, 0, k, f);
  }

  // ---------------------------------------------------------------- sets

  /** glob_set_adjusted(): the position after the ']' closing the set, None for an unterminated set. */
  function SetAdjusted(p: seq<char>, i: nat, f: Flags): (r: Option<nat>)
    ensures r.Some? ==> i < r.value <= |p| && p[r.value - 1] == ']'
    decreases |p| - i
  {
    if At(p, i) == ']' then Some(i + 1)
    else
      var j := if At(p, i) == ESC && !f.noescape then i + 1 else i;
      if At(p, j) == '\0' then None else SetAdjusted(p, j + 1, f)
  }

  /** A character lies in the range from lo to hi, as the two loops of glob_in_set step through it. */
  predicate RangeHit(f: Flags, lo: int, hi: int, test: int)
  {
    (exists x | lo <= x < hi :: Same(f, x, test)) || (exists x | hi < x <= lo :: Same(f, x, test))
  }

  /** The scan loop of glob_in_set, with lastc the previously listed character. */
  function InSetLoop(p: seq<char>, i: nat, lastc: int, test: int, f: Flags): (r: Option<nat>)
    ensures r.Some? ==> i < r.value <= |p|
    decreases |p| - i
  {
    var c := At(p, i);
    if c == ']' then None
    else if c == '-' && At(p, i + 1) != ']' then
      var h := At(p, i + 1);
      if h == '\0' then None
      else if RangeHit(f, lastc, SChar(h), test) then SetAdjusted(p, i + 2, f)
      else if IsDirsep(h) then None
      else if Same(f, SChar(h), test) then SetAdjusted(p, i + 2, f)
      else InSetLoop(p, i + 2, SChar(h), test, f)
    else if c == '\0' || IsDirsep(c) then None
    else if Same(f, SChar(c), test) then SetAdjusted(p, i + 1, f)
    else InSetLoop(p, i + 1, SChar(c), test, f)
  }

  /**
   * glob_in_set(): with i just after the '[' (or after the '!'), the
   * position after the set when test is listed in it, else None.
   */
  function InSet(p: seq<char>, i: nat, test: int, f: Flags): (r: Option<nat>)
    ensures r.Some? ==> i < r.value <= |p|
  {
    var first := At(p, i);
    if first == ']' || first == '-' then
      if SChar(first) == test then SetAdjusted(p, i + 1, f)
      else InSetLoop(p, i + 1, SChar(first), test, f)
    else InSetLoop(p, i, SChar(first), test, f)
  }

  /** A ']' or '-' listed first stands for itself. */
  lemma LeadingBracketIsLiteral(p: seq<char>, i: nat, f: Flags)
    requires i < |p| && (p[i] == ']' || p[i] == '-')
    ensures InSet(p, i, SChar(p[i]), f) == SetAdjusted(p, i + 1, f)
  {
  }

  /** A character is in lo..hi, taken in either order, ends included. */
  ghost predicate Between(f: Flags, lo: int, hi: int, test: int)
  {
    exists x | (lo <= x <= hi) || (hi <= x <= lo) :: Same(f, x, test)
  }

  predicate Ordinary(c: char)
  {
    c != '\0' && c != ']' && c != '-' && c != ESC && !IsDirsep(c)
  }

  /** A set holding one range matches exactly the characters of the range, ascending or descending. */
  lemma RangeSet(p: seq<char>, i: nat, test: int, f: Flags)
    requires i + 3 < |p| && p[i + 1] == '-' && p[i + 3] == ']' && Ordinary(p[i]) && Ordinary(p[i + 2])
    ensures InSet(p, i, test, f).Some? <==> Between(f, SChar(p[i]), SChar(p[i + 2]), test)
    ensures InSet(p, i, test, f).Some? ==> InSet(p, i, test, f) == Some(i + 4)
  {
    var lo, hi := SChar(p[i]), SChar(p[i + 2]);
    assert SetAdjusted(p, i + 3, f) == Some(i + 4);
    assert SetAdjusted(p, i + 2, f) == Some(i + 4);
    assert SetAdjusted(p, i + 1, f) == Some(i + 4);
    assert InSetLoop(p, i + 3, hi, test, f) == None;
    assert At(p, i + 1) == '-' && At(p, i + 2) == p[i + 2];
    assert InSetLoop(p, i + 1, lo, test, f)
      == if RangeHit(f, lo, hi, test) || Same(f, hi, test) then Some(i + 4) else None;
    assert InSet(p, i, test, f) == InSetLoop(p, i, lo, test, f);
    var hit := Same(f, lo, test) || RangeHit(f, lo, hi, test) || Same(f, hi, test);
    assert InSet(p, i, test, f) == if hit then Some(i + 4) else None;
    if Between(f, lo, hi, test) {
      var x :| ((lo <= x <= hi) || (hi <= x <= lo)) && Same(f, x, test);
      if x != lo && x != hi {
        assert RangeHit(f, lo, hi, test);
      }
    }
    if RangeHit(f, lo, hi, test) {
      if exists x | lo <= x < hi :: Same(f, x, test) {
        var x :| lo <= x < hi && Same(f, x, test);
        assert Between(f, lo, hi, test);
      } else {
        var x :| hi < x <= lo && Same(f, x, test);
        assert Between(f, lo, hi, test);
      }
    }
    if Same(f, lo, test) {
      assert Between(f, lo, hi, test);
    }
    if Same(f, hi, test) {
      assert Between(f, lo, hi, test);
    }
  }

  /** A set without a closing ']' never matches. */
  lemma {:induction false} UnterminatedAdjust(p: seq<char>, i: nat, f: Flags)
    requires forall k :: i <= k < |p| ==> p[k] != ']'
    ensures SetAdjusted(p, i, f) == None
    decreases |p| - i
  {
    if At(p, i) != ']' {
      var j := if At(p, i) == ESC && !f.noescape then i + 1 else i;
      if At(p, j) != '\0' {
        UnterminatedAdjust(p, j + 1, f);
      }
    }
  }

  lemma {:induction false} UnterminatedLoop(p: seq<char>, i: nat, lastc: int, test: int, f: Flags)
    requires forall k :: i <= k < |p| ==> p[k] != ']'
    ensures InSetLoop(p, i, lastc, test, f) == None
    decreases |p| - i
  {
    var c := At(p, i);
    if c == '-' && At(p, i + 1) != ']' {
      var h := At(p, i + 1);
      if h != '\0' {
        UnterminatedAdjust(p, i + 2, f);
        UnterminatedLoop(p, i + 2, SChar(h), test, f);
      }
    } else if c != '\0' && !IsDirsep(c) {
      UnterminatedAdjust(p, i + 1, f);
      UnterminatedLoop(p, i + 1, SChar(c), test, f);
    }
  }

  lemma UnterminatedSetFails(p: seq<char>, i: nat, test: int, f: Flags)
    requires forall k :: i <= k < |p| ==> p[k] != ']'
    ensures InSet(p, i, test, f) == None
  {
    UnterminatedAdjust(p, i + 1, f);
    UnterminatedLoop(p, i + 1, SChar(At(p, i)), test, f);
    UnterminatedLoop(p, i, SChar(At(p, i)), test, f);
  }

  /** Only '/' and '\' are like a separator, in either case mode. */
  lemma SameAsSeparator(f: Flags, c: char, s: char)
    requires IsDirsep(s) && c as int < 256 && Same(f, SChar(c), SChar(s))
    ensures c == s
  {
  }

  /** A set whose body, up to its ']', lists no range never matches a directory separator. */
  lemma {:induction false} SeparatorNotListed(p: seq<char>, i: nat, e: nat, lastc: int, s: char, f: Flags)
    requires IsDirsep(s) && i <= e < |p| && p[e] == ']'
    requires forall k | i <= k < e :: p[k] != '-' && p[k] != ']' && p[k] as int < 256
    ensures InSetLoop(p, i, lastc, SChar(s), f) == None
    decreases e - i
  {
    var c := At(p, i);
    if i < e && c != '\0' && !IsDirsep(c) {
      if Same(f, SChar(c), SChar(s)) {
        SameAsSeparator(f, c, s);
        assert false;
      }
      SeparatorNotListed(p, i + 1, e, SChar(c), s, f);
    }
  }

  /** The whole set: one listing plain characters only, and at least one, rejects a separator. */
  lemma ListedSetRejectsSeparator(p: seq<char>, i: nat, e: nat, s: char, f: Flags)
    requires IsDirsep(s) && i < e < |p| && p[e] == ']'
    requires forall k | i <= k < e :: p[k] != '-' && p[k] != ']' && p[k] as int < 256
    ensures InSet(p, i, SChar(s), f) == None
  {
    SeparatorNotListed(p, i, e, SChar(p[i]), s, f);
  }

  /**
   * As written, glob_in_set tries a range before it rejects a separator,
   * so the range from '.' to '0' holds '/' and the set "[.-0]" matches it.
   */
  lemma RangeSpansSeparator(f: Flags)
    ensures InSet("[.-0]", 1, SChar('/'), f) == Some(5)
    ensures AsWrittenSetNext("[.-0]", 1, '/', f) == Some(5)
  {
    var p := "[.-0]";
    assert Same(f, SChar('/'), SChar('/'));
    assert Between(f, SChar(p[1]), SChar(p[3]), SChar('/'));
    RangeSet(p, 1, SChar('/'), f);
  }

  // ---------------------------------------------------------------- glob_strcmp

  /**
   * The set step of glob_strcmp, for a set opening at q (just after '['):
   * the pattern position to resume at, or None for a mismatch.  An
   * excluded set "[!...]" matches the characters it does not list, and
   * no set matches a directory separator.
   */
  function SetNext(p: seq<char>, q: nat, tc: char, f: Flags): (r: Option<nat>)
    ensures r.Some? ==> q < r.value <= |p|
  {
    if IsDirsep(tc) then None
    else if At(p, q) == '!' then
      match InSet(p, q + 1, SChar(tc), f)
      case Some(_) => None
      case None => SetAdjusted(p, if At(p, q + 1) == ']' then q + 2 else q + 1, f)
    else InSet(p, q, SChar(tc), f)
  }

  /**
   * The set step as glob.c:439-456 is written: when the character IS in
   * an excluded set, the pattern pointer stays just after the '!' and
   * matching goes on inside the set body.
   */
  function AsWrittenSetNext(p: seq<char>, q: nat, tc: char, f: Flags): (r: Option<nat>)
    ensures r.Some? ==> q < r.value <= |p| + 1
  {
    if At(p, q) == '!' then
      match InSet(p, q + 1, SChar(tc), f)
      case Some(_) => Some(q + 1)
      case None => SetAdjusted(p, if At(p, q + 1) == ']' then q + 2 else q + 1, f)
    else InSet(p, q, SChar(tc), f)
  }

  /** With the corrected set step, a set never matches a directory separator of the text. */
  lemma SetNeverMatchesSeparator(p: seq<char>, i: nat, t: seq<char>, j: nat, f: Flags)
    requires i < |p| && p[i] == '[' && j < |t| && IsDirsep(t[j])
    ensures !Loop(p, i, t, j, f)
  {
  }

  /** The first position at or after i that is not a '*'. */
  function SkipStars(p: seq<char>, i: nat): (k: nat)
    ensures i <= k && At(p, k) != '*'
    ensures forall m :: i <= m < k ==> m < |p| && p[m] == '*'
    ensures i <= |p| ==> k <= |p|
    decreases |p| - i
  {
    if At(p, i) == '*' then SkipStars(p, i + 1) else i
  }

  /**
   * glob_strcmp(p + i, t + j) == 0: a text starting with '.' needs an
   * explicit '.' unless GLOB_PERIOD is set; then the pattern loop.
   */
  function Strcmp(p: seq<char>, i: nat, t: seq<char>, j: nat, f: Flags): bool
    requires i <= |p| && j <= |t|
    decreases |p| - i, |t| - j, 1
  {
    if At(t, j) == '.' && At(p, i) != '.' && !f.period then false
    else Loop(p, i, t, j, f)
  }

  /** The while loop of glob_strcmp over the pattern characters. */
  function Loop(p: seq<char>, i: nat, t: seq<char>, j: nat, f: Flags): bool
    requires i <= |p| && j <= |t|
    decreases |p| - i, |t| - j, 0
  {
    var c := At(p, i);
    var tc := At(t, j);
    if c == '\0' then tc == '\0'
    else if c == '?' then tc != '\0' && Loop(p, i + 1, t, j + 1, f)
    else if c == '*' then
      var k := SkipStars(p, i + 1);
      At(p, k) == '\0' || Star(p, k, t, j, f)
    else if c == '[' then
      if tc == '\0' then false
      else match SetNext(p, i + 1, tc, f)
        case None => false
        case Some(n) => Loop(p, n, t, j + 1, f)
    else
      var escaping := !f.noescape && c == ESC;
      var lit := if escaping then At(p, i + 1) else c;
      var next := if escaping && lit != '\0' then i + 2 else i + 1;
      if tc == '\0' then lit == '\0'
      else Same(f, SChar(lit), SChar(tc)) && Loop(p, next, t, j + 1, f)
  }

  /** The do-while of the '*' case: the rest of the pattern against each suffix in turn. */
  function Star(p: seq<char>, k: nat, t: seq<char>, j: nat, f: Flags): bool
    requires k <= |p| && j <= |t|
    decreases |p| - k, |t| - j, 2
  {
    Strcmp(p, k, t, j, f.(period := true)) || (At(t, j) != '\0' && Star(p, k, t, j + 1, f))
  }

  /** glob_strcmp(pattern, text, flags) == 0. */
  function GlobStrcmp(pattern: seq<char>, text: seq<char>, f: Flags): (r: bool)
    ensures r && At(text, 0) == '.' && !f.period ==> At(pattern, 0) == '.'
  {
    Strcmp(pattern, 0, text, 0, f)
  }

  /** A leading period must be matched explicitly unless GLOB_PERIOD is set. */
  lemma LeadingPeriod(pattern: seq<char>, text: seq<char>, f: Flags)
    requires |text| > 0 && text[0] == '.' && At(pattern, 0) != '.' && !f.period
    ensures !GlobStrcmp(pattern, text, f)
  {
  }

  /** '?' fails on an exhausted text and otherwise consumes exactly one character. */
  lemma QuestionMark(p: seq<char>, i: nat, t: seq<char>, j: nat, f: Flags)
    requires i < |p| && p[i] == '?' && j <= |t|
    ensures At(t, j) == '\0' ==> !Loop(p, i, t, j, f)
    ensures At(t, j) != '\0' ==> (Loop(p, i, t, j, f) <==> Loop(p, i + 1, t, j + 1, f))
  {
  }

  /** Consecutive '*' collapse into one. */
  lemma StarsCollapse(p: seq<char>, i: nat, t: seq<char>, j: nat, f: Flags)
    requires i + 1 < |p| && p[i] == '*' && p[i + 1] == '*' && j <= |t|
    ensures Loop(p, i, t, j, f) == Loop(p, i + 1, t, j, f)
  {
    assert SkipStars(p, i + 1) == SkipStars(p, i + 2);
  }

  /** A '*' that only '*' follow matches whatever text remains. */
  lemma TrailingStar(p: seq<char>, i: nat, t: seq<char>, j: nat, f: Flags)
    requires i < |p| && p[i] == '*' && j <= |t|
    requires forall k :: i < k < |p| ==> p[k] == '*'
    ensures Loop(p, i, t, j, f)
  {
  }

  /**
   * On a text without NUL, the '*' loop succeeds iff the rest of the
   * pattern, with GLOB_PERIOD set, matches some suffix of the text.
   */
  lemma {:induction false} StarScan(p: seq<char>, k: nat, t: seq<char>, j: nat, f: Flags)
    requires k <= |p| && j <= |t| && forall m :: 0 <= m < |t| ==> t[m] != '\0'
    ensures Star(p, k, t, j, f) <==> exists m | j <= m <= |t| :: Strcmp(p, k, t, m, f.(period := true))
    decreases |t| - j
  {
    var g := f.(period := true);
    if j < |t| {
      StarScan(p, k, t, j + 1, f);
      assert At(t, j) != '\0';
      assert Star(p, k, t, j, f) == (Strcmp(p, k, t, j, g) || Star(p, k, t, j + 1, f));
      if Strcmp(p, k, t, j, g) {
        assert j <= j <= |t| && Strcmp(p, k, t, j, g);
      } else if Star(p, k, t, j + 1, f) {
        var m :| j + 1 <= m <= |t| && Strcmp(p, k, t, m, g);
        assert j <= m <= |t| && Strcmp(p, k, t, m, g);
      }
      if exists m | j <= m <= |t| :: Strcmp(p, k, t, m, g) {
        var m :| j <= m <= |t| && Strcmp(p, k, t, m, g);
        if m > j {
          assert j + 1 <= m <= |t| && Strcmp(p, k, t, m, g);
        }
      }
    } else {
      assert Star(p, k, t, j, f) == Strcmp(p, k, t, j, g);
      if Strcmp(p, k, t, j, g) {
        assert j <= j <= |t| && Strcmp(p, k, t, j, g);
      }
      if exists m | j <= m <= |t| :: Strcmp(p, k, t, m, g) {
        var m :| j <= m <= |t| && Strcmp(p, k, t, m, g);
        assert m == j;
      }
    }
  }

  // ---------------------------------------------------------------- reference semantics

  /** Pattern characters covered by the reference semantics: no sets and no escapes. */
  predicate SimpleChar(c: char)
  {
    c != '\0' && c != '[' && c != ESC
  }

  /**
   * The meaning of a pattern of literals, '?' and '*' (in the style of
   * IEEE Std 1003.1, section 2.13): '?' is any one character, '*' any
   * string, a literal itself (ignoring case without GLOB_CASEMATCH).
   */
  predicate Ref(p: seq<char>, t: seq<char>, f: Flags)
    decreases |p|
  {
    if p == [] then t == []
    else if p[0] == '?' then t != [] && Ref(p[1..], t[1..], f)
    else if p[0] == '*' then exists m | 0 <= m <= |t| :: Ref(p[1..], t[m..], f)
    else t != [] && Same(f, SChar(p[0]), SChar(t[0])) && Ref(p[1..], t[1..], f)
  }

  /** Under the reference semantics a run of '*' means what one '*' means. */
  lemma {:induction false} RefStars(p: seq<char>, i: nat, k: nat, u: seq<char>, f: Flags)
    requires i < k <= |p| && forall m :: i <= m < k ==> p[m] == '*'
    ensures Ref(p[i..], u, f) <==> exists m | 0 <= m <= |u| :: Ref(p[k..], u[m..], f)
    decreases k - i
  {
    assert p[i..][1..] == p[i + 1..];
    if i + 1 < k {
      if Ref(p[i..], u, f) {
        var m :| 0 <= m <= |u| && Ref(p[i + 1..], u[m..], f);
        RefStars(p, i + 1, k, u[m..], f);
        var m2 :| 0 <= m2 <= |u[m..]| && Ref(p[k..], u[m..][m2..], f);
        assert u[m..][m2..] == u[m + m2..];
      }
      if exists m | 0 <= m <= |u| :: Ref(p[k..], u[m..], f) {
        var m :| 0 <= m <= |u| && Ref(p[k..], u[m..], f);
        RefStars(p, i + 1, k, u, f);
        assert Ref(p[i + 1..], u, f);
        assert u[0..] == u;
      }
    }
  }

  /** On simple patterns and NUL-free texts the loop of glob_strcmp is the reference semantics. */
  lemma {:induction false} LoopIsRef(p: seq<char>, i: nat, t: seq<char>, j: nat, f: Flags)
    requires i <= |p| && j <= |t|
    requires forall m :: 0 <= m < |p| ==> SimpleChar(p[m])
    requires forall m :: 0 <= m < |t| ==> t[m] != '\0'
    ensures Loop(p, i, t, j, f) == Ref(p[i..], t[j..], f)
    decreases |p| - i, |t| - j, 2
  {
    if i < |p| {
      if p[i] == '*' {
        StarCaseIsRef(p, i, t, j, f);
      } else {
        assert p[i..][1..] == p[i + 1..];
        if j < |t| {
          assert t[j..][1..] == t[j + 1..];
          LoopIsRef(p, i + 1, t, j + 1, f);
        }
      }
    }
  }

  /** The '*' case of LoopIsRef. */
  lemma StarCaseIsRef(p: seq<char>, i: nat, t: seq<char>, j: nat, f: Flags)
    requires i < |p| && j <= |t| && p[i] == '*'
    requires forall m :: 0 <= m < |p| ==> SimpleChar(p[m])
    requires forall m :: 0 <= m < |t| ==> t[m] != '\0'
    ensures Loop(p, i, t, j, f) == Ref(p[i..], t[j..], f)
    decreases |p| - i, |t| - j, 1
  {
    var k := SkipStars(p, i + 1);
    var u := t[j..];
    RefStars(p, i, k, u, f);
    if k == |p| {
      assert Ref(p[k..], u[|u|..], f);
    } else {
      StarIsRef(p, k, t, j, f);
      StarScan(p, k, t, j, f);
      if Loop(p, i, t, j, f) {
        var m :| j <= m <= |t| && Strcmp(p, k, t, m, f.(period := true));
        assert u[m - j..] == t[m..];
      }
      if Ref(p[i..], u, f) {
        var m :| 0 <= m <= |u| && Ref(p[k..], u[m..], f);
        assert u[m..] == t[j + m..];
        assert Strcmp(p, k, t, j + m, f.(period := true));
        assert exists m' | j <= m' <= |t| :: Strcmp(p, k, t, m', f.(period := true));
        assert Star(p, k, t, j, f);
      }
    }
  }

  /** Each attempt of the '*' loop is the reference semantics of the rest of the pattern. */
  lemma StarIsRef(p: seq<char>, k: nat, t: seq<char>, j: nat, f: Flags)
    requires k < |p| && j <= |t| && p[k] != '*'
    requires forall m :: 0 <= m < |p| ==> SimpleChar(p[m])
    requires forall m :: 0 <= m < |t| ==> t[m] != '\0'
    ensures forall m | j <= m <= |t| :: Strcmp(p, k, t, m, f.(period := true)) == Ref(p[k..], t[m..], f)
    decreases |p| - k, |t| - j, 3
  {
    forall m | j <= m <= |t|
      ensures Strcmp(p, k, t, m, f.(period := true)) == Ref(p[k..], t[m..], f)
    {
      LoopIsRef(p, k, t, m, f.(period := true));
      RefIgnoresPeriod(p[k..], t[m..], f);
    }
  }

  /** The reference semantics does not look at GLOB_PERIOD. */
  lemma {:induction false} RefIgnoresPeriod(p: seq<char>, t: seq<char>, f: Flags)
    ensures Ref(p, t, f.(period := true)) == Ref(p, t, f)
    decreases |p|
  {
    if p != [] {
      forall u: seq<char> ensures Ref(p[1..], u, f.(period := true)) == Ref(p[1..], u, f) {
        RefIgnoresPeriod(p[1..], u, f);
      }
    }
  }

  /**
   * glob_strcmp on a simple pattern and a NUL-free name: the leading
   * period rule, then the reference semantics.
   */
  lemma GlobStrcmpIsRef(pattern: seq<char>, text: seq<char>, f: Flags)
    requires forall m :: 0 <= m < |pattern| ==> SimpleChar(pattern[m])
    requires forall m :: 0 <= m < |text| ==> text[m] != '\0'
    ensures GlobStrcmp(pattern, text, f)
      == (!(|text| > 0 && text[0] == '.' && At(pattern, 0) != '.' && !f.period) && Ref(pattern, text, f))
  {
    LoopIsRef(pattern, 0, text, 0, f);
    assert pattern[0..] == pattern && text[0..] == text;
  }

  // ---------------------------------------------------------------- the excluded set

  /**
   * glob.c:439-456 as written: "[!x]" against "xx]" goes on matching
   * "x]" against "x]" after the excluded 'x', and so matches; with the
   * excluded set rejecting 'x', the pattern does not match.
   */
  lemma ExcludedSetAsWritten(f: Flags)
    requires f.casematch
    ensures AsWrittenSetNext("[!x]", 1, 'x', f) == Some(2)
    ensures Loop("[!x]", 2, "xx]", 1, f)
    ensures SetNext("[!x]", 1, 'x', f) == None
    ensures !GlobStrcmp("[!x]", "xx]", f)
  {
    var p := "[!x]";
    assert At(p, 2) == 'x' && At(p, 3) == ']';
    assert InSet(p, 2, SChar('x'), f) == Some(4);
  }

  /**
   * An excluded set rejects every character the plain set lists; the
   * converse, that it accepts every other character, is ExcludedSetAccepts.
   */
  lemma ExcludedSetComplements(p: seq<char>, q: nat, tc: char, f: Flags)
    requires q < |p| && p[q] == '!'
    ensures SetNext(p, q, tc, f).Some? ==> InSet(p, q + 1, SChar(tc), f).None?
    ensures InSet(p, q + 1, SChar(tc), f).Some? ==> SetNext(p, q, tc, f).None?
  {
  }

  /**
   * The set adjustment walks a body of plain characters (no NUL, no ']'
   * and, unless GLOB_NOESCAPE, no escape) to just past its closing ']'.
   */
  lemma {:induction false} SetAdjustedReaches(p: seq<char>, i: nat, e: nat, f: Flags)
    requires i <= e < |p| && p[e] == ']'
    requires forall k | i <= k < e :: p[k] != ']' && p[k] != '\0' && (p[k] == ESC ==> f.noescape)
    ensures SetAdjusted(p, i, f) == Some(e + 1)
    decreases e - i
  {
    if i < e {
      SetAdjustedReaches(p, i + 1, e, f);
    }
  }

  /**
   * In an excluded set closed by the ']' at e, over a body of plain
   * characters (a ']' listed first stands for itself), a character is
   * accepted, and matching resumes just past e, exactly when it is no
   * separator and the plain set does not list it.
   */
  lemma ExcludedSetAccepts(p: seq<char>, q: nat, e: nat, tc: char, f: Flags)
    requires q + 1 < e < |p| && p[q] == '!' && p[e] == ']'
    requires p[q + 1] != '\0' && (p[q + 1] == ESC ==> f.noescape)
    requires forall k | q + 2 <= k < e :: p[k] != ']' && p[k] != '\0' && (p[k] == ESC ==> f.noescape)
    ensures SetNext(p, q, tc, f) == Some(e + 1) <==> InSet(p, q + 1, SChar(tc), f).None? && !IsDirsep(tc)
  {
    SetAdjustedReaches(p, if p[q + 1] == ']' then q + 2 else q + 1, e, f);
  }
}
