/**
 * GLOB_BRACE expansion in the MinGW glob(): the look-ahead that decides
 * whether an opening brace starts an expandable group (its closing brace is
 * present and it has a comma at its own nesting level), the scan for the
 * first such brace, and glob_brace_expand, which builds the pattern for one
 * alternative of the group: the common prefix, the alternative, and what
 * follows the closing brace.  Nested groups are passed through and expanded
 * when the resulting pattern is globbed in its turn.
 *
 * Positions index a C string: At reads NUL past the end.
 */
module GlobBrace {
  import opened CInt
  import opened Glob

  /** The end of a run of escape pairs starting at s (a trailing escape stands alone). */
  function EscRun(p: seq<char>, s: nat): (e: nat)
    requires s <= |p|
    ensures s <= e <= |p| && At(p, e) != ESC
    decreases |p| - s
  {
    if At(p, s) != ESC then s
    else if At(p, s + 1) == '\0' then s + 1
    else EscRun(p, s + 2)
  }

  // ---------------------------------------------------------------- look-ahead

  /**
   * The look-ahead in glob_match from position i at nesting depth level:
   * whether the group closes and has a comma at depth one.
   */
  function Look(p: seq<char>, i: nat, level: nat, comma: bool): bool
    requires i < |p| && level > 0
    decreases |p| - i
  {
    var j := i + 1;
    var c := At(p, j);
    if c == '{' then Look(p, j, level + 1, comma)
    else if c == '}' then (if level == 1 then comma else Look(p, j, level - 1, comma))
    else if c == ',' then Look(p, j, level, comma || level == 1)
    else if c == '\0' then false
    else if c == ESC && At(p, j + 1) != '\0' then Look(p, j + 1, level, comma)
    else Look(p, j, level, comma)
  }

  /** The brace at b opens an expandable group. */
  predicate Expandable(p: seq<char>, b: nat)
    requires b < |p|
  {
    Look(p, b, 1, false)
  }

  /**
   * The scan for the common prefix in glob_match: the position of the first
   * unescaped brace that opens an expandable group.
   */
  function BraceAt(p: seq<char>, s: nat): (r: Option<nat>)
    requires s <= |p|
    ensures r.Some? ==> s <= r.value < |p| && p[r.value] == '{' && Expandable(p, r.value)
    decreases |p| - s
  {
    var e := EscRun(p, s);
    var c := At(p, e);
    if c == '{' && Expandable(p, e) then Some(e)
    else if c == '\0' then None
    else BraceAt(p, e + 1)
  }

  // ---------------------------------------------------------------- glob_brace_expand

  /**
   * The copy of one alternative: the position after position i where the
   * alternative stops (a comma at depth one or the closing brace), with the
   * depth left open (0 on success; positive when the string ran out).  An
   * escape pair is copied as it stands and never ends the alternative.
   */
  function AltEnd(p: seq<char>, i: nat, level: nat): (r: (nat, nat))
    requires i < |p| && level > 0
    ensures i < r.0 <= |p|
    ensures r.1 == 0 ==> At(p, r.0) == '}' || At(p, r.0) == ','
    ensures r.1 > 0 ==> At(p, r.0) == '\0'
    decreases |p| - i
  {
    var j := i + 1;
    var c := At(p, j);
    if c == ESC then
      if At(p, j + 1) == '\0' then (j + 1, level) else AltEnd(p, j + 1, level)
    else if c == '}' || (c == ',' && level == 1) then
      if level == 1 then (j, 0) else AltEnd(p, j, level - 1)
    else if c == '{' then AltEnd(p, j, level + 1)
    else if c == '\0' then (j, level)
    else AltEnd(p, j, level)
  }

  /**
   * The copy of one alternative as glob_brace_expand writes it: after an
   * escape pair the next character is taken as it stands, even when it is
   * itself an escape, so the character after that is not protected.
   */
  function AsWrittenAltEnd(p: seq<char>, i: nat, level: nat): (r: (nat, nat))
    requires i < |p| && level > 0
    ensures i < r.0 <= |p|
    ensures r.1 == 0 ==> At(p, r.0) == '}' || At(p, r.0) == ','
    ensures r.1 > 0 ==> At(p, r.0) == '\0'
    decreases |p| - i
  {
    var j := i + 1;
    var k := if At(p, j) == ESC then (if At(p, j + 1) == '\0' then j + 1 else j + 2) else j;
    var c := At(p, k);
    var lv := if c == '}' || (c == ',' && level == 1) then level - 1
              else if c == '{' then level + 1 else level;
    if lv > 0 && c != '\0' then AsWrittenAltEnd(p, k, lv) else (k, lv)
  }

  /** The skip over the remaining alternatives to the closing brace of the group. */
  function SkipAlts(p: seq<char>, i: nat, level: nat): (r: (nat, nat))
    requires i < |p| && level > 0
    ensures i < r.0 <= |p|
    ensures r.1 == 0 ==> At(p, r.0) == '}'
    ensures r.1 > 0 ==> At(p, r.0) == '\0'
    decreases |p| - i
  {
    var j := EscRun(p, i + 1);
    var c := At(p, j);
    var lv := if c == '{' then level + 1 else if c == '}' then level - 1 else level;
    if c != '\0' && lv > 0 then SkipAlts(p, j, lv) else (j, lv)
  }

  /** The C string starting at position i. */
  function Tail(p: seq<char>, i: nat): (t: seq<char>)
    requires i <= |p|
    ensures |t| <= |p| - i && t == p[i..i + |t|]
    ensures forall k | 0 <= k < |t| :: t[k] != '\0'
  {
    p[i..][..StrLen(p[i..])]
  }

  /** One expansion: the pattern text written after the prefix, the resume position and the open depth. */
  datatype Expansion = Expansion(text: seq<char>, resume: nat, level: nat)

  /**
   * The rest of glob_brace_expand once the alternative ending at stop is
   * copied: on success the text is the alternative followed by everything
   * after the group's closing brace.
   */
  function Finish(p: seq<char>, src: nat, stop: nat, lv: nat): (e: Expansion)
    requires src < stop <= |p|
    requires lv > 0 ==> At(p, stop) == '\0'
    requires lv == 0 ==> At(p, stop) == '}' || At(p, stop) == ','
    ensures e.resume == stop
    ensures e.level == 0 ==> |e.text| + 2 <= |p| - src
    ensures forall c | c in e.text :: c in p
  {
    var alt := p[src + 1..stop];
    assert forall c | c in alt :: c in p;
    if lv > 0 then Expansion(alt, stop, lv)
    else if At(p, stop) == ',' then
      var (close, level) := SkipAlts(p, stop, 1);
      if level == 0 then
        var t := Tail(p, close + 1);
        assert forall c | c in t :: c in p;
        Expansion(alt + t, stop, 0)
      else Expansion(alt, stop, level)
    else
      var t := Tail(p, stop + 1);
      assert forall c | c in t :: c in p;
      Expansion(alt + t, stop, 0)
  }

  /**
   * glob_brace_expand from src (the opening brace, or the comma before the
   * alternative), with escape pairs kept whole.
   */
  function BraceExpand(p: seq<char>, src: nat): (e: Expansion)
    requires src < |p|
    ensures e.resume > src
    ensures e.level == 0 ==> |e.text| + 2 <= |p| - src
    ensures e.level == 0 ==> At(p, e.resume) == '}' || At(p, e.resume) == ','
    ensures forall c | c in e.text :: c in p
  {
    var (stop, lv) := AltEnd(p, src, 1);
    Finish(p, src, stop, lv)
  }

  /** glob_brace_expand as written, with the unprotected character after an escape pair. */
  function AsWrittenBraceExpand(p: seq<char>, src: nat): (e: Expansion)
    requires src < |p|
    ensures e.resume > src
  {
    var (stop, lv) := AsWrittenAltEnd(p, src, 1);
    Finish(p, src, stop, lv)
  }

  /**
   * The patterns the GLOB_BRACE loop of glob_match globs in turn, from the
   * group at src: after each alternative the next begins while the previous
   * one stopped at a comma; an unterminated group is None, which aborts.
   */
  function Series(p: seq<char>, src: nat, prefix: seq<char>): (r: seq<Option<seq<char>>>)
    requires src < |p|
    ensures |r| >= 1
    ensures forall k | 0 <= k < |r| - 1 :: r[k].Some?
    ensures forall k | 0 <= k < |r| && r[k].Some? :: |r[k].value| + 2 <= |prefix| + |p| - src
    decreases |p| - src
  {
    var e := BraceExpand(p, src);
    if e.level != 0 then [None]
    else
      var sub := prefix + e.text;
      if At(p, e.resume) == ',' then [Some(sub)] + Series(p, e.resume, prefix) else [Some(sub)]
  }

  /** Every pattern of the series is made of characters of the prefix and of p. */
  lemma {:induction false} SeriesChars(p: seq<char>, src: nat, prefix: seq<char>)
    requires src < |p|
    ensures forall k | 0 <= k < |Series(p, src, prefix)| && Series(p, src, prefix)[k].Some? ::
      forall c | c in Series(p, src, prefix)[k].value :: c in prefix || c in p
    decreases |p| - src
  {
    var e := BraceExpand(p, src);
    if e.level == 0 && At(p, e.resume) == ',' {
      SeriesChars(p, e.resume, prefix);
      var r := Series(p, src, prefix);
      assert r == [Some(prefix + e.text)] + Series(p, e.resume, prefix);
      forall k | 0 < k < |r| && r[k].Some?
        ensures forall c | c in r[k].value :: c in prefix || c in p
      {
        assert r[k] == Series(p, e.resume, prefix)[k - 1];
      }
    }
  }

  // ---------------------------------------------------------------- properties

  /** A character that is ordinary in every brace scan. */
  predicate Inert(c: char)
  {
    c != '{' && c != '}' && c != ',' && c != '\0' && c != ESC
  }

  /** An alternative with no braces, commas, escapes or NUL. */
  predicate Plain(w: seq<char>)
  {
    forall i | 0 <= i < |w| :: Inert(w[i])
  }

  /** The alternatives of a group, separated by commas. */
  function Join(alts: seq<seq<char>>): (j: seq<char>)
    requires |alts| >= 1
    ensures |alts| >= 2 ==> ',' in j
  {
    if |alts| == 1 then alts[0] else alts[0] + [','] + Join(alts[1..])
  }

  lemma {:induction false} JoinChars(alts: seq<seq<char>>)
    requires |alts| >= 1 && forall k | 0 <= k < |alts| :: Plain(alts[k])
    ensures forall i | 0 <= i < |Join(alts)| :: Inert(Join(alts)[i]) || Join(alts)[i] == ','
  {
    if |alts| > 1 {
      JoinChars(alts[1..]);
      var j := Join(alts);
      assert j == alts[0] + [','] + Join(alts[1..]);
      forall i | 0 <= i < |j|
        ensures Inert(j[i]) || j[i] == ','
      {
        if i < |alts[0]| {
          assert j[i] == alts[0][i];
        } else if i > |alts[0]| {
          assert j[i] == Join(alts[1..])[i - |alts[0]| - 1];
        }
      }
    }
  }

  /** The look-ahead over a group without nested braces finds its comma. */
  lemma {:induction false} LookFlat(p: seq<char>, i: nat, e: nat, comma: bool)
    requires i < e < |p| && p[e] == '}'
    requires forall k | i < k < e :: Inert(p[k]) || p[k] == ','
    ensures Look(p, i, 1, comma) == (comma || exists k | i < k < e :: p[k] == ',')
    decreases e - i
  {
    if i + 1 < e {
      LookFlat(p, i + 1, e, comma || p[i + 1] == ',');
      if p[i + 1] == ',' {
        assert i < i + 1 < e && p[i + 1] == ',';
      }
      if exists k | i + 1 < k < e :: p[k] == ',' {
        var k :| i + 1 < k < e && p[k] == ',';
        assert i < k < e;
      }
      if exists k | i < k < e :: p[k] == ',' {
        var k :| i < k < e && p[k] == ',';
        assert k == i + 1 || i + 1 < k < e;
      }
    }
  }

  /** The prefix scan passes over ordinary characters to the group at b. */
  lemma {:induction false} BraceAtFlat(p: seq<char>, s: nat, b: nat)
    requires s <= b < |p| && p[b] == '{' && Expandable(p, b)
    requires forall k | s <= k < b :: p[k] != ESC && p[k] != '{' && p[k] != '\0'
    ensures BraceAt(p, s) == Some(b)
    decreases b - s
  {
    if s < b {
      BraceAtFlat(p, s + 1, b);
    }
  }

  /** An alternative without braces, escapes or commas stops at the following separator. */
  lemma {:induction false} AltEndFlat(p: seq<char>, i: nat, e: nat)
    requires i < e < |p| && (p[e] == ',' || p[e] == '}')
    requires forall k | i < k < e :: Inert(p[k])
    ensures AltEnd(p, i, 1) == (e, 0)
    decreases e - i
  {
    if i + 1 < e {
      AltEndFlat(p, i + 1, e);
    }
  }

  /** The skip over alternatives without braces or escapes reaches the closing brace. */
  lemma {:induction false} SkipFlat(p: seq<char>, i: nat, e: nat)
    requires i < e < |p| && p[e] == '}'
    requires forall k | i < k < e :: Inert(p[k]) || p[k] == ','
    ensures SkipAlts(p, i, 1) == (e, 0)
    decreases e - i
  {
    if i + 1 < e {
      SkipFlat(p, i + 1, e);
    }
  }

  lemma TailWhole(p: seq<char>, i: nat)
    requires i <= |p| && forall k | i <= k < |p| :: p[k] != '\0'
    ensures Tail(p, i) == p[i..]
  {
    var q := p[i..];
    if StrLen(q) < |q| {
      assert q[StrLen(q)] == p[i + StrLen(q)];
    }
  }

  /** The text from the separator at q onwards is the rest of the group, the brace and the suffix. */
  ghost predicate GroupFrom(p: seq<char>, q: nat, alts: seq<seq<char>>, suf: seq<char>)
  {
    |alts| >= 1 && q < |p| && p[q + 1..] == Join(alts) + ['}'] + suf
  }

  /** The first alternative of a flat group ends at the next separator. */
  lemma FirstAltEnds(p: seq<char>, q: nat, alts: seq<seq<char>>, suf: seq<char>)
    requires GroupFrom(p, q, alts, suf) && Plain(alts[0])
    ensures var stop := q + 1 + |alts[0]|;
      stop < |p| && AltEnd(p, q, 1) == (stop, 0) && p[q + 1..stop] == alts[0]
      && p[stop] == (if |alts| == 1 then '}' else ',')
  {
    var a := alts[0];
    var stop := q + 1 + |a|;
    var tail := p[q + 1..];
    var after := if |alts| == 1 then ['}'] + suf else [','] + Join(alts[1..]) + ['}'] + suf;
    assert tail == a + after;
    assert p[stop] == tail[|a|] == after[0];
    forall k | q < k < stop
      ensures Inert(p[k])
    {
      assert p[k] == tail[k - q - 1] == a[k - q - 1];
    }
    AltEndFlat(p, q, stop);
  }

  /** The alternatives after the first of a flat group are skipped to the closing brace. */
  lemma RestSkipped(p: seq<char>, stop: nat, rest: seq<seq<char>>, suf: seq<char>)
    requires GroupFrom(p, stop, rest, suf) && forall k | 0 <= k < |rest| :: Plain(rest[k])
    requires forall k | 0 <= k < |suf| :: suf[k] != '\0'
    ensures var close := stop + 1 + |Join(rest)|;
      close < |p| && SkipAlts(p, stop, 1) == (close, 0) && Tail(p, close + 1) == suf
  {
    var jr := Join(rest);
    var tail := p[stop + 1..];
    var close := stop + 1 + |jr|;
    JoinChars(rest);
    forall k | stop < k < close
      ensures Inert(p[k]) || p[k] == ','
    {
      assert p[k] == tail[k - stop - 1] == jr[k - stop - 1];
    }
    assert p[close] == tail[close - stop - 1] == '}';
    SkipFlat(p, stop, close);
    TailWhole(p, close + 1);
    assert p[close + 1..] == suf;
  }

  /** glob_brace_expand when the alternative stops at a comma and the group closes at close. */
  lemma ExpandAtComma(p: seq<char>, q: nat, stop: nat, close: nat)
    requires q < |p| && AltEnd(p, q, 1) == (stop, 0) && At(p, stop) == ','
    requires SkipAlts(p, stop, 1) == (close, 0)
    ensures BraceExpand(p, q) == Expansion(p[q + 1..stop] + Tail(p, close + 1), stop, 0)
  {
  }

  /** glob_brace_expand when the alternative stops at the closing brace. */
  lemma ExpandAtBrace(p: seq<char>, q: nat, stop: nat)
    requires q < |p| && AltEnd(p, q, 1) == (stop, 0) && At(p, stop) == '}'
    ensures BraceExpand(p, q) == Expansion(p[q + 1..stop] + Tail(p, stop + 1), stop, 0)
  {
  }

  /** glob_brace_expand on a flat group yields its first alternative followed by the suffix. */
  lemma FirstExpansion(p: seq<char>, q: nat, alts: seq<seq<char>>, suf: seq<char>)
    requires GroupFrom(p, q, alts, suf)
    requires forall k | 0 <= k < |alts| :: Plain(alts[k])
    requires forall k | 0 <= k < |suf| :: suf[k] != '\0'
    ensures var stop := q + 1 + |alts[0]|;
      BraceExpand(p, q) == Expansion(alts[0] + suf, stop, 0)
      && (|alts| > 1 ==> At(p, stop) == ',' && GroupFrom(p, stop, alts[1..], suf))
      && (|alts| == 1 ==> At(p, stop) == '}')
  {
    if |alts| == 1 {
      LastExpansion(p, q, alts[0], suf);
    } else {
      MoreExpansion(p, q, alts, suf);
    }
  }

  lemma LastExpansion(p: seq<char>, q: nat, a: seq<char>, suf: seq<char>)
    requires GroupFrom(p, q, [a], suf) && Plain(a)
    requires forall k | 0 <= k < |suf| :: suf[k] != '\0'
    ensures var stop := q + 1 + |a|;
      BraceExpand(p, q) == Expansion(a + suf, stop, 0) && At(p, stop) == '}'
  {
    var stop := q + 1 + |a|;
    FirstAltEnds(p, q, [a], suf);
    assert p[q + 1..] == a + ['}'] + suf;
    TailWhole(p, stop + 1);
    assert p[stop + 1..] == suf;
    ExpandAtBrace(p, q, stop);
  }

  lemma MoreExpansion(p: seq<char>, q: nat, alts: seq<seq<char>>, suf: seq<char>)
    requires GroupFrom(p, q, alts, suf) && |alts| > 1
    requires forall k | 0 <= k < |alts| :: Plain(alts[k])
    requires forall k | 0 <= k < |suf| :: suf[k] != '\0'
    ensures var stop := q + 1 + |alts[0]|;
      BraceExpand(p, q) == Expansion(alts[0] + suf, stop, 0)
      && At(p, stop) == ',' && GroupFrom(p, stop, alts[1..], suf)
  {
    var a := alts[0];
    var stop := q + 1 + |a|;
    FirstAltEnds(p, q, alts, suf);
    var rest := alts[1..];
    assert p[q + 1..] == a + [','] + Join(rest) + ['}'] + suf;
    assert p[stop + 1..] == Join(rest) + ['}'] + suf;
    assert forall k | 0 <= k < |rest| :: rest[k] == alts[k + 1];
    RestSkipped(p, stop, rest, suf);
    ExpandAtComma(p, q, stop, stop + 1 + |Join(rest)|);
  }

  /** An alternative that stops at a comma is followed by the series from that comma. */
  lemma SeriesCons(p: seq<char>, q: nat, pre: seq<char>, text: seq<char>, stop: nat)
    requires q < |p| && BraceExpand(p, q) == Expansion(text, stop, 0) && At(p, stop) == ','
    ensures Series(p, q, pre) == [Some(pre + text)] + Series(p, stop, pre)
  {
  }

  /** An alternative that stops at the closing brace is the last of the series. */
  lemma SeriesLast(p: seq<char>, q: nat, pre: seq<char>, text: seq<char>, stop: nat)
    requires q < |p| && BraceExpand(p, q) == Expansion(text, stop, 0) && At(p, stop) != ','
    ensures Series(p, q, pre) == [Some(pre + text)]
  {
  }


  /** prefix + alternative + suffix for each alternative, in order. */
  function Substituted(pre: seq<char>, alts: seq<seq<char>>, suf: seq<char>): (r: seq<Option<seq<char>>>)
    ensures |r| == |alts|
    ensures forall k | 0 <= k < |alts| :: r[k] == Some(pre + alts[k] + suf)
  {
    if alts == [] then [] else [Some(pre + alts[0] + suf)] + Substituted(pre, alts[1..], suf)
  }

  /** The expansion loop over a flat group globs prefix + alternative + suffix for each alternative. */
  lemma {:induction false} SeriesFlat(p: seq<char>, q: nat, alts: seq<seq<char>>, pre: seq<char>,
                                      suf: seq<char>)
    requires GroupFrom(p, q, alts, suf)
    requires forall k | 0 <= k < |alts| :: Plain(alts[k])
    requires forall k | 0 <= k < |suf| :: suf[k] != '\0'
    ensures Series(p, q, pre) == Substituted(pre, alts, suf)
    decreases |alts|
  {
    var a := alts[0];
    var stop := q + 1 + |a|;
    FirstExpansion(p, q, alts, suf);
    if |alts| > 1 {
      var rest := alts[1..];
      assert forall k | 0 <= k < |rest| :: rest[k] == alts[k + 1];
      SeriesFlat(p, stop, rest, pre, suf);
      SeriesCons(p, q, pre, a + suf, stop);
      Associative(pre, a, suf);
      assert Substituted(pre, alts, suf) == [Some(pre + a + suf)] + Substituted(pre, rest, suf);
    } else {
      SeriesLast(p, q, pre, a + suf, stop);
      Associative(pre, a, suf);
      assert alts[1..] == [];
      assert Substituted(pre, alts, suf) == [Some(pre + a + suf)] + Substituted(pre, [], suf);
    }
  }

  /**
   * A pattern with one group of two or more plain alternatives expands into
   * prefix + alternative + suffix for each alternative, in order.
   */
  lemma FlatGroupExpands(pre: seq<char>, alts: seq<seq<char>>, suf: seq<char>)
    requires |alts| >= 2 && forall k | 0 <= k < |alts| :: Plain(alts[k])
    requires forall k | 0 <= k < |pre| :: pre[k] != ESC && pre[k] != '{' && pre[k] != '\0'
    requires forall k | 0 <= k < |suf| :: suf[k] != '\0'
    ensures var p := pre + ['{'] + Join(alts) + ['}'] + suf;
      BraceAt(p, 0) == Some(|pre|) && p[..|pre|] == pre && Series(p, |pre|, pre) == Substituted(pre, alts, suf)
  {
    var p := pre + ['{'] + Join(alts) + ['}'] + suf;
    var b := |pre|;
    assert p[b + 1..] == Join(alts) + ['}'] + suf;
    assert p[b] == '{';
    FlatGroupFound(p, b, alts, suf);
    forall k | 0 <= k < b
      ensures p[k] != ESC && p[k] != '{' && p[k] != '\0'
    {
      assert p[k] == pre[k];
    }
    BraceAtFlat(p, 0, b);
    assert p[..b] == pre;
    SeriesFlat(p, b, alts, pre, suf);
  }

  /** A brace followed by two or more plain alternatives and a closing brace opens an expandable group. */
  lemma FlatGroupFound(p: seq<char>, b: nat, alts: seq<seq<char>>, suf: seq<char>)
    requires GroupFrom(p, b, alts, suf) && p[b] == '{'
    requires |alts| >= 2 && forall k | 0 <= k < |alts| :: Plain(alts[k])
    ensures Expandable(p, b)
  {
    var j := Join(alts);
    var e := b + 1 + |j|;
    var tail := p[b + 1..];
    JoinChars(alts);
    forall k | b < k < e
      ensures Inert(p[k]) || p[k] == ','
    {
      assert p[k] == tail[k - b - 1] == j[k - b - 1];
    }
    assert p[e] == tail[|j|] == '}';
    LookFlat(p, b, e, false);
    var i :| 0 <= i < |j| && j[i] == ',';
    assert p[b + 1 + i] == tail[i] == ',';
  }

  /** A group with a single alternative is not expandable: its braces stay literal. */
  lemma SingleAlternativeIsLiteral(pre: seq<char>, a: seq<char>, suf: seq<char>)
    requires Plain(a)
    ensures !Expandable(pre + ['{'] + a + ['}'] + suf, |pre|)
  {
    var p := pre + ['{'] + a + ['}'] + suf;
    var b := |pre|;
    var e := b + 1 + |a|;
    forall k | b < k < e
      ensures Inert(p[k])
    {
      assert p[k] == a[k - b - 1];
    }
    LookFlat(p, b, e, false);
  }

  /** The escape pair after another escape pair, with the group {<esc>x<esc>,y,z}. */
  function EscapedCommaGroup(): seq<char>
  {
    ['{', ESC, 'x', ESC, ',', 'y', ',', 'z', '}']
  }

  /**
   * As written, the comma after the second escape ends the first
   * alternative: {<esc>x<esc>,y,z} yields <esc>x<esc>, then y, then z.
   */
  lemma AsWrittenSplitsEscapedComma()
    ensures AsWrittenBraceExpand(EscapedCommaGroup(), 0) == Expansion([ESC, 'x', ESC], 4, 0)
  {
    var p := EscapedCommaGroup();
    assert AsWrittenAltEnd(p, 0, 1) == AsWrittenAltEnd(p, 3, 1) == (4, 0);
    assert SkipAlts(p, 4, 1) == SkipAlts(p, 5, 1) == (8, 0);
    assert Tail(p, 9) == [];
  }

  /** With escape pairs kept whole the group has two alternatives, <esc>x<esc>,y and z. */
  lemma EscapedCommaKept()
    ensures BraceExpand(EscapedCommaGroup(), 0) == Expansion([ESC, 'x', ESC, ',', 'y'], 6, 0)
    ensures BraceExpand(EscapedCommaGroup(), 6) == Expansion(['z'], 8, 0)
  {
    var p := EscapedCommaGroup();
    assert AltEnd(p, 0, 1) == AltEnd(p, 2, 1) == AltEnd(p, 4, 1) == (6, 0);
    assert SkipAlts(p, 6, 1) == SkipAlts(p, 7, 1) == (8, 0);
    assert Tail(p, 9) == [];
    assert AltEnd(p, 6, 1) == (8, 0);
  }
}
