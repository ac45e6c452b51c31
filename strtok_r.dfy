/**
 * strtok_r(): re-entrant string tokenizer. The string lives in a char
 * array that the call writes NUL into; `*state` is an index into it.
 * Reading past the array is read as the terminating NUL.
 */
module StrtokR {
  import opened CInt

  /** strspn/strcspn test a char against the separator string; NUL never matches. */
  predicate IsSep(c: char, sep: seq<char>) { c != '\0' && c in sep }

  /** strspn(s + i, sep). */
  function Span(s: seq<char>, i: nat, sep: seq<char>): (n: nat)
    decreases |s| - i
    ensures !IsSep(At(s, i + n), sep)
  {
    if i < |s| && IsSep(s[i], sep) then 1 + Span(s, i + 1, sep) else 0
  }

  /** strcspn(s + i, sep). */
  function CSpan(s: seq<char>, i: nat, sep: seq<char>): (n: nat)
    decreases |s| - i
    ensures i + n <= |s| || n == 0
    ensures At(s, i + n) == '\0' || IsSep(At(s, i + n), sep)
  {
    if i < |s| && s[i] != '\0' && !IsSep(s[i], sep) then 1 + CSpan(s, i + 1, sep) else 0
  }

  method Strtok(buf: array<char>, s: Option<nat>, sep: seq<char>, state: nat)
    returns (tok: Option<nat>, next: nat)
    modifies buf
    ensures StrtokOutcome(old(buf[..]), buf[..], if s.Some? then s.value else state, sep, tok, next)
  {
    var p := if s.Some? then s.value else state;
    p := p + Span(buf[..], p, sep);
    if At(buf[..], p) == '\0' {
      return None, p;
    }
    next := p + CSpan(buf[..], p, sep);
    if At(buf[..], next) != '\0' {
      buf[next] := '\0';
      next := next + 1;
    }
    tok := Some(p);
  }

  datatype Option<T> = None | Some(value: T)

  /** Everything strspn stepped over is a separator. */
  lemma {:induction false} SpanSeps(s: seq<char>, i: nat, sep: seq<char>)
    ensures forall k :: i <= k < i + Span(s, i, sep) ==> IsSep(At(s, k), sep)
    decreases |s| - i
  {
    if i < |s| && IsSep(s[i], sep) { SpanSeps(s, i + 1, sep); }
  }

  /** Everything strcspn stepped over is a non-separator, non-NUL char. */
  lemma {:induction false} CSpanWord(s: seq<char>, i: nat, sep: seq<char>)
    ensures forall k :: i <= k < i + CSpan(s, i, sep) ==> At(s, k) != '\0' && !IsSep(At(s, k), sep)
    decreases |s| - i
  {
    if i < |s| && s[i] != '\0' && !IsSep(s[i], sep) { CSpanWord(s, i + 1, sep); }
  }

  /**
   * Reference tokenization of a NUL-free text: maximal runs of
   * non-separator characters, in order; `cur` is the run being built.
   */
  function Tok(t: seq<char>, sep: seq<char>, cur: seq<char>): seq<seq<char>>
    decreases |t|
  {
    if t == [] then (if cur == [] then [] else [cur])
    else if IsSep(t[0], sep) then (if cur == [] then Tok(t[1..], sep, []) else [cur] + Tok(t[1..], sep, []))
    else Tok(t[1..], sep, cur + [t[0]])
  }

  function Tokens(t: seq<char>, sep: seq<char>): seq<seq<char>> { Tok(t, sep, []) }

  function Concat(ss: seq<seq<char>>): seq<char>
  {
    if ss == [] then [] else ss[0] + Concat(ss[1..])
  }

  function NonSep(t: seq<char>, sep: seq<char>): seq<char>
  {
    if t == [] then [] else (if IsSep(t[0], sep) then [] else [t[0]]) + NonSep(t[1..], sep)
  }

  lemma ConcatAppend(a: seq<seq<char>>, b: seq<seq<char>>)
    ensures Concat(a + b) == Concat(a) + Concat(b)
  {
    if a != [] {
      calc {
        Concat(a + b);
        (a + b)[0] + Concat((a + b)[1..]);
        { assert (a + b)[1..] == a[1..] + b && (a + b)[0] == a[0]; }
        a[0] + Concat(a[1..] + b);
        { ConcatAppend(a[1..], b); }
        a[0] + (Concat(a[1..]) + Concat(b));
      }
    } else {
      assert a + b == b;
    }
  }

  /** The tokens, concatenated, are the non-separator characters in order. */
  lemma {:induction false} TokConcat(t: seq<char>, sep: seq<char>, cur: seq<char>)
    ensures Concat(Tok(t, sep, cur)) == cur + NonSep(t, sep)
  {
    if t == [] {
    } else if IsSep(t[0], sep) {
      TokConcat(t[1..], sep, []);
      if cur != [] { ConcatAppend([cur], Tok(t[1..], sep, [])); }
    } else {
      TokConcat(t[1..], sep, cur + [t[0]]);
    }
  }

  lemma TokensConcat(t: seq<char>, sep: seq<char>)
    ensures Concat(Tokens(t, sep)) == NonSep(t, sep)
  {
    TokConcat(t, sep, []);
  }

  /** Every token is non-empty and holds no separator. */
  lemma {:induction false} TokWords(t: seq<char>, sep: seq<char>, cur: seq<char>)
    requires forall k :: 0 <= k < |cur| ==> !IsSep(cur[k], sep)
    ensures forall w :: w in Tok(t, sep, cur) ==> w != [] && forall k :: 0 <= k < |w| ==> !IsSep(w[k], sep)
  {
    if t == [] {
    } else if IsSep(t[0], sep) {
      TokWords(t[1..], sep, []);
    } else {
      TokWords(t[1..], sep, cur + [t[0]]);
    }
  }

  /** The C string held by a buffer: the characters before its first NUL. */
  function Text(s: seq<char>): (t: seq<char>)
    ensures |t| <= |s| && At(s, |t|) == '\0'
    ensures forall k :: 0 <= k < |t| ==> t[k] == s[k] && t[k] != '\0'
  {
    s[..StrLen(s)]
  }

  /** The C string starting at index i of a buffer. */
  function CStr(s: seq<char>, i: nat): seq<char>
    requires i <= |s|
  {
    Text(s[i..])
  }

  lemma {:induction false} CStrUpTo(s: seq<char>, i: nat, e: nat)
    requires i <= e <= |s|
    requires forall k :: i <= k < e ==> s[k] != '\0'
    requires At(s, e) == '\0'
    ensures CStr(s, i) == s[i..e]
    decreases e - i
  {
    if i < e {
      CStrUpTo(s, i + 1, e);
      assert s[i..][1..] == s[i + 1..];
    }
  }

  /** Span and CSpan only look at the string up to its NUL at n. */
  lemma {:induction false} SpansAgree(a: seq<char>, b: seq<char>, i: nat, n: nat, sep: seq<char>)
    requires i <= n && At(b, n) == '\0'
    requires forall k :: i <= k <= n ==> At(a, k) == At(b, k)
    ensures Span(a, i, sep) == Span(b, i, sep) && i + Span(b, i, sep) <= n
    ensures CSpan(a, i, sep) == CSpan(b, i, sep) && i + CSpan(b, i, sep) <= n
    decreases n - i
  {
    if i < n {
      SpansAgree(a, b, i + 1, n, sep);
    }
  }

  lemma {:induction false} TokSkip(t: seq<char>, i: nat, p: nat, sep: seq<char>)
    requires i <= p <= |t|
    requires forall k :: i <= k < p ==> IsSep(t[k], sep)
    ensures Tok(t[i..], sep, []) == Tok(t[p..], sep, [])
    decreases p - i
  {
    if i < p {
      assert t[i..][1..] == t[i + 1..];
      TokSkip(t, i + 1, p, sep);
    }
  }

  lemma {:induction false} TokWord(t: seq<char>, p: nat, e: nat, sep: seq<char>, cur: seq<char>)
    requires p <= e <= |t|
    requires forall k :: p <= k < e ==> !IsSep(t[k], sep)
    ensures Tok(t[p..], sep, cur) == Tok(t[e..], sep, cur + t[p..e])
    decreases e - p
  {
    if p < e {
      assert t[p..][1..] == t[p + 1..];
      TokWord(t, p + 1, e, sep, cur + [t[p]]);
      assert cur + [t[p]] + t[p + 1..e] == cur + t[p..e];
    } else {
      assert cur + t[p..e] == cur;
    }
  }

  /** With only separators left, no token remains. */
  lemma TokStepEnd(t: seq<char>, i: nat, sep: seq<char>)
    requires i <= |t|
    requires i + Span(t, i, sep) >= |t|
    ensures Tok(t[i..], sep, []) == []
  {
    SpansAgree(t, t, i, |t|, sep);
    var p := i + Span(t, i, sep);
    SpanSeps(t, i, sep);
    forall k | i <= k < p ensures IsSep(t[k], sep) { assert At(t, k) == t[k]; }
    TokSkip(t, i, p, sep);
    assert t[p..] == [];
  }

  /** One strtok_r step peels exactly the next reference token. */
  lemma TokStep(t: seq<char>, i: nat, sep: seq<char>, p: nat, e: nat, next: nat)
    requires i <= |t|
    requires forall k :: 0 <= k < |t| ==> t[k] != '\0'
    requires p == i + Span(t, i, sep) && p < |t|
    requires e == p + CSpan(t, p, sep)
    requires next == if e == |t| then e else e + 1
    ensures p < e <= |t| && next <= |t|
    ensures Tok(t[i..], sep, []) == [t[p..e]] + Tok(t[next..], sep, [])
  {
    SpansAgree(t, t, i, |t|, sep);
    SpanSeps(t, i, sep);
    forall k | i <= k < p ensures IsSep(t[k], sep) { assert At(t, k) == t[k]; }
    TokSkip(t, i, p, sep);
    SpansAgree(t, t, p, |t|, sep);
    assert At(t, p) == t[p];
    CSpanWord(t, p, sep);
    forall k | p <= k < e ensures !IsSep(t[k], sep) { assert At(t, k) == t[k]; }
    TokWord(t, p, e, sep, []);
    assert [] + t[p..e] == t[p..e];
    if e < |t| {
      assert At(t, e) == t[e];
      assert t[e..][1..] == t[e + 1..];
    } else {
      assert t[e..] == [];
    }
  }

  /** What one Strtok call does to a buffer, as a relation on its contents. */
  predicate StrtokOutcome(before: seq<char>, after: seq<char>, start: nat, sep: seq<char>, tok: Option<nat>, next: nat)
  {
    var p := start + Span(before, start, sep);
    if At(before, p) == '\0' then
      tok == None && next == p && after == before
    else
      var e := p + CSpan(before, p, sep);
      && tok == Some(p)
      && (At(before, e) == '\0' ==> next == e && after == before)
      && (At(before, e) != '\0' ==> next == e + 1 && e < |before| && after == before[e := '\0'])
  }

  lemma AfterCall(before: seq<char>, after: seq<char>, t: seq<char>, state: nat, sep: seq<char>,
                  tok: Option<nat>, next: nat)
    requires forall k :: 0 <= k < |t| ==> t[k] != '\0'
    requires state <= |t| <= |before|
    requires forall k :: state <= k <= |t| ==> At(before, k) == At(t, k)
    requires StrtokOutcome(before, after, state, sep, tok, next)
    ensures |after| == |before|
    ensures tok.None? ==> Tok(t[state..], sep, []) == []
    ensures tok.Some? ==>
      && state < next <= |t|
      && tok.value <= |after|
      && (forall k :: next <= k <= |t| ==> At(after, k) == At(t, k))
      && Tok(t[state..], sep, []) == [CStr(after, tok.value)] + Tok(t[next..], sep, [])
  {
    var n := |t|;
    SpansAgree(before, t, state, n, sep);
    var p := state + Span(t, state, sep);
    if p >= n {
      TokStepEnd(t, state, sep);
    } else {
      assert At(t, p) == t[p];
      SpansAgree(before, t, p, n, sep);
      var e := p + CSpan(t, p, sep);
      OutcomeToken(before, after, state, sep, tok, next, p, e);
      assert At(before, e) == At(t, e);
      if e < n {
        assert At(t, e) == t[e];
        assert next == e + 1 && after == before[e := '\0'];
      } else {
        assert next == e && after == before;
      }
      TokStep(t, state, sep, p, e, next);
      forall k | p <= k <= n
        ensures At(before, k) == At(t, k)
      {
      }
      TokenInBuffer(before, after, t, sep, p, e, next);
    }
  }

  /** A call that finds a token start p ends it at p + strcspn, cutting there unless at the NUL. */
  lemma OutcomeToken(before: seq<char>, after: seq<char>, start: nat, sep: seq<char>, tok: Option<nat>,
                     next: nat, p: nat, e: nat)
    requires StrtokOutcome(before, after, start, sep, tok, next)
    requires p == start + Span(before, start, sep) && At(before, p) != '\0'
    requires e == p + CSpan(before, p, sep)
    ensures tok == Some(p)
    ensures At(before, e) == '\0' ==> next == e && after == before
    ensures At(before, e) != '\0' ==> next == e + 1 && e < |before| && after == before[e := '\0']
  {
  }

  /** After the call the token reads back as a C string, and the rest is untouched. */
  lemma TokenInBuffer(before: seq<char>, after: seq<char>, t: seq<char>, sep: seq<char>, p: nat, e: nat, next: nat)
    requires forall k :: 0 <= k < |t| ==> t[k] != '\0'
    requires p < e <= |t| <= |before|
    requires forall k :: p <= k <= |t| ==> At(before, k) == At(t, k)
    requires e == p + CSpan(t, p, sep)
    requires At(t, e) == '\0' ==> next == e && after == before
    requires At(t, e) != '\0' ==> next == e + 1 && e < |before| && after == before[e := '\0']
    ensures p <= |after| && CStr(after, p) == t[p..e]
    ensures forall k :: next <= k <= |t| ==> At(after, k) == At(t, k)
  {
    CSpanWord(t, p, sep);
    forall k | p <= k < e ensures after[k] != '\0' && after[k] == t[k] {
      assert At(t, k) == t[k];
    }
    assert At(after, e) == '\0';
    CStrUpTo(after, p, e);
    SliceEq(after, t, p, e);
    forall k | next <= k <= |t| ensures At(after, k) == At(t, k) {
      assert At(after, k) == At(before, k);
    }
  }

  lemma SliceEq(a: seq<char>, b: seq<char>, p: nat, e: nat)
    requires p <= e <= |a| && e <= |b|
    requires forall k :: p <= k < e ==> a[k] == b[k]
    ensures a[p..e] == b[p..e]
  {
    assert forall j :: 0 <= j < e - p ==> a[p..e][j] == b[p..e][j];
  }

  /** One call of the loop below keeps its invariant, or ends it with every token collected. */
  lemma CallAdvances(before: seq<char>, after: seq<char>, t: seq<char>, state: nat, sep: seq<char>,
                     tok: Option<nat>, next: nat, tokens: seq<seq<char>>)
    requires forall k :: 0 <= k < |t| ==> t[k] != '\0'
    requires state <= |t| <= |before|
    requires forall k :: state <= k <= |t| ==> At(before, k) == At(t, k)
    requires StrtokOutcome(before, after, state, sep, tok, next)
    requires tokens + Tok(t[state..], sep, []) == Tokens(t, sep)
    ensures |after| == |before|
    ensures tok.None? ==> tokens == Tokens(t, sep)
    ensures tok.Some? ==>
      && state < next <= |t|
      && (forall k :: next <= k <= |t| ==> At(after, k) == At(t, k))
      && (tokens + [CStr(after, tok.value)]) + Tok(t[next..], sep, []) == Tokens(t, sep)
  {
    AfterCall(before, after, t, state, sep, tok, next);
    if tok.Some? {
      var word, rest := CStr(after, tok.value), Tok(t[next..], sep, []);
      assert (tokens + [word]) + rest == tokens + ([word] + rest);
    }
  }

  /** Calls strtok_r until it returns NULL: first with s, then with NULL. */
  method TokenizeAll(buf: array<char>, sep: seq<char>) returns (tokens: seq<seq<char>>)
    modifies buf
    ensures tokens == Tokens(Text(old(buf[..])), sep)
  {
    ghost var t := Text(buf[..]);
    ghost var n := |t|;
    ghost var cur := buf[..];
    var state: nat := 0;
    var first := true;
    tokens := [];
    assert t[0..] == t;
    while true
      invariant state <= n <= buf.Length && buf[..] == cur
      invariant first ==> state == 0
      invariant forall k :: state <= k <= n ==> At(cur, k) == At(t, k)
      invariant tokens + Tok(t[state..], sep, []) == Tokens(t, sep)
      decreases n - state
    {
      ghost var before := cur;
      var from := if first then Some(0) else None;
      assert (if from.Some? then from.value else state) == state;
      var tok, next := Strtok(buf, from, sep, state);
      cur := buf[..];
      CallAdvances(before, cur, t, state, sep, tok, next, tokens);
      if tok.None? {
        break;
      }
      tokens := tokens + [CStr(buf[..], tok.value)];
      state, first := next, false;
    }
  }
}
