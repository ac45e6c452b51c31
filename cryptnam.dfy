/**
 * __mingw_crypto_tmpname: replacing the trailing "XXXXXX" of a file name
 * template, in place, by characters drawn from a cryptographic random
 * byte source.  The bytes CryptGenRandom would deliver are a parameter;
 * running out of them is the generator failing.
 */
module CryptNam {
  import opened CInt

  const UCHAR_MAX: int := 255
  /** The 36 lower-case ASCII alphanumerics. */
  const SPAN: int := 'z' as int - 'a' as int + 1 + '9' as int - '0' as int + 1
  /** The largest raw byte accepted: the accepted bytes are a whole number of 36-cycles. */
  const MAX: int := UCHAR_MAX - UCHAR_MAX % SPAN - 1
  /** Number of replaceable characters at the end of a template. */
  const TAIL: nat := 6

  datatype Option<T> = None | Some(value: T)

  predicate Bytes(rnd: seq<int>)
  {
    forall k :: 0 <= k < |rnd| ==> 0 <= rnd[k] <= UCHAR_MAX
  }

  /** The file name character for an accepted byte: '0'..'9' then 'a'..'z'. */
  function FilenameChar(b: int): (c: char)
    requires 0 <= b
    ensures '0' <= c <= '9' || 'a' <= c <= 'z'
    ensures SymbolIndex(c) == b % SPAN
  {
    var r := '0' as int + b % SPAN;
    if r > '9' as int then (r + ('a' as int - '9' as int - 1)) as char else r as char
  }

  /** The position of an alphanumeric among the 36 symbols. */
  function SymbolIndex(c: char): int
  {
    if c <= '9' then c as int - '0' as int else c as int - 'a' as int + 10
  }

  /**
   * The retry loop: the index of the first byte at or after from that is
   * accepted, or None when the generator fails before one arrives.
   */
  function Draw(rnd: seq<int>, from: nat): (r: Option<nat>)
    requires from <= |rnd|
    decreases |rnd| - from
    ensures r.Some? ==> from <= r.value < |rnd| && rnd[r.value] <= MAX
    ensures r.Some? ==> forall k :: from <= k < r.value ==> rnd[k] > MAX
    ensures r.None? ==> forall k :: from <= k < |rnd| ==> rnd[k] > MAX
  {
    if from == |rnd| then None
    else if rnd[from] <= MAX then Some(from)
    else Draw(rnd, from + 1)
  }

  /**
   * The character left at the caret after attempts from..next-1: the last
   * raw byte written there, or the original character when none was.
   */
  function Caret(c0: char, rnd: seq<int>, from: nat, next: nat): char
    requires from <= next <= |rnd| && Bytes(rnd)
  {
    if from < next then rnd[next - 1] as char else c0
  }

  /**
   * crypto_random_filename_char: draw bytes into t[i] until one is
   * accepted, then map it to a file name character.  next is the first
   * byte not drawn.
   */
  method RandomFilenameChar(t: array<char>, i: nat, rnd: seq<int>, from: nat)
    returns (ok: bool, next: nat)
    requires i < t.Length && from <= |rnd| && Bytes(rnd)
    modifies t
    ensures var d := Draw(rnd, from);
      && ok == d.Some?
      && (ok ==> next == d.value + 1 && t[..] == old(t[..])[i := FilenameChar(rnd[d.value])])
      && (!ok ==> next == |rnd| && t[..] == old(t[..])[i := Caret(old(t[i]), rnd, from, |rnd|)])
  {
    // the caret holds each raw byte drawn; only the last one can be seen after the call
    var caret := t[i];
    next := from;
    while true
      invariant from <= next <= |rnd|
      invariant Draw(rnd, from) == Draw(rnd, next)
      invariant caret == Caret(old(t[i]), rnd, from, next)
      decreases |rnd| - next
    {
      if next == |rnd| {
        t[i] := caret;
        return false, next;
      }
      caret := rnd[next] as char;
      next := next + 1;
      if caret as int <= MAX {
        break;
      }
    }
    var c := '0' as int + caret as int % SPAN;
    if c > '9' as int {
      c := c + ('a' as int - '9' as int - 1);
    }
    t[i] := c as char;
    ok := true;
  }

  /** What a call reports, the template it leaves, and the bytes it drew. */
  datatype Renamed = Renamed(ok: bool, name: seq<char>, used: nat)

  /**
   * The walk over positions p..n-1 of the tail, drawing from byte from on:
   * each position must hold 'X' and is replaced by a drawn character.
   */
  function Fill(t: seq<char>, p: nat, n: nat, rnd: seq<int>, from: nat): (e: Renamed)
    requires p <= n <= |t| && from <= |rnd| && Bytes(rnd)
    decreases n - p
    ensures |e.name| == |t| && from <= e.used <= |rnd|
  {
    if p == n then Renamed(true, t, from)
    else if t[p] != 'X' then Renamed(false, t, from)
    else match Draw(rnd, from)
      case None => Renamed(false, t[p := Caret(t[p], rnd, from, |rnd|)], |rnd|)
      case Some(j) => Fill(t[p := FilenameChar(rnd[j])], p + 1, n, rnd, j + 1)
  }

  /** The whole call on the string t: a template shorter than six is returned as is. */
  function Tmpname(t: seq<char>, rnd: seq<int>): Renamed
    requires Bytes(rnd)
  {
    var n := StrLen(t);
    if n < TAIL then Renamed(true, t, 0) else Fill(t, n - TAIL, n, rnd, 0)
  }

  /**
   * __mingw_crypto_tmpname on the NUL-terminated template in t; ok is
   * false where the source returns NULL.
   */
  method CryptoTmpname(t: array<char>, rnd: seq<int>) returns (ok: bool, used: nat)
    requires StrLen(t[..]) < t.Length && Bytes(rnd)
    modifies t
    ensures var e := Tmpname(old(t[..]), rnd);
      ok == e.ok && t[..] == e.name && used == e.used
  {
    ghost var t0 := t[..];
    var n := StrLen(t[..]);
    used := 0;
    if n < TAIL {
      return true, 0;
    }
    var p := n - TAIL;
    ghost var e := Tmpname(t0, rnd);
    assert e == Fill(t0, p, n, rnd, 0);
    while t[p] != '\0'
      invariant n - TAIL <= p <= n && used <= |rnd| && t.Length == |t0|
      invariant forall k :: p <= k < t.Length ==> t[k] == t0[k]
      invariant Fill(t[..], p, n, rnd, used) == e
      decreases n - p
    {
      if t[p] != 'X' {
        FillUnfold(t[..], p, n, rnd, used);
        return false, used;
      }
      ok, used := FillPosition(t, p, n, rnd, used);
      if !ok {
        return false, used;
      }
      p := p + 1;
    }
    ok := true;
  }

  /** One 'X' of the tail: draw its replacement, or fail with the bytes exhausted. */
  method FillPosition(t: array<char>, p: nat, n: nat, rnd: seq<int>, from: nat) returns (ok: bool, next: nat)
    requires p < n <= t.Length && t[p] == 'X' && from <= |rnd| && Bytes(rnd)
    modifies t
    ensures from <= next <= |rnd| && forall k :: p < k < t.Length ==> t[k] == old(t[k])
    ensures ok ==> Fill(t[..], p + 1, n, rnd, next) == Fill(old(t[..]), p, n, rnd, from)
    ensures !ok ==> Fill(old(t[..]), p, n, rnd, from) == Renamed(false, t[..], next)
  {
    ghost var before := t[..];
    FillUnfold(before, p, n, rnd, from);
    ok, next := RandomFilenameChar(t, p, rnd, from);
    assert t[..] == before[p := t[p]];
  }

  /** One position of the walk over the tail. */
  lemma FillUnfold(t: seq<char>, p: nat, n: nat, rnd: seq<int>, from: nat)
    requires p < n <= |t| && from <= |rnd| && Bytes(rnd)
    ensures Fill(t, p, n, rnd, from) ==
      if t[p] != 'X' then Renamed(false, t, from)
      else match Draw(rnd, from)
        case None => Renamed(false, t[p := Caret(t[p], rnd, from, |rnd|)], |rnd|)
        case Some(j) => Fill(t[p := FilenameChar(rnd[j])], p + 1, n, rnd, j + 1)
  {
  }

  /** The accepted bytes 0..MAX are exactly seven whole cycles of the 36 symbols. */
  lemma AcceptedBytesAreWholeCycles()
    ensures SPAN == 36 && MAX == 251
    ensures (MAX + 1) % SPAN == 0 && (MAX + 1) / SPAN == 7
    ensures MAX + 1 + SPAN > UCHAR_MAX + 1
  {
  }

  /** Two accepted bytes give the same character exactly when they agree modulo 36. */
  lemma SameCharIffSameResidue(b1: int, b2: int)
    requires 0 <= b1 <= MAX && 0 <= b2 <= MAX
    ensures FilenameChar(b1) == FilenameChar(b2) <==> b1 % SPAN == b2 % SPAN
  {
  }

  /** Every one of the 36 symbols is produced by some byte. */
  lemma EverySymbolReachable(c: char)
    requires '0' <= c <= '9' || 'a' <= c <= 'z'
    ensures 0 <= SymbolIndex(c) < SPAN && FilenameChar(SymbolIndex(c)) == c
  {
  }

  /** A template shorter than six characters is returned unchanged and draws nothing. */
  lemma ShortTemplateUnchanged(t: seq<char>, rnd: seq<int>)
    requires Bytes(rnd) && StrLen(t) < TAIL
    ensures Tmpname(t, rnd) == Renamed(true, t, 0)
  {
  }

  /** Only the six characters before the terminator can change. */
  lemma OnlyTailChanges(t: seq<char>, rnd: seq<int>)
    requires Bytes(rnd)
    ensures var e := Tmpname(t, rnd); var n := StrLen(t);
      |e.name| == |t| && forall k :: 0 <= k < |t| && (k < n - TAIL || n <= k) ==> e.name[k] == t[k]
  {
    var n := StrLen(t);
    if n >= TAIL {
      FillOutside(t, n - TAIL, n, rnd, 0);
    }
  }

  /** The walk over p..n-1 leaves every other position as it was. */
  lemma {:induction false} FillOutside(t: seq<char>, p: nat, n: nat, rnd: seq<int>, from: nat)
    requires p <= n <= |t| && from <= |rnd| && Bytes(rnd)
    ensures var e := Fill(t, p, n, rnd, from);
      forall k :: 0 <= k < |t| && !(p <= k < n) ==> e.name[k] == t[k]
    decreases n - p
  {
    if p < n && t[p] == 'X' {
      match Draw(rnd, from) {
        case None =>
        case Some(j) =>
          var t' := t[p := FilenameChar(rnd[j])];
          FillOutside(t', p + 1, n, rnd, j + 1);
          var e := Fill(t', p + 1, n, rnd, j + 1);
          assert Fill(t, p, n, rnd, from) == e;
          forall k | 0 <= k < |t| && !(p <= k < n)
            ensures e.name[k] == t[k]
          {
            assert e.name[k] == t'[k];
          }
      }
    }
  }

  /**
   * A success replaced six 'X's by file name characters; the positions
   * hold 'X' before, and alphanumerics after.
   */
  lemma {:induction false} FillSuccess(t: seq<char>, p: nat, n: nat, rnd: seq<int>, from: nat)
    requires p <= n <= |t| && from <= |rnd| && Bytes(rnd)
    requires Fill(t, p, n, rnd, from).ok
    ensures var e := Fill(t, p, n, rnd, from);
      forall k :: p <= k < n ==> t[k] == 'X' && ('0' <= e.name[k] <= '9' || 'a' <= e.name[k] <= 'z')
    decreases n - p
  {
    if p < n {
      var j := Draw(rnd, from).value;
      var t' := t[p := FilenameChar(rnd[j])];
      FillSuccess(t', p + 1, n, rnd, j + 1);
      FillOutside(t', p + 1, n, rnd, j + 1);
      var e := Fill(t', p + 1, n, rnd, j + 1);
      assert t[p] == 'X' && Fill(t, p, n, rnd, from) == e;
      assert e.name[p] == t'[p] == FilenameChar(rnd[j]);
      assert forall k :: p < k < n ==> t'[k] == t[k];
    }
  }

  /** A tail position that does not hold 'X' makes the call fail. */
  lemma {:induction false} FillNeedsX(t: seq<char>, p: nat, n: nat, rnd: seq<int>, from: nat, i: nat)
    requires p <= i < n <= |t| && from <= |rnd| && Bytes(rnd) && t[i] != 'X'
    ensures !Fill(t, p, n, rnd, from).ok
    decreases n - p
  {
    if t[p] == 'X' {
      match Draw(rnd, from) {
        case None =>
        case Some(j) => FillNeedsX(t[p := FilenameChar(rnd[j])], p + 1, n, rnd, j + 1, i);
      }
    }
  }

  /**
   * With a template of six or more characters, success means its last six
   * held 'X' and now hold alphanumerics; a tail character other than 'X'
   * makes the call fail.
   */
  lemma TmpnameTail(t: seq<char>, rnd: seq<int>, i: nat)
    requires Bytes(rnd) && StrLen(t) >= TAIL
    ensures var e := Tmpname(t, rnd); var n := StrLen(t);
      e.ok ==> forall k :: n - TAIL <= k < n ==>
        t[k] == 'X' && ('0' <= e.name[k] <= '9' || 'a' <= e.name[k] <= 'z')
    ensures StrLen(t) - TAIL <= i < StrLen(t) && t[i] != 'X' ==> !Tmpname(t, rnd).ok
  {
    var n := StrLen(t);
    if Tmpname(t, rnd).ok {
      FillSuccess(t, n - TAIL, n, rnd, 0);
    }
    if n - TAIL <= i < n && t[i] != 'X' {
      FillNeedsX(t, n - TAIL, n, rnd, 0, i);
    }
  }

  /**
   * When every byte is accepted, six 'X's take the six characters of the
   * first six bytes, in order.
   */
  lemma {:induction false} FillAccepted(t: seq<char>, p: nat, n: nat, rnd: seq<int>, from: nat)
    requires p <= n <= |t| && Bytes(rnd) && from + (n - p) <= |rnd|
    requires forall k :: p <= k < n ==> t[k] == 'X'
    requires forall k :: from <= k < |rnd| ==> rnd[k] <= MAX
    ensures var e := Fill(t, p, n, rnd, from);
      e.ok && e.used == from + (n - p)
      && forall k :: p <= k < n ==> e.name[k] == FilenameChar(rnd[from + (k - p)])
    decreases n - p
  {
    if p < n {
      assert Draw(rnd, from) == Some(from);
      FillAccepted(t[p := FilenameChar(rnd[from])], p + 1, n, rnd, from + 1);
      FillOutside(t[p := FilenameChar(rnd[from])], p + 1, n, rnd, from + 1);
    }
  }

  /** Six 'X's and six accepted bytes: the call succeeds and maps the bytes in order. */
  lemma TmpnameAccepted(t: seq<char>, rnd: seq<int>)
    requires Bytes(rnd) && StrLen(t) >= TAIL && |rnd| >= TAIL
    requires forall k :: StrLen(t) - TAIL <= k < StrLen(t) ==> t[k] == 'X'
    requires forall k :: 0 <= k < |rnd| ==> rnd[k] <= MAX
    ensures var e := Tmpname(t, rnd); var n := StrLen(t);
      e.ok && e.used == TAIL
      && forall k :: n - TAIL <= k < n ==> e.name[k] == FilenameChar(rnd[k - (n - TAIL)])
  {
    var n := StrLen(t);
    FillAccepted(t, n - TAIL, n, rnd, 0);
  }
}
