/**
 * __vsnprintf: __pformat into a caller's buffer of `length` bytes,
 * keeping the last byte for the terminating NUL, and returning the
 * length the complete output would have had.  The quota handed to
 * __pformat is its int parameter, so length - 1 arrives there wrapped
 * to 32 bits; the NUL's index is computed in size_t and is not.
 */
module VSnprintf {
  import opened CInt
  import opened PfOutput
  import opened PFormat

  /** The quota __pformat receives: length - 1 converted to int. */
  function Quota(length: nat): (q: int)
    requires 0 < length
    ensures q <= length - 1
    ensures IsInt32(q)
    ensures length <= TWO31 ==> q == length - 1
    ensures TWO31 < length <= TWO32 ==> q == length - 1 - TWO32 && q < 0
  {
    I32(length - 1)
  }

  /**
   * The buffer after __vsnprintf of text into a buffer holding `before`:
   * untouched when length is 0; otherwise the characters __pformat
   * delivers within the quota, the old bytes up to min(count, length - 1),
   * a NUL there, and the old bytes after it.
   */
  function Snprintf(before: seq<char>, length: nat, text: seq<char>): (r: seq<char>)
    requires length <= |before|
    ensures |r| == |before|
  {
    if length == 0 then before
    else
      var shown := Delivered(text, false, Quota(length));
      var n := Min(|text|, length - 1);
      shown + before[|shown|..n] + ['\0'] + before[n + 1..]
  }

  /**
   * __vsnprintf: with length 0 nothing is written; otherwise __pformat
   * writes within the int quota length - 1 and a NUL is stored at
   * min(count, length - 1).  The result is the full count __pformat
   * generates, however much of it fits.
   */
  method VSnprintf(buf: array<char>, length: nat, fmt: seq<char>, args: seq<Arg>,
                   loc: Locale, quirks: bool, fp: FloatText)
    returns (retval: int, stores: seq<Store>)
    requires length <= buf.Length
    modifies buf
    ensures var out := Printf(fmt, args, loc, quirks, fp);
      retval == |out.text| && stores == out.stores &&
      buf[..] == Snprintf(old(buf[..]), length, out.text)
  {
    ghost var before := buf[..];
    ghost var text := Printf(fmt, args, loc, quirks, fp).text;
    var file;
    if length == 0 {
      retval, file, stores := Format(false, false, buf, 0, fmt, args, loc, quirks, fp);
      assert Delivered(text, false, 0) == [];
      return;
    }
    var limit := length - 1;
    retval, file, stores := Format(false, false, buf, Quota(length), fmt, args, loc, quirks, fp);
    var n := if retval < limit then retval else limit;
    ghost var mid := buf[..];
    buf[n] := '\0';
    assert buf[..] == mid[n := '\0'];
    Terminate(before, mid, text, length, n);
  }

  /**
   * Writing the NUL at min(count, length - 1) over what __pformat
   * delivered within the quota completes the buffer.
   */
  lemma Terminate(before: seq<char>, mid: seq<char>, text: seq<char>, length: nat, n: nat)
    requires 0 < length <= |before|
    requires var shown := Delivered(text, false, Quota(length)); mid == shown + before[|shown|..]
    requires n == if |text| < length - 1 then |text| else length - 1
    ensures mid[n := '\0'] == Snprintf(before, length, text)
  {
    var shown := Delivered(text, false, Quota(length));
    var r := Snprintf(before, length, text);
    assert r == shown + before[|shown|..n] + ['\0'] + before[n + 1..];
    forall k | 0 <= k < |r|
      ensures mid[n := '\0'][k] == r[k]
    {
      if |shown| <= k && k != n {
        assert mid[k] == before[|shown|..][k - |shown|];
      }
    }
  }

  // ---------------------------------------------------------------- what the caller sees

  /** A zero length leaves the buffer alone, whatever the format generates. */
  lemma ZeroLength(before: seq<char>, text: seq<char>)
    ensures Snprintf(before, 0, text) == before
  {
  }

  /**
   * With a buffer, the NUL lands at min(count, length - 1), never on or
   * past index length; before it come the characters delivered within the
   * quota and then the buffer's old bytes.
   */
  lemma Terminated(before: seq<char>, length: nat, text: seq<char>)
    requires 0 < length <= |before|
    ensures var r := Snprintf(before, length, text);
      var n := if |text| < length then |text| else length - 1;
      var m := Min(n, Max(Quota(length), 0));
      n < length && r[..m] == text[..m] && r[m..n] == before[m..n] && r[n] == '\0'
  {
    var shown := Delivered(text, false, Quota(length));
    var n := if |text| < length then |text| else length - 1;
    var r := Snprintf(before, length, text);
    assert r == shown + before[|shown|..n] + ['\0'] + before[n + 1..];
    assert r[..|shown|] == shown;
    assert r[|shown|..n] == before[|shown|..n];
  }

  /**
   * While length - 1 fits an int the quota is length - 1 itself: the
   * buffer holds min(count, length - 1) output characters, then a NUL.
   */
  lemma QuotaFits(before: seq<char>, length: nat, text: seq<char>)
    requires 0 < length <= |before| && length <= TWO31
    ensures var n := Min(|text|, length - 1);
      Snprintf(before, length, text) == text[..n] + ['\0'] + before[n + 1..]
  {
    var n := Min(|text|, length - 1);
    assert Delivered(text, false, Quota(length)) == text[..n];
    assert before[n..n] == [];
  }

  /**
   * A length - 1 of 2^31 or more turns negative as an int: __pformat
   * stores nothing, and only the NUL is written, still at
   * min(count, length - 1).
   */
  lemma NegativeQuota(before: seq<char>, length: nat, text: seq<char>)
    requires TWO31 < length <= |before| && length <= TWO32
    ensures Snprintf(before, length, text) == before[Min(|text|, length - 1) := '\0']
  {
    var n := Min(|text|, length - 1);
    var r := Snprintf(before, length, text);
    assert Delivered(text, false, Quota(length)) == [];
    assert r == before[..n] + ['\0'] + before[n + 1..];
    forall k | 0 <= k < |r|
      ensures r[k] == before[n := '\0'][k]
    {
    }
  }

  /** Nothing at or beyond index length is written. */
  lemma WithinLength(before: seq<char>, length: nat, text: seq<char>)
    requires length <= |before|
    ensures Snprintf(before, length, text)[length..] == before[length..]
  {
    if length > 0 {
      var shown := Delivered(text, false, Quota(length));
      var n := Min(|text|, length - 1);
      var r := Snprintf(before, length, text);
      assert r == (shown + before[|shown|..n] + ['\0']) + before[n + 1..];
      assert r[n + 1..] == before[n + 1..];
    }
  }

  /**
   * The string the caller reads back, while length - 1 fits an int: the
   * whole output when it is shorter than length, else its first
   * length - 1 characters; so the output was cut exactly when the count
   * returned is length or more.
   */
  lemma ReadBack(before: seq<char>, length: nat, text: seq<char>)
    requires 0 < length <= |before| && '\0' !in text
    ensures var r := Snprintf(before, length, text);
      (length <= TWO31 && |text| < length ==> r[..StrLen(r)] == text) &&
      (length <= TWO31 && |text| >= length ==> r[..StrLen(r)] == text[..length - 1])
  {
    if length <= TWO31 {
      var r := Snprintf(before, length, text);
      var n := if |text| < length then |text| else length - 1;
      Terminated(before, length, text);
      StrLenAt(r, n);
    }
  }

  /** The length of a C string is the index of its first NUL. */
  lemma StrLenAt(s: seq<char>, n: nat)
    requires n < |s| && s[n] == '\0' && forall k | 0 <= k < n :: s[k] != '\0'
    ensures StrLen(s) == n
  {
  }
}
