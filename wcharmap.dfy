/**
 * __mingw_wctomb_convert: mapping a UTF-16LE wchar_t sequence to a
 * multibyte sequence.  Code page zero (the "C" locale) is a one-byte
 * identity encoding of L'\0'..L'\255'; for UTF-7 and UTF-8 the input is
 * first scanned for malformed surrogate pairs; every other conversion is
 * delegated to WideCharToMultiByte, whose result is a parameter here.
 */
module WcharMap {
  import opened CInt

  const EILSEQ: int := 42
  const ENOMEM: int := 12
  const UCHAR_MAX: int := 255
  const CP_UTF7: int := 65000
  /** (size_t)(-1) on a 32-bit target: the error return and the "unbounded" length. */
  const SIZE_MAX: int := TWO32 - 1

  /** wchar_t is an unsigned 16-bit code unit. */
  type wchar = c: int | 0 <= c < 0x1_0000

  /** The code unit at index i, with the implicit terminator past the end. */
  function WAt(wcs: seq<wchar>, i: int): wchar
  {
    if 0 <= i < |wcs| then wcs[i] else 0
  }

  function Min(a: int, b: int): int { if a <= b then a else b }
  function Max(a: int, b: int): int { if a <= b then b else a }

  /** The code units of wcs up to and including its first NUL. */
  function Terminated(wcs: seq<wchar>): (r: seq<wchar>)
    ensures 1 <= |r| <= |wcs| + 1
    ensures forall k :: 0 <= k < |r| ==> r[k] == WAt(wcs, k)
    ensures r[|r| - 1] == 0
    ensures forall k :: 0 <= k < |r| - 1 ==> r[k] != 0
  {
    if |wcs| == 0 || wcs[0] == 0 then [0] else [wcs[0]] + Terminated(wcs[1..])
  }

  /**
   * The code units the code-page-zero scan visits: through the NUL when
   * wclen is -1, otherwise at most wclen of them, stopping after a NUL.
   */
  function Consumed(wcs: seq<wchar>, wclen: int): (s: seq<wchar>)
    ensures wclen == -1 ==> s == Terminated(wcs)
    ensures wclen != -1 ==> |s| == (if wclen <= 0 then 0 else Min(wclen, |Terminated(wcs)|))
    ensures forall k :: 0 <= k < |s| ==> s[k] == WAt(wcs, k)
    ensures forall k :: 0 <= k < |s| - 1 ==> s[k] != 0
  {
    var t := Terminated(wcs);
    if wclen == -1 then t else if wclen <= 0 then [] else t[..Min(wclen, |t|)]
  }

  /** Index of the first code unit above UCHAR_MAX, or |s| when there is none. */
  function FirstInvalid(s: seq<wchar>): (e: nat)
    ensures e <= |s|
    ensures forall k :: 0 <= k < e ==> s[k] <= UCHAR_MAX
    ensures e < |s| ==> s[e] > UCHAR_MAX
  {
    if |s| == 0 then 0 else if s[0] > UCHAR_MAX then 0 else 1 + FirstInvalid(s[1..])
  }

  /** With no unit above UCHAR_MAX, the first invalid index is the end. */
  lemma AllValid(s: seq<wchar>)
    requires forall k :: 0 <= k < |s| ==> s[k] <= UCHAR_MAX
    ensures FirstInvalid(s) == |s|
  {
  }

  /** Number of bytes that fit: mblen when a buffer is given, unlimited otherwise. */
  function Capacity(s: seq<wchar>, buffered: bool, mblen: int): nat
  {
    if buffered then Max(mblen, 0) else |s|
  }

  datatype Outcome = Converted(count: nat) | Failed(errno: int)

  /**
   * The result of the code-page-zero conversion of the visited units s:
   * EILSEQ at the first unit above UCHAR_MAX unless the buffer ran out
   * before it, ENOMEM when the buffer runs out first, otherwise one byte
   * per unit.
   */
  function Codeset0(s: seq<wchar>, buffered: bool, mblen: int): Outcome
  {
    var e := FirstInvalid(s);
    var cap := Capacity(s, buffered, mblen);
    if e < |s| && e <= cap then Failed(EILSEQ)
    else if cap < |s| then Failed(ENOMEM)
    else Converted(|s|)
  }

  /** How many bytes the scan stores before it stops. */
  function Stored(s: seq<wchar>, buffered: bool, mblen: int): nat
  {
    Min(FirstInvalid(s), Capacity(s, buffered, mblen))
  }

  /** The size_t return value and the errno the call leaves for an outcome. */
  predicate Reports(o: Outcome, r: int, errno: int)
  {
    (o.Converted? ==> r == o.count && errno == 0)
    && (o.Failed? ==> r == SIZE_MAX && errno == o.errno)
  }

  /** The bytes stored into mbs are the visited units, and nothing beyond them changes. */
  ghost predicate StoredPrefix(mbs: seq<int>, old_mbs: seq<int>, s: seq<wchar>, n: nat)
  {
    |mbs| == |old_mbs| && n <= |s| && n <= |mbs|
    && (forall k :: 0 <= k < n ==> mbs[k] == s[k])
    && (forall k :: n <= k < |mbs| ==> mbs[k] == old_mbs[k])
  }

  /**
   * The code-page-zero branch.  mbs is null when only the length is wanted;
   * the (size_t)(-1) return and errno are the pair (r, errno), errno 0
   * meaning it was left alone.
   */
  method Codeset0Convert(mbs: array?<int>, mblen: int, wcs: seq<wchar>, wclen: int)
    returns (r: int, errno: int)
    requires mbs != null ==> mblen <= mbs.Length
    modifies mbs
    ensures Reports(Codeset0(Consumed(wcs, wclen), mbs != null, mblen), r, errno)
    ensures mbs != null ==>
      StoredPrefix(mbs[..], old(mbs[..]), Consumed(wcs, wclen),
                   Stored(Consumed(wcs, wclen), true, mblen))
  {
    if wclen == -1 {
      r, errno := UnboundedScan(mbs, mblen, wcs);
    } else {
      r, errno := BoundedScan(mbs, mblen, wcs, wclen);
    }
  }

  /** The do-while scan through the terminating NUL. */
  method UnboundedScan(mbs: array?<int>, mblen: int, wcs: seq<wchar>)
    returns (r: int, errno: int)
    requires mbs != null ==> mblen <= mbs.Length
    modifies mbs
    ensures Reports(Codeset0(Consumed(wcs, -1), mbs != null, mblen), r, errno)
    ensures mbs != null ==>
      StoredPrefix(mbs[..], old(mbs[..]), Consumed(wcs, -1),
                   Stored(Consumed(wcs, -1), true, mblen))
  {
    ghost var s := Consumed(wcs, -1);
    ghost var m0 := if mbs != null then mbs[..] else [];
    r := 0;
    var room := mblen;
    var i := 0;
    while true
      invariant 0 <= i < |s|
      invariant r == i && (mbs != null ==> room == mblen - i)
      invariant i <= FirstInvalid(s)
      invariant mbs != null ==> i <= Capacity(s, true, mblen)
      invariant mbs != null ==> StoredPrefix(mbs[..], m0, s, i)
      decreases |s| - i
    {
      var c := WAt(wcs, i);
      assert c == s[i];
      if c > UCHAR_MAX {
        StopsAt(s, mbs != null, mblen, i);
        return SIZE_MAX, EILSEQ;
      }
      if mbs != null {
        if room > 0 {
          ghost var before := mbs[..];
          mbs[i] := c;
          StoreStep(before, mbs[..], m0, s, i);
          room := room - 1;
        } else {
          StopsAt(s, true, mblen, i);
          return SIZE_MAX, ENOMEM;
        }
      }
      r := r + 1;
      if c == 0 {
        assert i == |s| - 1;
        ScanCompletes(s, mbs != null, mblen);
        return r, 0;
      }
      i := i + 1;
    }
  }

  /** The scan of at most wclen units, cut short after a NUL. */
  method BoundedScan(mbs: array?<int>, mblen: int, wcs: seq<wchar>, wclen: int)
    returns (r: int, errno: int)
    requires wclen != -1
    requires mbs != null ==> mblen <= mbs.Length
    modifies mbs
    ensures Reports(Codeset0(Consumed(wcs, wclen), mbs != null, mblen), r, errno)
    ensures mbs != null ==>
      StoredPrefix(mbs[..], old(mbs[..]), Consumed(wcs, wclen),
                   Stored(Consumed(wcs, wclen), true, mblen))
  {
    ghost var s := Consumed(wcs, wclen);
    ghost var m0 := if mbs != null then mbs[..] else [];
    r := 0;
    var room := mblen;
    var i := 0;
    var n := wclen;
    while n > 0
      invariant 0 <= i <= |s|
      invariant n > 0 ==> i < |s| && n == wclen - i
      invariant n <= 0 ==> i == |s|
      invariant r == i && (mbs != null ==> room == mblen - i)
      invariant i <= FirstInvalid(s)
      invariant mbs != null ==> i <= Capacity(s, true, mblen)
      invariant mbs != null ==> StoredPrefix(mbs[..], m0, s, i)
    {
      n := n - 1;
      var c := WAt(wcs, i);
      assert c == s[i];
      if c > UCHAR_MAX {
        StopsAt(s, mbs != null, mblen, i);
        return SIZE_MAX, EILSEQ;
      }
      if mbs != null {
        if room > 0 {
          ghost var before := mbs[..];
          mbs[i] := c;
          StoreStep(before, mbs[..], m0, s, i);
          room := room - 1;
        } else {
          StopsAt(s, true, mblen, i);
          return SIZE_MAX, ENOMEM;
        }
      }
      if c == 0 {
        n := 0;
      }
      r := r + 1;
      i := i + 1;
    }
    ScanCompletes(s, mbs != null, mblen);
    errno := 0;
  }

  /** Storing the unit at i extends the stored prefix by one. */
  lemma StoreStep(before: seq<int>, after: seq<int>, m0: seq<int>, s: seq<wchar>, i: nat)
    requires StoredPrefix(before, m0, s, i) && i < |s| && i < |before|
    requires after == before[i := s[i]]
    ensures StoredPrefix(after, m0, s, i + 1)
  {
  }

  /**
   * The scan stops at unit i, with everything before it accepted: with
   * EILSEQ when s[i] is too wide, otherwise with ENOMEM because the
   * buffer is full; i bytes were stored.
   */
  lemma StopsAt(s: seq<wchar>, buffered: bool, mblen: int, i: nat)
    requires i < |s| && i <= FirstInvalid(s)
    requires buffered ==> i <= Capacity(s, true, mblen)
    requires s[i] <= UCHAR_MAX ==> buffered && i >= mblen
    ensures s[i] > UCHAR_MAX ==> Codeset0(s, buffered, mblen) == Failed(EILSEQ)
    ensures s[i] <= UCHAR_MAX ==> Codeset0(s, buffered, mblen) == Failed(ENOMEM)
    ensures Stored(s, buffered, mblen) == i
  {
    if s[i] > UCHAR_MAX {
      assert FirstInvalid(s) == i;
    } else {
      assert FirstInvalid(s) > i;
    }
  }

  /** The scan accepted every unit: it converts them all and stores them all. */
  lemma ScanCompletes(s: seq<wchar>, buffered: bool, mblen: int)
    requires |s| <= FirstInvalid(s)
    requires buffered ==> |s| <= Capacity(s, true, mblen)
    ensures Codeset0(s, buffered, mblen) == Converted(|s|)
    ensures buffered ==> Stored(s, buffered, mblen) == |s|
  {
  }

  /**
   * The code-page-zero conversion succeeds exactly when every visited unit
   * fits in a byte and, with a buffer, the buffer holds them all.
   */
  lemma Codeset0ConvertsIff(s: seq<wchar>, buffered: bool, mblen: int)
    ensures Codeset0(s, buffered, mblen).Converted? <==>
      (forall k :: 0 <= k < |s| ==> s[k] <= UCHAR_MAX) && (buffered && |s| > 0 ==> |s| <= mblen)
    ensures Codeset0(s, buffered, mblen).Converted? ==> Codeset0(s, buffered, mblen).count == |s|
  {
    var e := FirstInvalid(s);
    if forall k :: 0 <= k < |s| ==> s[k] <= UCHAR_MAX {
      assert e == |s|;
    }
  }

  /** Any unit above UCHAR_MAX makes a length-only conversion fail with EILSEQ. */
  lemma WideUnitIsIllegal(s: seq<wchar>, mblen: int, k: int)
    requires 0 <= k < |s| && s[k] > UCHAR_MAX
    ensures Codeset0(s, false, mblen) == Failed(EILSEQ)
  {
    assert FirstInvalid(s) <= k;
  }

  /**
   * With a buffer, a unit above UCHAR_MAX still gives EILSEQ when it falls
   * within the buffer's room, even though later units would not fit.
   */
  lemma WideUnitBeforeBufferEnd(s: seq<wchar>, mblen: int, k: int)
    requires 0 <= k < |s| && s[k] > UCHAR_MAX && k <= Max(mblen, 0)
    ensures Codeset0(s, true, mblen) == Failed(EILSEQ)
  {
    assert FirstInvalid(s) <= k;
  }

  /** A buffer too small for the valid units fails with ENOMEM. */
  lemma ShortBufferIsNoMem(s: seq<wchar>, mblen: int)
    requires forall k :: 0 <= k < |s| ==> s[k] <= UCHAR_MAX
    requires 0 < |s| && mblen < |s|
    ensures Codeset0(s, true, mblen) == Failed(ENOMEM)
  {
    assert FirstInvalid(s) == |s|;
  }

  /**
   * Counting without a buffer gives the same result as storing into a
   * buffer large enough for every visited unit.
   */
  lemma CountingMatchesStoring(s: seq<wchar>, mblen: int)
    requires |s| <= mblen
    ensures Codeset0(s, false, 0) == Codeset0(s, true, mblen)
    ensures Codeset0(s, false, 0) != Failed(ENOMEM)
  {
  }

  /**
   * An unbounded scan of valid units counts through the terminating NUL,
   * which is the last unit it visits.
   */
  lemma UnboundedCountsTerminator(wcs: seq<wchar>)
    requires forall k :: 0 <= k < |Terminated(wcs)| ==> Terminated(wcs)[k] <= UCHAR_MAX
    ensures Codeset0(Consumed(wcs, -1), false, 0) == Converted(|Terminated(wcs)|)
  {
    var t := Terminated(wcs);
    assert Consumed(wcs, -1) == t;
    assert FirstInvalid(t) == |t| by { AllValid(t); }
  }

  /**
   * A bounded scan stops at a NUL inside the bound: it visits exactly what
   * the unbounded scan visits whenever the bound reaches past the NUL.
   */
  lemma BoundedStopsAtNul(wcs: seq<wchar>, wclen: int)
    requires wclen >= |Terminated(wcs)|
    ensures Consumed(wcs, wclen) == Consumed(wcs, -1)
  {
  }

  // ---------------------------------------------------------------------
  // The surrogate scan made before a UTF-7 or UTF-8 conversion.

  /** The value of 0xFC00 & c for a 16-bit code unit. */
  function SurrogateMask(c: wchar): int { c / 0x400 * 0x400 }

  predicate IsHigh(c: wchar) { SurrogateMask(c) == 0xD800 }
  predicate IsLow(c: wchar) { SurrogateMask(c) == 0xDC00 }

  /** The code units the surrogate scan checks. */
  function Checked(wcs: seq<wchar>, wclen: int): (s: seq<wchar>)
    ensures U32(wclen) == SIZE_MAX ==> s == Terminated(wcs)
    ensures U32(wclen) != SIZE_MAX ==> |s| == U32(wclen)
    ensures forall k :: 0 <= k < |s| ==> s[k] == WAt(wcs, k)
  {
    if U32(wclen) == SIZE_MAX then Terminated(wcs) else seq(U32(wclen), k => WAt(wcs, k))
  }

  /** Position k of s is not part of a malformed surrogate pair. */
  predicate PairedAt(s: seq<wchar>, k: int)
    requires 0 <= k < |s|
  {
    (IsHigh(s[k]) ==> k + 1 < |s| && IsLow(s[k + 1]))
    && (IsLow(s[k]) ==> k > 0 && IsHigh(s[k - 1]))
  }

  /**
   * Well-formed UTF-16 (section 2.2 of RFC 2781): every high surrogate is
   * immediately followed by a low one, and every low surrogate immediately
   * follows a high one.
   */
  predicate Paired(s: seq<wchar>)
  {
    forall k :: 0 <= k < |s| ==> PairedAt(s, k)
  }

  /** The scan of the UTF-7/UTF-8 branch: true when no surrogate is malformed. */
  method SurrogateScan(wcs: seq<wchar>, wclen: int) returns (ok: bool)
    ensures ok <==> Paired(Checked(wcs, wclen))
  {
    ghost var s := Checked(wcs, wclen);
    var count := U32(wclen);
    var chk := 0;
    while count != 0
      invariant 0 <= chk <= |s|
      invariant count == 0 ==> chk == |s|
      invariant U32(wclen) == SIZE_MAX ==> (count == SIZE_MAX && chk < |s|) || count == 0
      invariant U32(wclen) != SIZE_MAX ==> count == |s| - chk
      invariant forall k :: 0 <= k < chk ==> PairedAt(s, k)
      invariant chk > 0 ==> !IsHigh(s[chk - 1])
      decreases if count == SIZE_MAX then |s| - chk + 1 else count
    {
      if count != SIZE_MAX {
        count := count - 1;
      } else if WAt(wcs, chk) == 0 {
        count := 0;
      }
      var c := WAt(wcs, chk);
      chk := chk + 1;
      if IsHigh(c) {
        if count != 0 && IsLow(WAt(wcs, chk)) {
          chk := chk + 1;
          if count != SIZE_MAX {
            count := count - 1;
          }
        } else {
          assert !PairedAt(s, chk - 1);
          return false;
        }
      } else if IsLow(c) {
        assert !PairedAt(s, chk - 1);
        return false;
      }
    }
    return true;
  }

  /** Concatenating well-formed sequences keeps them well formed. */
  lemma PairedConcat(a: seq<wchar>, b: seq<wchar>)
    requires Paired(a) && Paired(b)
    requires |a| > 0 ==> !IsHigh(a[|a| - 1])
    ensures Paired(a + b)
  {
    var ab := a + b;
    forall k | 0 <= k < |ab|
      ensures PairedAt(ab, k)
    {
      if k < |a| {
        assert PairedAt(a, k);
      } else {
        assert PairedAt(b, k - |a|);
      }
    }
  }

  /** The UTF-16 encoding of one code point (section 2.1 of RFC 2781). */
  function EncodeOne(cp: int): (r: seq<wchar>)
    requires IsScalar(cp)
    ensures |r| > 0 && !IsHigh(r[|r| - 1])
  {
    if cp < 0x1_0000 then [cp]
    else [0xD800 + (cp - 0x1_0000) / 0x400, 0xDC00 + (cp - 0x1_0000) % 0x400]
  }

  predicate IsScalar(cp: int) { 0 <= cp < 0x11_0000 && !(0xD800 <= cp < 0xE000) }

  function Encode(cps: seq<int>): seq<wchar>
    requires forall k :: 0 <= k < |cps| ==> IsScalar(cps[k])
  {
    if |cps| == 0 then [] else EncodeOne(cps[0]) + Encode(cps[1..])
  }

  /** Each encoded code point is a well-formed unit or pair. */
  lemma EncodeOnePaired(cp: int)
    requires IsScalar(cp)
    ensures Paired(EncodeOne(cp))
  {
    var r := EncodeOne(cp);
    if cp >= 0x1_0000 {
      assert SurrogateMask(r[0]) == 0xD800;
      assert SurrogateMask(r[1]) == 0xDC00;
      assert PairedAt(r, 0) && PairedAt(r, 1);
    } else {
      assert PairedAt(r, 0);
    }
  }

  /** The UTF-16 encoding of any sequence of Unicode scalar values passes the scan. */
  lemma {:induction false} EncodedIsPaired(cps: seq<int>)
    requires forall k :: 0 <= k < |cps| ==> IsScalar(cps[k])
    ensures Paired(Encode(cps))
  {
    if |cps| > 0 {
      EncodeOnePaired(cps[0]);
      EncodedIsPaired(cps[1..]);
      PairedConcat(EncodeOne(cps[0]), Encode(cps[1..]));
    }
  }

  /**
   * The outcome of the whole conversion.  WideCharToMultiByte is outside
   * the model: its return value and the invalid-character flag it would
   * set are the parameters winResult and winInvalid.
   */
  function ConvertOutcome(codeset: nat, buffered: bool, mblen: int, wcs: seq<wchar>, wclen: int,
                          winResult: nat, winInvalid: bool): Outcome
  {
    if codeset == 0 then Codeset0(Consumed(wcs, wclen), buffered, mblen)
    else if codeset >= CP_UTF7 && !Paired(Checked(wcs, wclen)) then Failed(EILSEQ)
    else if (codeset < CP_UTF7 && winInvalid) || winResult == 0 then Failed(EILSEQ)
    else Converted(winResult)
  }

  /**
   * Every UTF-7/UTF-8 conversion of a malformed sequence is EILSEQ whatever
   * WideCharToMultiByte would have said, and a well-formed one reports
   * what it says.
   */
  lemma Utf8IgnoresInvalidFlag(codeset: nat, buffered: bool, mblen: int, wcs: seq<wchar>,
                               wclen: int, winResult: nat, winInvalid: bool)
    requires codeset >= CP_UTF7
    ensures !Paired(Checked(wcs, wclen)) ==>
      ConvertOutcome(codeset, buffered, mblen, wcs, wclen, winResult, winInvalid) == Failed(EILSEQ)
    ensures Paired(Checked(wcs, wclen)) && winResult > 0 ==>
      ConvertOutcome(codeset, buffered, mblen, wcs, wclen, winResult, winInvalid) == Converted(winResult)
  {
  }

  /** The public entry point; bytes the foreign converter would store are not modelled. */
  method WctombConvert(codeset: nat, mbs: array?<int>, mblen: int, wcs: seq<wchar>, wclen: int,
                       winResult: nat, winInvalid: bool)
    returns (r: int, errno: int)
    requires codeset == 0 && mbs != null ==> mblen <= mbs.Length
    modifies mbs
    ensures Reports(ConvertOutcome(codeset, mbs != null, mblen, wcs, wclen, winResult, winInvalid),
                    r, errno)
    ensures codeset == 0 && mbs != null ==>
      StoredPrefix(mbs[..], old(mbs[..]), Consumed(wcs, wclen),
                   Stored(Consumed(wcs, wclen), true, mblen))
  {
    if codeset == 0 {
      r, errno := Codeset0Convert(mbs, mblen, wcs, wclen);
      return;
    }
    var invalid := false;
    if codeset >= CP_UTF7 {
      var ok := SurrogateScan(wcs, wclen);
      if !ok {
        return SIZE_MAX, EILSEQ;
      }
    } else {
      invalid := winInvalid;
    }
    if invalid || winResult == 0 {
      r, errno := SIZE_MAX, EILSEQ;
    } else {
      r, errno := winResult, 0;
    }
  }
}
