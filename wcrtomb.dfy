/**
 * wcrtomb: converting one wchar_t, carrying a dangling high surrogate
 * from one call to the next in the mbstate_t object.  The conversion
 * itself is __mingw_wctomb_convert; the codeset, MB_CUR_MAX and the
 * result of the foreign converter are parameters.
 */
module Wcrtomb {
  import opened WcharMap

  /** The mbstate_t restart state: zero, or a pending high surrogate. */
  class MbState {
    var state: wchar

    constructor ()
      ensures state == 0
    {
      state := 0;
    }
  }

  /** What one call reports, and the state it leaves. */
  datatype Step = Step(out: Outcome, state: wchar)

  /**
   * One call: a pending state must be completed by a low surrogate (the
   * pair is converted as a two-unit sequence), a null buffer asks for the
   * length of the NUL encoding, a high surrogate is held back, an orphan
   * low surrogate is illegal, and anything else is converted on its own.
   */
  function WcrtombStep(state: wchar, mbNull: bool, wc: wchar, codeset: nat, curMax: int,
                       winResult: nat, winInvalid: bool): (s: Step)
    ensures s.state == 0 || (IsHigh(s.state) && s.state == wc && state == 0 && !mbNull)
    ensures s.state != 0 ==> s.out == Converted(0)
  {
    if state != 0 then
      if IsHigh(state) && IsLow(wc) then
        Step(ConvertOutcome(codeset, !mbNull, curMax, [state, wc], 2, winResult, winInvalid), 0)
      else Step(Failed(EILSEQ), 0)
    else if mbNull then Step(Converted(1), 0)
    else if IsHigh(wc) then Step(Converted(0), wc)
    else if IsLow(wc) then Step(Failed(EILSEQ), 0)
    else Step(ConvertOutcome(codeset, true, curMax, [wc], 1, winResult, winInvalid), 0)
  }

  /** __wcrtomb_internal on the state object ps; mb is null or holds MB_CUR_MAX bytes. */
  method WcrtombInternal(ps: MbState, mb: array?<int>, wc: wchar, codeset: nat, curMax: int,
                         winResult: nat, winInvalid: bool)
    returns (r: int, errno: int)
    requires mb != null ==> curMax <= mb.Length
    modifies ps, mb
    ensures Reports(WcrtombStep(old(ps.state), mb == null, wc, codeset, curMax,
                                winResult, winInvalid).out, r, errno)
    ensures ps.state == WcrtombStep(old(ps.state), mb == null, wc, codeset, curMax,
                                    winResult, winInvalid).state
    ensures mb != null && (old(ps.state) != 0 ==> !IsLow(wc)) && (IsHigh(wc) || IsLow(wc)) ==>
      mb[..] == old(mb[..])
  {
    if ps.state != 0 {
      if IsHigh(ps.state) && IsLow(wc) {
        var buf := [ps.state, wc];
        ps.state := 0;
        r, errno := WctombConvert(codeset, mb, curMax, buf, 2, winResult, winInvalid);
      } else {
        ps.state := 0;
        r, errno := SIZE_MAX, EILSEQ;
      }
      return;
    }
    if mb == null {
      return 1, 0;
    }
    if IsHigh(wc) {
      ps.state := wc;
      return 0, 0;
    }
    if IsLow(wc) {
      return SIZE_MAX, EILSEQ;
    }
    r, errno := WctombConvert(codeset, mb, curMax, [wc], 1, winResult, winInvalid);
  }

  /**
   * The public wcrtomb: a null ps selects the library's own internal state
   * object, which is passed in as internal.
   */
  method Wcrtomb(mb: array?<int>, wc: wchar, ps: MbState?, internal: MbState, codeset: nat,
                 curMax: int, winResult: nat, winInvalid: bool)
    returns (r: int, errno: int)
    requires mb != null ==> curMax <= mb.Length
    modifies ps, internal, mb
    ensures var used := if ps == null then internal else ps;
      var step := WcrtombStep(old(used.state), mb == null, wc, codeset, curMax,
                              winResult, winInvalid);
      Reports(step.out, r, errno) && used.state == step.state
    ensures ps != null && ps != internal ==> internal.state == old(internal.state)
  {
    var used := if ps == null then internal else ps;
    r, errno := WcrtombInternal(used, mb, wc, codeset, curMax, winResult, winInvalid);
  }

  /** With no pending state, a null buffer reports one byte and leaves no state. */
  lemma NullBufferIsOneByte(wc: wchar, codeset: nat, curMax: int, winResult: nat, winInvalid: bool)
    ensures WcrtombStep(0, true, wc, codeset, curMax, winResult, winInvalid) == Step(Converted(1), 0)
  {
  }

  /**
   * Whatever the state, a call never leaves anything but the initial
   * state or a high surrogate it was just given.
   */
  lemma StateIsZeroOrHigh(state: wchar, mbNull: bool, wc: wchar, codeset: nat, curMax: int,
                          winResult: nat, winInvalid: bool)
    ensures var s := WcrtombStep(state, mbNull, wc, codeset, curMax, winResult, winInvalid);
      s.state == 0 || IsHigh(s.state)
  {
  }

  /**
   * A pending state followed by anything but a low surrogate is EILSEQ and
   * resets the state, and an orphan low surrogate is EILSEQ.
   */
  lemma UnpairedIsIllegal(state: wchar, mbNull: bool, wc: wchar, codeset: nat, curMax: int,
                          winResult: nat, winInvalid: bool)
    requires (state != 0 && !IsLow(wc)) || (state == 0 && !mbNull && IsLow(wc))
    ensures WcrtombStep(state, mbNull, wc, codeset, curMax, winResult, winInvalid)
      == Step(Failed(EILSEQ), 0)
  {
  }

  /**
   * Feeding a surrogate pair one unit per call, starting from the initial
   * state, reports the same outcome as converting the pair in one go, and
   * returns to the initial state.
   */
  lemma SplitPairMatchesWhole(hi: wchar, lo: wchar, codeset: nat, curMax: int,
                              winResult: nat, winInvalid: bool)
    requires IsHigh(hi) && IsLow(lo)
    ensures var first := WcrtombStep(0, false, hi, codeset, curMax, winResult, winInvalid);
      first == Step(Converted(0), hi)
      && WcrtombStep(first.state, false, lo, codeset, curMax, winResult, winInvalid)
         == Step(ConvertOutcome(codeset, true, curMax, [hi, lo], 2, winResult, winInvalid), 0)
  {
    assert hi != 0;
  }

  /**
   * For UTF-7 and UTF-8 a split pair always passes the surrogate scan, so
   * its outcome is the foreign converter's count.
   */
  lemma SplitPairIsWellFormed(hi: wchar, lo: wchar, codeset: nat, curMax: int,
                              winResult: nat, winInvalid: bool)
    requires IsHigh(hi) && IsLow(lo) && codeset >= CP_UTF7 && winResult > 0
    ensures WcrtombStep(hi, false, lo, codeset, curMax, winResult, winInvalid).out
      == Converted(winResult)
  {
    var s := Checked([hi, lo], 2);
    assert s == [hi, lo];
    assert PairedAt(s, 0) && PairedAt(s, 1);
    assert hi != 0;
  }

  /** In the "C" locale a surrogate pair, which is above UCHAR_MAX, is EILSEQ. */
  lemma Codeset0RejectsPair(hi: wchar, lo: wchar, curMax: int, winResult: nat, winInvalid: bool)
    requires IsHigh(hi) && IsLow(lo)
    ensures WcrtombStep(hi, false, lo, 0, curMax, winResult, winInvalid).out == Failed(EILSEQ)
  {
    assert hi != 0;
    var s := Consumed([hi, lo], 2);
    assert s[0] == hi;
    WideUnitBeforeBufferEnd(s, curMax, 0);
  }
}
