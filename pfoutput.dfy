/**
 * The output side of __pformat: the output control block with its
 * quota, and the handlers that place characters, strings and integers
 * into it (__pformat_putc, __pformat_putchars, __pformat_puts,
 * __pformat_wputchars, __pformat_wcputs, __pformat_int, __pformat_xint).
 *
 * Every handler is specified by the text it sends to __pformat_putc: the
 * stream keeps that text, untruncated, as its ghost log, and its
 * invariant says which prefix of the log reached the FILE or the buffer.
 */
module PfOutput {
  import opened CInt
  import PfIndex

  const PFORMAT_IGNORE: int := -1
  const CHAR_MAX: int := 127

  function Min(a: int, b: int): int { if a <= b then a else b }
  function Max(a: int, b: int): int { if a <= b then b else a }

  function Spaces(n: nat): (r: seq<char>)
    ensures |r| == n
  {
    seq(n, _ => ' ')
  }

  function Zeros(n: nat): (r: seq<char>)
    ensures |r| == n
  {
    seq(n, _ => '0')
  }

  /** The formatting flags of one conversion specification (the bits of __pformat_t.flags it uses). */
  datatype Flags = Flags(
    hashed: bool,     // '#'
    ljustify: bool,   // '-'
    zerofill: bool,   // '0'
    positive: bool,   // '+'
    negative: bool,   // a signed conversion; cleared for a non-negative value
    addspace: bool,   // ' '
    xcase: bool,      // lower-case letters for the 'a', 'e', 'f' and 'g' forms
    ldouble: bool,    // 'L'
    grouped: bool)    // '\''

  const NoFlags := Flags(false, false, false, false, false, false, false, false, false)

  /** The flags, field width and precision of a conversion; PFORMAT_IGNORE is -1. */
  datatype Spec = Spec(flags: Flags, width: int, precision: int)

  /**
   * What the handlers need of the locale: the grouping string (its C char
   * values, without the terminating NUL), whether the thousands separator
   * converts to a wide character (mbrtowc), the bytes that wide character
   * converts back to (wcrtomb; empty when that fails), and the multibyte
   * conversion of wide characters for %lc and %ls (absent: wcrtomb fails).
   */
  datatype Locale = Locale(grouping: seq<int>, tsValid: bool, tsBytes: seq<char>, wide: map<int, seq<char>>)

  // ---------------------------------------------------------------- the stream

  /**
   * The prefix of the generated text `out` that __pformat_putc lets
   * through: all of it without a limit, else the first `quota` characters.
   */
  function Delivered(out: seq<char>, noLimit: bool, quota: int): (r: seq<char>)
    ensures |r| <= |out| && r == out[..|r|]
    ensures noLimit ==> r == out
    ensures !noLimit ==> |r| == Min(|out|, Max(quota, 0))
  {
    if noLimit then out else out[..Min(|out|, Max(quota, 0))]
  }

  /**
   * __pformat_t's output part: the destination (a FILE, or a character
   * buffer), the count of characters generated so far and the quota.
   * The output to a FILE is the sequence `file`.
   */
  class Stream {
    const toFile: bool
    const noLimit: bool
    const quota: int
    const dest: array<char>
    var file: seq<char>
    var count: int
    /** Every character passed to __pformat_putc, in order. */
    ghost var log: seq<char>
    /** The buffer's contents before the first character was placed. */
    ghost const initial: seq<char>

    /** The prefix of `out` that __pformat_putc lets through. */
    ghost function Visible(out: seq<char>): seq<char>
      reads this
    {
      Delivered(out, noLimit, quota)
    }

    ghost predicate Valid()
      reads this, dest
    {
      count == |log| && |initial| == dest.Length &&
      (!toFile && !noLimit ==> quota <= dest.Length) &&
      (toFile ==> file == Visible(log) && dest[..] == initial) &&
      (!toFile ==> file == [] && |Visible(log)| <= dest.Length) &&
      (!toFile ==> dest[..] == Visible(log) + initial[|Visible(log)|..])
    }

    /**
     * The caller's guarantee that n more characters fit: an unlimited
     * buffer (sprintf) must be large enough for everything.
     */
    predicate Fits(n: nat)
      reads this
    {
      toFile || !noLimit || count + n <= dest.Length
    }

    constructor (toFile: bool, noLimit: bool, dest: array<char>, quota: int)
      requires !toFile && !noLimit ==> quota <= dest.Length
      ensures Valid() && fresh(this)
      ensures this.toFile == toFile && this.noLimit == noLimit && this.dest == dest && this.quota == quota
      ensures log == [] && count == 0 && file == [] && initial == dest[..]
    {
      this.toFile := toFile;
      this.noLimit := noLimit;
      this.dest := dest;
      this.quota := quota;
      file := [];
      count := 0;
      log := [];
      initial := dest[..];
    }

    lemma VisibleSnoc(out: seq<char>, c: char)
      ensures Visible(out + [c]) ==
        if noLimit || quota > |out| then Visible(out) + [c] else Visible(out)
    {
      if !noLimit && quota > |out| {
        assert (out + [c])[..|out| + 1] == out + [c];
      } else if !noLimit {
        assert (out + [c])[..Min(|out|, Max(quota, 0))] == out[..Min(|out|, Max(quota, 0))];
      }
    }

    /** __pformat_putc: store c if the quota allows, and count it in any case. */
    method Putc(c: char)
      requires Valid() && Fits(1)
      modifies this, dest
      ensures Valid() && log == old(log) + [c] && count == old(count) + 1
      ensures var writes := noLimit || quota > old(count);
        file == (if toFile && writes then old(file) + [c] else old(file)) &&
        dest[..] == (if !toFile && writes then old(dest[..])[old(count) := c] else old(dest[..]))
    {
      VisibleSnoc(log, c);
      ghost var v := Visible(log);
      if noLimit || quota > count {
        if toFile {
          file := file + [c];
        } else {
          dest[count] := c;
          assert dest[..] == (v + [c]) + initial[|v| + 1..];
        }
      }
      count := count + 1;
      log := log + [c];
    }

    /** The `while( len-- > 0 ) __pformat_putc( *p++, stream )` loops. */
    method PutAll(t: seq<char>)
      requires Valid() && Fits(|t|)
      modifies this, dest
      ensures Valid() && log == old(log) + t
    {
      var i := 0;
      while i < |t|
        invariant 0 <= i <= |t| && Valid() && log == old(log) + t[..i]
        invariant Fits(|t| - i)
      {
        Putc(t[i]);
        assert t[..i + 1] == t[..i] + [t[i]];
        i := i + 1;
      }
      assert t[..i] == t;
    }

    /** The blank padding loops of every handler. */
    method PutSpaces(n: int)
      requires Valid() && Fits(Max(n, 0))
      modifies this, dest
      ensures Valid() && log == old(log) + Spaces(Max(n, 0))
    {
      var w := n;
      while w > 0
        invariant Valid() && w <= Max(n, 0) && log == old(log) + Spaces(Max(n, 0) - Max(w, 0))
        invariant Fits(Max(w, 0))
      {
        Putc(' ');
        assert Spaces(Max(n, 0) - (w - 1)) == Spaces(Max(n, 0) - w) + [' '];
        w := w - 1;
      }
    }

    // ---------------------------------------------------------------- %c and %s

    /** __pformat_putchars: s[..count], cut to the precision and padded to the width. */
    method PutChars(s: seq<char>, count: nat, sp: Spec)
      requires count <= |s| && Valid() && Fits(|CharsText(s, count, sp)|)
      modifies this, dest
      ensures Valid() && log == old(log) + CharsText(s, count, sp)
    {
      var n := count;
      if sp.precision >= 0 && n > sp.precision {
        n := sp.precision;
      }
      var width := if sp.width > n then sp.width - n else PFORMAT_IGNORE;
      var lj := sp.flags.ljustify;
      assert n == Clip(count, sp.precision) && Max(width, 0) == Pad(n, sp.width);
      PutField(s[..n], width, lj);
    }

    /**
     * The padding and emission common to __pformat_putchars and the
     * integer handlers: width blanks before the body unless '-', then the
     * body, then what is left of the width.
     */
    method PutField(body: seq<char>, width: int, lj: bool)
      requires Valid() && Fits(|body| + Max(width, 0))
      modifies this, dest
      ensures Valid() && log == old(log) + Field(body, Max(width, 0), lj)
    {
      ghost var pad := Max(width, 0);
      ghost var start := log;
      var w := width;
      if w > 0 && !lj {
        PutSpaces(w);
        w := PFORMAT_IGNORE;
      }
      ghost var left := if lj then [] else Spaces(pad);
      ghost var right := if lj then Spaces(pad) else [];
      assert Spaces(0) == [];
      assert log == start + left;
      assert Max(w, 0) == if lj then pad else 0;
      PutAll(body);
      PutSpaces(w);
      assert log == start + left + body + right;
      Associative(start, left + body, right);
      Associative(start, left, body);
      assert Field(body, pad, lj) == left + body + right;
    }

    /** __pformat_puts: a NULL string is printed as "(null)". */
    method Puts(s: Option<seq<char>>, sp: Spec)
      requires Valid() && Fits(|StringText(s, sp)|)
      modifies this, dest
      ensures Valid() && log == old(log) + StringText(s, sp)
    {
      var t := if s.Some? then s.value else "(null)";
      PutChars(t, StrLen(t), sp);
    }

    /**
     * __pformat_wputchars: ws[..count], cut to the precision, each wide
     * character converted by wcrtomb until one fails; the padding counts
     * wide characters, not bytes.
     */
    method WPutChars(ws: seq<int>, count: nat, sp: Spec, loc: Locale)
      requires count <= |ws| && Valid() && Fits(|WideText(ws, count, sp, loc)|)
      modifies this, dest
      ensures Valid() && log == old(log) + WideText(ws, count, sp, loc)
    {
      var n := count;
      if sp.precision >= 0 && n > sp.precision {
        n := sp.precision;
      }
      var width := if sp.width > n then sp.width - n else PFORMAT_IGNORE;
      var lj := sp.flags.ljustify;
      assert n == Clip(count, sp.precision) && Max(width, 0) == Pad(n, sp.width);
      PutWideField(ws[..n], width, lj, loc);
    }

    /** PutField for wide characters: the width counts wide characters, the body is their conversion. */
    method PutWideField(ws: seq<int>, width: int, lj: bool, loc: Locale)
      requires Valid() && Fits(|Converted(ws, loc)| + Max(width, 0))
      modifies this, dest
      ensures Valid() && log == old(log) + Field(Converted(ws, loc), Max(width, 0), lj)
    {
      ghost var pad := Max(width, 0);
      ghost var start := log;
      var w := width;
      if w > 0 && !lj {
        PutSpaces(w);
        w := PFORMAT_IGNORE;
      }
      ghost var left := if lj then [] else Spaces(pad);
      ghost var right := if lj then Spaces(pad) else [];
      ghost var body := Converted(ws, loc);
      assert Spaces(0) == [];
      assert log == start + left;
      assert Max(w, 0) == if lj then pad else 0;
      PutWide(ws, loc);
      PutSpaces(w);
      assert log == start + left + body + right;
      Associative(start, left + body, right);
      Associative(start, left, body);
      assert Field(body, pad, lj) == left + body + right;
    }

    /** The conversion loop of __pformat_wputchars: stop at the first wide character wcrtomb rejects. */
    method PutWide(ws: seq<int>, loc: Locale)
      requires Valid() && Fits(|Converted(ws, loc)|)
      modifies this, dest
      ensures Valid() && log == old(log) + Converted(ws, loc)
    {
      var i := 0;
      while i < |ws| && Converts(loc, ws[i])
        invariant 0 <= i <= |ws| && Valid()
        invariant log + Converted(ws[i..], loc) == old(log) + Converted(ws, loc)
        invariant Fits(|Converted(ws[i..], loc)|)
      {
        assert ws[i..][1..] == ws[i + 1..];
        PutAll(loc.wide[ws[i]]);
        i := i + 1;
      }
    }

    /** __pformat_wcputs: a NULL string is printed as L"(null)". */
    method WcPuts(ws: Option<seq<int>>, sp: Spec, loc: Locale)
      requires Valid() && Fits(|WStringText(ws, sp, loc)|)
      modifies this, dest
      ensures Valid() && log == old(log) + WStringText(ws, sp, loc)
    {
      var t := if ws.Some? then ws.value else WNull();
      WPutChars(t, WcsLen(t), sp, loc);
    }

    // ---------------------------------------------------------------- %d %i %u

    /** The emission loop of the integer handlers: the LIFO buffer, last pushed first. */
    method EmitLifo(buf: seq<char>, sep: seq<char>)
      requires Valid() && Fits(|Emitted(buf, sep)|)
      modifies this, dest
      ensures Valid() && log == old(log) + Emitted(buf, sep)
    {
      var p := |buf|;
      assert buf[..p] == buf;
      while p > 0
        invariant 0 <= p <= |buf| && Valid()
        invariant log + Emitted(buf[..p], sep) == old(log) + Emitted(buf, sep)
        invariant Fits(|Emitted(buf[..p], sep)|)
      {
        var t := EmitDigit(buf[p - 1], sep);
        EmittedLast(buf, p, sep);
        ghost var before := log;
        PutAll(t);
        Associative(before, t, Emitted(buf[..p - 1], sep));
        p := p - 1;
      }
      assert buf[..0] == [];
    }

    /**
     * __pformat_int for the 64 bits in raw (a signed value when the
     * negative flag is set): digits, most significant first, with the
     * locale's separators, zero-padded to the precision, signed, and
     * padded to the field width.
     */
    method Int(raw: nat, sp: Spec, loc: Locale)
      requires raw < TWO64 && Valid() && Fits(|IntText(raw, sp, loc)|)
      modifies this, dest
      ensures Valid() && log == old(log) + IntText(raw, sp, loc)
    {
      var neg, body := IntDigits(raw, sp, loc);
      var lead, buf, trail := Frame(body, neg, sp);
      ghost var l := IntLayout(raw, sp, loc);
      assert l == Layout(lead, buf, trail);
      ghost var start := log;
      PutSpaces(lead);
      EmitLifo(buf, loc.tsBytes);
      PutSpaces(trail);
      Associative(start, Spaces(lead), Emitted(buf, loc.tsBytes));
      Associative(start, Spaces(lead) + Emitted(buf, loc.tsBytes), Spaces(trail));
    }

    // ---------------------------------------------------------------- %o %x %X %p

    /** The emission loop of __pformat_xint: putc of each queued character, last pushed first. */
    method PutLifo(buf: seq<char>)
      requires Valid() && Fits(|buf|)
      modifies this, dest
      ensures Valid() && log == old(log) + Reversed(buf)
    {
      var p := |buf|;
      assert buf[..p] == buf;
      while p > 0
        invariant 0 <= p <= |buf| && Valid()
        invariant log + Reversed(buf[..p]) == old(log) + Reversed(buf)
        invariant Fits(p)
      {
        ReversedLast(buf, p);
        ghost var before := log;
        Putc(buf[p - 1]);
        Associative(before, [buf[p - 1]], Reversed(buf[..p - 1]));
        p := p - 1;
      }
      assert buf[..0] == [];
    }

    /**
     * __pformat_xint for the 64 bits in v, in octal for 'o' and in
     * hexadecimal otherwise, with '#' handled as C99 requires (see
     * XIntLayout).
     */
    method XInt(v: nat, fmt: char, sp: Spec)
      requires v < TWO64 && fmt in "oxX" && Valid() && Fits(|XIntText(v, fmt, sp, false)|)
      modifies this, dest
      ensures Valid() && log == old(log) + XIntText(v, fmt, sp, false)
    {
      var hashed, body := XIntDigits(v, fmt, sp);
      var lead, buf, trail := XFrame(body, fmt, sp, hashed);
      ghost var start := log;
      PutSpaces(lead);
      PutLifo(buf);
      PutSpaces(trail);
      Associative(start, Spaces(lead), Reversed(buf));
      Associative(start, Spaces(lead) + Reversed(buf), Spaces(trail));
    }
  }

  datatype Option<T> = None | Some(value: T)


  /** The width of padding a field of n characters needs. */
  function Pad(n: nat, width: int): nat
  {
    if width > n then width - n else 0
  }

  /**
   * A field: the body with pad blanks, on the right when left-justified
   * and on the left otherwise.
   */
  function Field(body: seq<char>, pad: nat, left: bool): (r: seq<char>)
    ensures |r| == |body| + pad
  {
    if left then body + Spaces(pad) else Spaces(pad) + body
  }

  /** The precision-limited count of characters %c and %s take. */
  function Clip(count: nat, precision: int): (n: nat)
    ensures n <= count
    ensures n == if 0 <= precision < count then precision else count
  {
    if precision >= 0 && count > precision then precision else count
  }

  /** The text __pformat_putchars emits. */
  function CharsText(s: seq<char>, count: nat, sp: Spec): seq<char>
    requires count <= |s|
  {
    var n := Clip(count, sp.precision);
    Field(s[..n], Pad(n, sp.width), sp.flags.ljustify)
  }

  /**
   * %c and %s emit min(count, precision) characters of s, filling the
   * field width with blanks on the left, or on the right under '-'.
   */
  lemma CharsTextShape(s: seq<char>, count: nat, sp: Spec)
    requires count <= |s|
    ensures var r := CharsText(s, count, sp); var n := Clip(count, sp.precision);
      |r| == Max(sp.width, n) &&
      (sp.flags.ljustify ==> r[..n] == s[..n] && r[n..] == Spaces(|r| - n)) &&
      (!sp.flags.ljustify ==> r[|r| - n..] == s[..n] && r[..|r| - n] == Spaces(|r| - n))
  {
  }

  /** The text __pformat_puts emits. */
  function StringText(s: Option<seq<char>>, sp: Spec): seq<char>
  {
    var t := if s.Some? then s.value else "(null)";
    CharsText(t, StrLen(t), sp)
  }

  /** wcrtomb succeeds for w and gives at least one byte. */
  predicate Converts(loc: Locale, w: int)
  {
    w in loc.wide && loc.wide[w] != []
  }

  /** The bytes wcrtomb gives for ws, up to the first wide character it rejects. */
  function Converted(ws: seq<int>, loc: Locale): seq<char>
  {
    if ws == [] || !Converts(loc, ws[0]) then [] else loc.wide[ws[0]] + Converted(ws[1..], loc)
  }

  /** The text __pformat_wputchars emits. */
  function WideText(ws: seq<int>, count: nat, sp: Spec, loc: Locale): (r: seq<char>)
    requires count <= |ws|
  {
    var n := Clip(count, sp.precision);
    Field(Converted(ws[..n], loc), Pad(n, sp.width), sp.flags.ljustify)
  }

  /** L"(null)". */
  function WNull(): seq<int>
  {
    ['(' as int, 'n' as int, 'u' as int, 'l' as int, 'l' as int, ')' as int]
  }

  /** wcslen(): the wide characters before the first 0. */
  function WcsLen(ws: seq<int>): (n: nat)
    ensures n <= |ws| && forall k | 0 <= k < n :: ws[k] != 0
    ensures n < |ws| ==> ws[n] == 0
  {
    if ws == [] || ws[0] == 0 then 0 else 1 + WcsLen(ws[1..])
  }

  /** The text __pformat_wcputs emits. */
  function WStringText(ws: Option<seq<int>>, sp: Spec, loc: Locale): seq<char>
  {
    var t := if ws.Some? then ws.value else WNull();
    WideText(t, WcsLen(t), sp, loc)
  }

  // ---------------------------------------------------------------- integer layout

  /** The grouping state of __pformat_int's digit loop: grouping NULL, or the counter and position. */
  datatype Grouping = Off | On(size: int, at: nat)

  /** The grouping string's entry at i; its terminating NUL past the end. */
  function GAt(g: seq<int>, i: nat): int
  {
    if i < |g| then g[i] else 0
  }

  /**
   * __pformat_enable_thousands_grouping: grouping is viable when the
   * grouping string is not empty, its first size is below CHAR_MAX, and
   * the separator converts to a wide character.
   */
  predicate Viable(loc: Locale)
  {
    |loc.grouping| > 0 && loc.grouping[0] < CHAR_MAX && loc.tsValid
  }

  /** The grouping __pformat_int starts with: only for '\'', a viable locale and a first size above zero. */
  function GroupStart(sp: Spec, loc: Locale): Grouping
  {
    if sp.flags.grouped && Viable(loc) && loc.grouping[0] > 0 then On(loc.grouping[0], 0) else Off
  }

  datatype GroupStep = GroupStep(sep: bool, next: Grouping)

  /**
   * The grouping test before each digit: at a group boundary, move to the
   * next size (or repeat the last), stop grouping at CHAR_MAX, and mark a
   * separator.
   */
  function NextGroup(g: Grouping, grouping: seq<int>): GroupStep
  {
    match g
    case Off => GroupStep(false, Off)
    case On(size, at) =>
      if size != 0 then GroupStep(false, On(size - 1, at))
      else
        var at2 := if GAt(grouping, at + 1) != 0 then at + 1 else at;
        var size2 := GAt(grouping, at2);
        if size2 == CHAR_MAX then GroupStep(true, Off) else GroupStep(true, On(size2 - 1, at2))
  }

  function DigitChar(d: nat): char
    requires d < 10
  {
    ('0' as int + d) as char
  }

  /** The LIFO buffer of __pformat_int's digit loop for the magnitude u: least significant digit first. */
  function Lifo(u: nat, g: Grouping, grouping: seq<int>): seq<char>
    decreases u
  {
    if u == 0 then []
    else
      var st := NextGroup(g, grouping);
      (if st.sep then [','] else []) + [DigitChar(u % 10)] + Lifo(u / 10, st.next, grouping)
  }

  /** __pformat_emit_digit: ',' stands for the locale's separator bytes. */
  function EmitDigit(c: char, sep: seq<char>): seq<char>
  {
    if c == ',' then sep else [c]
  }

  /** What the emission loop sends for a LIFO buffer. */
  function Emitted(buf: seq<char>, sep: seq<char>): seq<char>
  {
    if buf == [] then [] else EmitDigit(buf[|buf| - 1], sep) + Emitted(buf[..|buf| - 1], sep)
  }

  /** Blanks before, the LIFO buffer, blanks after. */
  datatype Layout = Layout(lead: nat, buf: seq<char>, trail: nat)

  /** Whether __pformat_int prints raw as a negative value. */
  predicate Negated(raw: nat, sp: Spec)
  {
    sp.flags.negative && raw >= TWO63
  }

  /** The magnitude __pformat_int converts: raw, or its two's complement negation. */
  function Magnitude(raw: nat, sp: Spec): int
  {
    if Negated(raw, sp) then TWO64 - raw else raw
  }

  /** __pformat_int's buffer before sign and width: digits, precision zeros, and the lone '0'. */
  function Body(raw: nat, sp: Spec, loc: Locale): seq<char>
    requires raw < TWO64
  {
    var d := Lifo(Magnitude(raw, sp), GroupStart(sp, loc), loc.grouping);
    var p := if sp.precision > 0 && sp.precision - |d| > 0 then d + Zeros(sp.precision - |d|) else d;
    if |p| == 0 && sp.precision != 0 then p + ['0'] else p
  }

  /** The sign character ahead of the digits, as a LIFO tail. */
  function SignOf(neg: bool, sp: Spec): seq<char>
  {
    if neg then ['-'] else if sp.flags.positive then ['+'] else if sp.flags.addspace then [' '] else []
  }

  /** The field width step of the signed conversions, around the LIFO buffer b. */
  function FrameOf(b: seq<char>, neg: bool, sp: Spec): Layout
  {
    var signed := neg || sp.flags.positive || sp.flags.addspace;
    var sign := SignOf(neg, sp);
    if sp.width > 0 && sp.width - |b| > 0 then
      var w := sp.width - |b| - (if signed then 1 else 0);
      if sp.precision < 0 && sp.flags.zerofill && !sp.flags.ljustify then Layout(0, b + Zeros(Max(w, 0)) + sign, 0)
      else if !sp.flags.ljustify then Layout(Max(w, 0), b + sign, 0)
      else Layout(0, b + sign, Max(w, 0))
    else Layout(0, b + sign, 0)
  }

  /** The field __pformat_int lays out. */
  function IntLayout(raw: nat, sp: Spec, loc: Locale): Layout
    requires raw < TWO64
  {
    FrameOf(Body(raw, sp, loc), Negated(raw, sp), sp)
  }

  /** The text __pformat_int emits. */
  function IntText(raw: nat, sp: Spec, loc: Locale): seq<char>
    requires raw < TWO64
  {
    FrameOut(IntLayout(raw, sp, loc), loc.tsBytes)
  }

  /** Sign detection, digit loop and precision step of __pformat_int. */
  method IntDigits(raw: nat, sp: Spec, loc: Locale) returns (neg: bool, buf: seq<char>)
    requires raw < TWO64
    ensures neg == Negated(raw, sp) && buf == Body(raw, sp, loc)
  {
    neg := false;
    var value := raw;
    if sp.flags.negative && raw >= TWO63 {
      neg := true;
      value := TWO64 - raw;
    }
    buf := DecimalDigits(value, GroupStart(sp, loc), loc.grouping);
    if sp.precision > 0 && sp.precision - |buf| > 0 {
      buf := PushZeros(buf, sp.precision - |buf|);
    }
    if |buf| == 0 && sp.precision != 0 {
      buf := buf + ['0'];
    }
  }

  /** Width, zero fill and sign step of __pformat_int: the blanks before and after the LIFO buffer. */
  method Frame(body: seq<char>, neg: bool, sp: Spec) returns (lead: nat, buf: seq<char>, trail: nat)
    ensures Layout(lead, buf, trail) == FrameOf(body, neg, sp)
  {
    buf := body;
    var width := sp.width;
    lead := 0;
    if width > 0 {
      width := width - |buf|;
      if width > 0 {
        if neg || sp.flags.positive || sp.flags.addspace {
          width := width - 1;
        }
        if sp.precision < 0 && sp.flags.zerofill && !sp.flags.ljustify {
          buf := PushZeros(buf, Max(width, 0));
          width := PFORMAT_IGNORE;
        } else if !sp.flags.ljustify {
          lead := Max(width, 0);
          width := PFORMAT_IGNORE;
        }
      }
    }
    if neg {
      buf := buf + ['-'];
    } else if sp.flags.positive {
      buf := buf + ['+'];
    } else if sp.flags.addspace {
      buf := buf + [' '];
    }
    trail := Max(width, 0);
  }

  /** The digit loop of __pformat_int. */
  method DecimalDigits(u: nat, g: Grouping, grouping: seq<int>) returns (buf: seq<char>)
    ensures buf == Lifo(u, g, grouping)
  {
    buf := [];
    var value := u;
    var gr := g;
    while value != 0
      invariant buf + Lifo(value, gr, grouping) == Lifo(u, g, grouping)
    {
      var st := NextGroup(gr, grouping);
      var piece := (if st.sep then [','] else []) + [DigitChar(value % 10)];
      assert Lifo(value, gr, grouping) == piece + Lifo(value / 10, st.next, grouping);
      Associative(buf, piece, Lifo(value / 10, st.next, grouping));
      buf := buf + piece;
      value := value / 10;
      gr := st.next;
    }
  }

  /** The `while( n-- > 0 ) *p++ = '0'` loops. */
  method PushZeros(buf: seq<char>, n: nat) returns (r: seq<char>)
    ensures r == buf + Zeros(n)
  {
    r := buf;
    var k := 0;
    while k < n
      invariant k <= n && r == buf + Zeros(k)
    {
      r := r + ['0'];
      assert Zeros(k + 1) == Zeros(k) + ['0'];
      k := k + 1;
    }
  }

  // ---------------------------------------------------------------- integer properties

  /** The emission loop reverses the buffer, so a concatenation is emitted back to front. */
  lemma {:induction false} EmittedAppend(a: seq<char>, b: seq<char>, sep: seq<char>)
    ensures Emitted(a + b, sep) == Emitted(b, sep) + Emitted(a, sep)
    decreases |b|
  {
    if b == [] {
      assert a + b == a;
    } else {
      var b' := b[..|b| - 1];
      assert (a + b)[..|a + b| - 1] == a + b';
      EmittedAppend(a, b', sep);
      Associative(EmitDigit(b[|b| - 1], sep), Emitted(b', sep), Emitted(a, sep));
    }
  }

  lemma {:induction false} EmittedZeros(n: nat, sep: seq<char>)
    ensures Emitted(Zeros(n), sep) == Zeros(n)
  {
    if n > 0 {
      assert Zeros(n)[..n - 1] == Zeros(n - 1);
      EmittedZeros(n - 1, sep);
      assert ['0'] + Zeros(n - 1) == Zeros(n);
    }
  }

  lemma EmittedChar(c: char, sep: seq<char>)
    requires c != ','
    ensures Emitted([c], sep) == [c]
  {
    assert [c][..0] == [];
  }

  /** One step of the emission loop: the character at p - 1 goes out first. */
  lemma EmittedLast(buf: seq<char>, p: nat, sep: seq<char>)
    requires 0 < p <= |buf|
    ensures Emitted(buf[..p], sep) == EmitDigit(buf[p - 1], sep) + Emitted(buf[..p - 1], sep)
  {
    assert buf[..p][..p - 1] == buf[..p - 1];
  }

  lemma ReversedLast(buf: seq<char>, p: nat)
    requires 0 < p <= |buf|
    ensures Reversed(buf[..p]) == [buf[p - 1]] + Reversed(buf[..p - 1])
  {
    assert buf[..p][..p - 1] == buf[..p - 1];
  }

  /** With a one-byte separator, or none to place, every buffer character becomes one output character. */
  lemma {:induction false} EmittedLength(buf: seq<char>, sep: seq<char>)
    requires |sep| == 1 || ',' !in buf
    ensures |Emitted(buf, sep)| == |buf|
  {
    if buf != [] {
      assert forall c :: c in buf[..|buf| - 1] ==> c in buf;
      EmittedLength(buf[..|buf| - 1], sep);
    }
  }

  /** Without grouping the digit loop leaves the decimal numeral, least significant digit first. */
  lemma {:induction false} IntDecimal(u: nat, grouping: seq<int>, sep: seq<char>)
    requires u > 0
    ensures Emitted(Lifo(u, Off, grouping), sep) == PfIndex.Decimal(u)
    decreases u
  {
    var d := DigitChar(u % 10);
    assert Lifo(u, Off, grouping) == [d] + Lifo(u / 10, Off, grouping);
    EmittedAppend([d], Lifo(u / 10, Off, grouping), sep);
    EmittedChar(d, sep);
    if u / 10 > 0 {
      IntDecimal(u / 10, grouping, sep);
    } else {
      assert Lifo(u / 10, Off, grouping) == [];
    }
  }

  /** Hence the digits read back as the value converted. */
  lemma IntRoundTrip(u: nat, grouping: seq<int>, sep: seq<char>)
    requires u > 0
    ensures PfIndex.DecValue(Emitted(Lifo(u, Off, grouping), sep)) == u
  {
    IntDecimal(u, grouping, sep);
    PfIndex.DecimalValue(u);
  }

  /**
   * The field layout of %d, %i and %u: the sign, the digits after
   * precision padding, and the padding up to the field width, with zeros
   * only for '0' without '-' or a precision, spaces on the right for '-'.
   */
  lemma IntShape(raw: nat, sp: Spec, loc: Locale)
    requires raw < TWO64
    ensures IntText(raw, sp, loc) == FieldText(Body(raw, sp, loc), Negated(raw, sp), sp, loc.tsBytes)
  {
    FrameText(Body(raw, sp, loc), Negated(raw, sp), sp, loc.tsBytes);
  }

  /**
   * A signed conversion's field, as C99 describes it: the sign, then the
   * digits, padded to the width with zeros after the sign for '0' (when
   * no precision is given and '-' is absent), with spaces before it
   * otherwise, or with spaces after the digits for '-'.
   */
  function FieldText(b: seq<char>, neg: bool, sp: Spec, sep: seq<char>): seq<char>
  {
    var sign := SignOf(neg, sp);
    var digits := Emitted(b, sep);
    var w := Max(sp.width - |b| - |sign|, 0);
    if !(sp.width > 0 && sp.width - |b| > 0) then sign + digits
    else if sp.precision < 0 && sp.flags.zerofill && !sp.flags.ljustify then sign + Zeros(w) + digits
    else if !sp.flags.ljustify then Spaces(w) + sign + digits
    else sign + digits + Spaces(w)
  }

  /** The text of a field laid out by FrameOf. */
  function FrameOut(l: Layout, sep: seq<char>): seq<char>
  {
    Spaces(l.lead) + Emitted(l.buf, sep) + Spaces(l.trail)
  }

  lemma FrameText(b: seq<char>, neg: bool, sp: Spec, sep: seq<char>)
    ensures FrameOut(FrameOf(b, neg, sp), sep) == FieldText(b, neg, sp, sep)
  {
    SignEmitted(neg, sp, sep);
    if !(sp.width > 0 && sp.width - |b| > 0) {
      FrameFits(b, neg, sp, sep);
    } else if sp.precision < 0 && sp.flags.zerofill && !sp.flags.ljustify {
      FrameZeroFill(b, neg, sp, sep);
    } else if !sp.flags.ljustify {
      FrameRight(b, neg, sp, sep);
    } else {
      FrameLeft(b, neg, sp, sep);
    }
  }

  lemma FrameFits(b: seq<char>, neg: bool, sp: Spec, sep: seq<char>)
    requires Emitted(SignOf(neg, sp), sep) == SignOf(neg, sp)
    requires !(sp.width > 0 && sp.width - |b| > 0)
    ensures FrameOut(FrameOf(b, neg, sp), sep) == FieldText(b, neg, sp, sep)
  {
    var sign := SignOf(neg, sp);
    assert FieldText(b, neg, sp, sep) == sign + Emitted(b, sep);
    assert FrameOf(b, neg, sp) == Layout(0, b + sign, 0);
    Unpadded(Emitted(b + sign, sep));
    EmittedAppend(b, sign, sep);
  }

  /** A layout without blanks emits just its buffer. */
  lemma Unpadded(e: seq<char>)
    ensures Spaces(0) + e + Spaces(0) == e
  {
    assert Spaces(0) == [];
    assert [] + e == e;
    assert e + [] == e;
  }

  lemma FrameZeroFill(b: seq<char>, neg: bool, sp: Spec, sep: seq<char>)
    requires Emitted(SignOf(neg, sp), sep) == SignOf(neg, sp)
    requires sp.width > 0 && sp.width - |b| > 0 && sp.precision < 0 && sp.flags.zerofill && !sp.flags.ljustify
    ensures FrameOut(FrameOf(b, neg, sp), sep) == FieldText(b, neg, sp, sep)
  {
    var sign := SignOf(neg, sp);
    var w := Max(sp.width - |b| - |sign|, 0);
    assert FieldText(b, neg, sp, sep) == sign + Zeros(w) + Emitted(b, sep);
    assert FrameOf(b, neg, sp) == Layout(0, b + Zeros(w) + sign, 0);
    Unpadded(Emitted(b + Zeros(w) + sign, sep));
    ZeroFilled(b, sign, w, sep);
  }

  lemma FrameRight(b: seq<char>, neg: bool, sp: Spec, sep: seq<char>)
    requires Emitted(SignOf(neg, sp), sep) == SignOf(neg, sp)
    requires sp.width > 0 && sp.width - |b| > 0 && !(sp.precision < 0 && sp.flags.zerofill) && !sp.flags.ljustify
    ensures FrameOut(FrameOf(b, neg, sp), sep) == FieldText(b, neg, sp, sep)
  {
    var sign := SignOf(neg, sp);
    var w := Max(sp.width - |b| - |sign|, 0);
    assert FieldText(b, neg, sp, sep) == Spaces(w) + sign + Emitted(b, sep);
    assert FrameOf(b, neg, sp) == Layout(w, b + sign, 0);
    RightText(b, sign, w, sep);
  }

  lemma RightText(b: seq<char>, sign: seq<char>, w: nat, sep: seq<char>)
    requires Emitted(sign, sep) == sign
    ensures Spaces(w) + Emitted(b + sign, sep) + Spaces(0) == Spaces(w) + sign + Emitted(b, sep)
  {
    assert Spaces(0) == [];
    EmittedAppend(b, sign, sep);
    var e := Spaces(w) + Emitted(b + sign, sep);
    assert e + [] == e;
    Associative(Spaces(w), sign, Emitted(b, sep));
  }

  lemma FrameLeft(b: seq<char>, neg: bool, sp: Spec, sep: seq<char>)
    requires Emitted(SignOf(neg, sp), sep) == SignOf(neg, sp)
    requires sp.width > 0 && sp.width - |b| > 0 && sp.flags.ljustify
    ensures FrameOut(FrameOf(b, neg, sp), sep) == FieldText(b, neg, sp, sep)
  {
    var sign := SignOf(neg, sp);
    var w := Max(sp.width - |b| - |sign|, 0);
    assert FieldText(b, neg, sp, sep) == sign + Emitted(b, sep) + Spaces(w);
    assert FrameOf(b, neg, sp) == Layout(0, b + sign, w);
    LeftText(b, sign, w, sep);
  }

  lemma LeftText(b: seq<char>, sign: seq<char>, w: nat, sep: seq<char>)
    requires Emitted(sign, sep) == sign
    ensures Spaces(0) + Emitted(b + sign, sep) + Spaces(w) == sign + Emitted(b, sep) + Spaces(w)
  {
    assert Spaces(0) == [];
    EmittedAppend(b, sign, sep);
    var e := Emitted(b + sign, sep);
    assert [] + e == e;
  }

  lemma SignEmitted(neg: bool, sp: Spec, sep: seq<char>)
    ensures Emitted(SignOf(neg, sp), sep) == SignOf(neg, sp)
  {
    var sign := SignOf(neg, sp);
    if sign != [] {
      EmittedChar(sign[0], sep);
    }
  }

  lemma ZeroFilled(b: seq<char>, sign: seq<char>, w: nat, sep: seq<char>)
    requires Emitted(sign, sep) == sign
    ensures Emitted(b + Zeros(w) + sign, sep) == sign + Zeros(w) + Emitted(b, sep)
  {
    EmittedAppend(b + Zeros(w), sign, sep);
    EmittedAppend(b, Zeros(w), sep);
    EmittedZeros(w, sep);
    Associative(sign, Zeros(w), Emitted(b, sep));
  }

  /** With a one-byte separator the text fills the field width exactly, or overflows it. */
  lemma IntWidth(raw: nat, sp: Spec, loc: Locale)
    requires raw < TWO64 && |loc.tsBytes| == 1
    ensures |IntText(raw, sp, loc)| == Max(sp.width, |Body(raw, sp, loc)| + |SignOf(Negated(raw, sp), sp)|)
  {
    IntShape(raw, sp, loc);
    EmittedLength(Body(raw, sp, loc), loc.tsBytes);
  }

  /** Without grouping the digit loop leaves one buffer character per decimal digit. */
  lemma LifoPlain(u: nat, grouping: seq<int>, sep: seq<char>)
    requires u > 0
    ensures var d := Lifo(u, Off, grouping);
            Emitted(d, sep) == PfIndex.Decimal(u) && |d| == |PfIndex.Decimal(u)| > 0
  {
    IntDecimal(u, grouping, sep);
    UngroupedTail(u, grouping);
    EmittedLength(Lifo(u, Off, grouping), sep);
  }

  /** The precision step on a buffer d whose emission is ds. */
  lemma PrecisionText(d: seq<char>, ds: seq<char>, precision: int, sep: seq<char>)
    requires Emitted(d, sep) == ds && |d| == |ds|
    ensures var p := if precision > 0 && precision - |d| > 0 then d + Zeros(precision - |d|) else d;
            Emitted(p, sep) == Zeros(Max(precision - |ds|, 0)) + ds
  {
    if precision > 0 && precision - |d| > 0 {
      var z := Zeros(precision - |d|);
      EmittedAppend(d, z, sep);
      EmittedZeros(precision - |d|, sep);
    } else {
      assert Zeros(0) == [];
      assert [] + ds == ds;
    }
  }

  /** Without grouping, a nonzero value is zero-padded on the left up to the precision. */
  lemma IntPrecision(raw: nat, sp: Spec, loc: Locale)
    requires raw < TWO64 && GroupStart(sp, loc) == Off && Magnitude(raw, sp) > 0
    ensures var ds := PfIndex.Decimal(Magnitude(raw, sp));
            Emitted(Body(raw, sp, loc), loc.tsBytes) == Zeros(Max(sp.precision - |ds|, 0)) + ds
  {
    var u := Magnitude(raw, sp);
    var d := Lifo(u, Off, loc.grouping);
    LifoPlain(u, loc.grouping, loc.tsBytes);
    PrecisionText(d, PfIndex.Decimal(u), sp.precision, loc.tsBytes);
  }

  /** A zero value prints as "0", as nothing for an explicit zero precision, or as precision zeros. */
  lemma IntZero(raw: nat, sp: Spec, loc: Locale)
    requires raw < TWO64 && Magnitude(raw, sp) == 0
    ensures Emitted(Body(raw, sp, loc), loc.tsBytes) ==
              if sp.precision == 0 then [] else if sp.precision < 0 then ['0'] else Zeros(sp.precision)
  {
    assert Lifo(0, GroupStart(sp, loc), loc.grouping) == [];
    assert [] + Zeros(Max(sp.precision, 0)) == Zeros(Max(sp.precision, 0));
    if sp.precision > 0 {
      EmittedZeros(sp.precision, loc.tsBytes);
    } else if sp.precision < 0 {
      EmittedChar('0', loc.tsBytes);
    }
  }

  /** With no precision and no grouping the digits are the decimal numeral of the magnitude. */
  lemma PlainDigits(raw: nat, sp: Spec, loc: Locale)
    requires raw < TWO64 && GroupStart(sp, loc) == Off && sp.precision < 0
    ensures Emitted(Body(raw, sp, loc), loc.tsBytes) == PfIndex.Decimal(Magnitude(raw, sp))
  {
    if Magnitude(raw, sp) > 0 {
      IntPrecision(raw, sp, loc);
      assert Zeros(0) == [];
      assert [] + PfIndex.Decimal(Magnitude(raw, sp)) == PfIndex.Decimal(Magnitude(raw, sp));
    } else {
      IntZero(raw, sp, loc);
      assert PfIndex.Decimal(0) == ['0'];
    }
  }

  /** The negative flag reads raw as a two's complement 64-bit value. */
  lemma SignedMagnitude(raw: nat, sp: Spec)
    requires raw < TWO64 && sp.flags.negative
    ensures Negated(raw, sp) <==> I64(raw) < 0
    ensures Magnitude(raw, sp) == if I64(raw) < 0 then -I64(raw) else I64(raw)
  {
  }

  /** A plain %d prints the value of raw read as a signed 64-bit integer. */
  lemma SignedDecimal(raw: nat, loc: Locale)
    requires raw < TWO64
    ensures var sp := Spec(NoFlags.(negative := true), PFORMAT_IGNORE, PFORMAT_IGNORE);
            var v := I64(raw);
            IntText(raw, sp, loc) == (if v < 0 then ['-'] else []) + PfIndex.Decimal(if v < 0 then -v else v)
  {
    var sp := Spec(NoFlags.(negative := true), PFORMAT_IGNORE, PFORMAT_IGNORE);
    IntShape(raw, sp, loc);
    PlainDigits(raw, sp, loc);
    SignedMagnitude(raw, sp);
  }

  /** The digit loop's reference grouping for a single group size n: a separator before every n-th digit. */
  function EveryN(u: nat, i: nat, n: nat): seq<char>
    requires n > 0
    decreases u
  {
    if u == 0 then []
    else (if i > 0 && i % n == 0 then [','] else []) + [DigitChar(u % 10)] + EveryN(u / 10, i + 1, n)
  }

  lemma ModNext(i: nat, n: nat)
    requires n > 0
    ensures i % n == n - 1 ==> (i + 1) % n == 0
    ensures i % n < n - 1 ==> (i + 1) % n == i % n + 1
  {
    var q, r := i / n, i % n;
    assert i + 1 == q * n + (r + 1);
    if r == n - 1 {
      assert i + 1 == (q + 1) * n + 0;
      ModOfDecomposition(i + 1, q + 1, 0, n);
    } else {
      ModOfDecomposition(i + 1, q, r + 1, n);
    }
  }

  /** The counter before digit i, for grouping string [n]: (i - 1) % n + 1 digits of the group taken. */
  lemma {:induction false} GroupEvery(u: nat, i: nat, n: int)
    requires 0 < n < CHAR_MAX && i > 0
    ensures Lifo(u, On(n - 1 - (i - 1) % n, 0), [n]) == EveryN(u, i, n)
    decreases u
  {
    if u > 0 {
      var s := n - 1 - (i - 1) % n;
      ModNext(i - 1, n);
      assert NextGroup(On(s, 0), [n]).next == On(n - 1 - i % n, 0);
      assert NextGroup(On(s, 0), [n]).sep == (i % n == 0);
      GroupEvery(u / 10, i + 1, n);
    }
  }

  /** '\'' with grouping string [n]: a separator between every n digits. */
  lemma IntGrouped(u: nat, n: int)
    requires 0 < n < CHAR_MAX
    ensures Lifo(u, On(n, 0), [n]) == EveryN(u, 0, n)
  {
    if u > 0 {
      assert NextGroup(On(n, 0), [n]) == GroupStep(false, On(n - 1, 0));
      GroupEvery(u / 10, 1, n);
    }
  }

  lemma {:induction false} UngroupedTail(u: nat, grouping: seq<int>)
    ensures ',' !in Lifo(u, Off, grouping)
    decreases u
  {
    if u > 0 {
      UngroupedTail(u / 10, grouping);
    }
  }

  /**
   * A CHAR_MAX entry stops grouping: with grouping string [n, CHAR_MAX]
   * and s digits left in the current group, the buffer is the ungrouped
   * one with a single separator before digit s, if there is one.
   */
  lemma {:induction false} GroupStops(u: nat, s: int, n: int)
    requires s >= 0
    ensures var p := Lifo(u, Off, [n, CHAR_MAX]);
            Lifo(u, On(s, 0), [n, CHAR_MAX]) == if s < |p| then p[..s] + [','] + p[s..] else p
    decreases u
  {
    var g := [n, CHAR_MAX];
    if u > 0 {
      var d := DigitChar(u % 10);
      var p, p' := Lifo(u, Off, g), Lifo(u / 10, Off, g);
      assert p == [d] + p';
      if s == 0 {
        assert NextGroup(On(s, 0), g) == GroupStep(true, Off);
        assert Lifo(u, On(s, 0), g) == [','] + [d] + p';
        assert p[..0] == [] && p[0..] == p;
      } else {
        assert NextGroup(On(s, 0), g) == GroupStep(false, On(s - 1, 0));
        assert Lifo(u, On(s, 0), g) == [d] + Lifo(u / 10, On(s - 1, 0), g);
        GroupStops(u / 10, s - 1, n);
        if s < |p| {
          assert p[..s] == [d] + p'[..s - 1];
          assert p[s..] == p'[s - 1..];
          Associative([d], p'[..s - 1] + [','], p'[s - 1..]);
          Associative([d], p'[..s - 1], [',']);
        }
      }
    }
  }
  // ---------------------------------------------------------------- hexadecimal and octal layout

  /** The radix of a conversion: the mask and shift of __pformat_xint are 7 and 3 for 'o', else 15 and 4. */
  function Radix(fmt: char): nat
  {
    if fmt == 'o' then 8 else 16
  }

  /** Bit 0x20 (PFORMAT_XCASE) of the conversion character: set in 'x', clear in 'X'. */
  predicate LowerCase(fmt: char)
  {
    (fmt as int / 32) % 2 == 1
  }

  /** One digit: '0' plus the masked bits, moved to the letters above '9' with the conversion's case bit. */
  function XDigit(d: nat, fmt: char): char
    requires d < 16
  {
    if d < 10 then ('0' as int + d) as char
    else ('A' as int + (d - 10) + (if LowerCase(fmt) then 32 else 0)) as char
  }

  /** The LIFO buffer of __pformat_xint's digit loop: least significant digit first, no leading zeros. */
  function XDigits(v: nat, fmt: char): seq<char>
    decreases v
  {
    if v == 0 then [] else [XDigit(v % Radix(fmt), fmt)] + XDigits(v / Radix(fmt), fmt)
  }

  function Reversed(buf: seq<char>): (r: seq<char>)
    ensures |r| == |buf|
  {
    if buf == [] then [] else [buf[|buf| - 1]] + Reversed(buf[..|buf| - 1])
  }

  /**
   * Whether '#' survives a zero value. As written, __pformat_xint drops it
   * for every conversion; for 'o' that loses the zero C99 demands of
   * "%#.0o", so the corrected handler drops it only for 'x' and 'X',
   * where no "0x" prefix may precede a zero.
   */
  predicate XHashed(v: nat, fmt: char, sp: Spec, written: bool)
  {
    sp.flags.hashed && !(v == 0 && (written || fmt != 'o'))
  }

  /** The precision step: zeros up to the precision, the '#o' zero, or the lone '0' of a zero value. */
  function XBody(v: nat, fmt: char, sp: Spec, written: bool): seq<char>
  {
    var d := XDigits(v, fmt);
    var p := if sp.precision > 0 && sp.precision - |d| > 0 then d + Zeros(sp.precision - |d|)
             else if fmt == 'o' && XHashed(v, fmt, sp, written) then d + ['0']
             else d;
    if |p| == 0 && sp.precision != 0 then p + ['0'] else p
  }

  /** Whether the "0x" or "0X" prefix goes out. */
  predicate Prefixed(fmt: char, hashed: bool)
  {
    fmt != 'o' && hashed
  }

  /** The width step of __pformat_xint around the LIFO buffer b: zero fill, prefix, and blank padding. */
  function XFrameOf(b: seq<char>, fmt: char, sp: Spec, hashed: bool): Layout
  {
    var sw := if sp.width > |b| then sp.width - |b| else PFORMAT_IGNORE;
    var w := if sw > 0 && Prefixed(fmt, hashed) then sw - 2 else sw;
    var zf := w > 0 && sp.precision < 0 && sp.flags.zerofill && !sp.flags.ljustify;
    var p := if zf then b + Zeros(w) else b;
    var w2 := if zf then PFORMAT_IGNORE else w;
    var q := if Prefixed(fmt, hashed) then p + [fmt, '0'] else p;
    if w2 > 0 && !sp.flags.ljustify then Layout(w2, q, 0) else Layout(0, q, Max(w2, 0))
  }

  /** The field __pformat_xint lays out; written selects the handling of '#' with a zero value. */
  function XIntLayout(v: nat, fmt: char, sp: Spec, written: bool): Layout
  {
    XFrameOf(XBody(v, fmt, sp, written), fmt, sp, XHashed(v, fmt, sp, written))
  }

  /** The text __pformat_xint emits. */
  function XIntText(v: nat, fmt: char, sp: Spec, written: bool): seq<char>
  {
    var l := XIntLayout(v, fmt, sp, written);
    Spaces(l.lead) + Reversed(l.buf) + Spaces(l.trail)
  }

  /** The digit loop of __pformat_xint. */
  method XDigitLoop(v: nat, fmt: char) returns (buf: seq<char>)
    ensures buf == XDigits(v, fmt)
  {
    buf := [];
    var value := v;
    var radix := if fmt == 'o' then 8 else 16;
    while value != 0
      invariant buf + XDigits(value, fmt) == XDigits(v, fmt)
    {
      var c := XDigit(value % radix, fmt);
      assert XDigits(value, fmt) == [c] + XDigits(value / radix, fmt);
      Associative(buf, [c], XDigits(value / radix, fmt));
      buf := buf + [c];
      value := value / radix;
    }
  }

  /** Digit loop, zero test and precision step of __pformat_xint (corrected '#' handling). */
  method XIntDigits(v: nat, fmt: char, sp: Spec) returns (hashed: bool, buf: seq<char>)
    ensures hashed == XHashed(v, fmt, sp, false) && buf == XBody(v, fmt, sp, false)
  {
    buf := XDigitLoop(v, fmt);
    hashed := sp.flags.hashed;
    if |buf| == 0 && fmt != 'o' {
      hashed := false;
    }
    assert |buf| == 0 <==> v == 0;
    if sp.precision > 0 && sp.precision - |buf| > 0 {
      buf := PushZeros(buf, sp.precision - |buf|);
    } else if fmt == 'o' && hashed {
      buf := buf + ['0'];
    }
    if |buf| == 0 && sp.precision != 0 {
      buf := buf + ['0'];
    }
  }

  /** Width, zero fill and prefix step of __pformat_xint. */
  method XFrame(body: seq<char>, fmt: char, sp: Spec, hashed: bool) returns (lead: nat, buf: seq<char>, trail: nat)
    ensures Layout(lead, buf, trail) == XFrameOf(body, fmt, sp, hashed)
  {
    buf := body;
    var swidth := if sp.width > |buf| then sp.width - |buf| else PFORMAT_IGNORE;
    var width := swidth;
    if width > 0 && fmt != 'o' && hashed {
      width := width - 2;
    }
    if width > 0 && sp.precision < 0 && sp.flags.zerofill && !sp.flags.ljustify {
      buf := PushZeros(buf, width);
      width := PFORMAT_IGNORE;
    }
    if fmt != 'o' && hashed {
      buf := buf + [fmt, '0'];
    }
    lead, trail := 0, 0;
    if width > 0 && !sp.flags.ljustify {
      lead := width;
    } else {
      trail := Max(width, 0);
    }
  }

  // ---------------------------------------------------------------- hexadecimal and octal properties

  /** The value of a digit character in either case; what strtoul reads back. */
  function XDigitValue(c: char): nat
  {
    if '0' <= c <= '9' then c as int - '0' as int
    else if 'a' <= c <= 'f' then c as int - 'a' as int + 10
    else if 'A' <= c <= 'F' then c as int - 'A' as int + 10
    else 0
  }

  /** The value of a digit string in the given radix, most significant digit first. */
  function XValue(s: seq<char>, radix: nat): nat
  {
    if s == [] then 0 else radix * XValue(s[..|s| - 1], radix) + XDigitValue(s[|s| - 1])
  }

  lemma {:induction false} ReversedAppend(a: seq<char>, b: seq<char>)
    ensures Reversed(a + b) == Reversed(b) + Reversed(a)
    decreases |b|
  {
    if b == [] {
      assert a + b == a;
    } else {
      var b' := b[..|b| - 1];
      assert (a + b)[..|a + b| - 1] == a + b';
      ReversedAppend(a, b');
      Associative([b[|b| - 1]], Reversed(b'), Reversed(a));
    }
  }

  lemma XDigitRead(d: nat, fmt: char)
    requires d < 16
    ensures XDigitValue(XDigit(d, fmt)) == d
  {
  }

  lemma RadixSplit(v: nat, fmt: char)
    ensures Radix(fmt) * (v / Radix(fmt)) + v % Radix(fmt) == v
  {
  }

  /** Reading the emitted digits back in the conversion's radix gives the value converted. */
  lemma {:induction false} XRoundTrip(v: nat, fmt: char)
    ensures XValue(Reversed(XDigits(v, fmt)), Radix(fmt)) == v
    decreases v
  {
    if v > 0 {
      var r := Radix(fmt);
      var c := XDigit(v % r, fmt);
      var rest := XDigits(v / r, fmt);
      ReversedAppend([c], rest);
      assert Reversed([c]) == [c];
      var s := Reversed(rest) + [c];
      assert s[..|s| - 1] == Reversed(rest);
      XRoundTrip(v / r, fmt);
      XDigitRead(v % r, fmt);
      RadixSplit(v, fmt);
    }
  }

  /** 'X' spells the digits above nine in upper case, 'x' and 'o' in lower case (octal has none). */
  lemma {:induction false} XCase(v: nat, fmt: char)
    requires fmt in "oxX"
    ensures forall c :: c in XDigits(v, fmt) ==> c in (if fmt == 'X' then "0123456789ABCDEF" else "0123456789abcdef")
    decreases v
  {
    if v > 0 {
      assert LowerCase(fmt) <==> fmt != 'X';
      XCase(v / Radix(fmt), fmt);
    }
  }

  /** The field holds the digits and the prefix, or the width if that is larger. */
  lemma XIntWidth(v: nat, fmt: char, sp: Spec, written: bool)
    ensures var b := XBody(v, fmt, sp, written);
            |XIntText(v, fmt, sp, written)| == Max(sp.width, |b| + if Prefixed(fmt, XHashed(v, fmt, sp, written)) then 2 else 0)
  {
  }

  /** "%#x" of a nonzero value: "0x" (or "0X") and the digits. */
  lemma XPrefix(v: nat, fmt: char, sp: Spec)
    requires fmt in "xX" && sp.flags.hashed && sp.precision < 0 && sp.width <= 0
    ensures v > 0 ==> XIntText(v, fmt, sp, false) == ['0', fmt] + Reversed(XDigits(v, fmt))
    ensures v == 0 ==> XIntText(v, fmt, sp, false) == ['0']
  {
    if v > 0 {
      XPrefixLayout(v, fmt, sp);
      var d := XDigits(v, fmt);
      LayoutText(v, fmt, sp, false, Layout(0, d + [fmt, '0'], 0));
      Unpadded(Reversed(d + [fmt, '0']));
      ReversedPrefix(d, fmt);
    } else {
      XZero(fmt, sp);
    }
  }

  lemma XPrefixLayout(v: nat, fmt: char, sp: Spec)
    requires fmt in "xX" && sp.flags.hashed && sp.precision < 0 && sp.width <= 0 && v > 0
    ensures XIntLayout(v, fmt, sp, false) == Layout(0, XDigits(v, fmt) + [fmt, '0'], 0)
  {
    assert XBody(v, fmt, sp, false) == XDigits(v, fmt);
  }

  lemma LayoutText(v: nat, fmt: char, sp: Spec, written: bool, l: Layout)
    requires XIntLayout(v, fmt, sp, written) == l
    ensures XIntText(v, fmt, sp, written) == Spaces(l.lead) + Reversed(l.buf) + Spaces(l.trail)
  {
  }

  /** A zero value without a precision prints a lone '0' for 'x' and 'X'. */
  lemma XZero(fmt: char, sp: Spec)
    requires fmt in "xX" && sp.precision < 0 && sp.width <= 0
    ensures XIntText(0, fmt, sp, false) == ['0']
  {
    XUnpadded(0, fmt, sp, false);
    assert XBody(0, fmt, sp, false) == ['0'];
  }

  lemma ReversedPrefix(d: seq<char>, fmt: char)
    ensures Reversed(d + [fmt, '0']) == ['0', fmt] + Reversed(d)
  {
    ReversedAppend(d, [fmt, '0']);
    assert Reversed([fmt, '0']) == ['0', fmt];
  }

  /** Without a field width and a prefix, the text is the buffer, most significant character first. */
  lemma XUnpadded(v: nat, fmt: char, sp: Spec, written: bool)
    requires sp.width <= 0 && !Prefixed(fmt, XHashed(v, fmt, sp, written))
    ensures XIntText(v, fmt, sp, written) == Reversed(XBody(v, fmt, sp, written))
  {
    var b := XBody(v, fmt, sp, written);
    assert XIntLayout(v, fmt, sp, written) == Layout(0, b, 0);
    Unpadded(Reversed(b));
  }

  /** "%#o" starts with a zero: zeros up to the precision, or one more ahead of the digits. */
  lemma XOctal(v: nat, sp: Spec)
    requires sp.flags.hashed && sp.width <= 0
    ensures var ds := Reversed(XDigits(v, 'o'));
            XIntText(v, 'o', sp, false) == if |ds| < sp.precision then Zeros(sp.precision - |ds|) + ds else ['0'] + ds
  {
    XUnpadded(v, 'o', sp, false);
    var d := XDigits(v, 'o');
    if sp.precision > 0 && sp.precision - |d| > 0 {
      assert XBody(v, 'o', sp, false) == d + Zeros(sp.precision - |d|);
      ReversedAppend(d, Zeros(sp.precision - |d|));
      ReversedZeros(sp.precision - |d|);
    } else {
      assert XBody(v, 'o', sp, false) == d + ['0'];
      ReversedAppend(d, ['0']);
      assert Reversed(['0']) == ['0'];
    }
  }

  lemma {:induction false} ReversedZeros(n: nat)
    ensures Reversed(Zeros(n)) == Zeros(n)
  {
    if n > 0 {
      assert Zeros(n)[..n - 1] == Zeros(n - 1);
      ReversedZeros(n - 1);
      assert ['0'] + Zeros(n - 1) == Zeros(n);
    }
  }

  /**
   * "%#.0o" of zero: C99 asks for a single "0"; the handler as written
   * prints nothing, the corrected one prints "0".
   */
  lemma HashedOctalZero()
    ensures var sp := Spec(NoFlags.(hashed := true), 0, 0);
            XIntText(0, 'o', sp, true) == [] && XIntText(0, 'o', sp, false) == ['0']
  {
    assert Spaces(0) == [];
    assert Zeros(0) == [];
  }
}
