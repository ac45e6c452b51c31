/**
 * The format-string prescan of __pformat for POSIX "%n$" and "*m$"
 * positional arguments: index reading, flag and field skipping, length
 * modifiers, the conversion classification, the anticipated argument
 * count and the argument classification map.
 *
 * A format string is a seq<char>; At(fmt, i) reads NUL past its end, so
 * positions never pass the terminator.  Sizes are those of Win32: int,
 * long and pointers 4 bytes, long long and double 8, long double 12.
 */
module PfIndex {
  import opened CInt

  const NL_ARGMAX: nat := 16

  // __pformat_length_t
  const LENGTH_INT: int := 0
  const LENGTH_SHORT: int := 1
  const LENGTH_LONG: int := 2
  const LENGTH_LLONG: int := 3
  const LENGTH_CHAR: int := 4
  /** The "L" modifier is returned as the character code itself. */
  const LENGTH_L: int := 'L' as int

  // the classification codes returned by __pformat_is_conversion_type
  const TYPE_DOUBLE: int := 1
  const TYPE_INTEGER: int := 2
  const TYPE_POINTER: int := 3

  function Max(a: int, b: int): int { if a <= b then b else a }

  // ---------------------------------------------------------------- digits

  function Digit(c: char): nat
  {
    if IsDigit(c) then c as int - '0' as int else 0
  }

  /** The decimal value of a digit string, most significant digit first. */
  function DecValue(ds: seq<char>): nat
  {
    if ds == [] then 0 else 10 * DecValue(ds[..|ds| - 1]) + Digit(ds[|ds| - 1])
  }

  /**
   * __pformat_imul10plus: the units plus ten times a positive total; a
   * total of zero or below (PFORMAT_IGNORE) counts as zero.  The
   * arithmetic is that of a 32-bit int.
   */
  function Imul10Plus(total: int, units: int): (r: int)
    ensures IsInt32(r)
  {
    I32(units + (if total > 0 then 10 * total else 0))
  }

  /** A total accumulated digit by digit, as the field width and precision are. */
  function Accumulate(total: int, ds: seq<char>): int
    decreases |ds|
  {
    if ds == [] then total else Accumulate(Imul10Plus(total, Digit(ds[0])), ds[1..])
  }

  function Pow10(n: nat): (p: nat)
    ensures p >= 1
  {
    if n == 0 then 1 else 10 * Pow10(n - 1)
  }

  predicate AllDigits(ds: seq<char>)
  {
    forall k | 0 <= k < |ds| :: IsDigit(ds[k])
  }

  /** The leading digit of a run weighs 10^(|ds|-1). */
  lemma {:induction false} DecValueHead(ds: seq<char>)
    requires ds != []
    ensures DecValue(ds) == Digit(ds[0]) * Pow10(|ds| - 1) + DecValue(ds[1..])
    decreases |ds|
  {
    if |ds| > 1 {
      var init := ds[..|ds| - 1];
      var tail := ds[1..];
      DecValueHead(init);
      assert init[0] == ds[0] && init[1..] == tail[..|tail| - 1];
      var a := Digit(ds[0]);
      var p := Pow10(|ds| - 2);
      var v := DecValue(init[1..]);
      var z := Digit(ds[|ds| - 1]);
      assert DecValue(tail) == 10 * v + z;
      assert DecValue(ds) == 10 * (a * p + v) + z;
      Shift10(a, p);
    }
  }

  lemma Shift10(a: int, p: int)
    ensures 10 * (a * p) == a * (10 * p)
  {
  }

  lemma Spread10(t: int, d: int, p: int)
    ensures t * (10 * p) == 10 * t * p && (10 * t + d) * p == 10 * t * p + d * p
  {
  }

  lemma AllDigitsTail(ds: seq<char>)
    requires ds != [] && AllDigits(ds)
    ensures AllDigits(ds[1..]) && IsDigit(ds[0])
  {
  }

  /**
   * Digit-by-digit accumulation from a non-negative total t gives
   * t * 10^|ds| plus the run's value, while that fits in an int.
   */
  lemma {:induction false} AccumulateFrom(t: nat, ds: seq<char>)
    requires AllDigits(ds) && t * Pow10(|ds|) + DecValue(ds) < TWO31
    ensures Accumulate(t, ds) == t * Pow10(|ds|) + DecValue(ds)
    decreases |ds|
  {
    if ds != [] {
      var d := Digit(ds[0]);
      var p := Pow10(|ds| - 1);
      var rest := DecValue(ds[1..]);
      DecValueHead(ds);
      AllDigitsTail(ds);
      assert Pow10(|ds|) == 10 * p;
      Spread10(t, d, p);
      if 10 * t + d > 0 {
        MulAtLeast(p, 10 * t + d);
      }
      assert Imul10Plus(t, d) == 10 * t + d;
      AccumulateFrom(10 * t + d, ds[1..]);
    }
  }

  /**
   * A field width or precision written as digits after a fresh
   * (PFORMAT_IGNORE) or zero total reads as its decimal value, while that
   * fits in an int.
   */
  lemma AccumulateDecimal(total: int, ds: seq<char>)
    requires -1 <= total <= 0 && ds != [] && AllDigits(ds) && DecValue(ds) < TWO31
    ensures Accumulate(total, ds) == DecValue(ds)
  {
    AccumulateFrom(0, ds);
    assert Imul10Plus(total, Digit(ds[0])) == Imul10Plus(0, Digit(ds[0]));
  }

  /** The decimal digits of n, without leading zeros. */
  function Decimal(n: nat): (ds: seq<char>)
    ensures ds != [] && AllDigits(ds)
  {
    var d := ['0' + (n % 10) as char];
    if n < 10 then d else Decimal(n / 10) + d
  }

  lemma {:induction false} DecimalValue(n: nat)
    ensures DecValue(Decimal(n)) == n
  {
    if n >= 10 {
      DecimalValue(n / 10);
      var ds := Decimal(n);
      assert ds[..|ds| - 1] == Decimal(n / 10);
    }
  }

  /** The position of the first non-digit at or after i. */
  function DigitEnd(fmt: seq<char>, i: nat): (j: nat)
    ensures i <= j
    ensures i <= |fmt| ==> j <= |fmt|
    ensures forall k | i <= k < j :: k < |fmt| && IsDigit(fmt[k])
    ensures !IsDigit(At(fmt, j))
    decreases |fmt| - i
  {
    if IsDigit(At(fmt, i)) then DigitEnd(fmt, i + 1) else i
  }

  /** The `while( isdigit( *fmt ) ) ++fmt;` loop of the prescans. */
  method SkipDigits(fmt: seq<char>, i: nat) returns (j: nat)
    ensures j == DigitEnd(fmt, i)
  {
    j := i;
    while IsDigit(At(fmt, j))
      invariant i <= j && DigitEnd(fmt, j) == DigitEnd(fmt, i)
      decreases |fmt| - j
    {
      j := j + 1;
    }
  }

  // ---------------------------------------------------------------- "%n$"

  datatype IndexRead = IndexRead(index: nat, pos: nat)

  /** The decimal value of the characters of fmt from i up to j, read as digits. */
  function RunValue(fmt: seq<char>, i: nat, j: nat): nat
    requires i <= j
    decreases j - i
  {
    if j == i then 0 else 10 * RunValue(fmt, i, j - 1) + Digit(At(fmt, j - 1))
  }

  /** RunValue is DecValue on the slice. */
  lemma {:induction false} RunValueSlice(fmt: seq<char>, i: nat, j: nat)
    requires i <= j <= |fmt|
    ensures RunValue(fmt, i, j) == DecValue(fmt[i..j])
    decreases j - i
  {
    if i < j {
      RunValueSlice(fmt, i, j - 1);
      assert fmt[i..j][..j - 1 - i] == fmt[i..j - 1];
    }
  }

  /** Reading on never lowers the value of a run. */
  lemma {:induction false} RunValueGrows(fmt: seq<char>, i: nat, a: nat, b: nat)
    requires i <= a <= b
    ensures RunValue(fmt, i, a) <= RunValue(fmt, i, b)
    decreases b - a
  {
    if a < b {
      RunValueGrows(fmt, i, a, b - 1);
    }
  }

  /**
   * __pformat_read_arg_index at position i: the scan stops after the run
   * of digits; the index is their value when it lies in 1 .. NL_ARGMAX and
   * the run ends in '$', and zero otherwise.
   */
  function IndexAt(fmt: seq<char>, i: nat): (r: IndexRead)
    requires i <= |fmt|
    ensures r.pos == DigitEnd(fmt, i) && r.pos <= |fmt|
    ensures r.index != 0 <==>
      0 < RunValue(fmt, i, r.pos) <= NL_ARGMAX && At(fmt, r.pos) == '$'
    ensures r.index != 0 ==> r.index == RunValue(fmt, i, r.pos) && r.index <= NL_ARGMAX
  {
    var j := DigitEnd(fmt, i);
    var v := RunValue(fmt, i, j);
    IndexRead(if v <= NL_ARGMAX && At(fmt, j) == '$' then v else 0, j)
  }

  /**
   * __pformat_read_arg_index: accumulate the digits, bailing out (after
   * skipping the rest of the run) as soon as the total exceeds NL_ARGMAX.
   */
  method ReadArgIndex(fmt: seq<char>, i: nat) returns (index: nat, pos: nat)
    requires i <= |fmt|
    ensures IndexRead(index, pos) == IndexAt(fmt, i)
  {
    var acc: int := 0;
    pos := i;
    if IsDigit(At(fmt, pos)) {
      while true
        invariant i <= pos < |fmt| && IsDigit(fmt[pos])
        invariant DigitEnd(fmt, pos) == DigitEnd(fmt, i)
        invariant 0 <= acc == RunValue(fmt, i, pos) <= NL_ARGMAX
        decreases |fmt| - pos
      {
        acc := Imul10Plus(acc, Digit(fmt[pos]));
        pos := pos + 1;
        if acc > NL_ARGMAX {
          ghost var at := pos;
          while IsDigit(At(fmt, pos))
            invariant at <= pos <= DigitEnd(fmt, i) && DigitEnd(fmt, pos) == DigitEnd(fmt, i)
            decreases |fmt| - pos
          {
            pos := pos + 1;
          }
          RunValueGrows(fmt, i, at, pos);
          return 0, pos;
        }
        if !IsDigit(At(fmt, pos)) {
          break;
        }
      }
    }
    index := if At(fmt, pos) == '$' then acc else 0;
  }

  /** A run of digits from i that stops at a non-digit at j ends at j. */
  lemma {:induction false} DigitEndOfRun(fmt: seq<char>, i: nat, j: nat)
    requires i <= j <= |fmt| && AllDigits(fmt[i..j]) && !IsDigit(At(fmt, j))
    ensures DigitEnd(fmt, i) == j
    decreases j - i
  {
    if i < j {
      AllDigitsTail(fmt[i..j]);
      assert fmt[i..j][1..] == fmt[i + 1..j];
      DigitEndOfRun(fmt, i + 1, j);
    }
  }

  /** "%n$" written for an index n in 1 .. NL_ARGMAX reads back as n, stopping at the '$'. */
  lemma IndexRoundTrip(n: nat, rest: seq<char>)
    requires 1 <= n <= NL_ARGMAX
    ensures var fmt := Decimal(n) + ['$'] + rest;
      IndexAt(fmt, 0) == IndexRead(n, |Decimal(n)|)
  {
    var ds := Decimal(n);
    var fmt := ds + ['$'] + rest;
    assert fmt[0..|ds|] == ds;
    assert At(fmt, |ds|) == '$';
    DigitEndOfRun(fmt, 0, |ds|);
    RunValueSlice(fmt, 0, |ds|);
    DecimalValue(n);
  }

  /**
   * __pformat_arg_index: a valid or invalid index followed by '$' moves the
   * scan beyond the '$'; otherwise the scan stays where it was.
   */
  function ArgIndexAt(fmt: seq<char>, i: nat): (r: IndexRead)
    requires i <= |fmt|
    ensures r.index == IndexAt(fmt, i).index
    ensures r.pos == if At(fmt, IndexAt(fmt, i).pos) == '$' then IndexAt(fmt, i).pos + 1 else i
    ensures r.pos <= |fmt|
  {
    var r := IndexAt(fmt, i);
    IndexRead(r.index, if At(fmt, r.pos) == '$' then r.pos + 1 else i)
  }

  method ArgIndex(fmt: seq<char>, i: nat) returns (index: nat, pos: nat)
    requires i <= |fmt|
    ensures IndexRead(index, pos) == ArgIndexAt(fmt, i)
  {
    var scan;
    index, scan := ReadArgIndex(fmt, i);
    pos := if At(fmt, scan) == '$' then scan + 1 else i;
  }

  // ---------------------------------------------------------------- flags and fields

  /** A flag character of "+-' 0#"; the string's terminating NUL is not one. */
  predicate IsFlag(c: char)
  {
    c == '+' || c == '-' || c == '\'' || c == ' ' || c == '0' || c == '#'
  }

  /** The position after the run of flag characters at i. */
  function FlagsEnd(fmt: seq<char>, i: nat): (j: nat)
    ensures i <= j
    ensures i <= |fmt| ==> j <= |fmt|
    ensures !IsFlag(At(fmt, j))
    decreases |fmt| - i
  {
    if IsFlag(At(fmt, i)) then FlagsEnd(fmt, i + 1) else i
  }

  /** __pformat_ignore_flags, stopping at the terminating NUL. */
  method IgnoreFlags(fmt: seq<char>, i: nat) returns (j: nat)
    ensures j == FlagsEnd(fmt, i)
  {
    j := i;
    while IsFlag(At(fmt, j))
      invariant i <= j && FlagsEnd(fmt, j) == FlagsEnd(fmt, i)
      decreases |fmt| - j
    {
      j := j + 1;
    }
  }

  /**
   * __pformat_ignore_flags as written tests each character with
   * strchr("+-' 0#", c), which also finds the string's own terminator, so
   * the NUL counts as a flag.  Here `mem` is the format string, its NUL
   * and whatever memory follows it; the scan stops at the end of `mem`.
   */
  function AsWrittenFlagsEnd(mem: seq<char>, i: nat): (j: nat)
    ensures i <= j
    decreases |mem| - i
  {
    if i < |mem| && (IsFlag(mem[i]) || mem[i] == '\0') then AsWrittenFlagsEnd(mem, i + 1) else i
  }

  /**
   * A format ending in flags, such as "100%" scanned after its '%', is
   * read past its terminator: with the byte 'x' after the NUL of "%",
   * the as-written scan returns position 2, beyond the string; the
   * corrected scan stops at the NUL, position 1.
   */
  lemma AsWrittenFlagsOverrun()
    ensures AsWrittenFlagsEnd(['%', '\0', 'x'], 1) == 2
    ensures FlagsEnd(['%'], 1) == 1
  {
  }

  /** The position after a field width or precision: one '*', or a run of digits. */
  function FieldEnd(fmt: seq<char>, i: nat): (j: nat)
    ensures i <= j
    ensures i <= |fmt| ==> j <= |fmt|
    ensures At(fmt, i) == '*' ==> j == i + 1
    ensures At(fmt, i) != '*' ==> j == DigitEnd(fmt, i)
  {
    if At(fmt, i) == '*' then i + 1 else DigitEnd(fmt, i)
  }

  /** __pformat_look_ahead. */
  method LookAhead(fmt: seq<char>, i: nat) returns (j: nat)
    ensures j == FieldEnd(fmt, i)
  {
    if At(fmt, i) == '*' {
      j := i + 1;
    } else {
      j := SkipDigits(fmt, i);
    }
  }

  /** The position after flags, a field width and an optional ".precision". */
  function SpecBodyEnd(fmt: seq<char>, i: nat): (j: nat)
    ensures i <= j
    ensures i <= |fmt| ==> j <= |fmt|
  {
    var j := FieldEnd(fmt, FlagsEnd(fmt, i));
    if At(fmt, j) == '.' then FieldEnd(fmt, j + 1) else j
  }

  /** __pformat_look_ahead_beyond_flags. */
  method LookAheadBeyondFlags(fmt: seq<char>, i: nat) returns (j: nat)
    ensures j == SpecBodyEnd(fmt, i)
  {
    var f := IgnoreFlags(fmt, i);
    j := LookAhead(fmt, f);
    if At(fmt, j) == '.' {
      j := LookAhead(fmt, j + 1);
    }
  }

  // ---------------------------------------------------------------- length modifiers

  datatype Modifier = Modifier(length: int, next: nat)

  /** A character that can start a length modifier, one of "hljtzLI". */
  predicate IsLengthChar(c: char)
  {
    c == 'h' || c == 'l' || c == 'j' || c == 't' || c == 'z' || c == 'L' || c == 'I'
  }

  /**
   * __pformat_check_length_modifier for Win32: "hh" char, "h" short, "l"
   * long, "ll" long long, "j" intmax_t (long long), "t" ptrdiff_t and "z"
   * size_t (both int-sized), "L" as itself, Microsoft's "I32" long, "I64"
   * long long and a lone "I" ptrdiff_t.  Anything else leaves the scan
   * where it was, with the default length.
   */
  function LengthModifier(fmt: seq<char>, i: nat): (m: Modifier)
    ensures i <= m.next <= i + 3
    ensures i <= |fmt| ==> m.next <= |fmt|
    ensures m.next == i <==> m.length == LENGTH_INT && !IsLengthChar(At(fmt, i))
    ensures m.length == LENGTH_INT || m.length == LENGTH_SHORT || m.length == LENGTH_LONG ||
      m.length == LENGTH_LLONG || m.length == LENGTH_CHAR || m.length == LENGTH_L
  {
    var c := At(fmt, i);
    if c == 'h' || c == 'l' then
      if At(fmt, i + 1) == c then Modifier(if c == 'h' then LENGTH_CHAR else LENGTH_LLONG, i + 2)
      else Modifier(if c == 'h' then LENGTH_SHORT else LENGTH_LONG, i + 1)
    else if c == 'j' then Modifier(LENGTH_LLONG, i + 1)
    else if c == 't' || c == 'z' then Modifier(LENGTH_INT, i + 1)
    else if c == 'L' then Modifier(LENGTH_L, i + 1)
    else if c == 'I' then
      if At(fmt, i + 1) == '3' && At(fmt, i + 2) == '2' then Modifier(LENGTH_LONG, i + 3)
      else if At(fmt, i + 1) == '6' && At(fmt, i + 2) == '4' then Modifier(LENGTH_LLONG, i + 3)
      else Modifier(LENGTH_INT, i + 1)
    else Modifier(LENGTH_INT, i)
  }

  // ---------------------------------------------------------------- conversion types

  /** A character of "aAeEfFgG". */
  predicate IsDoubleConv(c: char)
  {
    c == 'a' || c == 'A' || c == 'e' || c == 'E' || c == 'f' || c == 'F' || c == 'g' || c == 'G'
  }

  /** A character of "cCdiouxX". */
  predicate IsIntegerConv(c: char)
  {
    c == 'c' || c == 'C' || c == 'd' || c == 'i' || c == 'o' || c == 'u' || c == 'x' || c == 'X'
  }

  /** A character of "npsS". */
  predicate IsPointerConv(c: char)
  {
    c == 'n' || c == 'p' || c == 's' || c == 'S'
  }

  /**
   * __pformat_is_conversion_type: the position of c in
   * "aAeEfFgG" "cCdiouxX" "npsS", as 1 + position / 8, or 0.  strchr also
   * finds the terminator of that string, so NUL classifies as a pointer
   * conversion (position 20).
   */
  function IsConversionType(c: char): (r: int)
    ensures 0 <= r <= 3
    ensures r == TYPE_DOUBLE <==> IsDoubleConv(c)
    ensures r == TYPE_INTEGER <==> IsIntegerConv(c)
    ensures r == TYPE_POINTER <==> IsPointerConv(c) || c == '\0'
  {
    if IsDoubleConv(c) then TYPE_DOUBLE
    else if IsIntegerConv(c) then TYPE_INTEGER
    else if IsPointerConv(c) || c == '\0' then TYPE_POINTER
    else 0
  }

  /** __pformat_is_alt_ldouble_modifier: Microsoft's "l" for long double, when its quirks are enabled. */
  predicate IsLDouble(length: int, quirks: bool)
  {
    length == LENGTH_L || (quirks && length == LENGTH_LONG)
  }

  // ---------------------------------------------------------------- one indexed specification

  /** A '*' field of an indexed specification: absent, without a valid "m$", or indexed. */
  datatype Star = NoStar | BadStar | Star(n: nat)

  function StarValue(s: Star): nat
  {
    if s.Star? then s.n else 0
  }

  /** What follows the '$' of "%n$": the width and precision fields, the length and the conversion's position. */
  datatype Indexed = Indexed(width: Star, prec: Star, length: int, next: nat)

  datatype StarRead = StarRead(star: Star, pos: nat)

  /** A '*' at q: its index and the position beyond its '$', or where the failed index read stopped. */
  function StarAt(fmt: seq<char>, q: nat): (r: StarRead)
    requires q < |fmt|
    ensures q < r.pos <= |fmt|
    ensures r.star.Star? ==> 1 <= r.star.n <= NL_ARGMAX
  {
    var x := IndexAt(fmt, q + 1);
    if x.index == 0 then StarRead(BadStar, x.pos) else StarRead(Star(x.index), x.pos + 1)
  }

  /** A width or precision field at q: an indexed '*', or a run of digits. */
  function FieldAt(fmt: seq<char>, q: nat): (r: StarRead)
    requires q <= |fmt|
    ensures q <= r.pos <= |fmt|
    ensures r.star.Star? ==> 1 <= r.star.n <= NL_ARGMAX
  {
    if At(fmt, q) == '*' then StarAt(fmt, q) else StarRead(NoStar, DigitEnd(fmt, q))
  }

  /**
   * The fields of an indexed specification whose '$' is at p: flags, the
   * width, "." and the precision, then any length modifier.
   */
  function IndexedAt(fmt: seq<char>, p: nat): (x: Indexed)
    requires p < |fmt|
    ensures p < x.next <= |fmt|
    ensures x.width.Star? ==> x.width.n <= NL_ARGMAX
    ensures x.prec.Star? ==> x.prec.n <= NL_ARGMAX
  {
    var w := FieldAt(fmt, FlagsEnd(fmt, p + 1));
    var pr := if At(fmt, w.pos) == '.' then FieldAt(fmt, w.pos + 1) else StarRead(NoStar, w.pos);
    var m := LengthModifier(fmt, pr.pos);
    Indexed(w.star, pr.star, m.length, m.next)
  }

  /** The indices an indexed specification refers to: its own and those of its '*' fields. */
  function Widest(index: nat, x: Indexed): nat
  {
    Max(index, Max(StarValue(x.width), StarValue(x.prec)))
  }

  // ---------------------------------------------------------------- __pformat_indexed_argc

  /** One pass of the prescan loop: give up (Bail), or resume after position pos with the count so far. */
  datatype Step = Bail | Next(pos: nat, argc: nat)

  /**
   * The body of __pformat_indexed_argc's loop at position pos.  A
   * specification without an index is fatal unless it is (a variant of)
   * "%%"; an explicit bad index "%0$" or "%17$" is fatal; an indexed
   * specification raises the count to the largest index it refers to,
   * and a malformed one is passed over.
   */
  function ArgcStep(fmt: seq<char>, pos: nat, argc: nat): (s: Step)
    requires pos <= |fmt|
    ensures s.Next? ==> pos <= s.pos <= |fmt| && argc <= s.argc <= Max(argc, NL_ARGMAX)
  {
    if At(fmt, pos) != '%' then Next(pos, argc)
    else
      var r := IndexAt(fmt, pos + 1);
      if r.index == 0 then
        if At(fmt, r.pos) == '$' then Bail
        else
          var q := LengthModifier(fmt, SpecBodyEnd(fmt, r.pos)).next;
          if IsConversionType(At(fmt, q)) != 0 then Bail
          else if At(fmt, q) == '%' then Next(q, argc)
          else Next(pos, argc)
      else
        var x := IndexedAt(fmt, r.pos);
        if x.width.BadStar? || x.prec.BadStar? then Bail
        else if IsConversionType(At(fmt, x.next)) != 0 then Next(x.next, Max(argc, Widest(r.index, x)))
        else if At(fmt, x.next) == '%' then Next(x.next, argc)
        else Next(pos, argc)
  }

  /** The prescan from position pos: the count it returns, 0 when it gives up. */
  function ArgcFrom(fmt: seq<char>, pos: nat, argc: nat): (n: nat)
    requires pos <= |fmt|
    ensures n == 0 || argc <= n
    ensures n <= Max(argc, NL_ARGMAX)
    decreases |fmt| - pos
  {
    match ArgcStep(fmt, pos, argc)
    case Bail => 0
    case Next(q, a) => if At(fmt, q) == '\0' then a else ArgcFrom(fmt, q + 1, a)
  }

  /** One pass of __pformat_indexed_argc's loop. */
  method ArgcScan(fmt: seq<char>, pos: nat, argc: nat) returns (s: Step)
    requires pos <= |fmt|
    ensures s == ArgcStep(fmt, pos, argc)
  {
    if At(fmt, pos) != '%' {
      return Next(pos, argc);
    }
    var index, p := ReadArgIndex(fmt, pos + 1);
    if index == 0 {
      if At(fmt, p) == '$' {
        return Bail;
      }
      var q := LookAheadBeyondFlags(fmt, p);
      q := LengthModifier(fmt, q).next;
      if IsConversionType(At(fmt, q)) != 0 {
        return Bail;
      }
      return if At(fmt, q) == '%' then Next(q, argc) else Next(pos, argc);
    }
    var x := ReadIndexed(fmt, p);
    if x.width.BadStar? || x.prec.BadStar? {
      return Bail;
    }
    if IsConversionType(At(fmt, x.next)) != 0 {
      return Next(x.next, Max(argc, Widest(index, x)));
    }
    return if At(fmt, x.next) == '%' then Next(x.next, argc) else Next(pos, argc);
  }

  /** A width or precision field: "*m$", read with __pformat_read_arg_index_after, or digits. */
  method ReadField(fmt: seq<char>, q: nat) returns (r: StarRead)
    requires q <= |fmt|
    ensures r == FieldAt(fmt, q)
  {
    if At(fmt, q) == '*' {
      var sub, pos := ReadArgIndex(fmt, q + 1);
      r := if sub == 0 then StarRead(BadStar, pos) else StarRead(Star(sub), pos + 1);
    } else {
      var pos := SkipDigits(fmt, q);
      r := StarRead(NoStar, pos);
    }
  }

  /**
   * The fields after the '$' of "%n$".  (__pformat_indexed_argc gives up
   * as soon as a '*' field lacks its index; reading on first does not
   * change what it returns.)
   */
  method ReadIndexed(fmt: seq<char>, p: nat) returns (x: Indexed)
    requires p < |fmt|
    ensures x == IndexedAt(fmt, p)
  {
    var q := IgnoreFlags(fmt, p + 1);
    var w := ReadField(fmt, q);
    var pr := StarRead(NoStar, w.pos);
    if At(fmt, w.pos) == '.' {
      pr := ReadField(fmt, w.pos + 1);
    }
    var m := LengthModifier(fmt, pr.pos);
    x := Indexed(w.star, pr.star, m.length, m.next);
  }

  /**
   * __pformat_indexed_argc: the number of arguments a format addresses
   * only by "%n$" and "*m$" references, or 0 when it cannot be processed
   * that way.
   */
  method IndexedArgc(fmt: seq<char>) returns (argc: nat)
    ensures argc == ArgcFrom(fmt, 0, 0)
    ensures argc <= NL_ARGMAX
  {
    ghost var total := ArgcFrom(fmt, 0, 0);
    argc := 0;
    var pos := 0;
    while true
      invariant pos <= |fmt| && ArgcFrom(fmt, pos, argc) == total
      decreases |fmt| - pos
    {
      var s := ArgcPass(fmt, pos, argc);
      if s.Bail? {
        return 0;
      }
      argc := s.argc;
      if At(fmt, s.pos) == '\0' {
        return;
      }
      pos := s.pos + 1;
    }
  }

  /** One pass of the loop, as it bears on the count from pos. */
  method ArgcPass(fmt: seq<char>, pos: nat, argc: nat) returns (s: Step)
    requires pos <= |fmt|
    ensures s.Bail? ==> ArgcFrom(fmt, pos, argc) == 0
    ensures s.Next? && At(fmt, s.pos) == '\0' ==> ArgcFrom(fmt, pos, argc) == s.argc
    ensures s.Next? && At(fmt, s.pos) != '\0' ==>
      pos <= s.pos < |fmt| && ArgcFrom(fmt, pos, argc) == ArgcFrom(fmt, s.pos + 1, s.argc)
  {
    s := ArgcScan(fmt, pos, argc);
    ArgcUnfold(fmt, pos, argc, s);
  }

  /** The count from pos, given the pass s there. */
  lemma ArgcUnfold(fmt: seq<char>, pos: nat, argc: nat, s: Step)
    requires pos <= |fmt| && s == ArgcStep(fmt, pos, argc)
    ensures s.Bail? ==> ArgcFrom(fmt, pos, argc) == 0
    ensures s.Next? && At(fmt, s.pos) == '\0' ==> ArgcFrom(fmt, pos, argc) == s.argc
    ensures s.Next? && At(fmt, s.pos) != '\0' ==>
      pos <= s.pos < |fmt| && ArgcFrom(fmt, pos, argc) == ArgcFrom(fmt, s.pos + 1, s.argc)
  {
  }

  // ---------------------------------------------------------------- __pformat_argmap

  /**
   * One __pformat_argmap_t: ref[0] and ref[1].  A classified argument holds
   * its conversion class (1, 2 or 3) and length; an argument known only
   * as a '*' field holds 'd' and 0 (init = 'd', little-endian); both bytes
   * zero is init == 0, unclassified.
   */
  datatype Entry = Entry(conv: char, length: int)

  const Unclassified: Entry := Entry('\0', 0)

  /** __pformat_sizeof_argument: the size of an argument of the conversion and length in e. */
  function SizeofArgument(e: Entry, quirks: bool): (n: nat)
    ensures n == 4 || n == 8 || n == 12
    ensures n == 12 <==> IsConversionType(e.conv) == TYPE_DOUBLE && IsLDouble(e.length, quirks)
  {
    var t := IsConversionType(e.conv);
    if t == TYPE_DOUBLE then (if IsLDouble(e.length, quirks) then 12 else 8)
    else if t == TYPE_POINTER then 4
    else if t == TYPE_INTEGER && e.length == LENGTH_LLONG then 8
    else 4
  }

  /** The class code stored for a conversion character (1, 2 or 3, as a char). */
  function ClassCode(c: char): char
    requires IsConversionType(c) > 0
  {
    IsConversionType(c) as char
  }

  /**
   * The bytes __pformat's prescan steps over for a map entry: it reads
   * ref[0] as a class code, with 'd' and anything else taken as an integer.
   */
  function SlotSize(e: Entry, quirks: bool): (n: nat)
    ensures n == 4 || n == 8 || n == 12
  {
    if e.conv == TYPE_DOUBLE as char then (if IsLDouble(e.length, quirks) then 12 else 8)
    else if e.conv == TYPE_POINTER as char then 4
    else if e.length == LENGTH_LLONG then 8
    else 4
  }

  /** char and short arguments are promoted to int. */
  function Promoted(length: int): int
  {
    if length == LENGTH_CHAR || length == LENGTH_SHORT then LENGTH_INT else length
  }

  /**
   * The update of argument i by a reference with conversion c and length:
   * an unclassified entry, or one the reference is wider than, takes the
   * reference's class and length.  As written, the width of the stored
   * entry is measured with __pformat_sizeof_argument, which takes its class
   * code for a conversion character: no class code is one, so every stored
   * entry measures as an int.  Corrected (written == false), the stored
   * entry is measured as the prescan reads it.
   */
  function Update(m: seq<Entry>, i: nat, c: char, length: int, quirks: bool, written: bool): (r: seq<Entry>)
    requires i < |m| && IsConversionType(c) > 0
    ensures |r| == |m| && r[i] != Unclassified
  {
    var stored := if written then SizeofArgument(m[i], quirks) else SlotSize(m[i], quirks);
    if m[i] == Unclassified || SizeofArgument(Entry(c, length), quirks) > stored then
      m[i := Entry(ClassCode(c), length)]
    else m
  }

  /** A '*' field's argument, when still unclassified, is recorded as an int. */
  function Mark(m: seq<Entry>, s: Star): (r: seq<Entry>)
    ensures |r| == |m|
  {
    if s.Star? && 1 <= s.n <= |m| && m[s.n - 1] == Unclassified then m[s.n - 1 := Entry('d', 0)] else m
  }

  /**
   * What one step of __pformat_argmap's loop finds at a position: an
   * indexed conversion that stands (its 1-based index, conversion
   * character, promoted length and '*' fields), or nothing to record.
   */
  datatype Ref = NoRef | Conv(index: nat, conv: char, length: int, width: Star, prec: Star)

  datatype Parsed = Parsed(ref: Ref, next: nat)

  /** A reference the map of n entries can take. */
  predicate Applies(ref: Ref, n: nat)
  {
    ref.Conv? && 1 <= ref.index <= n && IsConversionType(ref.conv) > 0
  }

  /**
   * The parsing half of one step of __pformat_argmap's loop at pos: where
   * the scan resumes, and what it records.
   */
  function ParseStep(fmt: seq<char>, pos: nat): (p: Parsed)
    requires pos <= |fmt|
    ensures pos <= p.next <= |fmt|
    ensures p.ref.Conv? ==> 1 <= p.ref.index && IsConversionType(p.ref.conv) > 0
  {
    if At(fmt, pos) != '%' then Parsed(NoRef, pos)
    else
      var r := IndexAt(fmt, pos + 1);
      if r.index > 0 then
        var x := IndexedAt(fmt, r.pos);
        var c := At(fmt, x.next);
        if !x.width.BadStar? && !x.prec.BadStar? && IsConversionType(c) > 0 then
          Parsed(Conv(r.index, c, Promoted(x.length), x.width, x.prec), x.next)
        else if c == '%' then Parsed(NoRef, x.next)
        else Parsed(NoRef, pos)
      else
        var q := LengthModifier(fmt, SpecBodyEnd(fmt, r.pos)).next;
        if At(fmt, q) == '%' then Parsed(NoRef, q) else Parsed(NoRef, pos)
  }

  /** Every index a reference names, its own and its '*' fields', lies within n. */
  predicate Fits(ref: Ref, n: nat)
  {
    ref.Conv? ==> ref.index <= n && StarValue(ref.width) <= n && StarValue(ref.prec) <= n
  }

  /** Every reference of refs fits a map of n entries. */
  predicate Bounded(refs: seq<Ref>, n: nat)
    decreases |refs|
  {
    |refs| == 0 || (Fits(refs[0], n) && Bounded(refs[1..], n))
  }

  /**
   * The map-updating half of a step: the conversion's own argument takes
   * its class, then each '*' field's argument is marked as an int.
   */
  function Apply(ref: Ref, m: seq<Entry>, quirks: bool, written: bool): (r: seq<Entry>)
    ensures |r| == |m|
  {
    if Applies(ref, |m|) then
      Mark(Mark(Update(m, ref.index - 1, ref.conv, ref.length, quirks, written), ref.width), ref.prec)
    else m
  }

  /** The references the scan from pos finds, in order. */
  function Parse(fmt: seq<char>, pos: nat): (refs: seq<Ref>)
    requires pos <= |fmt|
    ensures |refs| > 0
    decreases |fmt| - pos
  {
    var p := ParseStep(fmt, pos);
    [p.ref] + if At(fmt, p.next) == '\0' then [] else Parse(fmt, p.next + 1)
  }

  /** The map after each of refs is applied in turn. */
  function Fold(refs: seq<Ref>, m: seq<Entry>, quirks: bool, written: bool): (r: seq<Entry>)
    ensures |r| == |m|
    decreases |refs|
  {
    if |refs| == 0 then m else Fold(refs[1..], Apply(refs[0], m, quirks, written), quirks, written)
  }

  /** The indices (1-based) a reference records in a map of n entries. */
  function RefOf(ref: Ref, n: nat): set<nat>
  {
    if Applies(ref, n) then {ref.index} + StarRef(ref.width, n) + StarRef(ref.prec, n) else {}
  }

  function StarRef(s: Star, n: nat): set<nat>
  {
    if s.Star? && 1 <= s.n <= n then {s.n} else {}
  }

  /** The indices all of refs record. */
  function Refs(refs: seq<Ref>, n: nat): set<nat>
    decreases |refs|
  {
    if |refs| == 0 then {} else RefOf(refs[0], n) + Refs(refs[1..], n)
  }

  /** The indices the argmap scan of fmt records in a map of n entries. */
  function RefsFrom(fmt: seq<char>, n: nat): set<nat>
  {
    Refs(Parse(fmt, 0), n)
  }

  /** One reference classifies exactly the entries it records, and keeps the others. */
  lemma ApplyClassifies(ref: Ref, m: seq<Entry>, quirks: bool, written: bool, k: nat)
    requires k < |m|
    ensures Apply(ref, m, quirks, written)[k] != Unclassified <==>
      m[k] != Unclassified || k + 1 in RefOf(ref, |m|)
  {
    if Applies(ref, |m|) {
      var u := Update(m, ref.index - 1, ref.conv, ref.length, quirks, written);
      var u1 := Mark(u, ref.width);
      MarkClassifies(u, ref.width, k);
      MarkClassifies(u1, ref.prec, k);
    }
  }

  lemma MarkClassifies(m: seq<Entry>, s: Star, k: nat)
    requires k < |m|
    ensures Mark(m, s)[k] != Unclassified <==> m[k] != Unclassified || k + 1 in StarRef(s, |m|)
  {
  }

  /** Applying refs classifies exactly the entries some of them record. */
  lemma {:induction false} FoldClassifies(refs: seq<Ref>, m: seq<Entry>, quirks: bool, written: bool, k: nat)
    requires k < |m|
    ensures Fold(refs, m, quirks, written)[k] != Unclassified <==>
      m[k] != Unclassified || k + 1 in Refs(refs, |m|)
    decreases |refs|
  {
    if |refs| > 0 {
      ApplyClassifies(refs[0], m, quirks, written, k);
      FoldClassifies(refs[1..], Apply(refs[0], m, quirks, written), quirks, written, k);
    }
  }

  /** The specs __pformat_argmap builds for argc arguments: each reference applied in turn to a cleared map. */
  function ArgMap(fmt: seq<char>, argc: nat, quirks: bool, written: bool): (r: seq<Entry>)
    ensures |r| == argc
  {
    Fold(Parse(fmt, 0), Cleared(argc), quirks, written)
  }

  /** The map after __pformat_argmap's first loop: n unclassified entries. */
  function Cleared(n: nat): (m: seq<Entry>)
    ensures |m| == n && forall k | 0 <= k < n :: m[k] == Unclassified
  {
    seq(n, _ => Unclassified)
  }

  predicate AllClassified(m: seq<Entry>)
  {
    forall k | 0 <= k < |m| :: m[k] != Unclassified
  }

  /** The scan from pos is the first reference's update followed by the scan after it. */
  lemma ParseUnfold(fmt: seq<char>, pos: nat, m: seq<Entry>, quirks: bool, written: bool)
    requires pos <= |fmt|
    ensures var p := ParseStep(fmt, pos); var m1 := Apply(p.ref, m, quirks, written);
      Fold(Parse(fmt, pos), m, quirks, written) ==
        if At(fmt, p.next) == '\0' then m1 else Fold(Parse(fmt, p.next + 1), m1, quirks, written)
  {
    var p := ParseStep(fmt, pos);
    var m1 := Apply(p.ref, m, quirks, written);
    if At(fmt, p.next) == '\0' {
      assert Parse(fmt, pos) == [p.ref] + [];
      FoldCons(p.ref, [], m, quirks, written);
      assert Fold([], m1, quirks, written) == m1;
    } else {
      var rest := Parse(fmt, p.next + 1);
      assert Parse(fmt, pos) == [p.ref] + rest;
      FoldCons(p.ref, rest, m, quirks, written);
    }
  }

  lemma FoldCons(ref: Ref, rest: seq<Ref>, m: seq<Entry>, quirks: bool, written: bool)
    ensures Fold([ref] + rest, m, quirks, written) == Fold(rest, Apply(ref, m, quirks, written), quirks, written)
  {
    assert ([ref] + rest)[1..] == rest;
  }

  /**
   * Where the counting prescan does not give up, the map prescan resumes
   * where it does, and what it records fits the count so far.
   */
  lemma StepFits(fmt: seq<char>, pos: nat, acc: nat)
    requires pos <= |fmt| && ArgcStep(fmt, pos, acc).Next?
    ensures var p := ParseStep(fmt, pos); var st := ArgcStep(fmt, pos, acc);
      p.next == st.pos && Fits(p.ref, st.argc)
  {
    if At(fmt, pos) == '%' {
      var r := IndexAt(fmt, pos + 1);
      if r.index > 0 {
        var x := IndexedAt(fmt, r.pos);
        assert r.index <= Widest(r.index, x);
      }
    }
  }

  /** A count that does not give up bounds every reference of the map prescan from the same position. */
  lemma {:induction false} ParseBounded(fmt: seq<char>, pos: nat, acc: nat)
    requires pos <= |fmt| && ArgcFrom(fmt, pos, acc) > 0
    ensures Bounded(Parse(fmt, pos), ArgcFrom(fmt, pos, acc))
    decreases |fmt| - pos
  {
    var n := ArgcFrom(fmt, pos, acc);
    var st := ArgcStep(fmt, pos, acc);
    ArgcUnfold(fmt, pos, acc, st);
    StepFits(fmt, pos, acc);
    var p := ParseStep(fmt, pos);
    var rest := if At(fmt, p.next) == '\0' then [] else Parse(fmt, p.next + 1);
    if At(fmt, p.next) != '\0' {
      ParseBounded(fmt, p.next + 1, st.argc);
    }
    BoundedCons(p.ref, rest, st.argc, n);
    ParseCons(fmt, pos);
  }

  /** The scan from pos is the reference found there, then the scan after it. */
  lemma ParseCons(fmt: seq<char>, pos: nat)
    requires pos <= |fmt|
    ensures var p := ParseStep(fmt, pos);
      Parse(fmt, pos) == [p.ref] + if At(fmt, p.next) == '\0' then [] else Parse(fmt, p.next + 1)
  {
  }

  lemma BoundedCons(ref: Ref, rest: seq<Ref>, a: nat, n: nat)
    requires a <= n && Fits(ref, a) && Bounded(rest, n)
    ensures Bounded([ref] + rest, n)
  {
    assert ([ref] + rest)[1..] == rest;
  }

  /** One pass of __pformat_argmap's loop, on the specs array. */
  method MapScan(fmt: seq<char>, pos: nat, specs: array<Entry>, quirks: bool) returns (next: nat)
    requires pos <= |fmt| && Fits(ParseStep(fmt, pos).ref, specs.Length)
    modifies specs
    ensures var p := ParseStep(fmt, pos);
      next == p.next && specs[..] == Apply(p.ref, old(specs[..]), quirks, false)
  {
    var ref;
    ref, next := ReadStep(fmt, pos);
    if ref.Conv? {
      Record(specs, ref, quirks);
    }
  }

  /** The reading half of a pass: the index, the fields and the conversion. */
  method ReadStep(fmt: seq<char>, pos: nat) returns (ref: Ref, next: nat)
    requires pos <= |fmt|
    ensures Parsed(ref, next) == ParseStep(fmt, pos)
  {
    ref, next := NoRef, pos;
    if At(fmt, pos) != '%' {
      return;
    }
    var index, p := ReadArgIndex(fmt, pos + 1);
    if index > 0 {
      var x := ReadIndexed(fmt, p);
      var c := At(fmt, x.next);
      if !x.width.BadStar? && !x.prec.BadStar? && IsConversionType(c) > 0 {
        ref, next := Conv(index, c, Promoted(x.length), x.width, x.prec), x.next;
      } else if c == '%' {
        next := x.next;
      }
    } else {
      var q := LookAheadBeyondFlags(fmt, p);
      q := LengthModifier(fmt, q).next;
      if At(fmt, q) == '%' {
        next := q;
      }
    }
  }

  /** Record one indexed conversion and its '*' fields in the specs array. */
  method Record(specs: array<Entry>, ref: Ref, quirks: bool)
    requires ref.Conv? && 1 <= ref.index && IsConversionType(ref.conv) > 0 && Fits(ref, specs.Length)
    modifies specs
    ensures specs[..] == Apply(ref, old(specs[..]), quirks, false)
  {
    var i := ref.index - 1;
    var argsize := SizeofArgument(Entry(ref.conv, ref.length), quirks);
    if specs[i] == Unclassified || argsize > SlotSize(specs[i], quirks) {
      specs[i] := Entry(ClassCode(ref.conv), ref.length);
    }
    ghost var u := specs[..];
    var w := ref.width;
    if w.Star? && w.n > 0 && specs[w.n - 1] == Unclassified {
      specs[w.n - 1] := Entry('d', 0);
    }
    assert specs[..] == Mark(u, w);
    ghost var v := specs[..];
    var pr := ref.prec;
    if pr.Star? && pr.n > 0 && specs[pr.n - 1] == Unclassified {
      specs[pr.n - 1] := Entry('d', 0);
    }
    assert specs[..] == Mark(v, pr);
  }

  /**
   * __pformat_argmap for the argc counted by __pformat_indexed_argc: fill
   * the map and return argc, or 0 when some argument 1 .. argc is left
   * unclassified.
   */
  method Argmap(argc: nat, fmt: seq<char>, specs: array<Entry>, quirks: bool) returns (n: nat)
    requires argc == ArgcFrom(fmt, 0, 0) && argc > 0 && specs.Length == argc
    modifies specs
    ensures specs[..] == ArgMap(fmt, argc, quirks, false)
    ensures n == if AllClassified(specs[..]) then argc else 0
  {
    var index := 0;
    while index < argc
      invariant index <= argc
      invariant forall k | 0 <= k < index :: specs[k] == Unclassified
    {
      specs[index] := Unclassified;
      index := index + 1;
    }
    assert specs[..] == Cleared(argc);
    ParseBounded(fmt, 0, 0);
    ScanMap(fmt, specs, quirks);
    n := CountClassified(specs);
  }

  /** The do-while scan of __pformat_argmap, over a map every reference fits. */
  method ScanMap(fmt: seq<char>, specs: array<Entry>, quirks: bool)
    requires Bounded(Parse(fmt, 0), specs.Length)
    modifies specs
    ensures specs[..] == Fold(Parse(fmt, 0), old(specs[..]), quirks, false)
  {
    ghost var final := Fold(Parse(fmt, 0), specs[..], quirks, false);
    var pos := 0;
    var more := true;
    while more
      invariant pos <= |fmt| && (more ==> Remaining(fmt, pos, specs[..], quirks, final))
      invariant !more ==> specs[..] == final
      decreases |fmt| - pos, more
    {
      more, pos := ScanOnce(fmt, pos, specs, quirks, final);
    }
  }

  /** The scan from pos, over map m, builds final, and every reference it meets fits the map. */
  ghost predicate Remaining(fmt: seq<char>, pos: nat, m: seq<Entry>, quirks: bool, final: seq<Entry>)
  {
    pos <= |fmt| && Bounded(Parse(fmt, pos), |m|) && Fold(Parse(fmt, pos), m, quirks, false) == final
  }

  /** One step of the scan keeps Remaining, or ends it with the final map. */
  lemma RemainingStep(fmt: seq<char>, pos: nat, m: seq<Entry>, quirks: bool, final: seq<Entry>)
    requires Remaining(fmt, pos, m, quirks, final)
    ensures var p := ParseStep(fmt, pos); var m1 := Apply(p.ref, m, quirks, false);
      Fits(p.ref, |m|) &&
      (At(fmt, p.next) == '\0' ==> m1 == final) &&
      (At(fmt, p.next) != '\0' ==> Remaining(fmt, p.next + 1, m1, quirks, final))
  {
    var p := ParseStep(fmt, pos);
    var rest := if At(fmt, p.next) == '\0' then [] else Parse(fmt, p.next + 1);
    assert Parse(fmt, pos) == [p.ref] + rest;
    assert ([p.ref] + rest)[1..] == rest;
    ParseUnfold(fmt, pos, m, quirks, false);
  }

  /** One pass of the scan, with the loop's invariant carried across it: whether to go on, and from where. */
  method ScanOnce(fmt: seq<char>, pos: nat, specs: array<Entry>, quirks: bool, ghost final: seq<Entry>)
    returns (more: bool, resume: nat)
    requires Remaining(fmt, pos, specs[..], quirks, final)
    modifies specs
    ensures resume <= |fmt|
    ensures more ==> pos < resume && Remaining(fmt, resume, specs[..], quirks, final)
    ensures !more ==> specs[..] == final && resume == pos
  {
    RemainingStep(fmt, pos, specs[..], quirks, final);
    var next := MapScan(fmt, pos, specs, quirks);
    more := At(fmt, next) != '\0';
    resume := if more then next + 1 else pos;
  }

  /** The final check of __pformat_argmap: the count, or 0 when an entry is unclassified. */
  method CountClassified(specs: array<Entry>) returns (n: nat)
    ensures n == if AllClassified(specs[..]) then specs.Length else 0
  {
    n := specs.Length;
    var index := 0;
    while index < specs.Length
      invariant index <= specs.Length
      invariant n == if forall k | 0 <= k < index :: specs[k] != Unclassified then specs.Length else 0
    {
      if specs[index] == Unclassified {
        n := 0;
      }
      index := index + 1;
    }
  }

  // ---------------------------------------------------------------- argmap properties

  /** The class code stored for a conversion is read back by the prescan as the conversion's size. */
  lemma ClassCodeSize(c: char, length: int, quirks: bool)
    requires IsConversionType(c) > 0
    ensures SlotSize(Entry(ClassCode(c), length), quirks) == SizeofArgument(Entry(c, length), quirks)
  {
  }

  /**
   * Corrected, an argument's slot is the widest of its references: after
   * an update the prescan steps over the larger of the slot it had and
   * the new reference.
   */
  lemma UpdateWidens(m: seq<Entry>, i: nat, c: char, length: int, quirks: bool)
    requires i < |m| && IsConversionType(c) > 0
    ensures var r := Update(m, i, c, length, quirks, false);
      SlotSize(r[i], quirks) ==
        if m[i] == Unclassified then SizeofArgument(Entry(c, length), quirks)
        else Max(SlotSize(m[i], quirks), SizeofArgument(Entry(c, length), quirks))
  {
    ClassCodeSize(c, length, quirks);
  }

  /**
   * As written, a narrower reference following a long double one replaces
   * it: "%1$Lf%1$f" leaves argument 1 classified as a double, so the
   * prescan steps over 8 bytes of a 12-byte argument.
   */
  lemma AsWrittenNarrows(quirks: bool)
    ensures var m := [Entry(ClassCode('f'), LENGTH_L)];
      SlotSize(m[0], quirks) == 12 &&
      Update(m, 0, 'f', LENGTH_INT, quirks, true) == [Entry(ClassCode('f'), LENGTH_INT)] &&
      SlotSize(Update(m, 0, 'f', LENGTH_INT, quirks, true)[0], quirks) == 8 &&
      Update(m, 0, 'f', LENGTH_INT, quirks, false) == m
  {
    assert IsLDouble(LENGTH_L, quirks);
  }

  /**
   * __pformat_argmap accepts a format exactly when the indices it
   * references, sorted, run 1, 2, ... argc without a gap.
   */
  lemma ArgmapAccepts(fmt: seq<char>, argc: nat, quirks: bool, written: bool)
    ensures AllClassified(ArgMap(fmt, argc, quirks, written)) <==>
      forall k | 1 <= k <= argc :: k in RefsFrom(fmt, argc)
  {
    var m0 := Cleared(argc);
    var m := ArgMap(fmt, argc, quirks, written);
    forall k | 0 <= k < argc
      ensures m[k] != Unclassified <==> k + 1 in RefsFrom(fmt, argc)
    {
      FoldClassifies(Parse(fmt, 0), m0, quirks, written, k);
    }
    if AllClassified(m) {
      forall k | 1 <= k <= argc
        ensures k in RefsFrom(fmt, argc)
      {
        assert m[k - 1] != Unclassified;
      }
    } else {
      var k :| 0 <= k < argc && m[k] == Unclassified;
      assert k + 1 !in RefsFrom(fmt, argc);
    }
  }
}
