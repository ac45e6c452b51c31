/**
 * __pformat: the format-string scan loop and the conversion
 * specification state machine that drive the output handlers.
 *
 * The variadic arguments are a sequence of tagged values, one per
 * va_arg read; an index "%n$" or "*m$" selects argument n - 1 of that
 * sequence, which is what the saved argv_indexed cursors of the source
 * point at.  Reading past the end of the arguments, or reading an
 * argument of another kind, yields a zero word or a NULL pointer.  The
 * floating-point handlers are not modelled: the text they emit for an
 * argument is given by the parameter `fp`.
 */
module PFormat {
  import opened CInt
  import opened PfOutput
  import PfIndex

  // __pformat_state_t
  const INIT: nat := 0
  const SET_WIDTH: nat := 1
  const GET_PRECISION: nat := 2
  const SET_PRECISION: nat := 3
  const END: nat := 4

  /** 2 * sizeof(uintptr_t): the default precision of %p on Win32. */
  const PTR_DIGITS: int := 8

  /** One argument of the variadic list. */
  datatype Arg =
    | IntArg(v: int)                      // any integer or character argument
    | StrArg(s: Option<seq<char>>)        // char *, None for NULL
    | WStrArg(ws: Option<seq<int>>)       // wchar_t *, None for NULL
    | RealArg(x: real)                    // double or long double

  /** The text a floating-point handler emits for a conversion character, its specification and its argument. */
  type FloatText = (char, Spec, Arg) -> seq<char>

  /** What %n stores: the count, cut to the length modifier's width, into the object argument `arg` points to. */
  datatype Store = Store(arg: nat, length: int, value: int)

  /**
   * What a call fixes before the scan: the arguments, the count of
   * positionally indexed arguments (0 for sequential processing), the
   * locale, whether _MSVC_PRINTF_QUIRKS is set, and the float handlers.
   */
  datatype Env = Env(args: seq<Arg>, argc: nat, loc: Locale, quirks: bool, fp: FloatText)

  // ---------------------------------------------------------------- reading arguments

  function ArgAt(args: seq<Arg>, k: nat): Arg
  {
    if k < |args| then args[k] else IntArg(0)
  }

  /** va_arg of an integer type. */
  function WordAt(args: seq<Arg>, k: nat): int
  {
    if k < |args| && args[k].IntArg? then args[k].v else 0
  }

  /** va_arg( argv, char * ). */
  function StrAt(args: seq<Arg>, k: nat): Option<seq<char>>
  {
    if k < |args| && args[k].StrArg? then args[k].s else None
  }

  /** va_arg( argv, wchar_t * ). */
  function WStrAt(args: seq<Arg>, k: nat): Option<seq<int>>
  {
    if k < |args| && args[k].WStrArg? then args[k].ws else None
  }

  /** The unsigned long long an unsigned conversion formats, read at the argument's length. */
  function UnsignedArg(w: int, length: int): (u: nat)
    ensures u < TWO64
    ensures length == PfIndex.LENGTH_SHORT ==> u < 0x1_0000
    ensures length == PfIndex.LENGTH_CHAR ==> u < 0x100
  {
    if length == PfIndex.LENGTH_LLONG then U64(w)
    else if length == PfIndex.LENGTH_LONG then U32(w)
    else
      var x := U32(w);
      if length == PfIndex.LENGTH_SHORT then x % 0x1_0000
      else if length == PfIndex.LENGTH_CHAR then x % 0x100
      else x
  }

  /** Conversion to a 16-bit short. */
  function Short(x: int): (r: int)
    ensures -0x8000 <= r < 0x8000 && (x - r) % 0x1_0000 == 0
  {
    var u := x % 0x1_0000;
    if u < 0x8000 then u else u - 0x1_0000
  }

  /** Conversion to a signed 8-bit char. */
  function SChar(x: int): (r: int)
    ensures -0x80 <= r < 0x80 && (x - r) % 0x100 == 0
  {
    var u := x % 0x100;
    if u < 0x80 then u else u - 0x100
  }

  /** The long long a signed conversion formats, read at the argument's length. */
  function SignedArg(w: int, length: int): (v: int)
    ensures IsInt64(v)
    ensures length != PfIndex.LENGTH_LLONG ==> IsInt32(v)
  {
    if length == PfIndex.LENGTH_LLONG then I64(w)
    else if length == PfIndex.LENGTH_LONG then I32(w)
    else
      var x := I32(w);
      if length == PfIndex.LENGTH_SHORT then Short(x)
      else if length == PfIndex.LENGTH_CHAR then SChar(x)
      else x
  }

  /** The value %n stores for a count, converted to the object's type. */
  function StoredCount(count: int, length: int): int
  {
    if length == PfIndex.LENGTH_CHAR then SChar(count)
    else if length == PfIndex.LENGTH_SHORT then Short(count)
    else if length == PfIndex.LENGTH_LLONG then I64(count)
    else I32(count)
  }

  // ---------------------------------------------------------------- the specification state machine

  /** Where digits and '*' go: the width, the precision, or (after a '*') nowhere. */
  datatype Target = ToWidth | ToPrecision | Nowhere

  /**
   * The state of one conversion specification: stream.flags, width and
   * precision, the parser state, the length modifier, width_spec, and
   * the argument cursor.
   */
  datatype Conv = Conv(flags: Flags, width: int, precision: int, state: nat, length: int, target: Target, cursor: nat)

  /** The state at the start of every specification. */
  function Start(cursor: nat): Conv
  {
    Conv(NoFlags, PFORMAT_IGNORE, PFORMAT_IGNORE, INIT, PfIndex.LENGTH_INT, ToWidth, cursor)
  }

  function SpecOf(v: Conv): Spec
  {
    Spec(v.flags, v.width, v.precision)
  }

  /** The characters that end a specification. */
  predicate IsTerminal(c: char)
  {
    c in "%cCsSouxXdipeEfFgGaAn"
  }

  /** One character of a specification: go on from `next`, stop at a conversion, or reject. */
  datatype Step = Go(v: Conv, next: nat) | Stop(c: char, v: Conv) | Reject(cursor: nat)

  /** Where an index "n$" would be read at q: only when the format is processed positionally. */
  function IndexOrNone(fmt: seq<char>, q: nat, argc: nat): (r: PfIndex.IndexRead)
    requires q <= |fmt|
    ensures q <= r.pos <= |fmt|
    ensures r.index <= PfIndex.NL_ARGMAX
  {
    if argc > 0 then PfIndex.ArgIndexAt(fmt, q) else PfIndex.IndexRead(0, q)
  }

  /** '*': the width or precision from an argument; a negative width left-justifies, a negative precision is ignored. */
  function StarStep(fmt: seq<char>, q: nat, v: Conv, e: Env): (s: Step)
    requires q <= |fmt|
    ensures s.Go? && q <= s.next <= |fmt|
  {
    if v.target != Nowhere && (v.state == INIT || v.state == GET_PRECISION) then
      var ix := IndexOrNone(fmt, q, e.argc);
      var value := if ix.index > 0 then I32(WordAt(e.args, ix.index - 1)) else I32(WordAt(e.args, v.cursor));
      var cursor := if ix.index > 0 then v.cursor else v.cursor + 1;
      var given := if v.target == ToWidth then v.(width := value) else v.(precision := value);
      var fixed :=
        if value >= 0 then given
        else if v.state == INIT then given.(flags := given.flags.(ljustify := true), width := I32(-given.width))
        else given.(precision := PFORMAT_IGNORE);
      Go(fixed.(target := Nowhere, cursor := cursor), ix.pos)
    else Go(v.(state := END, target := Nowhere), q)
  }

  /** A digit of the width or the precision. */
  function DigitStep(c: char, v: Conv): Conv
    requires IsDigit(c)
  {
    var state := if v.state == INIT then SET_WIDTH else if v.state == GET_PRECISION then SET_PRECISION else v.state;
    var d := c as int - '0' as int;
    if v.target == ToWidth then v.(state := state, width := PfIndex.Imul10Plus(v.width, d))
    else if v.target == ToPrecision then v.(state := state, precision := PfIndex.Imul10Plus(v.precision, d))
    else v.(state := state)
  }

  /** The switch of __pformat's inner loop, for the character at pos. */
  function SpecStep(fmt: seq<char>, pos: nat, v: Conv, e: Env): (s: Step)
    requires pos < |fmt|
    ensures s.Go? ==> pos < s.next <= |fmt|
    ensures s.Stop? ==> IsTerminal(s.c)
  {
    var c := fmt[pos];
    var q := pos + 1;
    if IsTerminal(c) then Stop(c, v)
    else if c in "hjltzI" then
      var m := PfIndex.LengthModifier(fmt, pos);
      var w := v.(length := m.length, state := END);
      if c != 'l' || !(e.quirks && m.length == PfIndex.LENGTH_LONG) then Go(w, m.next)
      else Go(w.(flags := w.flags.(ldouble := true)), m.next)
    else if c == 'L' then Go(v.(flags := v.flags.(ldouble := true), state := END), q)
    else if c == '.' then
      if v.state < GET_PRECISION then Go(v.(precision := 0, target := ToPrecision, state := GET_PRECISION), q)
      else Go(v.(state := END), q)
    else if c == '*' then StarStep(fmt, q, v, e)
    else if c == '#' then Go(if v.state == INIT then v.(flags := v.flags.(hashed := true)) else v, q)
    else if c == '+' then Go(if v.state == INIT then v.(flags := v.flags.(positive := true)) else v, q)
    else if c == '-' then Go(if v.state == INIT then v.(flags := v.flags.(ljustify := true)) else v, q)
    else if c == '\'' then Go(if v.state == INIT then v.(flags := v.flags.(grouped := true)) else v, q)
    else if c == ' ' then Go(if v.state == INIT then v.(flags := v.flags.(addspace := true)) else v, q)
    else if c == '0' && v.state == INIT then Go(v.(flags := v.flags.(zerofill := true)), q)
    else if v.state < END && IsDigit(c) then Go(DigitStep(c, v), q)
    else Reject(v.cursor)
  }

  /** How a specification ends: at a conversion character, rejected, or cut short by the end of the format. */
  datatype Parsed = Terminal(c: char, v: Conv, next: nat) | Rejected(cursor: nat) | Unfinished(at: nat)

  /** The inner loop of __pformat from pos: the specification's outcome. */
  function ParseFrom(fmt: seq<char>, pos: nat, v: Conv, e: Env): (r: Parsed)
    requires pos <= |fmt|
    ensures r.Terminal? ==> pos < r.next <= |fmt| && IsTerminal(r.c)
    ensures r.Unfinished? ==> pos <= r.at <= |fmt| && At(fmt, r.at) == '\0'
    decreases |fmt| - pos
  {
    if At(fmt, pos) == '\0' then Unfinished(pos)
    else
      match SpecStep(fmt, pos, v, e)
      case Stop(c, w) => Terminal(c, w, pos + 1)
      case Reject(k) => Rejected(k)
      case Go(w, n) => ParseFrom(fmt, n, w, e)
  }

  // ---------------------------------------------------------------- conversions

  /** The argument cursor after conversion c: every conversion but "%%" reads one argument. */
  function CursorAfter(c: char, v: Conv): nat
  {
    if c == '%' then v.cursor else v.cursor + 1
  }

  /** The text of conversion c in state v. */
  function ConversionText(c: char, v: Conv, e: Env): seq<char>
  {
    var k := v.cursor;
    var sp := SpecOf(v);
    var w := WordAt(e.args, k);
    if c == '%' then ['%']
    else if c == 'c' || c == 'C' then
      var length := if c == 'C' then PfIndex.LENGTH_LONG else v.length;
      var single := sp.(precision := PFORMAT_IGNORE);
      if length == PfIndex.LENGTH_LONG || length == PfIndex.LENGTH_LLONG then
        WideText([w % 0x1_0000], 1, single, e.loc)
      else CharsText([(w % 0x100) as char], 1, single)
    else if c == 's' || c == 'S' then
      var length := if c == 'S' then PfIndex.LENGTH_LONG else v.length;
      if length == PfIndex.LENGTH_LONG || length == PfIndex.LENGTH_LLONG then
        WStringText(WStrAt(e.args, k), sp, e.loc)
      else StringText(StrAt(e.args, k), sp)
    else if c == 'u' then IntText(UnsignedArg(w, v.length), sp, e.loc)
    else if c == 'o' || c == 'x' || c == 'X' then XIntText(UnsignedArg(w, v.length), c, sp, false)
    else if c == 'd' || c == 'i' then
      var signed := sp.(flags := sp.flags.(negative := true));
      IntText(U64(SignedArg(w, v.length)), signed, e.loc)
    else if c == 'p' then
      var ptr := if v.state == INIT && v.flags == NoFlags then sp.(flags := sp.flags.(zerofill := true), precision := PTR_DIGITS) else sp;
      XIntText(U32(w), 'x', ptr, false)
    else if c == 'n' then []
    else if c in "efga" then e.fp(c, sp.(flags := sp.flags.(xcase := true)), ArgAt(e.args, k))
    else e.fp(c, sp, ArgAt(e.args, k))
  }

  // ---------------------------------------------------------------- the format scan

  /**
   * What the scan finds in the format: a character to copy, or a complete
   * specification with the text its conversion generates.
   */
  datatype Item = Literal(c: char) | Directive(t: char, v: Conv, text: seq<char>)

  /** The text __pformat generates and the %n stores it makes. */
  datatype Output = Output(text: seq<char>, stores: seq<Store>)

  /** The specification whose '%' is at pos: an index "n$" first when processing positionally, then the state machine. */
  function ParseAt(fmt: seq<char>, pos: nat, cursor: nat, e: Env): (r: Parsed)
    requires pos < |fmt|
    ensures r.Terminal? ==> pos + 1 < r.next <= |fmt| && IsTerminal(r.c)
    ensures r.Unfinished? ==> pos < r.at <= |fmt| && At(fmt, r.at) == '\0'
  {
    var ix := IndexOrNone(fmt, pos + 1, e.argc);
    ParseFrom(fmt, ix.pos, Start(if ix.index > 0 then ix.index - 1 else cursor), e)
  }

  /**
   * The outer loop of __pformat from pos, with the argument cursor at
   * `cursor`: literal characters are copied, a specification is
   * converted, a rejected one leaves its '%' as a literal and the scan
   * resumes just after that '%', and a specification cut short by the
   * end of the format ends the scan.
   */
  function Items(fmt: seq<char>, pos: nat, cursor: nat, e: Env): seq<Item>
    requires pos <= |fmt|
    decreases |fmt| - pos
  {
    var c := At(fmt, pos);
    if c == '\0' then []
    else if c != '%' then [Literal(c)] + Items(fmt, pos + 1, cursor, e)
    else
      match ParseAt(fmt, pos, cursor, e)
      case Unfinished(_) => []
      case Rejected(k) => [Literal('%')] + Items(fmt, pos + 1, k, e)
      case Terminal(t, v, next) => [Directive(t, v, ConversionText(t, v, e))] + Items(fmt, next, CursorAfter(t, v), e)
  }

  /** What one item emits and stores, after count characters. */
  function ItemOut(item: Item, count: int): Output
  {
    match item
    case Literal(c) => Output([c], [])
    case Directive(t, v, text) =>
      Output(text, if t == 'n' then [Store(v.cursor, v.length, StoredCount(count, v.length))] else [])
  }

  /** The items emitted in order, each %n storing the count so far. */
  function Render(items: seq<Item>, count: int): Output
    decreases |items|
  {
    if items == [] then Output([], [])
    else
      var o := ItemOut(items[0], count);
      var r := Render(items[1..], count + |o.text|);
      Output(o.text + r.text, o.stores + r.stores)
  }

  /** Rendering an item followed by more: the item's output, then the rest after its characters. */
  lemma RenderCons(item: Item, rest: seq<Item>, count: int)
    ensures var o := ItemOut(item, count);
      var r := Render(rest, count + |o.text|);
      Render([item] + rest, count) == Output(o.text + r.text, o.stores + r.stores)
  {
    assert ([item] + rest)[1..] == rest;
  }

  /** The argument count __pformat settles on: the prescan's, if the argument map has no gap, else 0. */
  function IndexedCount(fmt: seq<char>, quirks: bool): nat
  {
    var argc := PfIndex.ArgcFrom(fmt, 0, 0);
    if argc > 0 && PfIndex.AllClassified(PfIndex.ArgMap(fmt, argc, quirks, false)) then argc else 0
  }

  function EnvOf(fmt: seq<char>, args: seq<Arg>, loc: Locale, quirks: bool, fp: FloatText): Env
  {
    Env(args, IndexedCount(fmt, quirks), loc, quirks, fp)
  }

  /** Everything __pformat generates for fmt and args, whatever reaches the destination. */
  function Printf(fmt: seq<char>, args: seq<Arg>, loc: Locale, quirks: bool, fp: FloatText): Output
  {
    var e := EnvOf(fmt, args, loc, quirks, fp);
    Render(Items(fmt, 0, 0, e), 0)
  }

  // ---------------------------------------------------------------- the methods

  /** One pass of the inner switch. */
  method SpecSwitch(fmt: seq<char>, pos: nat, v: Conv, e: Env) returns (s: Step)
    requires pos < |fmt|
    ensures s == SpecStep(fmt, pos, v, e)
  {
    var c := fmt[pos];
    var q := pos + 1;
    if IsTerminal(c) {
      return Stop(c, v);
    }
    match c {
      case 'h' => s := LengthStep(fmt, pos, v, e);
      case 'j' => s := LengthStep(fmt, pos, v, e);
      case 'l' => s := LengthStep(fmt, pos, v, e);
      case 't' => s := LengthStep(fmt, pos, v, e);
      case 'z' => s := LengthStep(fmt, pos, v, e);
      case 'I' => s := LengthStep(fmt, pos, v, e);
      case 'L' => s := Go(v.(flags := v.flags.(ldouble := true), state := END), q);
      case '.' =>
        if v.state < GET_PRECISION {
          s := Go(v.(precision := 0, target := ToPrecision, state := GET_PRECISION), q);
        } else {
          s := Go(v.(state := END), q);
        }
      case '*' => s := Star(fmt, q, v, e);
      case _ =>
        var w := v;
        if c in "#+-' " || (c == '0' && v.state == INIT) {
          if v.state == INIT {
            w := match c
              case '#' => v.(flags := v.flags.(hashed := true))
              case '+' => v.(flags := v.flags.(positive := true))
              case '-' => v.(flags := v.flags.(ljustify := true))
              case '\'' => v.(flags := v.flags.(grouped := true))
              case ' ' => v.(flags := v.flags.(addspace := true))
              case _ => v.(flags := v.flags.(zerofill := true));
          }
          s := Go(w, q);
        } else if v.state < END && IsDigit(c) {
          s := Go(DigitStep(c, v), q);
        } else {
          s := Reject(v.cursor);
        }
    }
  }

  /** A length modifier, with Microsoft's "l" for long double when the quirks are enabled. */
  method LengthStep(fmt: seq<char>, pos: nat, v: Conv, e: Env) returns (s: Step)
    requires pos < |fmt| && fmt[pos] in "hjltzI"
    ensures s == SpecStep(fmt, pos, v, e)
  {
    var m := PfIndex.LengthModifier(fmt, pos);
    var w := v.(length := m.length, state := END);
    if fmt[pos] == 'l' && e.quirks && m.length == PfIndex.LENGTH_LONG {
      w := w.(flags := w.flags.(ldouble := true));
    }
    s := Go(w, m.next);
  }

  /** The '*' case: read the argument, indexed or next in sequence. */
  method Star(fmt: seq<char>, q: nat, v: Conv, e: Env) returns (s: Step)
    requires q <= |fmt|
    ensures s == StarStep(fmt, q, v, e)
  {
    if v.target == Nowhere || (v.state != INIT && v.state != GET_PRECISION) {
      return Go(v.(state := END, target := Nowhere), q);
    }
    var index, next := 0, q;
    if e.argc > 0 {
      index, next := PfIndex.ArgIndex(fmt, q);
    }
    var w := v;
    var value;
    if index > 0 {
      value := I32(WordAt(e.args, index - 1));
    } else {
      value := I32(WordAt(e.args, w.cursor));
      w := w.(cursor := w.cursor + 1);
    }
    if v.target == ToWidth {
      w := w.(width := value);
    } else {
      w := w.(precision := value);
    }
    if value < 0 {
      if v.state == INIT {
        w := w.(flags := w.flags.(ljustify := true), width := I32(-w.width));
      } else {
        w := w.(precision := PFORMAT_IGNORE);
      }
    }
    s := Go(w.(target := Nowhere), next);
  }

  /** The inner `while( *fmt )` loop of __pformat, from pos. */
  method ParseSpec(fmt: seq<char>, pos: nat, v: Conv, e: Env) returns (r: Parsed)
    requires pos <= |fmt|
    ensures r == ParseFrom(fmt, pos, v, e)
  {
    var p, w := pos, v;
    while At(fmt, p) != '\0'
      invariant p <= |fmt| && ParseFrom(fmt, p, w, e) == ParseFrom(fmt, pos, v, e)
      decreases |fmt| - p
    {
      var s := SpecSwitch(fmt, p, w, e);
      match s {
        case Stop(c, u) => return Terminal(c, u, p + 1);
        case Reject(k) => return Rejected(k);
        case Go(u, n) => p, w := n, u;
      }
    }
    return Unfinished(p);
  }

  /** The dispatch on the conversion character: the handler call and the argument it reads. */
  method Convert(s: Stream, c: char, v: Conv, e: Env) returns (stores: seq<Store>)
    requires IsTerminal(c) && s.Valid() && s.Fits(|ConversionText(c, v, e)|)
    modifies s, s.dest
    ensures s.Valid()
    ensures s.log == old(s.log) + ConversionText(c, v, e)
    ensures stores == if c == 'n' then [Store(v.cursor, v.length, StoredCount(old(s.count), v.length))] else []
  {
    var k := v.cursor;
    var sp := SpecOf(v);
    var w := WordAt(e.args, k);
    stores := [];
    if c == '%' {
      s.Putc('%');
    } else if c == 'c' || c == 'C' {
      var length := if c == 'C' then PfIndex.LENGTH_LONG else v.length;
      sp := sp.(precision := PFORMAT_IGNORE);
      if length == PfIndex.LENGTH_LONG || length == PfIndex.LENGTH_LLONG {
        s.WPutChars([w % 0x1_0000], 1, sp, e.loc);
      } else {
        s.PutChars([(w % 0x100) as char], 1, sp);
      }
    } else if c == 's' || c == 'S' {
      var length := if c == 'S' then PfIndex.LENGTH_LONG else v.length;
      if length == PfIndex.LENGTH_LONG || length == PfIndex.LENGTH_LLONG {
        s.WcPuts(WStrAt(e.args, k), sp, e.loc);
      } else {
        s.Puts(StrAt(e.args, k), sp);
      }
    } else if c == 'u' {
      s.Int(UnsignedArg(w, v.length), sp, e.loc);
    } else if c == 'o' || c == 'x' || c == 'X' {
      s.XInt(UnsignedArg(w, v.length), c, sp);
    } else if c == 'd' || c == 'i' {
      sp := sp.(flags := sp.flags.(negative := true));
      s.Int(U64(SignedArg(w, v.length)), sp, e.loc);
    } else if c == 'p' {
      if v.state == INIT && v.flags == NoFlags {
        sp := sp.(flags := sp.flags.(zerofill := true), precision := PTR_DIGITS);
      }
      s.XInt(U32(w), 'x', sp);
    } else if c == 'n' {
      stores := [Store(k, v.length, StoredCount(s.count, v.length))];
    } else {
      if c in "efga" {
        sp := sp.(flags := sp.flags.(xcase := true));
      }
      s.PutAll(e.fp(c, sp, ArgAt(e.args, k)));
    }
  }

  /**
   * The bookkeeping of one pass: once an item's text has been written,
   * what is left to write is the rendering of the items after it.
   */
  lemma Emitted(before: seq<char>, log: seq<char>, item: Item, rest: seq<Item>, count: int)
    requires log == before + ItemOut(item, count).text
    ensures var o := ItemOut(item, count);
      var r := Render(rest, count + |o.text|);
      var r0 := Render([item] + rest, count);
      log + r.text == before + r0.text && o.stores + r.stores == r0.stores && |r0.text| == |o.text| + |r.text|
  {
    var o := ItemOut(item, count);
    assert ([item] + rest)[1..] == rest;
    Associative(before, o.text, Render(rest, count + |o.text|).text);
  }

  /** Emitted, with the count after the item and the stores it made taken as given. */
  lemma EmittedAt(before: seq<char>, log: seq<char>, item: Item, rest: seq<Item>, count: int, n: int,
                  stores: seq<Store>)
    requires log == before + ItemOut(item, count).text && stores == ItemOut(item, count).stores
    requires count == |before| && n == |log|
    ensures var r := Render(rest, n);
      var r0 := Render([item] + rest, count);
      log + r.text == before + r0.text && stores + r.stores == r0.stores && n + |r.text| == count + |r0.text|
  {
    Emitted(before, log, item, rest, count);
  }

  /** The items from a '%': what the specification there parses to, then the items after it. */
  lemma ItemsAtPercent(fmt: seq<char>, pos: nat, cursor: nat, e: Env)
    requires pos < |fmt| && fmt[pos] == '%'
    ensures match ParseAt(fmt, pos, cursor, e)
      case Unfinished(_) => Items(fmt, pos, cursor, e) == []
      case Rejected(k) => Items(fmt, pos, cursor, e) == [Literal('%')] + Items(fmt, pos + 1, k, e)
      case Terminal(t, v, n) => Items(fmt, pos, cursor, e) == [Directive(t, v, ConversionText(t, v, e))] + Items(fmt, n, CursorAfter(t, v), e)
  {
  }

  /** The index prefix, when processing positionally, then the inner loop. */
  method ParseSpecAt(fmt: seq<char>, pos: nat, cursor: nat, e: Env) returns (parsed: Parsed)
    requires pos < |fmt|
    ensures parsed == ParseAt(fmt, pos, cursor, e)
  {
    var index, at := 0, pos + 1;
    if e.argc > 0 {
      index, at := PfIndex.ArgIndex(fmt, pos + 1);
    }
    var start := if index > 0 then index - 1 else cursor;
    parsed := ParseSpec(fmt, at, Start(start), e);
  }

  /**
   * One pass of __pformat's outer loop at pos: a literal character, or a
   * whole specification; the items then still to come are those from
   * the new position.
   */
  method ScanOne(s: Stream, fmt: seq<char>, pos: nat, cursor: nat, e: Env) returns (next: nat, after: nat, stores: seq<Store>)
    requires pos < |fmt| && fmt[pos] != '\0'
    requires s.Valid() && s.Fits(|Render(Items(fmt, pos, cursor, e), s.count).text|)
    modifies s, s.dest
    ensures pos < next <= |fmt| && s.Valid()
    ensures var r := Render(Items(fmt, next, after, e), s.count);
      var r0 := Render(Items(fmt, pos, cursor, e), old(s.count));
      s.log + r.text == old(s.log) + r0.text && stores + r.stores == r0.stores && s.Fits(|r.text|)
  {
    var c := fmt[pos];
    if c == '%' {
      next, after, stores := ScanSpec(s, fmt, pos, cursor, e);
    } else {
      next, after := pos + 1, cursor;
      stores := EmitItem(s, Literal(c), Items(fmt, next, after, e), e);
    }
  }

  /** ScanOne at a '%': the specification is converted, or rejected and its '%' copied, or cut short. */
  method ScanSpec(s: Stream, fmt: seq<char>, pos: nat, cursor: nat, e: Env) returns (next: nat, after: nat, stores: seq<Store>)
    requires pos < |fmt| && fmt[pos] == '%'
    requires s.Valid() && s.Fits(|Render(Items(fmt, pos, cursor, e), s.count).text|)
    modifies s, s.dest
    ensures pos < next <= |fmt| && s.Valid()
    ensures var r := Render(Items(fmt, next, after, e), s.count);
      var r0 := Render(Items(fmt, pos, cursor, e), old(s.count));
      s.log + r.text == old(s.log) + r0.text && stores + r.stores == r0.stores && s.Fits(|r.text|)
  {
    var parsed := ParseSpecAt(fmt, pos, cursor, e);
    ItemsAtPercent(fmt, pos, cursor, e);
    match parsed {
      case Unfinished(end) =>
        next, after, stores := end, cursor, [];
      case Rejected(k) =>
        next, after := pos + 1, k;
        stores := EmitItem(s, Literal('%'), Items(fmt, next, after, e), e);
      case Terminal(t, v, n) =>
        next, after := n, CursorAfter(t, v);
        stores := EmitItem(s, Directive(t, v, ConversionText(t, v, e)), Items(fmt, next, after, e), e);
    }
  }

  /** One item written: a literal character, or a conversion; what is then left is the rendering of the rest. */
  method EmitItem(s: Stream, item: Item, ghost rest: seq<Item>, e: Env) returns (stores: seq<Store>)
    requires item.Directive? ==> IsTerminal(item.t) && item.text == ConversionText(item.t, item.v, e)
    requires s.Valid() && s.Fits(|Render([item] + rest, s.count).text|)
    modifies s, s.dest
    ensures s.Valid()
    ensures var r := Render(rest, s.count);
      var r0 := Render([item] + rest, old(s.count));
      s.log + r.text == old(s.log) + r0.text && stores + r.stores == r0.stores && s.Fits(|r.text|)
  {
    ghost var count, before := s.count, s.log;
    ghost var o := ItemOut(item, count);
    Emitted(before, before + o.text, item, rest, count);
    match item {
      case Literal(c) =>
        s.Putc(c);
        stores := [];
      case Directive(t, v, _) =>
        stores := Convert(s, t, v, e);
    }
    EmittedAt(before, s.log, item, rest, count, s.count, stores);
  }

  /** The prescan: __pformat_indexed_argc, then __pformat_argmap on a map of that size. */
  method IndexedArguments(fmt: seq<char>, quirks: bool) returns (argc: nat)
    ensures argc == IndexedCount(fmt, quirks)
  {
    argc := PfIndex.IndexedArgc(fmt);
    if argc > 0 {
      var specs := new PfIndex.Entry[argc](_ => PfIndex.Unclassified);
      argc := PfIndex.Argmap(argc, fmt, specs, quirks);
    }
  }

  /** The `format_scan` loop of __pformat. */
  method Scan(s: Stream, fmt: seq<char>, e: Env) returns (stores: seq<Store>)
    requires s.Valid() && s.Fits(|Render(Items(fmt, 0, 0, e), s.count).text|)
    modifies s, s.dest
    ensures s.Valid()
    ensures var out := Render(Items(fmt, 0, 0, e), old(s.count));
      s.log == old(s.log) + out.text && stores == out.stores
  {
    ghost var total := Render(Items(fmt, 0, 0, e), s.count);
    var pos, cursor := 0, 0;
    stores := [];
    while At(fmt, pos) != '\0'
      invariant pos <= |fmt| && s.Valid()
      invariant var r := Render(Items(fmt, pos, cursor, e), s.count);
        s.log + r.text == old(s.log) + total.text && stores + r.stores == total.stores && s.Fits(|r.text|)
      decreases |fmt| - pos
    {
      var more;
      pos, cursor, more := ScanOne(s, fmt, pos, cursor, e);
      stores := stores + more;
    }
  }

  /**
   * __pformat: format fmt with args into a FILE (toFile) or the buffer
   * dest, writing at most max characters unless noLimit; return the
   * number of characters generated, however many were written, with the
   * output to a FILE and the %n stores.
   */
  method Format(toFile: bool, noLimit: bool, dest: array<char>, max: int, fmt: seq<char>,
                args: seq<Arg>, loc: Locale, quirks: bool, fp: FloatText)
    returns (count: int, file: seq<char>, stores: seq<Store>)
    requires !toFile && noLimit ==> |Printf(fmt, args, loc, quirks, fp).text| <= dest.Length
    requires !toFile && !noLimit ==> max <= dest.Length
    modifies dest
    ensures var out := Printf(fmt, args, loc, quirks, fp);
      var shown := Delivered(out.text, noLimit, max);
      count == |out.text| && stores == out.stores &&
      (toFile ==> file == shown && dest[..] == old(dest[..])) &&
      (!toFile ==> file == [] && dest[..] == shown + old(dest[..])[|shown|..])
  {
    var argc := IndexedArguments(fmt, quirks);
    var e := Env(args, argc, loc, quirks, fp);
    assert e == EnvOf(fmt, args, loc, quirks, fp);
    ghost var out := Render(Items(fmt, 0, 0, e), 0);
    assert out == Printf(fmt, args, loc, quirks, fp);
    var s := new Stream(toFile, noLimit, dest, max);
    stores := Scan(s, fmt, e);
    assert s.log == out.text;
    count := s.count;
    file := s.file;
  }
}
