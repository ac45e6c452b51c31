/**
 * What __pformat promises about whole formats: literal text is copied,
 * "%%" is a percent sign that reads no argument, a specification the
 * state machine rejects is copied as it stands, one cut short by the end
 * of the format is dropped, positional references pick their argument by
 * index, and %n stores the count so far.
 */
module PFormatLaws {
  import opened CInt
  import opened PfOutput
  import PfIndex
  import opened PFormat

  // ---------------------------------------------------------------- rendering

  /** Rendering a + b renders a, then b after a's characters. */
  predicate RendersApart(a: seq<Item>, b: seq<Item>, count: int)
  {
    var ra := Render(a, count);
    var rb := Render(b, count + |ra.text|);
    Render(a + b, count) == Output(ra.text + rb.text, ra.stores + rb.stores)
  }

  /** Rendering a concatenation renders the first part, then the second after its characters. */
  lemma {:induction false} RenderAppend(a: seq<Item>, b: seq<Item>, count: int)
    ensures RendersApart(a, b, count)
    decreases |a|
  {
    if a == [] {
      assert a + b == b;
    } else {
      RenderAppend(a[1..], b, count + |ItemOut(a[0], count).text|);
      RenderAppendStep(a, b, count);
    }
  }

  /** The step of RenderAppend: from the rest of a to all of a. */
  lemma RenderAppendStep(a: seq<Item>, b: seq<Item>, count: int)
    requires a != [] && RendersApart(a[1..], b, count + |ItemOut(a[0], count).text|)
    ensures RendersApart(a, b, count)
  {
    var o := ItemOut(a[0], count);
    var c1 := count + |o.text|;
    var r1 := Render(a[1..], c1);
    var rb := Render(b, c1 + |r1.text|);
    var tail := Render(a[1..] + b, c1);
    assert tail == Output(r1.text + rb.text, r1.stores + rb.stores);
    assert a == [a[0]] + a[1..];
    assert a + b == [a[0]] + (a[1..] + b);
    RenderCons(a[0], a[1..] + b, count);
    RenderCons(a[0], a[1..], count);
    var ra := Render(a, count);
    assert ra == Output(o.text + r1.text, o.stores + r1.stores);
    assert Render(a + b, count) == Output(o.text + tail.text, o.stores + tail.stores);
    assert count + |ra.text| == c1 + |r1.text|;
    Associative(o.text, r1.text, rb.text);
    Associative(o.stores, r1.stores, rb.stores);
  }

  // ---------------------------------------------------------------- literal text

  /**
   * Characters that are neither '%' nor NUL are copied one for one, up to
   * the terminating NUL at end, and store nothing.
   */
  lemma LiteralRun(fmt: seq<char>, pos: nat, end: nat, cursor: nat, e: Env, count: int)
    requires pos <= end <= |fmt| && At(fmt, end) == '\0'
    requires '%' !in fmt[pos..end] && '\0' !in fmt[pos..end]
    ensures Render(Items(fmt, pos, cursor, e), count) == Output(fmt[pos..end], [])
  {
    ItemsLiteral(fmt, pos, end, cursor, e);
    RenderLiterals(fmt[pos..end], count);
  }

  /** One literal item per character. */
  function Literals(cs: seq<char>): (r: seq<Item>)
    ensures |r| == |cs|
  {
    if cs == [] then [] else [Literal(cs[0])] + Literals(cs[1..])
  }

  /** The items of a run of plain characters are those characters as literals. */
  lemma {:induction false} ItemsLiteral(fmt: seq<char>, pos: nat, end: nat, cursor: nat, e: Env)
    requires pos <= end <= |fmt| && At(fmt, end) == '\0'
    requires '%' !in fmt[pos..end] && '\0' !in fmt[pos..end]
    ensures Items(fmt, pos, cursor, e) == Literals(fmt[pos..end])
    decreases end - pos
  {
    if pos < end {
      SliceCons(fmt, pos, end, '%', '\0');
      LiteralItem(fmt, pos, cursor, e);
      ItemsLiteral(fmt, pos + 1, end, cursor, e);
      LiteralsSlice(fmt, pos, end);
    }
  }

  lemma LiteralsSlice(s: seq<char>, i: nat, j: nat)
    requires i < j <= |s|
    ensures Literals(s[i..j]) == [Literal(s[i])] + Literals(s[i + 1..j])
  {
    assert s[i..j][1..] == s[i + 1..j];
  }

  /** Literal items emit their characters and store nothing. */
  lemma {:induction false} RenderLiterals(cs: seq<char>, count: int)
    ensures Render(Literals(cs), count) == Output(cs, [])
    decreases |cs|
  {
    if cs != [] {
      RenderLiterals(cs[1..], count + 1);
      RenderCons(Literal(cs[0]), Literals(cs[1..]), count);
      ConsTail(cs);
    }
  }

  /** A format without a '%' prints itself, up to its terminating NUL. */
  lemma PlainFormat(fmt: seq<char>, args: seq<Arg>, loc: Locale, quirks: bool, fp: FloatText)
    requires '%' !in fmt
    ensures Printf(fmt, args, loc, quirks, fp) == Output(fmt[..StrLen(fmt)], [])
  {
    var n := StrLen(fmt);
    assert '\0' !in fmt[0..n];
    LiteralRun(fmt, 0, n, 0, EnvOf(fmt, args, loc, quirks, fp), 0);
  }

  // ---------------------------------------------------------------- percent signs

  /** The specification "%%" ends at its second '%', with the cursor where it was. */
  lemma PercentParse(fmt: seq<char>, pos: nat, cursor: nat, e: Env)
    requires pos + 1 < |fmt| && fmt[pos] == '%' && fmt[pos + 1] == '%'
    ensures ParseAt(fmt, pos, cursor, e) == Terminal('%', Start(cursor), pos + 2)
  {
    var ix := IndexOrNone(fmt, pos + 1, e.argc);
    assert ix.index == 0 && ix.pos == pos + 1;
  }

  /** "%%" prints one '%' and reads no argument: the scan goes on with the same cursor. */
  lemma PercentPercent(fmt: seq<char>, pos: nat, cursor: nat, e: Env, count: int)
    requires pos + 1 < |fmt| && fmt[pos] == '%' && fmt[pos + 1] == '%'
    ensures Render(Items(fmt, pos, cursor, e), count) ==
      Render([Literal('%')] + Items(fmt, pos + 2, cursor, e), count)
  {
    var v := Start(cursor);
    PercentParse(fmt, pos, cursor, e);
    ItemsAtPercent(fmt, pos, cursor, e);
    var rest := Items(fmt, pos + 2, cursor, e);
    assert ConversionText('%', v, e) == ['%'];
    RenderFirst(Items(fmt, pos, cursor, e), Directive('%', v, ['%']), Literal('%'), rest, count);
  }

  /** Two items that emit and store the same render alike ahead of the same rest. */
  lemma RenderFirst(items: seq<Item>, x: Item, y: Item, rest: seq<Item>, count: int)
    requires items == [x] + rest && ItemOut(x, count) == ItemOut(y, count)
    ensures Render(items, count) == Render([y] + rest, count)
  {
    RenderCons(x, rest, count);
    RenderCons(y, rest, count);
  }

  /** The characters that can continue a specification without ending it. */
  predicate Continues(c: char)
  {
    c in "#+-' 0123456789hjltzIL.*"
  }

  /**
   * A '%' followed by a character that neither continues nor ends a
   * specification is copied, and so is that character: "%y" prints "%y".
   */
  lemma UnknownDirective(fmt: seq<char>, pos: nat, cursor: nat, e: Env)
    requires pos + 1 < |fmt| && fmt[pos] == '%'
    requires fmt[pos + 1] !in "\0$" && !IsTerminal(fmt[pos + 1]) && !Continues(fmt[pos + 1])
    ensures Items(fmt, pos, cursor, e) == [Literal('%'), Literal(fmt[pos + 1])] + Items(fmt, pos + 2, cursor, e)
  {
    UnknownParse(fmt, pos, cursor, e);
    ItemsRejected(fmt, pos, cursor, e, cursor);
    LiteralItem(fmt, pos + 1, cursor, e);
    ConsTwo(Literal('%'), Literal(fmt[pos + 1]), Items(fmt, pos + 2, cursor, e));
  }

  lemma UnknownParse(fmt: seq<char>, pos: nat, cursor: nat, e: Env)
    requires pos + 1 < |fmt| && fmt[pos] == '%'
    requires fmt[pos + 1] !in "\0$" && !IsTerminal(fmt[pos + 1]) && !Continues(fmt[pos + 1])
    ensures ParseAt(fmt, pos, cursor, e) == Rejected(cursor)
  {
    var ix := IndexOrNone(fmt, pos + 1, e.argc);
    assert ix.index == 0 && ix.pos == pos + 1;
    assert SpecStep(fmt, pos + 1, Start(cursor), e) == Reject(cursor);
  }

  /** A rejected specification leaves its '%' as a literal; the scan resumes after it. */
  lemma ItemsRejected(fmt: seq<char>, pos: nat, cursor: nat, e: Env, k: nat)
    requires pos < |fmt| && fmt[pos] == '%' && ParseAt(fmt, pos, cursor, e) == Rejected(k)
    ensures Items(fmt, pos, cursor, e) == [Literal('%')] + Items(fmt, pos + 1, k, e)
  {
    ItemsAtPercent(fmt, pos, cursor, e);
  }

  /** A character other than '%' and NUL is copied. */
  lemma LiteralItem(fmt: seq<char>, pos: nat, cursor: nat, e: Env)
    requires pos < |fmt| && fmt[pos] != '%' && fmt[pos] != '\0'
    ensures Items(fmt, pos, cursor, e) == [Literal(fmt[pos])] + Items(fmt, pos + 1, cursor, e)
  {
  }

  /** Flags alone never end a specification: the inner loop runs to the end of the format. */
  lemma {:induction false} FlagsRunOut(fmt: seq<char>, p: nat, v: Conv, e: Env)
    requires p <= |fmt| && v.state == INIT
    requires forall k | p <= k < |fmt| :: fmt[k] in "#+-' "
    ensures ParseFrom(fmt, p, v, e).Unfinished?
    decreases |fmt| - p
  {
    if At(fmt, p) != '\0' {
      FlagStep(fmt, p, v, e);
      var s := SpecStep(fmt, p, v, e);
      FlagsRunOut(fmt, p + 1, s.v, e);
    }
  }

  /** A flag character keeps the state machine in its initial state. */
  lemma FlagStep(fmt: seq<char>, p: nat, v: Conv, e: Env)
    requires p < |fmt| && v.state == INIT && fmt[p] in "#+-' "
    ensures var s := SpecStep(fmt, p, v, e);
      s.Go? && s.next == p + 1 && s.v.state == INIT
  {
    var c := fmt[p];
    assert !IsTerminal(c) && c !in "hjltzI" && c != 'L' && c != '.' && c != '*';
  }

  /** A specification of flags only at the end of the format prints nothing: "100%-" prints "100". */
  lemma TrailingFlags(fmt: seq<char>, pos: nat, cursor: nat, e: Env)
    requires pos < |fmt| && fmt[pos] == '%'
    requires forall k | pos < k < |fmt| :: fmt[k] in "#+-' "
    ensures Items(fmt, pos, cursor, e) == []
  {
    FlagsParse(fmt, pos, cursor, e);
    ItemsAtPercent(fmt, pos, cursor, e);
  }

  lemma FlagsParse(fmt: seq<char>, pos: nat, cursor: nat, e: Env)
    requires pos < |fmt| && fmt[pos] == '%'
    requires forall k | pos < k < |fmt| :: fmt[k] in "#+-' "
    ensures ParseAt(fmt, pos, cursor, e).Unfinished?
  {
    var ix := IndexOrNone(fmt, pos + 1, e.argc);
    assert ix.index == 0 && ix.pos == pos + 1;
    FlagsRunOut(fmt, pos + 1, Start(cursor), e);
  }

  // ---------------------------------------------------------------- positional arguments

  /**
   * __pformat processes a format positionally when the prescan counts
   * some arguments and every index from 1 to that count is referenced.
   */
  lemma IndexedCountIs(fmt: seq<char>, quirks: bool)
    ensures var n := PfIndex.ArgcFrom(fmt, 0, 0);
      IndexedCount(fmt, quirks) == if n > 0 && forall k | 1 <= k <= n :: k in PfIndex.RefsFrom(fmt, n) then n else 0
  {
    PfIndex.ArgmapAccepts(fmt, PfIndex.ArgcFrom(fmt, 0, 0), quirks, false);
  }

  /** The prescan passes over literal characters without changing its count. */
  lemma {:induction false} ArgcSkipsLiterals(fmt: seq<char>, i: nat, pos: nat)
    requires i <= pos <= |fmt|
    requires '%' !in fmt[i..pos] && '\0' !in fmt[i..pos]
    ensures PfIndex.ArgcFrom(fmt, i, 0) == PfIndex.ArgcFrom(fmt, pos, 0)
    decreases pos - i
  {
    if i < pos {
      SliceCons(fmt, i, pos, '%', '\0');
      ArgcLiteral(fmt, i);
      ArgcSkipsLiterals(fmt, i + 1, pos);
    }
  }

  lemma ArgcLiteral(fmt: seq<char>, i: nat)
    requires i < |fmt| && fmt[i] != '%' && fmt[i] != '\0'
    ensures PfIndex.ArgcFrom(fmt, i, 0) == PfIndex.ArgcFrom(fmt, i + 1, 0)
  {
    assert PfIndex.ArgcStep(fmt, i, 0) == PfIndex.Next(i, 0);
  }

  /**
   * A format whose first specification has no "n$" index and ends in a
   * conversion is not processed positionally: "%*s", "%d", "ab%n".
   */
  lemma UnindexedCount(fmt: seq<char>, pos: nat, quirks: bool)
    requires pos < |fmt| && fmt[pos] == '%'
    requires forall k | 0 <= k < pos :: fmt[k] != '%' && fmt[k] != '\0'
    requires !IsDigit(At(fmt, pos + 1)) && At(fmt, pos + 1) != '$'
    requires PfIndex.IsConversionType(At(fmt, PfIndex.LengthModifier(fmt, PfIndex.SpecBodyEnd(fmt, pos + 1)).next)) != 0
    ensures IndexedCount(fmt, quirks) == 0
  {
    assert '%' !in fmt[0..pos] && '\0' !in fmt[0..pos];
    ArgcSkipsLiterals(fmt, 0, pos);
    assert PfIndex.IndexAt(fmt, pos + 1).pos == pos + 1;
    PfIndex.ArgcUnfold(fmt, pos, 0, PfIndex.ArgcStep(fmt, pos, 0));
  }

  /** Once every index is referenced, "%2$s%1$s" is processed with two arguments. */
  lemma SwapCount(fmt: seq<char>, quirks: bool)
    requires fmt == "%2$s%1$s"
    ensures IndexedCount(fmt, quirks) == 2
  {
    SwapArgc(fmt);
    SwapRefs(fmt);
    AllReferenced(fmt, quirks, 2);
  }

  /** A prescan count n whose every index 1..n is referenced is the count __pformat settles on. */
  lemma AllReferenced(fmt: seq<char>, quirks: bool, n: nat)
    requires PfIndex.ArgcFrom(fmt, 0, 0) == n > 0 && forall k | 1 <= k <= n :: k in PfIndex.RefsFrom(fmt, n)
    ensures IndexedCount(fmt, quirks) == n
  {
    IndexedCountIs(fmt, quirks);
  }

  lemma SwapIndices(fmt: seq<char>)
    requires fmt == "%2$s%1$s"
    ensures PfIndex.IndexAt(fmt, 1) == PfIndex.IndexRead(2, 2) && PfIndex.IndexAt(fmt, 5) == PfIndex.IndexRead(1, 6)
    ensures PfIndex.IndexedAt(fmt, 2) == PfIndex.Indexed(PfIndex.NoStar, PfIndex.NoStar, PfIndex.LENGTH_INT, 3)
    ensures PfIndex.IndexedAt(fmt, 6) == PfIndex.Indexed(PfIndex.NoStar, PfIndex.NoStar, PfIndex.LENGTH_INT, 7)
  {
    assert PfIndex.DigitEnd(fmt, 2) == 2 && PfIndex.DigitEnd(fmt, 1) == 2;
    assert PfIndex.DigitEnd(fmt, 6) == 6 && PfIndex.DigitEnd(fmt, 5) == 6;
    assert PfIndex.FlagsEnd(fmt, 3) == 3 && PfIndex.DigitEnd(fmt, 3) == 3;
    assert PfIndex.FlagsEnd(fmt, 7) == 7 && PfIndex.DigitEnd(fmt, 7) == 7;
  }

  lemma SwapArgc(fmt: seq<char>)
    requires fmt == "%2$s%1$s"
    ensures PfIndex.ArgcFrom(fmt, 0, 0) == 2
  {
    SwapIndices(fmt);
    assert PfIndex.ArgcStep(fmt, 0, 0) == PfIndex.Next(3, 2);
    assert PfIndex.ArgcStep(fmt, 4, 2) == PfIndex.Next(7, 2);
    assert PfIndex.ArgcFrom(fmt, 4, 2) == 2;
  }

  lemma SwapRefs(fmt: seq<char>)
    requires fmt == "%2$s%1$s"
    ensures forall k | 1 <= k <= 2 :: k in PfIndex.RefsFrom(fmt, 2)
  {
    SwapIndices(fmt);
    var r2 := PfIndex.Conv(2, 's', PfIndex.LENGTH_INT, PfIndex.NoStar, PfIndex.NoStar);
    var r1 := PfIndex.Conv(1, 's', PfIndex.LENGTH_INT, PfIndex.NoStar, PfIndex.NoStar);
    assert PfIndex.ParseStep(fmt, 0) == PfIndex.Parsed(r2, 3);
    assert PfIndex.ParseStep(fmt, 4) == PfIndex.Parsed(r1, 7);
    assert PfIndex.ParseStep(fmt, 8) == PfIndex.Parsed(PfIndex.NoRef, 8);
    assert PfIndex.Parse(fmt, 8) == [PfIndex.NoRef];
    assert PfIndex.Parse(fmt, 4) == [r1, PfIndex.NoRef];
    assert PfIndex.Parse(fmt, 0) == [r2, r1, PfIndex.NoRef];
    assert PfIndex.Refs([PfIndex.NoRef], 2) == {};
    assert PfIndex.Refs([r1, PfIndex.NoRef], 2) == {1};
  }

  /** Each specification of "%2$s%1$s" starts at its own index and ignores the running cursor. */
  lemma SwapParse(fmt: seq<char>, e: Env)
    requires fmt == "%2$s%1$s" && e.argc == 2
    ensures ParseAt(fmt, 0, 0, e) == Terminal('s', Start(1), 4)
    ensures ParseAt(fmt, 4, 2, e) == Terminal('s', Start(0), 8)
  {
    SwapIndices(fmt);
  }

  /** A plain %s prints the argument's characters up to its NUL. */
  lemma PlainString(k: nat, e: Env, t: seq<char>)
    requires StrAt(e.args, k) == Some(t)
    ensures ConversionText('s', Start(k), e) == t[..StrLen(t)]
  {
    CharsTextShape(t, StrLen(t), SpecOf(Start(k)));
  }

  lemma SwapItems(fmt: seq<char>, e: Env, a: seq<char>, b: seq<char>)
    requires fmt == "%2$s%1$s" && e.argc == 2 && StrAt(e.args, 0) == Some(a) && StrAt(e.args, 1) == Some(b)
    ensures Items(fmt, 0, 0, e) == [Directive('s', Start(1), b[..StrLen(b)]), Directive('s', Start(0), a[..StrLen(a)])]
  {
    SwapParse(fmt, e);
    ItemsAtPercent(fmt, 0, 0, e);
    ItemsAtPercent(fmt, 4, 2, e);
    assert Items(fmt, 8, 1, e) == [];
    PlainString(1, e, b);
    PlainString(0, e, a);
  }

  /** Printf is the rendering of the format's items. */
  lemma PrintfItems(fmt: seq<char>, args: seq<Arg>, loc: Locale, quirks: bool, fp: FloatText, items: seq<Item>)
    requires Items(fmt, 0, 0, EnvOf(fmt, args, loc, quirks, fp)) == items
    ensures Printf(fmt, args, loc, quirks, fp) == Render(items, 0)
  {
  }

  /** Two items print their texts in order. */
  lemma RenderTwo(x: Item, y: Item)
    requires x.Directive? && y.Directive? && x.t != 'n' && y.t != 'n'
    ensures Render([x, y], 0) == Output(x.text + y.text, [])
  {
    assert [x, y] == [x] + [y];
    RenderCons(x, [y], 0);
    RenderCons(y, [], |x.text|);
    assert [y] + [] == [y];
  }

  /** "%2$s%1$s" prints its two string arguments in reverse order. */
  lemma PositionalSwap(fmt: seq<char>, a: seq<char>, b: seq<char>, loc: Locale, quirks: bool, fp: FloatText)
    requires fmt == "%2$s%1$s"
    ensures Printf(fmt, [StrArg(Some(a)), StrArg(Some(b))], loc, quirks, fp) == Output(b[..StrLen(b)] + a[..StrLen(a)], [])
  {
    var args := [StrArg(Some(a)), StrArg(Some(b))];
    SwapCount(fmt, quirks);
    var e := EnvOf(fmt, args, loc, quirks, fp);
    SwapItems(fmt, e, a, b);
    var items := [Directive('s', Start(1), b[..StrLen(b)]), Directive('s', Start(0), a[..StrLen(a)])];
    PrintfItems(fmt, args, loc, quirks, fp, items);
    RenderTwo(items[0], items[1]);
  }

  /** "%2$d" leaves argument 1 unreferenced, so the format is not processed positionally. */
  lemma GapCount(fmt: seq<char>, quirks: bool)
    requires fmt == "%2$d"
    ensures IndexedCount(fmt, quirks) == 0
  {
    assert PfIndex.DigitEnd(fmt, 2) == 2 && PfIndex.DigitEnd(fmt, 1) == 2;
    assert PfIndex.IndexAt(fmt, 1) == PfIndex.IndexRead(2, 2);
    assert PfIndex.FlagsEnd(fmt, 3) == 3 && PfIndex.DigitEnd(fmt, 3) == 3;
    var r2 := PfIndex.Conv(2, 'd', PfIndex.LENGTH_INT, PfIndex.NoStar, PfIndex.NoStar);
    assert PfIndex.IndexedAt(fmt, 2) == PfIndex.Indexed(PfIndex.NoStar, PfIndex.NoStar, PfIndex.LENGTH_INT, 3);
    assert PfIndex.ArgcStep(fmt, 0, 0) == PfIndex.Next(3, 2);
    assert PfIndex.ArgcFrom(fmt, 0, 0) == 2;
    assert PfIndex.ParseStep(fmt, 0) == PfIndex.Parsed(r2, 3);
    assert PfIndex.ParseStep(fmt, 4) == PfIndex.Parsed(PfIndex.NoRef, 4);
    assert PfIndex.Parse(fmt, 4) == [PfIndex.NoRef];
    assert PfIndex.Parse(fmt, 0) == [r2, PfIndex.NoRef];
    assert PfIndex.Refs([PfIndex.NoRef], 2) == {};
    assert PfIndex.Refs([r2, PfIndex.NoRef], 2) == {2};
    assert PfIndex.RefsFrom(fmt, 2) == {2};
    IndexedCountIs(fmt, quirks);
    assert 1 !in PfIndex.RefsFrom(fmt, 2);
  }

  /** Read sequentially, "%2$d" is a width of 2 followed by '$', which no specification continues with. */
  lemma GapParse(fmt: seq<char>, e: Env)
    requires fmt == "%2$d" && e.argc == 0
    ensures ParseAt(fmt, 0, 0, e) == Rejected(0)
  {
    var v := Start(0);
    var w := DigitStep('2', v);
    assert IndexOrNone(fmt, 1, e.argc) == PfIndex.IndexRead(0, 1);
    assert SpecStep(fmt, 1, v, e) == Go(w, 2);
    assert SpecStep(fmt, 2, w, e) == Reject(0);
    assert ParseFrom(fmt, 2, w, e) == Rejected(0);
    assert ParseFrom(fmt, 1, v, e) == Rejected(0);
  }

  /** A positional format with a gap in its indices is printed as it stands. */
  lemma GapVerbatim(fmt: seq<char>, args: seq<Arg>, loc: Locale, quirks: bool, fp: FloatText)
    requires fmt == "%2$d"
    ensures Printf(fmt, args, loc, quirks, fp) == Output(fmt, [])
  {
    GapCount(fmt, quirks);
    var e := EnvOf(fmt, args, loc, quirks, fp);
    GapParse(fmt, e);
    assert fmt[1..] == ['2', '$', 'd'];
    RejectedVerbatim(fmt, e);
  }

  /**
   * A format whose one '%' opens a rejected specification, and that holds
   * no NUL, prints as it stands.
   */
  lemma RejectedVerbatim(fmt: seq<char>, e: Env)
    requires |fmt| > 0 && fmt[0] == '%' && ParseAt(fmt, 0, 0, e) == Rejected(0)
    requires '%' !in fmt[1..] && '\0' !in fmt[1..]
    ensures Render(Items(fmt, 0, 0, e), 0) == Output(fmt, [])
  {
    var rest := Items(fmt, 1, 0, e);
    ItemsAtPercent(fmt, 0, 0, e);
    assert Items(fmt, 0, 0, e) == [Literal('%')] + rest;
    LiteralRun(fmt, 1, |fmt|, 0, e, 1);
    RenderCons(Literal('%'), rest, 0);
    ConsTail(fmt);
  }

  // ---------------------------------------------------------------- single conversions

  /** One item that stores nothing prints its text. */
  lemma RenderOne(x: Item)
    requires x.Directive? && x.t != 'n'
    ensures Render([x], 0) == Output(x.text, [])
  {
    RenderCons(x, [], 0);
    assert [x] + [] == [x];
  }

  /** The state after "%*" with a width argument w: a negative w left-justifies in a field of -w. */
  function StarConv(w: int): Conv
  {
    Conv(NoFlags.(ljustify := w < 0), if w < 0 then -w else w, PFORMAT_IGNORE, INIT, PfIndex.LENGTH_INT, Nowhere, 1)
  }

  lemma StarCount(fmt: seq<char>, quirks: bool)
    requires fmt == "%*s"
    ensures IndexedCount(fmt, quirks) == 0
  {
    assert PfIndex.FlagsEnd(fmt, 1) == 1;
    assert PfIndex.SpecBodyEnd(fmt, 1) == 2;
    UnindexedCount(fmt, 0, quirks);
  }

  lemma StarParse(fmt: seq<char>, e: Env, w: int)
    requires fmt == "%*s" && e.argc == 0 && WordAt(e.args, 0) == w && -TWO31 < w < TWO31
    ensures ParseAt(fmt, 0, 0, e) == Terminal('s', StarConv(w), 3)
  {
    var v := Start(0);
    assert IndexOrNone(fmt, 1, e.argc) == PfIndex.IndexRead(0, 1);
    assert SpecStep(fmt, 1, v, e) == Go(StarConv(w), 2);
    assert ParseFrom(fmt, 2, StarConv(w), e) == Terminal('s', StarConv(w), 3);
  }

  /** The text of "%*s" for a width argument w: the string, blank-padded to |w| on the side w's sign picks. */
  function StarText(w: int, t: seq<char>): seq<char>
  {
    var n := StrLen(t);
    var width := if w < 0 then -w else w;
    var pad := if width > n then width - n else 0;
    if w < 0 then t[..n] + Spaces(pad) else Spaces(pad) + t[..n]
  }

  lemma StarString(w: int, t: seq<char>, e: Env)
    requires -TWO31 < w < TWO31 && StrAt(e.args, 1) == Some(t)
    ensures ConversionText('s', StarConv(w), e) == StarText(w, t)
  {
    assert ConversionText('s', StarConv(w), e) == StringText(Some(t), SpecOf(StarConv(w)));
  }

  lemma StarItems(fmt: seq<char>, e: Env, w: int, t: seq<char>)
    requires fmt == "%*s" && e.argc == 0 && WordAt(e.args, 0) == w && -TWO31 < w < TWO31 && StrAt(e.args, 1) == Some(t)
    ensures Items(fmt, 0, 0, e) == [Directive('s', StarConv(w), StarText(w, t))]
  {
    StarParse(fmt, e, w);
    ItemsAtPercent(fmt, 0, 0, e);
    assert Items(fmt, 3, 1, e) == [];
    StarString(w, t, e);
  }

  /** "%*s" takes its field width from the argument before the string; a negative width left-justifies. */
  lemma StarWidth(fmt: seq<char>, w: int, t: seq<char>, loc: Locale, quirks: bool, fp: FloatText)
    requires fmt == "%*s" && -TWO31 < w < TWO31
    ensures Printf(fmt, [IntArg(w), StrArg(Some(t))], loc, quirks, fp) == Output(StarText(w, t), [])
  {
    var args := [IntArg(w), StrArg(Some(t))];
    StarCount(fmt, quirks);
    var e := EnvOf(fmt, args, loc, quirks, fp);
    StarItems(fmt, e, w, t);
    var x := Directive('s', StarConv(w), StarText(w, t));
    PrintfItems(fmt, args, loc, quirks, fp, [x]);
    RenderOne(x);
  }

  lemma CountCount(fmt: seq<char>, quirks: bool)
    requires fmt == "ab%n"
    ensures IndexedCount(fmt, quirks) == 0
  {
    assert PfIndex.FlagsEnd(fmt, 3) == 3;
    assert PfIndex.SpecBodyEnd(fmt, 3) == 3;
    UnindexedCount(fmt, 2, quirks);
  }

  lemma CountItems(fmt: seq<char>, e: Env)
    requires fmt == "ab%n" && e.argc == 0
    ensures Items(fmt, 0, 0, e) == [Literal('a'), Literal('b'), Directive('n', Start(0), [])]
  {
    assert IndexOrNone(fmt, 3, e.argc) == PfIndex.IndexRead(0, 3);
    assert ParseAt(fmt, 2, 0, e) == Terminal('n', Start(0), 4);
    ItemsAtPercent(fmt, 2, 0, e);
    assert Items(fmt, 4, 1, e) == [];
    assert Items(fmt, 2, 0, e) == [Directive('n', Start(0), [])];
  }

  /** %n prints nothing and stores the number of characters printed before it. */
  lemma CountStored(fmt: seq<char>, args: seq<Arg>, loc: Locale, quirks: bool, fp: FloatText)
    requires fmt == "ab%n"
    ensures Printf(fmt, args, loc, quirks, fp) == Output("ab", [Store(0, PfIndex.LENGTH_INT, 2)])
  {
    CountCount(fmt, quirks);
    var e := EnvOf(fmt, args, loc, quirks, fp);
    CountItems(fmt, e);
    var n := Directive('n', Start(0), []);
    PrintfItems(fmt, args, loc, quirks, fp, [Literal('a'), Literal('b'), n]);
    RenderCons(n, [], 2);
    assert [n] + [] == [n];
    RenderCons(Literal('b'), [n], 1);
    RenderCons(Literal('a'), [Literal('b'), n], 0);
    assert [Literal('a')] + [Literal('b'), n] == [Literal('a'), Literal('b'), n];
  }

  /** An int read as a long long and reduced modulo 2^64 reads back as the same value. */
  lemma SignedRoundTrip(x: int)
    requires IsInt64(x)
    ensures I64(U64(x)) == x
  {
    if x < 0 {
      ModOfDecomposition(x, -1, x + TWO64, TWO64);
    } else {
      ModOfDecomposition(x, 0, x, TWO64);
    }
  }

  lemma DecimalCount(fmt: seq<char>, quirks: bool)
    requires fmt == "%d"
    ensures IndexedCount(fmt, quirks) == 0
  {
    assert PfIndex.FlagsEnd(fmt, 1) == 1;
    assert PfIndex.SpecBodyEnd(fmt, 1) == 1;
    UnindexedCount(fmt, 0, quirks);
  }

  lemma DecimalItems(fmt: seq<char>, e: Env)
    requires fmt == "%d" && e.argc == 0
    ensures Items(fmt, 0, 0, e) == [Directive('d', Start(0), ConversionText('d', Start(0), e))]
  {
    assert IndexOrNone(fmt, 1, e.argc) == PfIndex.IndexRead(0, 1);
    assert ParseAt(fmt, 0, 0, e) == Terminal('d', Start(0), 2);
    ItemsAtPercent(fmt, 0, 0, e);
    assert Items(fmt, 2, 1, e) == [];
  }

  /** A plain %d prints the argument as a 32-bit int: a '-' for a negative value, then its decimal digits. */
  lemma DecimalText(x: int, e: Env)
    requires WordAt(e.args, 0) == x
    ensures var v := I32(x);
      ConversionText('d', Start(0), e) == (if v < 0 then ['-'] else []) + PfIndex.Decimal(if v < 0 then -v else v)
  {
    var v := I32(x);
    assert SignedArg(x, PfIndex.LENGTH_INT) == v;
    SignedRoundTrip(v);
    SignedDecimal(U64(v), e.loc);
  }

  /** "%d" prints its argument, reduced to an int, in decimal. */
  lemma SignedDecimalFormat(fmt: seq<char>, x: int, loc: Locale, quirks: bool, fp: FloatText)
    requires fmt == "%d"
    ensures var v := I32(x);
      Printf(fmt, [IntArg(x)], loc, quirks, fp) ==
        Output((if v < 0 then ['-'] else []) + PfIndex.Decimal(if v < 0 then -v else v), [])
  {
    DecimalCount(fmt, quirks);
    var e := EnvOf(fmt, [IntArg(x)], loc, quirks, fp);
    DecimalItems(fmt, e);
    DecimalText(x, e);
    var d := Directive('d', Start(0), ConversionText('d', Start(0), e));
    PrintfItems(fmt, [IntArg(x)], loc, quirks, fp, [d]);
    RenderOne(d);
  }
}
