/**
 * The MinGW command line tokenizer (__mingw32_setargv): one pass over the
 * command line, reducing quotes and backslashes and escaping globbing
 * tokens that must stay literal, collecting each argument in cmdbuf and
 * handing it to the globbing step.  Globbing itself is abstracted: every
 * completed argument is appended, as prepared, to the argument vector.
 */
module SetArgv {
  import opened CInt
  import GlobMatch

  /** The escape character put before a glob token that is to be literal (ASCII DEL). */
  const ESCAPE: char := 127 as char

  /** The bits of _CRT_glob the tokenizer looks at: ARGV_SQUOTE and ARGV_NOGROUP. */
  datatype Opts = Opts(squote: bool, groups: bool)

  /** The characters the globbing step would interpret. */
  predicate IsGlobToken(c: char)
  {
    c == '[' || c == '*' || c == '?' || c == '{' || c == ',' || c == '}' || c == ESCAPE
  }

  /** The quoting state: none, inside double quotes, or inside single quotes. */
  predicate Mark(q: char)
  {
    q == '\0' || q == '"' || q == '\''
  }

  /**
   * The tokenizer state after a prefix of the command line: the quote in
   * force, backslashes seen but not yet written, whether a quote marked
   * an argument as present, the argument collected so far, and the
   * arguments already handed on.
   */
  datatype Scan = Scan(quoted: char, bslash: nat, gotarg: bool, arg: seq<char>, args: seq<seq<char>>)

  const Start: Scan := Scan('\0', 0, false, [], [])

  function Backslashes(n: nat): (s: seq<char>)
    ensures |s| == n && forall i :: 0 <= i < n ==> s[i] == '\\'
  {
    seq(n, _ => '\\')
  }

  /**
   * A quote character q with alt the other quote: half of the pending
   * backslashes are written; an odd count, or being inside the other kind
   * of quote, makes q literal, otherwise q opens or closes quoting.
   */
  function Unquote(s: Scan, q: char, alt: char): (u: Scan)
  {
    var a := s.arg + Backslashes(s.bslash / 2);
    if s.bslash % 2 == 1 || s.quoted == alt then
      Scan(s.quoted, 0, true, a + [q], s.args)
    else
      Scan(if s.quoted == '\0' then q else '\0', 0, true, a, s.args)
  }

  /** One character of the command line (the switch at setargv.c:118-224). */
  function Step(s: Scan, c: char, o: Opts): (t: Scan)
  {
    if c == '\\' then
      if s.quoted == '\'' then s.(arg := s.arg + ['\\']) else s.(bslash := s.bslash + 1)
    else if IsGlobToken(c) then
      var escaped := s.quoted != '\0' || (c == '[' && !o.groups) || c == ESCAPE;
      s.(arg := s.arg + Backslashes(s.bslash) + (if escaped then [ESCAPE, c] else [c]), bslash := 0)
    else if c == '"' then
      Unquote(s, '"', '\'')
    else if c == '\'' && o.squote then
      Unquote(s, '\'', '"')
    else
      var a := s.arg + Backslashes(s.bslash);
      if s.quoted == '\0' && IsBlank(c) then
        if s.gotarg || |a| > 0 then Scan(s.quoted, 0, false, [], s.args + [a])
        else s.(arg := a, bslash := 0)
      else s.(arg := a + [c], bslash := 0)
  }

  function Run(s: Scan, line: seq<char>, o: Opts): (t: Scan)
    decreases |line|
  {
    if line == [] then s else Step(Run(s, line[..|line| - 1], o), line[|line| - 1], o)
  }

  /** Pending backslashes are written and a pending argument handed on. */
  function Finish(s: Scan): (argv: seq<seq<char>>)
  {
    var a := s.arg + Backslashes(s.bslash);
    if s.gotarg || |a| > 0 then s.args + [a] else s.args
  }

  /** The argument vector for a command line, up to its first NUL. */
  function Setargv(cmdline: seq<char>, o: Opts): (argv: seq<seq<char>>)
  {
    Finish(Run(Start, cmdline[..StrLen(cmdline)], o))
  }

  /** backslash(): write count backslashes at buf[p..]. */
  method Backslash(buf: array<char>, p: nat, count: nat) returns (q: nat)
    requires p + count <= buf.Length
    modifies buf
    ensures q == p + count && buf[..q] == old(buf[..p]) + Backslashes(count)
  {
    q := p;
    var k := 0;
    while k < count
      invariant p <= q == p + k <= p + count
      invariant buf[..q] == old(buf[..p]) + Backslashes(k)
    {
      buf[q] := '\\';
      q, k := q + 1, k + 1;
    }
  }

  /** unquote(): the reduction of one quote character into buf[p..]. */
  method UnquoteAt(buf: array<char>, p: nat, q: char, alt: char, escape: nat, quoted: char)
    returns (ptr: nat, state: char)
    requires p + escape / 2 + 1 <= buf.Length
    modifies buf
    ensures ptr <= p + escape / 2 + 1
    ensures var u := Unquote(Scan(quoted, escape, false, old(buf[..p]), []), q, alt);
      state == u.quoted && buf[..ptr] == u.arg
  {
    ptr := Backslash(buf, p, escape / 2);
    state := quoted;
    if escape % 2 == 1 || quoted == alt {
      buf[ptr] := q;
      ptr := ptr + 1;
    } else {
      state := if quoted == '\0' then q else '\0';
    }
  }

  /** The loop body: one character c, written through argptr into cmdbuf. */
  method Consume(cmdbuf: array<char>, argptr: nat, quoted: char, bslash: nat, gotarg: bool,
                 args: seq<seq<char>>, c: char, o: Opts)
    returns (ptr: nat, quote: char, pending: nat, got: bool, out: seq<seq<char>>)
    requires argptr + bslash + 2 <= cmdbuf.Length
    modifies cmdbuf
    ensures ptr + pending <= argptr + bslash + 2
    ensures Scan(quote, pending, got, cmdbuf[..ptr], out)
      == Step(Scan(quoted, bslash, gotarg, old(cmdbuf[..argptr]), args), c, o)
    ensures Mark(quoted) ==> Mark(quote)
  {
    ptr, quote, pending, got, out := argptr, quoted, bslash, gotarg, args;
    if c == '\\' {
      if quoted == '\'' {
        cmdbuf[ptr] := '\\';
        ptr := ptr + 1;
      } else {
        pending := bslash + 1;
      }
    } else if IsGlobToken(c) {
      ptr := ConsumeToken(cmdbuf, argptr, quoted, bslash, c, o);
      pending := 0;
    } else if c == '"' || (c == '\'' && o.squote) {
      ptr, quote := UnquoteAt(cmdbuf, argptr, c, if c == '"' then '\'' else '"', bslash, quoted);
      got, pending := true, 0;
    } else {
      ptr, got, out := ConsumeOther(cmdbuf, argptr, quoted, bslash, gotarg, args, c);
      pending := 0;
    }
  }

  /** A glob token: pending backslashes, then the token, escaped when it is to be literal. */
  method ConsumeToken(cmdbuf: array<char>, argptr: nat, quoted: char, bslash: nat, c: char, o: Opts)
    returns (ptr: nat)
    requires argptr + bslash + 2 <= cmdbuf.Length && IsGlobToken(c)
    modifies cmdbuf
    ensures ptr <= argptr + bslash + 2
    ensures cmdbuf[..ptr] == Step(Scan(quoted, bslash, false, old(cmdbuf[..argptr]), []), c, o).arg
  {
    ptr := Backslash(cmdbuf, argptr, bslash);
    if quoted != '\0' || (c == '[' && !o.groups) || c == ESCAPE {
      cmdbuf[ptr] := ESCAPE;
      ptr := ptr + 1;
    }
    cmdbuf[ptr] := c;
    ptr := ptr + 1;
  }

  /** Any other character: pending backslashes, then c, or the end of an argument at a blank. */
  method ConsumeOther(cmdbuf: array<char>, argptr: nat, quoted: char, bslash: nat, gotarg: bool,
                      args: seq<seq<char>>, c: char)
    returns (ptr: nat, got: bool, out: seq<seq<char>>)
    requires argptr + bslash + 2 <= cmdbuf.Length
    requires c != '\\' && !IsGlobToken(c) && c != '"'
    modifies cmdbuf
    ensures ptr <= argptr + bslash + 1
    ensures var a := old(cmdbuf[..argptr]) + Backslashes(bslash);
      if quoted == '\0' && IsBlank(c) then
        if gotarg || |a| > 0 then ptr == 0 && !got && out == args + [a]
        else cmdbuf[..ptr] == a && got == gotarg && out == args
      else cmdbuf[..ptr] == a + [c] && got == gotarg && out == args
  {
    got, out := gotarg, args;
    ptr := Backslash(cmdbuf, argptr, bslash);
    if quoted == '\0' && IsBlank(c) {
      if gotarg || ptr > 0 {
        cmdbuf[ptr] := '\0';
        out := args + [cmdbuf[..ptr]];
        ptr, got := 0, false;
      }
    } else {
      cmdbuf[ptr] := c;
      ptr := ptr + 1;
    }
  }

  /**
   * __mingw32_setargv: the argument vector for cmdline, built in a buffer
   * of twice the command line's length plus two, which is never overrun.
   */
  method Mingw32Setargv(cmdline: seq<char>, o: Opts) returns (argv: seq<seq<char>>)
    ensures argv == Setargv(cmdline, o)
  {
    var n := StrLen(cmdline);
    var cmdbuf := new char[(1 + n) * 2];
    var quoted: char, bslash: nat, gotarg: bool, argptr: nat := '\0', 0, false, 0;
    var args: seq<seq<char>> := [];
    var i := 0;
    while At(cmdline, i) != '\0'
      invariant i <= n && argptr + bslash <= 2 * i && Mark(quoted)
      invariant Scan(quoted, bslash, gotarg, cmdbuf[..argptr], args) == Run(Start, cmdline[..i], o)
      decreases n - i
    {
      assert i < n;
      assert cmdline[..i + 1][..i] == cmdline[..i];
      argptr, quoted, bslash, gotarg, args := Consume(cmdbuf, argptr, quoted, bslash, gotarg, args, cmdline[i], o);
      i := i + 1;
    }
    assert i == n;
    argptr := Backslash(cmdbuf, argptr, bslash);
    if gotarg || argptr > 0 {
      cmdbuf[argptr] := '\0';
      args := args + [cmdbuf[..argptr]];
    }
    argv := args;
  }

  /** Running over a concatenation is running over each part in turn. */
  lemma {:induction false} RunConcat(s: Scan, x: seq<char>, y: seq<char>, o: Opts)
    ensures Run(s, x + y, o) == Run(Run(s, x, o), y, o)
    decreases |y|
  {
    if y != [] {
      var y0 := y[..|y| - 1];
      assert (x + y)[..|x + y| - 1] == x + y0;
      RunConcat(s, x, y0, o);
    } else {
      assert x + y == x;
    }
  }

  /** Outside single quotes, backslashes are only counted. */
  lemma {:induction false} RunBackslashes(s: Scan, n: nat, o: Opts)
    requires s.quoted != '\''
    ensures Run(s, Backslashes(n), o) == s.(bslash := s.bslash + n)
  {
    if n > 0 {
      assert Backslashes(n)[..n - 1] == Backslashes(n - 1);
      RunBackslashes(s, n - 1, o);
    }
  }

  /**
   * n backslashes followed by a double quote write n/2 backslashes; an odd
   * n makes the quote literal, an even n opens or closes quoting.
   */
  lemma BackslashesBeforeQuote(s: Scan, n: nat, o: Opts)
    requires s.quoted != '\'' && s.bslash == 0
    ensures var t := Run(s, Backslashes(n) + ['"'], o);
      && t.arg == s.arg + Backslashes(n / 2) + (if n % 2 == 1 then ['"'] else [])
      && t.quoted == (if n % 2 == 1 then s.quoted else if s.quoted == '\0' then '"' else '\0')
      && t.gotarg && t.bslash == 0 && t.args == s.args
  {
    RunConcat(s, Backslashes(n), ['"'], o);
    RunBackslashes(s, n, o);
    assert Run(Run(s, Backslashes(n), o), ['"'], o) == Step(s.(bslash := n), '"', o);
  }

  /** Characters other than quotes, backslashes, glob tokens and blanks are copied. */
  predicate Plain(c: char)
  {
    c != '\0' && c != '\\' && c != '"' && c != '\'' && !IsGlobToken(c) && !IsBlank(c)
  }

  /** Backslashes not followed by a quote are written literally. */
  lemma BackslashesLiteral(s: Scan, n: nat, c: char, o: Opts)
    requires s.quoted != '\'' && s.bslash == 0 && Plain(c)
    ensures Run(s, Backslashes(n) + [c], o) == s.(arg := s.arg + Backslashes(n) + [c])
    ensures Finish(Run(s, Backslashes(n), o)) == Finish(s.(arg := s.arg + Backslashes(n)))
  {
    RunConcat(s, Backslashes(n), [c], o);
    RunBackslashes(s, n, o);
    assert Run(Run(s, Backslashes(n), o), [c], o) == Step(s.(bslash := n), c, o);
    assert s.arg + Backslashes(n) + Backslashes(0) == s.arg + Backslashes(n);
  }

  /** Outside quotes a blank ends a pending argument, and is dropped otherwise. */
  lemma BlankEndsArgument(s: Scan, c: char, o: Opts)
    requires s.quoted == '\0' && s.bslash == 0 && IsBlank(c)
    ensures var t := Step(s, c, o);
      && t.arg == [] && !t.gotarg && t.quoted == '\0'
      && t.args == (if s.gotarg || s.arg != [] then s.args + [s.arg] else s.args)
  {
    assert s.arg + Backslashes(0) == s.arg;
  }

  /** Inside quotes a blank is part of the argument. */
  lemma BlankInQuotesKept(s: Scan, c: char, o: Opts)
    requires s.quoted != '\0' && s.bslash == 0 && IsBlank(c)
    ensures Step(s, c, o) == s.(arg := s.arg + [c])
  {
  }

  /** A pair of double quotes makes an argument even when nothing is between them. */
  lemma EmptyQuotesMakeArgument(s: Scan, o: Opts)
    requires s.quoted == '\0' && s.bslash == 0
    ensures Step(Step(Step(s, '"', o), '"', o), ' ', o).args == s.args + [s.arg]
    ensures Setargv("\"\"", o) == [[]]
  {
    assert s.arg + Backslashes(0) == s.arg;
    var line := "\"\"";
    assert StrLen(line) == 2 by {
      assert line[0] != '\0' && line[1] != '\0';
    }
    assert line[..2][..1] == "\"";
  }

  /**
   * A glob token is escaped exactly when it is quoted, is the escape
   * character itself, or is an opening bracket while groups are off.
   */
  lemma GlobTokenEscaped(s: Scan, c: char, o: Opts)
    requires IsGlobToken(c) && s.bslash == 0
    ensures var escaped := s.quoted != '\0' || c == ESCAPE || (c == '[' && !o.groups);
      && (escaped ==> Step(s, c, o).arg == s.arg + [ESCAPE, c])
      && (!escaped ==> Step(s, c, o).arg == s.arg + [c])
      && Step(s, c, o).quoted == s.quoted && Step(s, c, o).args == s.args
  {
  }

  /**
   * A single quote is a quoting character only with ARGV_SQUOTE; without it
   * it is copied, and inside single quotes a backslash is copied at once.
   */
  lemma SingleQuoteNeedsOption(s: Scan, o: Opts)
    requires s.bslash == 0
    ensures !o.squote ==> Step(s, '\'', o) == s.(arg := s.arg + ['\''])
    ensures o.squote && s.quoted == '\0' ==> Step(s, '\'', o) == s.(quoted := '\'', gotarg := true)
    ensures s.quoted == '\'' ==> Step(s, '\\', o) == s.(arg := s.arg + ['\\'])
  {
  }

  /** The tokenizer state only ever records no quote, a double or a single quote. */
  lemma {:induction false} RunMarks(line: seq<char>, o: Opts)
    ensures Mark(Run(Start, line, o).quoted)
    decreases |line|
  {
    if line != [] {
      RunMarks(line[..|line| - 1], o);
    }
  }

  /** A command line made of plain words, each followed by one blank. */
  function Line(ws: seq<seq<char>>): (line: seq<char>)
    decreases |ws|
  {
    if ws == [] then [] else Line(ws[..|ws| - 1]) + ws[|ws| - 1] + [' ']
  }

  predicate PlainWord(w: seq<char>)
  {
    w != [] && forall i :: 0 <= i < |w| ==> Plain(w[i])
  }

  /** A plain word is collected as it stands. */
  lemma {:induction false} RunPlainWord(s: Scan, w: seq<char>, o: Opts)
    requires s.bslash == 0 && s.quoted == '\0' && forall i :: 0 <= i < |w| ==> Plain(w[i])
    ensures Run(s, w, o) == s.(arg := s.arg + w)
    decreases |w|
  {
    if w != [] {
      var w0 := w[..|w| - 1];
      RunPlainWord(s, w0, o);
      assert w0 + [w[|w| - 1]] == w;
    }
  }

  /** Scanning plain words separated by blanks yields those words, one argument each. */
  lemma {:induction false} RunWords(ws: seq<seq<char>>, o: Opts)
    requires forall k :: 0 <= k < |ws| ==> PlainWord(ws[k])
    ensures Run(Start, Line(ws), o) == Scan('\0', 0, false, [], ws)
    decreases |ws|
  {
    if ws != [] {
      var ws0, w := ws[..|ws| - 1], ws[|ws| - 1];
      assert PlainWord(w);
      RunWords(ws0, o);
      WordStep(Line(ws0), ws0, w, o);
      assert ws0 + [w] == ws;
    }
  }

  lemma WordStep(l0: seq<char>, ws0: seq<seq<char>>, w: seq<char>, o: Opts)
    requires Run(Start, l0, o) == Scan('\0', 0, false, [], ws0) && PlainWord(w)
    ensures Run(Start, l0 + w + [' '], o) == Scan('\0', 0, false, [], ws0 + [w])
  {
    var s := Run(Start, l0, o);
    RunConcat(Start, l0, w, o);
    RunPlainWord(s, w, o);
    assert [] + w == w;
    RunConcat(Start, l0 + w, [' '], o);
    WordEnds(Scan('\0', 0, false, w, ws0), o);
  }

  /** A blank after a collected word hands the word on. */
  lemma WordEnds(s: Scan, o: Opts)
    requires s.quoted == '\0' && s.bslash == 0 && s.arg != []
    ensures Run(s, [' '], o) == Scan('\0', 0, false, [], s.args + [s.arg])
  {
    assert [' '][..0] == [];
    assert s.arg + Backslashes(0) == s.arg;
  }

  lemma {:induction false} LineHasNoNul(ws: seq<seq<char>>)
    requires forall k :: 0 <= k < |ws| ==> PlainWord(ws[k])
    ensures forall i :: 0 <= i < |Line(ws)| ==> Line(ws)[i] != '\0'
    decreases |ws|
  {
    if ws != [] {
      LineHasNoNul(ws[..|ws| - 1]);
      var w := ws[|ws| - 1];
      assert forall i :: 0 <= i < |w| ==> Plain(w[i]);
    }
  }

  /** The tokenizer gives back the words of a line of plain words, in order. */
  lemma SetargvOfWords(ws: seq<seq<char>>, o: Opts)
    requires forall k :: 0 <= k < |ws| ==> PlainWord(ws[k])
    ensures Setargv(Line(ws), o) == ws
  {
    LineHasNoNul(ws);
    var line := Line(ws);
    assert StrLen(line) == |line|;
    assert line[..|line|] == line;
    RunWords(ws, o);
  }

  // ---------------------------------------------------------------- a quoted argument and the glob step

  /** w as the tokenizer writes it inside quotes: every glob token escaped. */
  function Quoted(w: seq<char>): (r: seq<char>)
    ensures |r| >= |w|
  {
    if w == [] then []
    else (if IsGlobToken(w[0]) then [ESCAPE, w[0]] else [w[0]]) + Quoted(w[1..])
  }

  lemma {:induction false} QuotedSnoc(w: seq<char>, c: char)
    ensures Quoted(w + [c]) == Quoted(w) + (if IsGlobToken(c) then [ESCAPE, c] else [c])
  {
    if w == [] {
      assert [c][1..] == [];
    } else {
      assert (w + [c])[1..] == w[1..] + [c];
      QuotedSnoc(w[1..], c);
    }
  }

  /** Inside double quotes, text without quotes and backslashes is copied with its glob tokens escaped. */
  lemma {:induction false} RunQuoted(s: Scan, w: seq<char>, o: Opts)
    requires s.quoted == '"' && s.bslash == 0 && s.gotarg
    requires forall k | 0 <= k < |w| :: w[k] != '"' && w[k] != '\\'
    ensures Run(s, w, o) == s.(arg := s.arg + Quoted(w))
    decreases |w|
  {
    if w == [] {
      assert s.arg + Quoted(w) == s.arg;
    } else {
      var w0, c := w[..|w| - 1], w[|w| - 1];
      assert w == w0 + [c];
      RunQuoted(s, w0, o);
      QuotedSnoc(w0, c);
      assert Backslashes(0) == [];
    }
  }

  /**
   * A double-quoted argument reaches the glob step with each of its glob
   * tokens escaped, and the copy glob_strdup makes of it is the argument
   * as typed: quoting keeps a pattern literal all the way to the stored
   * path.
   */
  lemma QuotedArgument(w: seq<char>, o: Opts)
    requires forall k | 0 <= k < |w| :: w[k] != '\0' && w[k] != '"' && w[k] != '\\'
    ensures Setargv(['"'] + w + ['"'], o) == [Quoted(w)]
    ensures GlobMatch.Unescape(Quoted(w)) == w
  {
    var line := ['"'] + w + ['"'];
    var n := StrLen(line);
    assert n == |line| by {
      assert forall k | 0 <= k < |line| :: line[k] != '\0';
    }
    assert line[..n] == line;
    RunQuotedLine(w, o);
    assert Setargv(line, o) == Finish(Scan('\0', 0, true, Quoted(w), []));
    FinishQuoted(Quoted(w));
    UnescapeQuoted(w);
  }

  /** A quoted argument, once quoting is closed, is handed on as it is. */
  lemma FinishQuoted(a: seq<char>)
    ensures Finish(Scan('\0', 0, true, a, [])) == [a]
  {
    assert a + Backslashes(0) == a;
  }

  /** The tokenizer state after a double-quoted word. */
  lemma RunQuotedLine(w: seq<char>, o: Opts)
    requires forall k | 0 <= k < |w| :: w[k] != '"' && w[k] != '\\'
    ensures Run(Start, ['"'] + w + ['"'], o) == Scan('\0', 0, true, Quoted(w), [])
  {
    var open := Scan('"', 0, true, [], []);
    assert Run(Start, ['"'], o) == open by {
      assert Run(Start, ['"'], o) == Step(Run(Start, [], o), '"', o);
    }
    RunConcat(Start, ['"'], w, o);
    RunQuoted(open, w, o);
    var inside := Scan('"', 0, true, Quoted(w), []);
    assert Run(Start, ['"'] + w, o) == inside;
    var line := ['"'] + w + ['"'];
    assert line[..|line| - 1] == ['"'] + w;
    assert Run(Start, line, o) == Step(inside, '"', o);
  }

  lemma {:induction false} UnescapeQuoted(w: seq<char>)
    requires forall k | 0 <= k < |w| :: w[k] != '\0'
    ensures GlobMatch.Unescape(Quoted(w)) == w
  {
    if w != [] {
      UnescapeQuoted(w[1..]);
      var q := Quoted(w);
      if IsGlobToken(w[0]) {
        assert q[2..] == Quoted(w[1..]);
      } else {
        assert q[1..] == Quoted(w[1..]);
      }
    }
  }
}
