/**
 * getdelim (and getline, its '\n' wrapper): read characters from a stream
 * up to and including a delimiter, or to end of file, into a caller-owned
 * buffer that grows 64 bytes at a time.
 *
 * The stream is a sequence of unsigned char values still to be read; at
 * its end fgetc reports EOF, setting either the end-of-file or the error
 * indicator.  Allocation is modelled by an allocator that honours a fixed
 * number of further requests and refuses every one after that.
 */
module GetDelim {
  import opened CInt

  const EOF: int := -1
  const EBADF: int := 9
  const ENOMEM: int := 12
  const EINVAL: int := 22
  /** EOVERFLOW is not provided by the Windows runtime; ERANGE stands in for it. */
  const ERANGE: int := 34
  const SSIZE_MAX: int := TWO31 - 1
  /** The growth step of the line buffer. */
  const CHUNK: int := 64

  class Stream {
    /** The characters of the stream, and the position of the next one to read. */
    var input: seq<int>
    var pos: nat
    /** Whether reaching the end of input is an I/O error rather than end of file. */
    var failing: bool
    var eof: bool
    var error: bool

    predicate Valid()
      reads this
    {
      pos <= |input| && forall k :: 0 <= k < |input| ==> 0 <= input[k] < 256
    }
  }

  /** The pair *linebuf, *len; present is false for a NULL *linebuf. */
  class LineBuffer {
    var present: bool
    var data: seq<int>
    var len: nat

    predicate Valid()
      reads this
    {
      (present ==> |data| == len) && (!present ==> data == [])
    }
  }

  /** The characters getdelim takes from input: through the first brk, or all of them. */
  function Line(input: seq<int>, brk: int): (l: seq<int>)
    ensures |l| <= |input| && forall k :: 0 <= k < |l| ==> l[k] == input[k]
    ensures forall k :: 0 <= k < |l| - 1 ==> l[k] != brk
    ensures brk != EOF && |l| < |input| ==> |l| > 0 && l[|l| - 1] == brk
    ensures brk == EOF ==> l == []
  {
    if brk == EOF || |input| == 0 then []
    else if input[0] == brk then [brk]
    else [input[0]] + Line(input[1..], brk)
  }

  /**
   * The buffer length once c characters are stored, starting from len0:
   * unchanged while c + 1 bytes fit, otherwise len0 plus the fewest 64-byte
   * chunks that make room for c characters and a NUL.
   */
  function Needed(len0: nat, c: nat): nat
  {
    if c == 0 || c + 1 <= len0 then len0 else len0 + CHUNK * ((c + 1 - len0 + CHUNK - 1) / CHUNK)
  }

  /** Number of 64-byte growths made by the time c characters are stored. */
  function Growths(len0: nat, c: nat): nat
  {
    (Needed(len0, c) - len0) / CHUNK
  }

  /**
   * The count at which the allocator refuses a growth, given the buffer
   * length len0 after the initial allocation and g remaining grants.
   */
  function FailCount(len0: nat, g: nat): nat
  {
    Max(0, len0 + CHUNK * g - 1)
  }

  function Max(a: int, b: int): int { if a <= b then b else a }
  function Min(a: int, b: int): int { if a <= b then a else b }

  /** The buffer length after the allocation of a NULL buffer with a preset length. */
  function InitLen(present: bool, len: nat, grants: nat): nat
  {
    if !present && len > 0 && grants == 0 then 0 else len
  }

  function InitGrants(present: bool, len: nat, grants: nat): nat
  {
    if !present && len > 0 && grants > 0 then grants - 1 else grants
  }

  /** What the read loop does with the stream once the arguments are accepted. */
  datatype Result = Result(
    ret: int,        // the ssize_t return value
    errno: int,      // errno, 0 when left alone
    consumed: nat,   // characters taken from the stream
    count: nat,      // characters stored in the buffer
    len: nat,        // *len at return
    grantsLeft: nat, // allocations still available
    hitEnd: bool)    // whether fgetc reported EOF

  /**
   * The read loop: ENOMEM when a growth is refused before the line is
   * stored, ERANGE when the line is longer than SSIZE_MAX, otherwise the
   * line is stored and its length returned, or -1 for an empty line.
   */
  function Expect(input: seq<int>, brk: int, len0: nat, g: nat): Result
  {
    var n := |Line(input, brk)|;
    var cf := FailCount(len0, g);
    if cf < Min(n, SSIZE_MAX) then Result(-1, ENOMEM, cf + 1, cf, Needed(len0, cf), 0, false)
    else if n > SSIZE_MAX then
      Result(-1, ERANGE, SSIZE_MAX + 1, SSIZE_MAX, Needed(len0, SSIZE_MAX),
             g - Growths(len0, SSIZE_MAX), false)
    else
      Result(if n > 0 then n else -1, 0, n, n, Needed(len0, n), g - Growths(len0, n),
             brk != EOF && n == |input| && (n == 0 || input[n - 1] != brk))
  }

  /** Storing one more character: the buffer grows by one chunk exactly when count + 2 > len. */
  lemma NeededStep(len0: nat, c: nat)
    ensures Needed(len0, c + 1) == if c + 2 > Needed(len0, c) then Needed(len0, c) + CHUNK else Needed(len0, c)
    ensures Needed(len0, c) >= len0 && (Needed(len0, c) - len0) % CHUNK == 0
  {
    var q := (c + 1 - len0 + CHUNK - 1) / CHUNK;
    var q1 := (c + 2 - len0 + CHUNK - 1) / CHUNK;
    if c == 0 || c + 1 <= len0 {
      if c + 2 > len0 {
        assert c + 2 == len0 + 1 || (c == 0 && len0 <= 1);
        assert q1 == 1;
      }
    } else {
      assert q * CHUNK >= c + 1 - len0 && q * CHUNK < c + 1 - len0 + CHUNK;
      if c + 2 > len0 + CHUNK * q {
        assert q * CHUNK == c + 1 - len0;
        assert q1 == q + 1;
      } else {
        assert q1 == q;
      }
    }
  }

  /** After at least one character, the buffer always has room for the NUL. */
  lemma NeededHasRoom(len0: nat, c: nat)
    requires c >= 1
    ensures Needed(len0, c) >= c + 1
    ensures Needed(len0, c) > len0 ==> Needed(len0, c) < c + 1 + CHUNK
  {
    if c + 1 > len0 {
      var q := (c + 1 - len0 + CHUNK - 1) / CHUNK;
      assert q * CHUNK >= c + 1 - len0 && q * CHUNK < c + 1 - len0 + CHUNK;
    }
  }

  /**
   * At count c the allocator still has grants left for the growths made so
   * far, and the growth at c is refused exactly when c is the fail count.
   */
  lemma GrantsAt(len0: nat, g: nat, c: nat)
    requires c <= FailCount(len0, g)
    ensures Growths(len0, c) <= g
    ensures c + 2 > Needed(len0, c) ==> (Growths(len0, c) == g <==> c == FailCount(len0, g))
    ensures c == FailCount(len0, g) ==> c + 2 > Needed(len0, c)
  {
    NeededStep(len0, c);
    var q := (c + 1 - len0 + CHUNK - 1) / CHUNK;
    if c == 0 || c + 1 <= len0 {
      assert Growths(len0, c) == 0;
    } else {
      assert Needed(len0, c) == len0 + CHUNK * q;
      assert Growths(len0, c) == q;
      assert q * CHUNK >= c + 1 - len0 && q * CHUNK < c + 1 - len0 + CHUNK;
    }
  }

  /**
   * The state the read loop leaves, for the outcome o of the line l read
   * from input: the return value and errno, what is left of the stream and
   * its indicators, the buffer length and the grants used, and the
   * characters stored, NUL-terminated when there is room.
   */
  ghost predicate Leaves(o: Result, l: seq<int>, input: seq<int>, pos0: nat, present0: bool,
                         failing: bool, r: int, errno: int, lb: LineBuffer, stream: Stream,
                         heap: Allocator)
    reads lb, stream, heap
  {
    && r == o.ret && errno == o.errno
    && stream.input == input && stream.pos == pos0 + o.consumed
    && stream.eof == (o.hitEnd && !failing) && stream.error == (o.hitEnd && failing)
    && stream.failing == failing && stream.Valid()
    && lb.Valid() && lb.len == o.len && heap.grants == o.grantsLeft
    && lb.present == (present0 || lb.len > 0)
    && o.count <= |lb.data| && o.count <= |l| && (forall k :: 0 <= k < o.count ==> lb.data[k] == l[k])
    && (o.errno == 0 && o.count < lb.len ==> lb.data[o.count] == 0)
  }

  /**
   * getdelim.  lb is null when either linebuf or len is a null pointer.
   * The terminating NUL is stored only when the buffer has room for it.
   */
  method Getdelim(lb: LineBuffer?, brk: int, stream: Stream?, heap: Allocator)
    returns (r: int, errno: int)
    requires lb != null ==> lb.Valid()
    requires stream != null ==> stream.Valid()
    modifies lb, stream, heap
    ensures lb == null ==>
      r == -1 && errno == EINVAL && unchanged(heap) && (stream != null ==> unchanged(stream))
    ensures lb != null && stream == null ==> r == -1 && errno == EBADF && unchanged(lb, heap)
    ensures lb != null && stream != null && (old(stream.eof) || old(stream.error)) ==>
      r == -1 && errno == 0 && unchanged(lb, stream, heap)
    ensures lb != null && stream != null && !old(stream.eof) && !old(stream.error) ==>
      var len0 := InitLen(old(lb.present), old(lb.len), old(heap.grants));
      var g := InitGrants(old(lb.present), old(lb.len), old(heap.grants));
      var rest := old(stream.input[stream.pos..]);
      Leaves(Expect(rest, brk, len0, g), Line(rest, brk), old(stream.input), old(stream.pos),
             old(lb.present), old(stream.failing), r, errno, lb, stream, heap)
  {
    if lb == null {
      return -1, EINVAL;
    }
    if stream == null {
      return -1, EBADF;
    }
    if stream.eof || stream.error {
      return -1, 0;
    }
    if !lb.present && lb.len > 0 {
      var ok := heap.Allocate();
      if ok {
        lb.present := true;
        lb.data := seq(lb.len, _ => 0);
      } else {
        lb.len := 0;
      }
    }
    r, errno := ReadLine(lb, brk, stream, heap);
  }

  /**
   * The read loop and the NUL store, after the arguments are accepted.
   * The characters fgetc delivers are the stream's remaining input; the
   * stream's position and indicators are brought up to date once the loop
   * has stopped.
   */
  method ReadLine(lb: LineBuffer, brk: int, stream: Stream, heap: Allocator)
    returns (r: int, errno: int)
    requires lb.Valid() && stream.Valid() && !stream.eof && !stream.error
    requires !lb.present ==> lb.len == 0
    modifies lb, stream, heap
    ensures var rest := old(stream.input[stream.pos..]);
      Leaves(Expect(rest, brk, old(lb.len), old(heap.grants)), Line(rest, brk),
             old(stream.input), old(stream.pos), old(lb.present), old(stream.failing),
             r, errno, lb, stream, heap)
  {
    var input := stream.input[stream.pos..];
    ghost var len0 := lb.len;
    ghost var g := heap.grants;
    var stop, count, consumed, hitEnd := ReadLoop(lb, heap, input, brk);
    LoopEndIsExpected(input, brk, len0, g, stop, count, consumed, hitEnd);
    stream.pos := stream.pos + consumed;
    if hitEnd {
      if stream.failing {
        stream.error := true;
      } else {
        stream.eof := true;
      }
    }
    if stop == Refused {
      r, errno := -1, ENOMEM;
    } else if stop == Overflow {
      r, errno := -1, ERANGE;
    } else {
      lb.data := Terminate(lb.data, count);
      r := if count > 0 then count else -1;
      errno := 0;
    }
  }

  /**
   * The buffer and allocator after count characters of l are stored,
   * starting from length len0 with g grants.
   */
  ghost predicate Holds(lb: LineBuffer, heap: Allocator, count: nat, l: seq<int>, len0: nat, g: nat,
                        present0: bool)
    reads lb, heap
  {
    && lb.Valid() && lb.len == Needed(len0, count) && heap.grants == g - Growths(len0, count)
    && lb.present == (present0 || lb.len > 0)
    && count <= |lb.data| && count <= |l| && forall k :: 0 <= k < count ==> lb.data[k] == l[k]
  }

  /** Why the read loop stopped. */
  datatype Stop = Refused | Overflow | Finished

  /**
   * Where a read loop over input, starting from length len0 with g grants,
   * may stop: at the fail count, at SSIZE_MAX characters, or at the end of
   * the line; consumed and hitEnd say what fgetc has delivered.
   */
  ghost predicate LoopEnd(input: seq<int>, brk: int, len0: nat, g: nat, stop: Stop, count: nat,
                          consumed: nat, hitEnd: bool)
  {
    var l := Line(input, brk);
    && count <= |l| && count <= SSIZE_MAX && count <= FailCount(len0, g)
    && (stop == Refused ==> count == FailCount(len0, g) && count < |l| && count < SSIZE_MAX)
    && (stop == Overflow ==> count == SSIZE_MAX && SSIZE_MAX < |l|)
    && (stop == Finished ==> count == |l|)
    && consumed == (if stop == Finished then count else count + 1)
    && hitEnd == (stop == Finished && brk != EOF && count == |input|
                  && (count == 0 || input[count - 1] != brk))
  }

  /**
   * The while loop of getdelim over the characters input: stops when a
   * growth is refused, when a character arrives after SSIZE_MAX are
   * stored, or after brk or EOF.  consumed counts the characters fgetc
   * delivered and hitEnd records that it reported EOF.
   */
  method ReadLoop(lb: LineBuffer, heap: Allocator, input: seq<int>, brk: int)
    returns (stop: Stop, count: nat, consumed: nat, hitEnd: bool)
    requires forall k :: 0 <= k < |input| ==> input[k] != EOF
    requires lb.Valid() && (!lb.present ==> lb.len == 0)
    modifies lb, heap
    ensures LoopEnd(input, brk, old(lb.len), old(heap.grants), stop, count, consumed, hitEnd)
    ensures Holds(lb, heap, count, Line(input, brk), old(lb.len), old(heap.grants), old(lb.present))
  {
    ghost var l := Line(input, brk);
    ghost var len0 := lb.len;
    ghost var g := heap.grants;
    ghost var present0 := lb.present;
    var nextchar := EOF;
    count := 0;
    while nextchar != brk
      invariant 0 <= count <= |l| && count <= SSIZE_MAX
      invariant count <= FailCount(len0, g)
      invariant count == 0 ==> nextchar == EOF
      invariant count > 0 ==> nextchar == l[count - 1]
      invariant Holds(lb, heap, count, l, len0, g, present0)
      decreases |input| - count
    {
      ghost var prev := nextchar;
      // fgetc
      nextchar := if count < |input| then input[count] else EOF;
      if nextchar == EOF {
        EndAtEof(input, brk, len0, g, count, prev);
        return Finished, count, count, brk != EOF;
      }
      assert count < |l| && nextchar == l[count];
      if count == SSIZE_MAX {
        return Overflow, count, count + 1, false;
      }
      var ok := Accept(lb, heap, count, nextchar, l, len0, g, present0);
      if !ok {
        return Refused, count, count + 1, false;
      }
      count := count + 1;
    }
    EndAtBrk(input, brk, len0, g, count);
    return Finished, count, count, false;
  }

  /** fgetc reports EOF: the whole remaining input is the line. */
  lemma EndAtEof(input: seq<int>, brk: int, len0: nat, g: nat, count: nat, prev: int)
    requires forall k :: 0 <= k < |input| ==> input[k] != EOF
    requires count <= |Line(input, brk)| && count <= SSIZE_MAX && count <= FailCount(len0, g)
    requires count >= |input| && prev != brk
    requires count == 0 ==> prev == EOF
    requires count > 0 ==> prev == Line(input, brk)[count - 1]
    ensures LoopEnd(input, brk, len0, g, Finished, count, count, brk != EOF)
  {
  }

  /** The loop condition fails: the last character stored is brk. */
  lemma EndAtBrk(input: seq<int>, brk: int, len0: nat, g: nat, count: nat)
    requires count <= |Line(input, brk)| && count <= SSIZE_MAX && count <= FailCount(len0, g)
    requires count == 0 ==> brk == EOF
    requires count > 0 ==> brk == Line(input, brk)[count - 1]
    ensures LoopEnd(input, brk, len0, g, Finished, count, count, false)
  {
    var l := Line(input, brk);
    if 0 < count < |l| {
      assert l[count - 1] == brk;
    }
  }

  /** Where the read loop stops is what the read loop is expected to report. */
  lemma LoopEndIsExpected(input: seq<int>, brk: int, len0: nat, g: nat, stop: Stop, count: nat,
                          consumed: nat, hitEnd: bool)
    requires LoopEnd(input, brk, len0, g, stop, count, consumed, hitEnd)
    ensures var o := Expect(input, brk, len0, g);
      && o.count == count && o.consumed == consumed && o.hitEnd == hitEnd
      && o.len == Needed(len0, count) && o.grantsLeft == g - Growths(len0, count)
      && o.errno == (match stop case Refused => ENOMEM case Overflow => ERANGE case Finished => 0)
      && o.ret == (if stop == Finished && count > 0 then count else -1)
  {
    match stop {
      case Refused =>
        NoMemExit(input, brk, len0, g, count);
        GrantsAt(len0, g, count);
      case Overflow => OverflowExit(input, brk, len0, g);
      case Finished => DoneExit(input, brk, len0, g, count);
    }
  }

  /**
   * One iteration's buffer work: grow by a chunk when count + 2 > *len,
   * then store the character at count.  Fails only where the allocator
   * refuses the growth, which is at the fail count.
   */
  method Accept(lb: LineBuffer, heap: Allocator, count: nat, c: int, ghost l: seq<int>,
                ghost len0: nat, ghost g: nat, ghost present0: bool)
    returns (ok: bool)
    requires count < |l| && c == l[count] && count <= FailCount(len0, g)
    requires Holds(lb, heap, count, l, len0, g, present0)
    modifies lb, heap
    ensures !ok ==> (count == FailCount(len0, g) && heap.grants == 0 && unchanged(lb)
      && old(heap.grants) == g - Growths(len0, count))
    ensures ok ==> count + 1 <= FailCount(len0, g) && Holds(lb, heap, count + 1, l, len0, g, present0)
  {
    GrantsAt(len0, g, count);
    NeededStep(len0, count);
    if count + 2 > lb.len {
      ok := Grow(lb, heap);
      if !ok {
        return;
      }
    }
    Store(lb, count, c, l);
    ok := true;
    GrantsAt(len0, g, count);
    assert count != FailCount(len0, g);
  }

  /** realloc(*linebuf, *len + 64), updating *linebuf and *len when it succeeds. */
  method Grow(lb: LineBuffer, heap: Allocator) returns (ok: bool)
    requires lb.Valid() && (!lb.present ==> lb.len == 0)
    modifies lb, heap
    ensures ok == (old(heap.grants) > 0)
    ensures ok ==> (heap.grants == old(heap.grants) - 1 && lb.present && lb.Valid()
      && lb.len == old(lb.len) + CHUNK
      && forall k :: 0 <= k < old(lb.len) ==> lb.data[k] == old(lb.data[k]))
    ensures !ok ==> heap.grants == old(heap.grants) && unchanged(lb)
  {
    ok := heap.Allocate();
    if ok {
      lb.data := lb.data + seq(CHUNK, _ => 0);
      lb.present := true;
      lb.len := lb.len + CHUNK;
    }
  }

  /** (*linebuf)[count++] = nextchar, keeping the stored prefix equal to the line. */
  method Store(lb: LineBuffer, count: nat, c: int, ghost l: seq<int>)
    requires count < |l| && c == l[count]
    requires lb.Valid() && lb.present && count < |lb.data|
    requires forall k :: 0 <= k < count ==> lb.data[k] == l[k]
    modifies lb
    ensures lb.data == old(lb.data)[count := c] && lb.Valid()
    ensures forall k :: 0 <= k <= count ==> lb.data[k] == l[k]
    ensures lb.len == old(lb.len) && lb.present == old(lb.present)
  {
    lb.data := lb.data[count := c];
  }

  /** The exit through ENOMEM: the growth at the fail count is refused. */
  lemma NoMemExit(input: seq<int>, brk: int, len0: nat, g: nat, count: nat)
    requires count == FailCount(len0, g) && count < |Line(input, brk)| && count < SSIZE_MAX
    ensures Expect(input, brk, len0, g) == Result(-1, ENOMEM, count + 1, count, Needed(len0, count), 0, false)
  {
  }

  /** The exit through ERANGE: a character arrives after SSIZE_MAX are stored. */
  lemma OverflowExit(input: seq<int>, brk: int, len0: nat, g: nat)
    requires SSIZE_MAX < |Line(input, brk)| && SSIZE_MAX <= FailCount(len0, g)
    ensures Expect(input, brk, len0, g) == Result(-1, ERANGE, SSIZE_MAX + 1, SSIZE_MAX,
      Needed(len0, SSIZE_MAX), g - Growths(len0, SSIZE_MAX), false)
  {
  }

  /** The normal exit: the whole line is stored, ending at brk or at the end of the input. */
  lemma DoneExit(input: seq<int>, brk: int, len0: nat, g: nat, count: nat)
    requires count == |Line(input, brk)| && count <= SSIZE_MAX && count <= FailCount(len0, g)
    ensures var n := count;
      Expect(input, brk, len0, g) == Result(if n > 0 then n else -1, 0, n, n, Needed(len0, n),
        g - Growths(len0, n), brk != EOF && n == |input| && (n == 0 || input[n - 1] != brk))
  {
  }

  /**
   * The terminating NUL store with the bounds check: the byte at count
   * becomes NUL when it lies inside the buffer, and nothing is stored
   * otherwise.
   */
  function Terminate(data: seq<int>, count: nat): (t: seq<int>)
    ensures |t| == |data|
    ensures count < |data| ==> t[count] == 0
    ensures forall k :: 0 <= k < |data| && k != count ==> t[k] == data[k]
  {
    if count < |data| then data[count := 0] else data
  }

  /** The result of the NUL store as written, which has no bounds check. */
  datatype NulStore = InBounds(data: seq<int>) | OutOfBounds

  /**
   * (*linebuf)[count] = '\0' on a buffer of len bytes: OutOfBounds stands
   * for the store through a NULL pointer or past the end of the buffer.
   */
  function AsWrittenTerminate(data: seq<int>, len: nat, count: nat): (r: NulStore)
    requires |data| == len || data == []
    ensures r.InBounds? <==> count < len && |data| == len
    ensures r.InBounds? ==> r.data == Terminate(data, count) && r.data[count] == 0
  {
    if count < len && |data| == len then InBounds(data[count := 0]) else OutOfBounds
  }

  /**
   * A first read from an empty stream into a NULL buffer of length zero
   * reaches the NUL store with count == 0 and *len == 0, so the store as
   * written writes through the NULL pointer.
   */
  lemma EmptyReadOverruns(brk: int, g: nat)
    ensures var o := Expect([], brk, 0, g);
      o.errno == 0 && o.ret == -1 && o.count == 0 && o.len == 0
      && AsWrittenTerminate([], o.len, o.count) == OutOfBounds
  {
  }

  /**
   * The buffer grows in whole 64-byte chunks, one allocation each; once a
   * character is stored there is room for it and the NUL, and a growth
   * never goes a chunk further than needed.
   */
  lemma ExpectedLength(input: seq<int>, brk: int, len0: nat, g: nat)
    ensures var o := Expect(input, brk, len0, g);
      && o.len >= len0 && (o.len - len0) % CHUNK == 0
      && o.grantsLeft == g - (o.len - len0) / CHUNK && (o.len - len0) / CHUNK <= g
      && (o.count > 0 ==> o.len > o.count)
      && (o.len > len0 ==> o.len < o.count + 1 + CHUNK)
  {
    var o := Expect(input, brk, len0, g);
    NeededStep(len0, o.count);
    GrantsAt(len0, g, o.count);
    if o.count > 0 {
      NeededHasRoom(len0, o.count);
    }
    if o.len > len0 {
      assert o.count > 0;
    }
  }

  /**
   * The terminator is skipped only for an empty result in a buffer that
   * was and stays empty: whenever a character was stored, or the buffer
   * has any bytes, the NUL lands inside it.
   */
  lemma TerminatorSkippedOnlyWhenEmpty(input: seq<int>, brk: int, len0: nat, g: nat)
    ensures var o := Expect(input, brk, len0, g);
      o.errno == 0 && o.count >= o.len ==> o.count == 0 && o.len == 0 && len0 == 0
  {
    ExpectedLength(input, brk, len0, g);
  }

  /**
   * The three ways out of the read loop: success returns the length of the
   * line (or -1 when it is empty) having consumed exactly the line; ENOMEM
   * and ERANGE return -1 having consumed one character more than they store.
   */
  lemma ExpectedOutcome(input: seq<int>, brk: int, len0: nat, g: nat)
    ensures var o := Expect(input, brk, len0, g);
      var n := |Line(input, brk)|;
      && (o.errno == 0 || o.errno == ENOMEM || o.errno == ERANGE)
      && (o.errno == 0 ==> o.count == n && o.consumed == n && o.ret == (if n > 0 then n else -1))
      && (o.errno != 0 ==> o.ret == -1 && o.count < n && o.consumed == o.count + 1 && !o.hitEnd)
      && (o.errno == ENOMEM ==> o.count == FailCount(len0, g) && o.grantsLeft == 0)
      && (o.errno == ERANGE ==> o.count == SSIZE_MAX)
      && (o.hitEnd ==> o.errno == 0 && o.consumed == |input|)
  {
  }

  /** With enough grants to hold the line and its NUL, the read succeeds. */
  lemma EnoughMemorySucceeds(input: seq<int>, brk: int, len0: nat, g: nat)
    requires |Line(input, brk)| <= SSIZE_MAX
    requires |Line(input, brk)| + 1 <= len0 + CHUNK * g
    ensures Expect(input, brk, len0, g).errno == 0
  {
  }

  /**
   * The line is the input through the first brk, ending at the first
   * occurrence of the delimiter.
   */
  lemma {:induction false} LineEndsAtFirstBrk(input: seq<int>, brk: int, i: nat)
    requires brk != EOF && i < |input| && input[i] == brk
    requires forall j :: 0 <= j < i ==> input[j] != brk
    ensures Line(input, brk) == input[..i + 1]
  {
    if i > 0 {
      LineEndsAtFirstBrk(input[1..], brk, i - 1);
      assert input[..i + 1] == [input[0]] + input[1..][..i];
    }
  }

  /** Without the delimiter in the input, the line is the whole input. */
  lemma {:induction false} LineWithoutBrk(input: seq<int>, brk: int)
    requires brk != EOF && forall j :: 0 <= j < |input| ==> input[j] != brk
    ensures Line(input, brk) == input
  {
    if |input| > 0 {
      LineWithoutBrk(input[1..], brk);
      assert input == [input[0]] + input[1..];
    }
  }
}
