// The POSIX random()/srandom()/initstate()/setstate() generator.  A state
// buffer holds a control word (phase, shift and limit indices) and int32
// data entries; the generator keeps a pointer to the active buffer, which
// starts as a private 128-byte default buffer.

module Random {
  import opened CInt

  const EINVAL: int := 22

  /** The Mersenne prime 2^31 - 1 used to seed the data entries. */
  const M: int := 0x7fff_ffff

  // ------------------------------------------------------------ arithmetic

  /**
   * One seeding step as written: the 64-bit product of 16807 and the
   * previous entry is folded once (low 31 bits plus the rest), narrowed to
   * int, and, when negative, has the divisor added.
   */
  function FoldStep(prev: int): int
  {
    var tmp := U64(16807 * U64(prev));
    var sum := tmp % TWO31 + tmp / TWO31;
    var v := I32(sum);
    if v < 0 then I32(v + M) else v
  }

  /** The seeding step with the fold corrected by one conditional subtraction. */
  function SeedStep(prev: int): (r: int)
    ensures IsInt32(r)
  {
    var tmp := U64(16807 * U64(prev));
    var sum := tmp % TWO31 + tmp / TWO31;
    I32(if sum >= M then sum - M else sum)
  }

  /** For a non-negative int entry the corrected step is 16807*prev mod (2^31-1). */
  lemma SeedStepIsLehmer(prev: int)
    requires 0 <= prev < TWO31
    ensures SeedStep(prev) == (16807 * prev) % M
    ensures 0 <= SeedStep(prev) < M
  {
    var tmp := 16807 * prev;
    assert tmp < 16807 * TWO31;
    assert U64(prev) == prev;
    assert U64(16807 * U64(prev)) == tmp;
    var lo, hi := tmp % TWO31, tmp / TWO31;
    assert tmp == hi * TWO31 + lo;
    assert hi * TWO31 == hi * M + hi;
    assert hi <= 16807 * TWO31 / TWO31;
    var sum := lo + hi;
    assert sum < 2 * M;
    if sum >= M {
      ModOfDecomposition(tmp, hi + 1, sum - M, M);
    } else {
      ModOfDecomposition(tmp, hi, sum, M);
    }
  }

  /** The as-written fold differs from the Lehmer step on this entry. */
  lemma FoldStepCounterexample()
    ensures FoldStep(868985321) == 6798
    ensures SeedStep(868985321) == 6800 == (16807 * 868985321) % M
  {
    var tmp := 14605036290047;
    assert U64(868985321) == 868985321 && U64(16807 * 868985321) == tmp;
    assert tmp % TWO31 == 2147483647 && tmp / TWO31 == 6800;
    assert I32(2147490447) == -2147476849;
    assert I32(-2147476849 + M) == 6798;
    SeedStepIsLehmer(868985321);
  }

  /** The 8-byte generator: (1103515245*x + 12345) masked to 31 bits. */
  function Lcg(x: int): (r: int)
    ensures 0 <= r < TWO31
  {
    U64(1103515245 * U64(x) + 12345) % TWO31
  }

  // ------------------------------------------------------- state functions

  /** Data entries and the two moving indices of a buffer. */
  datatype Cycle = Cycle(phase: int, shift: int, data: seq<int>)

  /**
   * The indices are within 0..limit and never coincide modulo limit; the
   * data array covers the first limit entries.
   */
  predicate CycleOk(c: Cycle, limit: int)
  {
    1 < limit <= |c.data| && 0 <= c.phase <= limit && 0 <= c.shift <= limit
    && (c.shift - c.phase) % limit != 0
  }

  datatype Updated = Updated(next: Cycle, value: int)

  /**
   * update_state: an index that reached the limit wraps to 0 (phase first,
   * otherwise shift), then data[shift] += data[phase] and both advance.
   */
  function Update(c: Cycle, limit: int): (r: Updated)
    requires CycleOk(c, limit)
  {
    var p := if c.phase == limit then 0 else c.phase;
    var s := if c.phase == limit then c.shift else if c.shift == limit then 0 else c.shift;
    assert c.phase == limit ==> c.shift != limit;
    var v := I32(c.data[s] + c.data[p]);
    Updated(Cycle(p + 1, s + 1, c.data[s := v]), v)
  }

  lemma ModShift(x: int, limit: int)
    requires limit > 0
    ensures (x - limit) % limit == x % limit
    ensures (x + limit) % limit == x % limit
  {
    ModOfDecomposition(x - limit, x / limit - 1, x % limit, limit);
    ModOfDecomposition(x + limit, x / limit + 1, x % limit, limit);
  }

  /**
   * update_state keeps both indices within 0..limit, resets an index at the
   * limit to 0 before using it, and preserves the index invariant.
   */
  lemma UpdateKeepsCycle(c: Cycle, limit: int)
    requires CycleOk(c, limit)
    ensures var n := Update(c, limit).next;
      CycleOk(n, limit) && |n.data| == |c.data|
      && n.phase == (if c.phase == limit then 1 else c.phase + 1)
      && n.shift == (if c.phase != limit && c.shift == limit then 1 else c.shift + 1)
      && 1 <= n.phase <= limit && 1 <= n.shift <= limit
  {
    ModShift(c.shift - c.phase, limit);
  }

  /** n successive updates without output. */
  function Warm(c: Cycle, limit: int, n: nat): (r: Cycle)
    requires CycleOk(c, limit)
    ensures CycleOk(r, limit) && |r.data| == |c.data|
  {
    if n == 0 then c
    else
      var w := Warm(c, limit, n - 1);
      UpdateKeepsCycle(w, limit);
      Update(w, limit).next
  }

  /** The first n seeded entries: the seed (1 for 0), then successive seeding steps. */
  function Seeded(seed: int, n: nat): (s: seq<int>)
    requires n >= 1
    ensures |s| == n
  {
    if n == 1 then [I32(if seed != 0 then seed else 1)]
    else
      var p := Seeded(seed, n - 1);
      p + [SeedStep(p[n - 2])]
  }

  /**
   * Seeds below 2^31 fill the entries with the Lehmer sequence
   * x[i] = 16807 * x[i-1] mod (2^31 - 1), starting from the seed, or 1 for 0.
   */
  lemma {:induction false} SeededLehmer(seed: int, n: nat, i: nat)
    requires 0 <= seed < TWO31 && 1 <= n && i < n
    ensures Seeded(seed, n)[0] == if seed != 0 then seed else 1
    ensures 1 <= i ==> Seeded(seed, n)[i] == (16807 * Seeded(seed, n)[i - 1]) % M
    ensures 1 <= i ==> 0 <= Seeded(seed, n)[i] < M
    decreases i
  {
    var s := Seeded(seed, n);
    SeededSteps(seed, n);
    if i >= 1 {
      if i >= 2 {
        SeededLehmer(seed, n, i - 1);
      }
      SeedStepIsLehmer(s[i - 1]);
    }
  }

  /** Seeding one more entry keeps the earlier ones. */
  lemma SeededExtends(seed: int, n: nat)
    requires n >= 2
    ensures var p := Seeded(seed, n - 1);
      forall k | 0 <= k < n - 1 :: Seeded(seed, n)[k] == p[k]
    ensures Seeded(seed, n)[n - 1] == SeedStep(Seeded(seed, n - 1)[n - 2])
  {
  }

  /** Every seeded entry after the first is the seeding step of its predecessor. */
  lemma {:induction false} SeededSteps(seed: int, n: nat)
    requires n >= 1
    ensures Seeded(seed, n)[0] == I32(if seed != 0 then seed else 1)
    ensures forall k | 1 <= k < n :: Seeded(seed, n)[k] == SeedStep(Seeded(seed, n)[k - 1])
  {
    if n > 1 {
      SeededSteps(seed, n - 1);
      SeededExtends(seed, n);
    }
  }

  predicate ValidLimit(limit: int)
  {
    limit in {1, 7, 15, 31, 63}
  }

  /** The initial shift interval for each cycle length. */
  function InitialShift(limit: int, shift: int): int
  {
    if limit == 63 || limit == 15 then 1
    else if limit == 31 || limit == 7 then 3
    else shift
  }

  /** A buffer's control word and data, as values. */
  datatype Snapshot = Snapshot(phase: int, shift: int, limit: int, data: seq<int>)

  /**
   * initialize_state_data: record the seed in data[0]; for more than one
   * entry, fill the others by seeding steps, set phase 0 and the initial
   * shift, and run 10 updates per entry.
   */
  function Initialized(seed: int, s: Snapshot): (r: Snapshot)
    requires ValidLimit(s.limit) && s.limit <= |s.data|
    ensures r.limit == s.limit && |r.data| == |s.data|
    ensures s.limit > 1 ==> CycleOk(Cycle(r.phase, r.shift, r.data), r.limit)
    ensures s.limit == 1 ==> r == s.(data := s.data[0 := I32(if seed != 0 then seed else 1)])
  {
    if s.limit > 1 then
      var c := Cycle(0, InitialShift(s.limit, s.shift), Seeded(seed, s.limit) + s.data[s.limit..]);
      InitialCycleOk(c, s.limit);
      var w := Warm(c, s.limit, 10 * s.limit);
      Snapshot(w.phase, w.shift, s.limit, w.data)
    else
      s.(data := s.data[0 := I32(if seed != 0 then seed else 1)])
  }

  /** Phase 0 and the initial shift satisfy the cycle invariant. */
  lemma InitialCycleOk(c: Cycle, limit: int)
    requires ValidLimit(limit) && 1 < limit <= |c.data|
    requires c.phase == 0 && c.shift in {1, 3}
    ensures CycleOk(c, limit)
  {
    if c.shift == 1 {
      ModOfDecomposition(1, 0, 1, limit);
    } else {
      ModOfDecomposition(3, 0, 3, limit);
    }
  }

  /** normalized_cycle's result: entries in use for a buffer of len bytes. */
  function CycleFor(len: int): (r: int)
  {
    if len >= 256 then 63
    else if len >= 128 then 31
    else if len >= 64 then 15
    else if len >= 32 then 7
    else if len >= 8 then 1
    else if len >= 4 then 0
    else TWO32 - 1
  }

  lemma CycleForValid(len: int)
    requires len >= 8
    ensures ValidLimit(CycleFor(len))
    ensures CycleFor(len) <= len / 4 - 1
  {
  }

  /** normalized_cycle: halve from 256 (or 8) down to at most len bytes. */
  method NormalizedCycle(len: int) returns (r: int)
    requires 0 <= len < TWO32
    ensures r == CycleFor(len)
  {
    var start := if len >= 32 then 256 else 8;
    var counter := start;
    while counter > len
      invariant counter in {256, 128, 64, 32, 16, 8, 4, 2, 1, 0}
      invariant counter <= start
      invariant counter == start || 2 * counter > len || (counter == 0 && len == 0)
      decreases counter
    {
      counter := counter / 2;
    }
    r := U32(counter / 4 - 1);
  }

  // ----------------------------------------------------------------- state

  /** A state buffer of `bytes` bytes: the control word and bytes/4 - 1 entries. */
  class StateBuffer {
    var phase: int
    var shift: int
    var limit: int
    const bytes: nat
    const data: array<int>

    constructor (size: nat)
      requires size >= 4
      ensures bytes == size && Sized() && phase == 0 && shift == 0 && limit == 0
      ensures fresh(data) && forall i :: 0 <= i < data.Length ==> data[i] == 0
    {
      bytes := size;
      phase, shift, limit := 0, 0, 0;
      data := new int[size / 4 - 1](_ => 0);
    }

    predicate Sized()
    {
      bytes >= 4 && data.Length == bytes / 4 - 1
    }
  }

  function Snap(b: StateBuffer): Snapshot
    reads b, b.data
  {
    Snapshot(b.phase, b.shift, b.limit, b.data[..])
  }

  function CycleOf(b: StateBuffer): Cycle
    reads b, b.data
  {
    Cycle(b.phase, b.shift, b.data[..])
  }

  class Prng {
    var state: StateBuffer
    const defaultState: StateBuffer
    var errno: int

    /** The adopted buffer is the 128-byte default one, not yet initialized. */
    constructor ()
      ensures Valid() && state == defaultState && state.limit == 0 && fresh(defaultState)
    {
      var d := new StateBuffer(128);
      defaultState := d;
      state := d;
      errno := 0;
    }

    predicate Valid()
      reads this
    {
      defaultState.Sized() && defaultState.bytes == 128 && state.Sized()
    }

    /**
     * The active buffer can produce a number: the default buffer not yet
     * initialized, an initialized 8-byte user buffer, or a longer buffer
     * whose indices satisfy the cycle invariant.
     */
    predicate Ready()
      reads this, state, state.data
    {
      Valid()
      && ((state == defaultState && state.limit == 0)
          || (state != defaultState && state.limit == 1 && state.data.Length >= 1)
          || CycleOk(CycleOf(state), state.limit))
    }

    /** setstate: adopt buf and return the previous buffer; null gives EINVAL. */
    method SetState(buf: StateBuffer?) returns (prev: StateBuffer?)
      modifies this
      ensures buf == null ==> prev == null && state == old(state) && errno == EINVAL
      ensures buf != null ==> prev == old(state) && state == buf && errno == old(errno)
    {
      if buf == null {
        errno := EINVAL;
        prev := null;
      } else {
        prev := state;
        state := buf;
      }
    }

    /** update_state on the active buffer. */
    method UpdateState() returns (v: int)
      requires CycleOk(CycleOf(state), state.limit)
      modifies state, state.data
      ensures Update(old(CycleOf(state)), old(state.limit)) == Updated(CycleOf(state), v)
      ensures state.limit == old(state.limit)
    {
      var p := if state.phase == state.limit then 0 else state.phase;
      var s := if state.phase == state.limit then state.shift else if state.shift == state.limit then 0 else state.shift;
      assert Update(CycleOf(state), state.limit).next.phase == p + 1;
      state.phase, state.shift := p, s;
      v := I32(state.data[s] + state.data[p]);
      state.data[s] := v;
      state.shift := s + 1;
      state.phase := p + 1;
    }

    /** initialize_state_data on the active buffer. */
    method InitializeStateData(seed: int)
      requires ValidLimit(state.limit) && state.limit <= state.data.Length
      modifies state, state.data
      ensures Snap(state) == Initialized(seed, old(Snap(state)))
    {
      ghost var s0 := Snap(state);
      var b := state;
      b.data[0] := I32(if seed != 0 then seed else 1);
      if b.limit > 1 {
        ghost var rest := b.data[b.limit..];
        assert rest == s0.data[s0.limit..];
        FillEntries(seed);
        ghost var filled := b.data[..];
        assert filled == Seeded(seed, s0.limit) + rest;
        b.phase := 0;
        b.shift := InitialShift(b.limit, b.shift);
        assert CycleOf(b) == Cycle(0, InitialShift(s0.limit, s0.shift), filled);
        InitialCycleOk(CycleOf(b), b.limit);
        WarmUp();
      }
    }

    /** The seeding loop: entries 1..limit-1 from their predecessors. */
    method FillEntries(seed: int)
      requires 1 < state.limit <= state.data.Length
      requires state.data[0] == I32(if seed != 0 then seed else 1)
      modifies state.data
      ensures state.data[..] == Seeded(seed, state.limit) + old(state.data[state.limit..])
    {
      var data, limit := state.data, state.limit;
      ghost var target := Seeded(seed, limit);
      SeededSteps(seed, limit);
      var i := 1;
      while i < limit
        invariant 1 <= i <= limit
        invariant forall k :: 0 <= k < i ==> data[k] == target[k]
        invariant forall k :: i <= k < data.Length ==> data[k] == old(data[k])
      {
        data[i] := SeedStep(data[i - 1]);
        i := i + 1;
      }
      assert data[..] == target + old(data[limit..]);
    }

    /** Ten updates per entry, discarding their values. */
    method WarmUp()
      requires CycleOk(CycleOf(state), state.limit)
      modifies state, state.data
      ensures state.limit == old(state.limit)
      ensures CycleOf(state) == Warm(old(CycleOf(state)), old(state.limit), 10 * old(state.limit))
    {
      ghost var c := CycleOf(state);
      var limit := state.limit;
      var n := ((limit * 4) + limit) * 2;
      while n > 0
        invariant 0 <= n <= 10 * limit
        invariant state.limit == limit
        invariant CycleOf(state) == Warm(c, limit, 10 * limit - n)
      {
        n := n - 1;
        UpdateKeepsCycle(CycleOf(state), limit);
        var _ := UpdateState();
      }
    }

    /**
     * initstate: null buf gives EINVAL; a length below 8 bytes is refused
     * with no change; otherwise buf is adopted, sized and seeded, and the
     * previous buffer is returned.
     */
    method InitState(seed: int, buf: StateBuffer?, len: int) returns (prev: StateBuffer?)
      requires Valid()
      requires 0 <= len < TWO32
      requires buf != null ==> buf.Sized() && len <= buf.bytes
      modifies this, buf, if buf == null then {} else {buf.data}
      ensures Valid()
      ensures buf == null ==> prev == null && state == old(state) && errno == EINVAL
      ensures buf != null && len < 8 ==> prev == null && state == old(state)
      ensures buf != null && len >= 8 ==>
        prev == old(state) && state == buf
        && Snap(buf) == Initialized(seed, old(Snap(buf)).(limit := CycleFor(len)))
      ensures buf != null && len >= 8 && (buf != defaultState || len >= 32) ==> Ready()
      ensures buf != null && len < 8 ==> unchanged(buf) && unchanged(buf.data)
    {
      if buf == null {
        errno := EINVAL;
        prev := null;
      } else if len < 8 {
        prev := null;
      } else {
        prev := state;
        state := buf;
        var limit := NormalizedCycle(len);
        CycleForValid(len);
        state.limit := limit;
        InitializeStateData(seed);
      }
    }

    /**
     * initstate as written: when buf is non-null but shorter than 8 bytes
     * the buffer is still adopted, though null is returned and it is never
     * seeded.
     */
    method InitStateAsWritten(seed: int, buf: StateBuffer?, len: int) returns (prev: StateBuffer?)
      requires 0 <= len < TWO32
      requires buf != null ==> buf.Sized() && len <= buf.bytes
      modifies this, buf, if buf == null then {} else {buf.data}
      ensures buf != null && len < 8 ==> prev == null && state == buf
      ensures buf != null && len < 8 ==> unchanged(buf) && unchanged(buf.data)
    {
      var offered := if len >= 8 then state else null;
      if buf == null {
        errno := EINVAL;
        prev := null;
      } else {
        state := buf;
        prev := offered;
      }
      if prev != null {
        var limit := NormalizedCycle(len);
        CycleForValid(len);
        state.limit := limit;
        InitializeStateData(seed);
      }
    }

    /**
     * srandom: the default buffer, on first use, is sized for 128 bytes;
     * then the active buffer is seeded.
     */
    method SRandom(seed: int)
      requires Valid()
      requires (state == defaultState && state.limit == 0) || ValidLimit(state.limit)
      requires state.limit <= state.data.Length
      modifies state, state.data
      ensures Snap(state) == Initialized(seed,
        if old(state) == defaultState && old(state.limit) == 0 then old(Snap(state)).(limit := 31)
        else old(Snap(state)))
      ensures old(Ready()) ==> Ready()
    {
      if state == defaultState && state.limit == 0 {
        var limit := NormalizedCycle(128);
        state.limit := limit;
      }
      InitializeStateData(seed);
    }

    /**
     * random: an uninitialized default buffer is first seeded with 1 for
     * 128 bytes; an 8-byte buffer steps the linear congruential generator;
     * otherwise one update is made and its value, as unsigned, halved.
     */
    method Random() returns (r: int)
      requires Ready()
      modifies state, state.data
      ensures 0 <= r < TWO31
      ensures Ready()
      ensures old(state) == defaultState && old(state.limit) == 0 ==>
        var s := Initialized(1, old(Snap(state)).(limit := 31));
        var u := Update(Cycle(s.phase, s.shift, s.data), 31);
        CycleOf(state) == u.next && r == U32(u.value) / 2
      ensures old(state) != defaultState && old(state.limit) == 1 ==>
        r == Lcg(old(state.data[0])) && state.data[..] == old(state.data[..])[0 := r]
        && state.phase == old(state.phase) && state.shift == old(state.shift)
      ensures old(state.limit) > 1 ==>
        var u := Update(old(CycleOf(state)), old(state.limit));
        CycleOf(state) == u.next && r == U32(u.value) / 2
    {
      if state == defaultState {
        if state.limit == 0 {
          var limit := NormalizedCycle(128);
          state.limit := limit;
          InitializeStateData(1);
        }
      } else {
        var eight := NormalizedCycle(8);
        if state.limit == eight {
          var x := Lcg(state.data[0]);
          state.data[0] := x;
          return x;
        }
      }
      UpdateKeepsCycle(CycleOf(state), state.limit);
      var v := UpdateState();
      r := U32(v) / 2;
    }
  }
}
