/**
 * The dlfcn emulation: the dlerror() message buffer, and the global
 * module table rtld that dlopen() and dlclose() maintain.  The table's
 * parallel flags[] and modules[] arrays are a sequence of (flag, module)
 * entries; a zero flag marks a vacant slot.  The loader (LoadLibraryW,
 * FreeLibrary, GetLastError) and the allocator are parameters of each
 * call, and a diagnostic records which message would be formatted.
 * The value of RTLD_GLOBAL comes from a header that is not part of this
 * model, so it is a constant of the table.
 */
module Dlfcn {
  /** Flag bit marking a module loaded by dlopen() itself. */
  const RTLD_EXPLICIT: bv8 := 16
  /** The pseudo-handle dlopen(NULL) returns. */
  const RTLD_ALL_GLOBAL: int := -5
  /** The Win32 out-of-memory error code. */
  const ERROR_OUTOFMEMORY: int := 14

  datatype Option<T> = None | Some(value: T)

  /** The message a failing call records, by its origin and Win32 status. */
  datatype Diag = OpenError(name: seq<char>, status: int) | CloseError(status: int)

  /** One slot of the table: flags[i] and modules[i]. */
  datatype Entry = Entry(flag: bv8, handle: int)

  /** The active slots, in table order. */
  function Active(t: seq<Entry>): (a: seq<Entry>)
    ensures |a| <= |t|
    ensures forall k :: 0 <= k < |a| ==> a[k].flag != 0
  {
    if |t| == 0 then []
    else Active(t[..|t| - 1]) + (if t[|t| - 1].flag != 0 then [t[|t| - 1]] else [])
  }

  /** Every active slot comes from the table. */
  lemma {:induction false} ActiveMembers(t: seq<Entry>)
    ensures forall e :: e in Active(t) ==> e in t
    decreases |t|
  {
    if |t| > 0 {
      ActiveMembers(t[..|t| - 1]);
    }
  }

  lemma ActiveAppend(t: seq<Entry>, e: Entry)
    ensures Active(t + [e]) == Active(t) + (if e.flag != 0 then [e] else [])
  {
    assert (t + [e])[..|t|] == t;
  }

  /** Filtering distributes over concatenation. */
  lemma {:induction false} ActiveConcat(a: seq<Entry>, b: seq<Entry>)
    ensures Active(a + b) == Active(a) + Active(b)
    decreases |b|
  {
    if |b| == 0 {
      assert a + b == a;
    } else {
      var b' := b[..|b| - 1];
      assert a + b == (a + b') + [b[|b| - 1]];
      ActiveAppend(a + b', b[|b| - 1]);
      ActiveConcat(a, b');
    }
  }

  /** A table whose slots are all active is its own active view. */
  lemma {:induction false} ActiveOfActive(t: seq<Entry>)
    requires forall k :: 0 <= k < |t| ==> t[k].flag != 0
    ensures Active(t) == t
    decreases |t|
  {
    if |t| > 0 {
      ActiveOfActive(t[..|t| - 1]);
    }
  }

  /** A run of vacant slots contributes nothing. */
  lemma {:induction false} ActiveOfVacant(t: seq<Entry>)
    requires forall k :: 0 <= k < |t| ==> t[k].flag == 0
    ensures Active(t) == []
    decreases |t|
  {
    if |t| > 0 {
      ActiveOfVacant(t[..|t| - 1]);
    }
  }

  /** The first vacant slot, or |t| when there is none. */
  function FirstVacant(t: seq<Entry>): (i: nat)
    ensures i <= |t| && forall k :: 0 <= k < i ==> t[k].flag != 0
    ensures i < |t| ==> t[i].flag == 0
  {
    if |t| == 0 || t[0].flag == 0 then 0 else 1 + FirstVacant(t[1..])
  }

  predicate Holds(e: Entry, m: int) { e.flag != 0 && e.handle == m }

  /** The first active slot holding module m. */
  function Lookup(t: seq<Entry>, m: int): (r: Option<nat>)
    ensures r.Some? ==> r.value < |t| && Holds(t[r.value], m)
    ensures r.Some? ==> forall k :: 0 <= k < r.value ==> !Holds(t[k], m)
    ensures r.None? ==> forall k :: 0 <= k < |t| ==> !Holds(t[k], m)
  {
    if |t| == 0 then None
    else if Holds(t[0], m) then Some(0)
    else match Lookup(t[1..], m)
      case None => None
      case Some(k) => Some(k + 1)
  }

  /** The first slot, active or not, whose module is m: where dlclose stops. */
  function Slot(t: seq<Entry>, m: int): (r: Option<nat>)
    ensures r.Some? ==> r.value < |t| && t[r.value].handle == m
    ensures r.Some? ==> forall k :: 0 <= k < r.value ==> t[k].handle != m
    ensures r.None? ==> forall k :: 0 <= k < |t| ==> t[k].handle != m
  {
    if |t| == 0 then None
    else if t[0].handle == m then Some(0)
    else match Slot(t[1..], m)
      case None => None
      case Some(k) => Some(k + 1)
  }

  /**
   * The table after packing from the first vacant slot: the active slots
   * in their order, then the old slots' modules under zero flags.
   */
  function Packed(t: seq<Entry>): (p: seq<Entry>)
  {
    Active(t) + Vacated(t, |Active(t)|)
  }

  /** Slots from..|t|-1 of t, marked vacant. */
  function Vacated(t: seq<Entry>, from: nat): (v: seq<Entry>)
    requires from <= |t|
  {
    seq(|t| - from, j requires 0 <= j < |t| - from => Entry(0, t[from + j].handle))
  }

  /** The flag of a new entry: the low byte of RTLD_EXPLICIT | mode. */
  function NewFlag(mode: bv8): (f: bv8)
    ensures f != 0 && f & RTLD_EXPLICIT == RTLD_EXPLICIT
  {
    RTLD_EXPLICIT | mode
  }

  /** What dlopen() of a loaded module does to the table, with its handle. */
  datatype Opened = Opened(handle: int, table: seq<Entry>)

  /**
   * dlopen() on a name for which LoadLibraryW returned loaded (0 when it
   * failed): a tabled module is promoted, otherwise the module is added
   * after the active slots, reusing a vacant slot or growing the table.
   */
  function Open(t: seq<Entry>, global: bv8, mode: bv8, loaded: int, growOk: bool): (o: Opened)
  {
    if loaded == 0 then Opened(0, t)
    else match Lookup(t, loaded)
      case Some(k) => Opened(loaded, Promote(t, k, mode & global))
      case None => OpenNew(t, mode, loaded, growOk)
  }

  /** Setting bits in the flags of slot k. */
  function Promote(t: seq<Entry>, k: nat, bits: bv8): (u: seq<Entry>)
    requires k < |t|
    ensures |u| == |t| && u[k].flag == t[k].flag | bits && u[k].handle == t[k].handle
    ensures forall j :: 0 <= j < |t| && j != k ==> u[j] == t[j]
  {
    t[k := Entry(t[k].flag | bits, t[k].handle)]
  }

  /** dlopen() of a module that is not in the table. */
  function OpenNew(t: seq<Entry>, mode: bv8, loaded: int, growOk: bool): (o: Opened)
  {
    if |Active(t)| < |t| then Opened(loaded, Packed(t)[|Active(t)| := Entry(NewFlag(mode), loaded)])
    else if growOk then Opened(loaded, t + [Entry(NewFlag(mode), loaded)])
    else Opened(0, t)
  }

  /** The result of dlclose(): 0 on success, and the table after it. */
  datatype Closed = Closed(ok: bool, table: seq<Entry>)

  /**
   * dlclose(m): only an explicitly loaded module whose FreeLibrary
   * succeeds is closed, by zeroing its flag; the search stops at the
   * first slot naming m, vacant or not.
   */
  function Close(t: seq<Entry>, m: int, freeOk: bool): Closed
  {
    match Slot(t, m)
      case Some(k) =>
        if t[k].flag & RTLD_EXPLICIT == RTLD_EXPLICIT && freeOk then Closed(true, t[k := Entry(0, m)])
        else Closed(false, t)
      case None => Closed(false, t)
  }

  /** dlfcn_error_pending (as whether it is set) and dlfcn_error_message. */
  datatype Errors = Errors(pending: bool, message: Option<Diag>)

  /** dlfcn_store_error_message: both references name the new buffer, or are lost with it. */
  function Record(d: Diag, allocOk: bool): (e: Errors)
    ensures e.pending == e.message.Some? && (e.pending <==> allocOk)
  {
    if allocOk then Errors(true, Some(d)) else Errors(false, None)
  }

  /** What dlerror() returns, and the error state it leaves. */
  datatype Report = Report(result: Option<Diag>, after: Errors)

  /**
   * dlerror(): a pending message is returned and marked retrieved; when
   * none is pending the retained buffer is released and NULL returned.
   */
  function Retrieve(e: Errors): (r: Report)
    ensures !r.after.pending && r.after.message == r.result
    ensures r.result.Some? <==> e.pending && e.message.Some?
  {
    if !e.pending then Report(None, Errors(false, None)) else Report(e.message, Errors(false, e.message))
  }

  /** The global state of the emulation. */
  class DlState {
    var pending: bool
    var message: Option<Diag>
    var table: seq<Entry>
    const global: bv8

    /** The state after dlfcn_init: the table it enumerated, and no message. */
    constructor (initial: seq<Entry>, rtldGlobal: bv8)
      ensures table == initial && global == rtldGlobal && !pending && message == None
    {
      table := initial;
      global := rtldGlobal;
      pending := false;
      message := None;
    }

    function Errs(): Errors
      reads this
    {
      Errors(pending, message)
    }

    method StoreError(d: Diag, allocOk: bool)
      modifies this
      ensures Errs() == Record(d, allocOk) && table == old(table)
    {
      if allocOk {
        pending := true;
        message := Some(d);
      } else {
        pending := false;
        message := None;
      }
    }

    /** dlerror_internal. */
    method DlError() returns (r: Option<Diag>)
      modifies this
      ensures Report(r, Errs()) == Retrieve(old(Errs())) && table == old(table)
    {
      if !pending && message.Some? {
        message := None;
      }
      pending := false;
      r := message;
    }

    /**
     * dlopen_internal.  name is None for a NULL name; loaded is what
     * LoadLibraryW returned for the normalized name, lastError what
     * GetLastError reports after a failed load, growOk whether both
     * reallocations of the table succeed and msgOk whether the message
     * buffer can be allocated.
     */
    method DlOpen(name: Option<seq<char>>, mode: bv8, loaded: int, lastError: int, growOk: bool,
                  msgOk: bool)
      returns (h: int)
      modifies this
      ensures name.None? ==> h == RTLD_ALL_GLOBAL && unchanged(this)
      ensures name.Some? ==> var o := Open(old(table), global, mode, loaded, growOk);
        h == o.handle && table == o.table
        && (loaded == 0 ==> Errs() == Record(OpenError(name.value, lastError), msgOk))
        && (loaded != 0 && h == 0 ==> Errs() == Record(OpenError(name.value, ERROR_OUTOFMEMORY), msgOk))
        && (h != 0 ==> Errs() == old(Errs()))
    {
      if name.None? {
        return RTLD_ALL_GLOBAL;
      }
      if loaded == 0 {
        StoreError(OpenError(name.value, lastError), msgOk);
        return 0;
      }
      var found, ip := Scan(table, loaded);
      if found < |table| {
        table := table[found := Entry(table[found].flag | (mode & global), loaded)];
        return loaded;
      }
      var added, t' := Insert(table, ip, mode, loaded, growOk);
      if !added {
        StoreError(OpenError(name.value, ERROR_OUTOFMEMORY), msgOk);
        return 0;
      }
      table := t';
      h := loaded;
    }

    /**
     * dlclose_internal.  freeOk is whether FreeLibrary(module) succeeds,
     * lastError what GetLastError reports after the final FreeLibrary(NULL).
     */
    method DlClose(m: int, freeOk: bool, lastError: int, msgOk: bool) returns (r: int)
      modifies this
      ensures var c := Close(old(table), m, freeOk);
        table == c.table && (c.ok ==> r == 0 && Errs() == old(Errs()))
        && (!c.ok ==> r == lastError && Errs() == Record(CloseError(lastError), msgOk))
    {
      var index := 0;
      while index < |table|
        invariant index <= |table| && table == old(table) && Errs() == old(Errs())
        invariant forall k :: 0 <= k < index ==> table[k].handle != m
      {
        if m == table[index].handle {
          if table[index].flag & RTLD_EXPLICIT == RTLD_EXPLICIT {
            if freeOk {
              table := table[index := Entry(0, m)];
              return 0;
            }
            // the failed FreeLibrary(module) records its own message first
            StoreError(CloseError(lastError), msgOk);
          }
          break;
        }
        index := index + 1;
      }
      StoreError(CloseError(lastError), msgOk);
      r := lastError;
    }
  }

  /**
   * Adding a module that is not in the table, ip being the first vacant
   * slot: pack and reuse a slot, or grow the table by one slot.
   */
  method Insert(t: seq<Entry>, ip: nat, mode: bv8, loaded: int, growOk: bool)
    returns (added: bool, t': seq<Entry>)
    requires ip == FirstVacant(t)
    ensures added == (|Active(t)| < |t| || growOk)
    ensures added ==> t' == (if |Active(t)| < |t| then Packed(t)[|Active(t)| := Entry(NewFlag(mode), loaded)]
                             else t + [Entry(NewFlag(mode), loaded)])
  {
    VacancyIff(t);
    if ip < |t| {
      var packed, top := Pack(t, ip);
      PackedFromFirstVacant(t, ip);
      t' := packed[top := Entry(NewFlag(mode), loaded)];
      return true, t';
    }
    if growOk {
      t' := t + [Entry(0, 0)];
      t' := t'[ip := Entry(NewFlag(mode), loaded)];
      return true, t';
    }
    return false, t;
  }

  /**
   * The search loop of dlopen: found is the first active slot holding m
   * (or |t|), ip the first vacant slot before it (or |t|).
   */
  method Scan(t: seq<Entry>, m: int) returns (found: nat, ip: nat)
    ensures found == (match Lookup(t, m) case Some(k) => k case None => |t|)
    ensures found == |t| ==> ip == FirstVacant(t)
  {
    ip := |t|;
    var index := 0;
    while index < |t|
      invariant index <= |t| && forall k :: 0 <= k < index ==> !Holds(t[k], m)
      invariant ip == (if FirstVacant(t) < index then FirstVacant(t) else |t|)
    {
      if t[index].flag == 0 {
        if index < ip {
          ip := index;
        }
      } else if m == t[index].handle {
        return index, ip;
      }
      index := index + 1;
    }
    found := |t|;
  }

  /**
   * The packing loops of dlopen, from the vacant slot ip0: each run of
   * active slots is copied down over the vacant ones, then every slot
   * from the final insertion point on is marked vacant.
   */
  method Pack(t: seq<Entry>, ip0: nat) returns (p: seq<Entry>, ip: nat)
    requires ip0 < |t|
    ensures ip == ip0 + |Active(t[ip0..])| <= |t|
    ensures p == t[..ip0] + Active(t[ip0..]) + Vacated(t, ip)
  {
    p := t;
    ip := ip0;
    var index := ip0;
    while true
      invariant Packing(t, ip0, p, ip, index)
      decreases |t| - index
    {
      ghost var start := index;
      index := SkipVacant(t, ip0, p, ip, index);
      p, ip, index := MoveRun(t, ip0, p, ip, index);
      if index >= |t| {
        break;
      }
      assert index > start;
    }
    assert t[ip0..index] == t[ip0..];
    p := Vacate(t, p, ip);
  }

  /**
   * Part way through packing: slots before ip hold the untouched prefix
   * and the active slots of t[ip0..index]; slots from ip on are untouched.
   */
  ghost predicate Packing(t: seq<Entry>, ip0: nat, p: seq<Entry>, ip: nat, index: nat)
  {
    && ip0 <= ip <= index <= |t| && |p| == |t|
    && p[..ip] == t[..ip0] + Active(t[ip0..index])
    && forall k :: ip <= k < |t| ==> p[k] == t[k]
  }

  /** The active slots of t[ip0..index] after one more slot. */
  lemma ActiveStep(t: seq<Entry>, ip0: nat, index: nat)
    requires ip0 <= index < |t|
    ensures Active(t[ip0..index + 1]) == Active(t[ip0..index]) + (if t[index].flag != 0 then [t[index]] else [])
  {
    assert t[ip0..index + 1] == t[ip0..index] + [t[index]];
    ActiveAppend(t[ip0..index], t[index]);
  }

  /** Copying the active slot at index down to ip extends the packed prefix by it. */
  lemma PackingMove(t: seq<Entry>, ip0: nat, p: seq<Entry>, ip: nat, index: nat)
    requires Packing(t, ip0, p, ip, index) && index < |t| && p[index].flag != 0
    ensures Packing(t, ip0, p[ip := p[index]], ip + 1, index + 1)
  {
    ActiveStep(t, ip0, index);
    var q := p[ip := p[index]];
    assert p[index] == t[index];
    assert q[..ip + 1] == p[..ip] + [t[index]];
  }

  /** The first inner loop: step over vacant slots. */
  method SkipVacant(t: seq<Entry>, ip0: nat, p: seq<Entry>, ip: nat, index0: nat) returns (index: nat)
    requires Packing(t, ip0, p, ip, index0)
    ensures Packing(t, ip0, p, ip, index) && index0 <= index
    ensures index == |t| || p[index].flag != 0
  {
    index := index0;
    while index < |t| && p[index].flag == 0
      invariant Packing(t, ip0, p, ip, index) && index0 <= index
      decreases |t| - index
    {
      ActiveStep(t, ip0, index);
      index := index + 1;
    }
  }

  /** The second inner loop: copy a run of active slots down to ip. */
  method MoveRun(t: seq<Entry>, ip0: nat, p0: seq<Entry>, ip1: nat, index0: nat)
    returns (p: seq<Entry>, ip: nat, index: nat)
    requires Packing(t, ip0, p0, ip1, index0)
    ensures Packing(t, ip0, p, ip, index) && index0 <= index
    ensures index == index0 ==> index == |t| || p0[index].flag == 0
  {
    p, ip, index := p0, ip1, index0;
    while index < |t| && p[index].flag != 0
      invariant Packing(t, ip0, p, ip, index) && index0 <= index
      invariant index == index0 ==> p == p0
      decreases |t| - index
    {
      PackingMove(t, ip0, p, ip, index);
      p := p[ip := p[index]];
      ip := ip + 1;
      index := index + 1;
    }
  }

  /** The final loop: every slot from ip on becomes vacant. */
  method Vacate(t: seq<Entry>, p0: seq<Entry>, ip: nat) returns (p: seq<Entry>)
    requires ip <= |t| == |p0| && forall j :: ip <= j < |t| ==> p0[j] == t[j]
    ensures p == p0[..ip] + Vacated(t, ip)
  {
    p := p0;
    var k := ip;
    while k < |t|
      invariant ip <= k <= |t| && |p| == |t| && p[..ip] == p0[..ip]
      invariant forall j :: ip <= j < k ==> p[j] == Entry(0, t[j].handle)
      invariant forall j :: k <= j < |t| ==> p[j] == t[j]
    {
      p := p[k := Entry(0, p[k].handle)];
      k := k + 1;
    }
    assert p == p[..ip] + p[ip..];
  }

  /** Packing from the first vacant slot leaves exactly the packed table. */
  lemma PackedFromFirstVacant(t: seq<Entry>, ip0: nat)
    requires ip0 <= |t| && forall k :: 0 <= k < ip0 ==> t[k].flag != 0
    ensures t[..ip0] + Active(t[ip0..]) == Active(t)
  {
    ActiveTake(t, ip0);
    ActiveSplit(t, ip0);
  }

  /** A prefix of active slots is its own active view. */
  lemma ActiveTake(t: seq<Entry>, i: nat)
    requires i <= |t| && forall k :: 0 <= k < i ==> t[k].flag != 0
    ensures Active(t[..i]) == t[..i]
  {
    var a := t[..i];
    forall k | 0 <= k < |a|
      ensures a[k].flag != 0
    {
      assert a[k] == t[k];
    }
    ActiveOfActive(a);
  }

  /** The active view of a table is that of its first i slots followed by that of the rest. */
  lemma ActiveSplit(t: seq<Entry>, i: nat)
    requires i <= |t|
    ensures Active(t) == Active(t[..i]) + Active(t[i..])
  {
    assert t == t[..i] + t[i..];
    ActiveConcat(t[..i], t[i..]);
  }

  /** The table has a vacant slot exactly when its active view is shorter. */
  lemma VacancyIff(t: seq<Entry>)
    ensures FirstVacant(t) < |t| <==> |Active(t)| < |t|
  {
    var i := FirstVacant(t);
    if i < |t| {
      assert t == t[..i] + [t[i]] + t[i + 1..];
      ActiveConcat(t[..i] + [t[i]], t[i + 1..]);
      ActiveAppend(t[..i], t[i]);
    } else {
      ActiveOfActive(t);
    }
  }

  /** The modules of a run of slots, in order. */
  function Handles(a: seq<Entry>): (h: seq<int>)
    ensures |h| == |a| && forall k :: 0 <= k < |a| ==> h[k] == a[k].handle
  {
    seq(|a|, k requires 0 <= k < |a| => a[k].handle)
  }

  /** No module occupies two active slots. */
  predicate Distinct(t: seq<Entry>)
  {
    var h := Handles(Active(t));
    forall i, j :: 0 <= i < j < |h| ==> h[i] != h[j]
  }

  /** A module in the active view is found by the lookup. */
  lemma ActiveIsLooked(t: seq<Entry>, m: int)
    requires m in Handles(Active(t))
    ensures Lookup(t, m).Some?
  {
    var a := Active(t);
    var k :| 0 <= k < |a| && Handles(a)[k] == m;
    ActiveMembers(t);
    assert a[k] in a;
    var j :| 0 <= j < |t| && t[j] == a[k];
    assert Holds(t[j], m);
  }

  /** Once a pending message is retrieved, the next dlerror() returns NULL and frees it. */
  lemma ErrorReportedOnce(d: Diag)
    ensures var first := Retrieve(Record(d, true));
      first.result == Some(d)
      && Retrieve(first.after) == Report(None, Errors(false, None))
  {
  }

  /** A failed message allocation leaves nothing for dlerror() to report. */
  lemma LostMessageReportsNothing(d: Diag)
    ensures Retrieve(Record(d, false)).result == None
  {
  }

  /** Changing the flags of one active slot, keeping it active, keeps the order of modules. */
  lemma {:induction false} ActiveUpdate(t: seq<Entry>, k: nat, e: Entry)
    requires k < |t| && t[k].flag != 0 && e.flag != 0 && e.handle == t[k].handle
    ensures Handles(Active(t[k := e])) == Handles(Active(t))
    decreases |t|
  {
    var n := |t| - 1;
    var u := t[k := e];
    var tu := if u[n].flag != 0 then [u[n]] else [];
    var tt := if t[n].flag != 0 then [t[n]] else [];
    assert Active(u) == Active(u[..n]) + tu;
    assert Active(t) == Active(t[..n]) + tt;
    if k < n {
      assert u[..n] == t[..n][k := e];
      ActiveUpdate(t[..n], k, e);
    } else {
      assert u[..n] == t[..n];
    }
    HandlesAppend(Active(u[..n]), tu);
    HandlesAppend(Active(t[..n]), tt);
    assert Handles(tu) == Handles(tt);
  }

  lemma HandlesAppend(a: seq<Entry>, b: seq<Entry>)
    ensures Handles(a + b) == Handles(a) + Handles(b)
  {
  }

  /** Reopening a tabled module returns it and promotes its slot. */
  lemma ReopenPromotes(t: seq<Entry>, global: bv8, mode: bv8, m: int, growOk: bool)
    requires m != 0 && Lookup(t, m).Some?
    ensures Open(t, global, mode, m, growOk) == Opened(m, Promote(t, Lookup(t, m).value, mode & global))
  {
  }

  /** Promoting an active slot adds no slot and keeps the order of active modules. */
  lemma PromoteKeepsOrder(t: seq<Entry>, k: nat, bits: bv8)
    requires k < |t| && t[k].flag != 0
    ensures Handles(Active(Promote(t, k, bits))) == Handles(Active(t))
  {
    OrKeepsNonzero(t[k].flag, bits);
    ActiveUpdate(t, k, Entry(t[k].flag | bits, t[k].handle));
  }

  lemma OrKeepsNonzero(f: bv8, x: bv8)
    requires f != 0
    ensures f | x != 0
  {
    assert (f | x) & f == f;
  }

  /**
   * A module not in the table is added behind every active module, with
   * flags RTLD_EXPLICIT | mode, reusing a slot when one is vacant; it fails
   * only when there is no vacant slot and the table cannot grow.
   */
  lemma NewModuleAppended(t: seq<Entry>, global: bv8, mode: bv8, m: int, growOk: bool)
    requires m != 0 && Lookup(t, m).None?
    ensures var o := Open(t, global, mode, m, growOk);
      && (o.handle == m <==> |Active(t)| < |t| || growOk)
      && (o.handle == m ==> Active(o.table) == Active(t) + [Entry(NewFlag(mode), m)])
      && (o.handle == m ==> |o.table| == if |Active(t)| < |t| then |t| else |t| + 1)
      && (o.handle != m ==> o.handle == 0 && o.table == t)
  {
    var e := Entry(NewFlag(mode), m);
    if |Active(t)| < |t| || growOk {
      OpenAdds(t, mode, m, growOk);
      AddedView(t, e);
    }
  }

  /** dlopen keeps every module in at most one active slot. */
  lemma OpenKeepsDistinct(t: seq<Entry>, global: bv8, mode: bv8, m: int, growOk: bool)
    requires Distinct(t)
    ensures Distinct(Open(t, global, mode, m, growOk).table)
  {
    if m != 0 {
      if Lookup(t, m).Some? {
        ReopenPromotes(t, global, mode, m, growOk);
        PromoteKeepsOrder(t, Lookup(t, m).value, mode & global);
      } else {
        NewModuleAppended(t, global, mode, m, growOk);
        var o := Open(t, global, mode, m, growOk);
        if o.handle == m {
          if m in Handles(Active(t)) {
            ActiveIsLooked(t, m);
          }
          var h := Handles(Active(o.table));
          assert h == Handles(Active(t)) + [m];
        }
      }
    }
  }

  /**
   * The table with entry e added behind the active slots: in the first
   * vacant position after packing, or in a new last slot.
   */
  function Added(t: seq<Entry>, e: Entry): (u: seq<Entry>)
  {
    var a := Active(t);
    if |a| < |t| then a + [e] + Vacated(t, |a| + 1) else t + [e]
  }

  /** The packed table that receives e is the table with e added. */
  lemma OpenAdds(t: seq<Entry>, mode: bv8, m: int, growOk: bool)
    requires |Active(t)| < |t| || growOk
    ensures OpenNew(t, mode, m, growOk) == Opened(m, Added(t, Entry(NewFlag(mode), m)))
  {
    if |Active(t)| < |t| {
      PackedReuse(t, Entry(NewFlag(mode), m));
    }
  }

  lemma PackedReuse(t: seq<Entry>, e: Entry)
    requires |Active(t)| < |t|
    ensures Packed(t)[|Active(t)| := e] == Added(t, e)
  {
    var a := Active(t);
    ReuseSlot(a, Vacated(t, |a|), e);
    VacatedTail(t, |a|);
  }

  lemma VacatedTail(t: seq<Entry>, from: nat)
    requires from < |t|
    ensures Vacated(t, from)[1..] == Vacated(t, from + 1)
  {
  }

  lemma ReuseSlot(a: seq<Entry>, v: seq<Entry>, e: Entry)
    requires |v| >= 1
    ensures (a + v)[|a| := e] == a + [e] + v[1..]
  {
  }

  /** In the table with m added, the first slot naming m is the added one. */
  lemma SlotOfAdded(t: seq<Entry>, e: Entry)
    requires forall k :: 0 <= k < |t| ==> !Holds(t[k], e.handle)
    ensures Slot(Added(t, e), e.handle) == Some(|Active(t)|)
    ensures Added(t, e)[|Active(t)| := Entry(0, e.handle)] == Added(t, Entry(0, e.handle))
  {
    var a := Active(t);
    var u := Added(t, e);
    if |a| == |t| {
      VacancyIff(t);
      ActiveOfActive(t);
    }
    ActiveMembers(t);
    forall j | 0 <= j < |a|
      ensures u[j].handle != e.handle
    {
      assert u[j] == a[j] && a[j] in a;
    }
    SlotAt(u, e.handle, |a|);
  }

  /** Adding a vacant entry leaves the active view as it was. */
  lemma AddedVacant(t: seq<Entry>, m: int)
    ensures Active(Added(t, Entry(0, m))) == Active(t)
  {
    AddedView(t, Entry(0, m));
  }

  /** The active view of t with e added: e comes after the active modules, if it is active itself. */
  lemma AddedView(t: seq<Entry>, e: Entry)
    ensures Active(Added(t, e)) == Active(t) + (if e.flag != 0 then [e] else [])
  {
    var a := Active(t);
    if |a| < |t| {
      var v := Vacated(t, |a| + 1);
      ActiveConcat(a + [e], v);
      ActiveAppend(a, e);
      ActiveOfActive(a);
      ActiveOfVacant(v);
      assert Active(a + [e]) + [] == Active(a + [e]);
    } else {
      ActiveAppend(t, e);
    }
  }

  /**
   * dlclose of a module just added by dlopen succeeds when FreeLibrary
   * does, and leaves the active modules as they were before the dlopen.
   */
  lemma OpenThenClose(t: seq<Entry>, global: bv8, mode: bv8, m: int, growOk: bool)
    requires m != 0 && Lookup(t, m).None? && (|Active(t)| < |t| || growOk)
    ensures var c := Close(Open(t, global, mode, m, growOk).table, m, true);
      c.ok && Active(c.table) == Active(t)
  {
    var e := Entry(NewFlag(mode), m);
    OpenAdds(t, mode, m, growOk);
    SlotOfAdded(t, e);
    AddedVacant(t, m);
    assert Close(Added(t, e), m, true) == Closed(true, Added(t, Entry(0, m)));
  }

  /** The slot search stops at the first slot naming m. */
  lemma {:induction false} SlotAt(t: seq<Entry>, m: int, k: nat)
    requires k < |t| && t[k].handle == m && forall j :: 0 <= j < k ==> t[j].handle != m
    ensures Slot(t, m) == Some(k)
    decreases k
  {
    if k > 0 {
      SlotAt(t[1..], m, k - 1);
    }
  }
}
