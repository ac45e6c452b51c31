/**
 * The result side of the MinGW glob(): the gl_pathv vector of a glob_t
 * (glob_initialise, glob_store_entry), the binary tree that collates
 * matches before they are stored (glob_collate_entry and the in-order
 * flush glob_store_collated_entries), and the registry that initialises a
 * glob_t on first use and releases it in globfree().
 *
 * Path names are values; a NULL slot of gl_pathv is None.  Every malloc,
 * realloc and strdup draws on one Allocator: the next `grants` requests
 * succeed and every later one fails.
 */
module GlobVector {
  import opened CInt
  import opened Glob

  /** The status codes of glob(). */
  datatype Status = Success | Aborted | NoMatch | NoSpace

  /** The path names of a run of gl_pathv slots that all hold one. */
  function Values(v: seq<Option<seq<char>>>): (r: seq<seq<char>>)
    requires forall i | 0 <= i < |v| :: v[i].Some?
  {
    seq(|v|, i requires 0 <= i < |v| => v[i].value)
  }

  /** gl_offs NULL slots, n path names, then the terminating NULL. */
  ghost predicate Laid(v: seq<Option<seq<char>>>, offs: nat, n: nat)
  {
    |v| == offs + n + 1
    && (forall i | 0 <= i < offs :: v[i] == None)
    && (forall i | offs <= i < offs + n :: v[i].Some?)
    && v[offs + n] == None
  }

  /** A path name stored over the terminating NULL, with a NULL after it, is the last of the names. */
  lemma StoredLaid(v: seq<Option<seq<char>>>, offs: nat, n: nat, x: seq<char>)
    requires Laid(v, offs, n)
    ensures var w := v[..offs + n] + [Some(x), None];
      Laid(w, offs, n + 1) && Values(w[offs..offs + n + 1]) == Values(v[offs..offs + n]) + [x]
  {
    var w := v[..offs + n] + [Some(x), None];
    assert w[offs..offs + n + 1] == v[offs..offs + n] + [Some(x)];
  }

  class GlobT {
    var offs: nat
    var pathc: nat
    var pathv: seq<Option<seq<char>>>
    /** gl_pathv points at a block that has not been released. */
    var live: bool
    /** gl_magic holds the registry's signature. */
    var signed: bool

    /** gl_offs NULL slots, gl_pathc path names, then the terminating NULL. */
    ghost predicate Layout()
      reads this
    {
      Laid(pathv, offs, pathc)
    }

    /** A live vector is laid out, and a signed glob_t has a live vector. */
    ghost predicate Valid()
      reads this
    {
      (live ==> Layout()) && (signed ==> live)
    }

    /** The path names gl_pathv holds. */
    ghost function Paths(): seq<seq<char>>
      reads this
      requires live && Layout()
    {
      Values(pathv[offs..offs + pathc])
    }

    constructor (offs: nat)
      ensures this.offs == offs && !live && !signed
    {
      this.offs := offs;
      pathc := 0;
      pathv := [];
      live := false;
      signed := false;
    }

    /** glob_initialise: gl_offs + 1 NULL slots and no path names, or NOSPACE. */
    method Initialise(heap: Allocator) returns (s: Status)
      modifies this, heap
      ensures offs == old(offs) && signed == old(signed)
      ensures heap.grants == if old(heap.grants) > 0 then old(heap.grants) - 1 else 0
      ensures s == Success <==> old(heap.grants) > 0
      ensures s != Success ==> s == NoSpace && !live && pathc == old(pathc)
      ensures s == Success ==> live && Layout() && pathc == 0 && Paths() == []
    {
      var ok := heap.Allocate();
      if !ok {
        pathv := [];
        live := false;
        return NoSpace;
      }
      pathv := seq(offs + 1, _ => None);
      pathc := 0;
      live := true;
      s := Success;
    }

    /**
     * glob_store_entry: grow the vector by one slot, put the path name where
     * the terminating NULL was and a NULL after it; a NULL path name or a
     * failed realloc leaves the vector as it was and reports ABORTED.
     */
    method StoreEntry(path: Option<seq<char>>, heap: Allocator) returns (s: Status)
      requires live && Layout()
      modifies this, heap
      ensures live && Layout() && offs == old(offs) && signed == old(signed)
      ensures s == Success <==> path.Some? && old(heap.grants) > 0
      ensures s != Success ==> s == Aborted && pathv == old(pathv) && pathc == old(pathc)
      ensures s == Success ==>
        pathc == old(pathc) + 1 && pathv == old(pathv[..offs + pathc]) + [Some(path.value), None]
      ensures Paths() == old(Paths()) + if s == Success then [path.value] else []
      ensures heap.grants == if path.Some? && old(heap.grants) > 0 then old(heap.grants) - 1
                             else old(heap.grants)
    {
      if path == None {
        return Aborted;
      }
      var ok := heap.Allocate();
      if !ok {
        return Aborted;
      }
      StoredLaid(pathv, offs, pathc, path.value);
      var end := offs + pathc;
      pathv := pathv[..end] + [Some(path.value), None];
      pathc := pathc + 1;
      s := Success;
    }

    /**
     * glob_registry(GLOB_INIT): a glob_t that does not carry the signature is
     * initialised and signed; a signed one is left alone.  The signature is
     * set even when the initial allocation fails.
     */
    method Register(heap: Allocator) returns (s: Status)
      requires Valid()
      modifies this, heap
      ensures signed && offs == old(offs)
      ensures old(signed) ==>
        s == Success && live && pathv == old(pathv) && pathc == old(pathc) && heap.grants == old(heap.grants)
      ensures !old(signed) ==> (s == Success <==> old(heap.grants) > 0)
      ensures !old(signed) ==> heap.grants == if old(heap.grants) > 0 then old(heap.grants) - 1 else 0
      ensures !old(signed) && s == Success ==> live && Layout() && Paths() == []
      ensures s == Success <==> Valid()
      ensures s != Success ==> !live
    {
      if signed {
        return Success;
      }
      s := Initialise(heap);
      signed := true;
    }

    /**
     * glob_registry(GLOB_FREE) with its signature cleared: a signed glob_t
     * has its path names and vector released and is no longer signed, so
     * that a later globfree() does nothing and a later glob() starts afresh.
     */
    method Free()
      requires Valid()
      modifies this
      ensures Valid() && !signed
      ensures pathv == old(pathv) && pathc == old(pathc) && offs == old(offs)
      ensures old(signed) ==> !live
      ensures !old(signed) ==> live == old(live)
    {
      if signed {
        live := false;
        signed := false;
      }
    }

    /**
     * glob_registry(GLOB_FREE) as written: the vector of a signed glob_t is
     * released but gl_magic keeps the signature.  The result reports a
     * release of a vector that was already released.
     */
    method AsWrittenFree() returns (doubleFree: bool)
      modifies this
      ensures doubleFree == (old(signed) && !old(live))
      ensures signed == old(signed) && pathv == old(pathv) && pathc == old(pathc)
      ensures old(signed) ==> !live
      ensures !old(signed) ==> live == old(live)
    {
      doubleFree := signed && !live;
      if signed {
        live := false;
      }
    }

    /**
     * glob_store_collated_entries: store the tree's path names in in-order
     * sequence, one glob_store_entry each.  As the next `grants` requests
     * succeed, exactly the first min(grants, size) path names are kept.
     */
    method StoreCollated(t: Tree, heap: Allocator)
      requires t.Node? && live && Layout()
      modifies this, heap
      decreases t
      ensures live && Layout() && offs == old(offs) && signed == old(signed)
      ensures var n := Min(old(heap.grants), |InOrder(t)|);
        Paths() == old(Paths()) + InOrder(t)[..n] && heap.grants == old(heap.grants) - n
    {
      ghost var p0, g0 := Paths(), heap.grants;
      var l, x, r := t.prev, t.entry, t.next;
      ghost var sl, sr := InOrder(l), InOrder(r);
      assert InOrder(t) == sl + [x] + sr;
      if l.Node? {
        StoreCollated(l, heap);
      }
      ghost var p1, g1 := Paths(), heap.grants;
      var _ := StoreEntry(Some(x), heap);
      ghost var p2, g2 := Paths(), heap.grants;
      if r.Node? {
        StoreCollated(r, heap);
      }
      CollatedStores(p0, sl, x, sr, g0, p1, g1, p2, g2, Paths(), heap.grants);
    }
  }

  /**
   * The stores of prev, entry and next, each keeping what the grants left
   * allow, together keep the first min(g, size) path names.
   */
  lemma CollatedStores(p0: seq<seq<char>>, sl: seq<seq<char>>, x: seq<char>, sr: seq<seq<char>>, g0: nat,
                       p1: seq<seq<char>>, g1: nat, p2: seq<seq<char>>, g2: nat, p3: seq<seq<char>>, g3: int)
    requires p1 == p0 + sl[..Min(g0, |sl|)] && g1 == g0 - Min(g0, |sl|)
    requires p2 == p1 + (if g1 > 0 then [x] else []) && g2 == if g1 > 0 then g1 - 1 else g1
    requires p3 == p2 + sr[..Min(g2, |sr|)] && g3 == g2 - Min(g2, |sr|)
    ensures var n := Min(g0, |sl + [x] + sr|);
      p3 == p0 + (sl + [x] + sr)[..n] && g3 == g0 - n
  {
    var nl, nx := Min(g0, |sl|), if g1 > 0 then 1 else 0;
    CollatedPrefix(p0, sl, x, sr, g0, nl, nx, Min(g2, |sr|));
  }

  function Min(a: nat, b: nat): nat
  {
    if a < b then a else b
  }

  /** The stores of prev, entry and next together keep the first min(g, size) path names. */
  lemma CollatedPrefix(p0: seq<seq<char>>, sl: seq<seq<char>>, x: seq<char>, sr: seq<seq<char>>, g: nat,
                       nl: nat, nx: nat, nr: nat)
    requires nl == Min(g, |sl|) && nx == (if g - nl > 0 then 1 else 0) && nr == Min(g - nl - nx, |sr|)
    ensures nl + nx + nr == Min(g, |sl| + 1 + |sr|)
    ensures p0 + sl[..nl] + (if nx == 1 then [x] else []) + sr[..nr] == p0 + (sl + [x] + sr)[..nl + nx + nr]
  {
    var s := sl + [x] + sr;
    var n := Min(g, |s|);
    if g <= |sl| {
      assert s[..n] == sl[..g];
      assert sr[..0] == [];
    } else {
      assert s[..n] == sl + [x] + sr[..n - |sl| - 1];
    }
  }

  // ---------------------------------------------------------------- collation

  /**
   * The collating key of a path name: its characters, folded to lower case
   * unless GLOB_CASEMATCH asks for strcoll rather than stricoll.
   */
  function Key(s: seq<char>, casematch: bool): seq<int>
  {
    seq(|s|, i requires 0 <= i < |s| => if casematch then s[i] as int else ToLower(s[i]) as int)
  }

  /** Lexicographic order on keys: x collates strictly before y. */
  predicate Less(x: seq<int>, y: seq<int>)
  {
    if x == [] then y != []
    else if y == [] then false
    else x[0] < y[0] || (x[0] == y[0] && Less(x[1..], y[1..]))
  }

  /** seq > 0 in glob_collate_entry: a collates after b. */
  predicate After(a: seq<char>, b: seq<char>, casematch: bool)
  {
    Less(Key(b, casematch), Key(a, casematch))
  }

  lemma {:induction false} LessIrreflexive(x: seq<int>)
    ensures !Less(x, x)
  {
    if x != [] {
      LessIrreflexive(x[1..]);
    }
  }

  lemma {:induction false} LessTransitive(x: seq<int>, y: seq<int>, z: seq<int>)
    requires Less(x, y) && Less(y, z)
    ensures Less(x, z)
  {
    if x != [] && x[0] == y[0] && y[0] == z[0] {
      LessTransitive(x[1..], y[1..], z[1..]);
    }
  }

  lemma {:induction false} LessTotal(x: seq<int>, y: seq<int>)
    ensures x == y || Less(x, y) || Less(y, x)
  {
    if x != [] && y != [] && x[0] == y[0] {
      LessTotal(x[1..], y[1..]);
      if x[1..] == y[1..] {
        assert x == [x[0]] + x[1..] && y == [y[0]] + y[1..];
      }
    }
  }

  /** Collation of path names is a total preorder: transitive and total. */
  lemma CollationIsTotalPreorder(a: seq<char>, b: seq<char>, c: seq<char>, cm: bool)
    ensures !After(a, b, cm) || !After(b, a, cm)
    ensures !After(a, b, cm) && !After(b, c, cm) ==> !After(a, c, cm)
    ensures !After(a, b, cm) || !After(b, a, cm) || Key(a, cm) == Key(b, cm)
  {
    var ka, kb, kc := Key(a, cm), Key(b, cm), Key(c, cm);
    if Less(kb, ka) && Less(ka, kb) {
      LessTransitive(ka, kb, ka);
      LessIrreflexive(ka);
    }
    if !Less(kb, ka) && !Less(kc, kb) && Less(kc, ka) {
      LessTotal(ka, kb);
      LessTotal(kb, kc);
      if ka != kb && kb != kc {
        LessTransitive(ka, kb, kc);
        LessTransitive(ka, kc, ka);
        LessIrreflexive(ka);
      } else if ka != kb {
        LessTransitive(ka, kb, ka);
        LessIrreflexive(ka);
      } else if kb != kc {
        LessTransitive(kb, kc, kb);
        LessIrreflexive(kb);
      } else {
        LessIrreflexive(ka);
      }
    }
  }

  /** Ordered before or equal to: the order the in-order flush produces. */
  predicate Sorted(s: seq<seq<char>>, cm: bool)
  {
    forall i, j | 0 <= i < j < |s| :: !After(s[i], s[j], cm)
  }

  // ---------------------------------------------------------------- the collator tree

  /** struct glob_collator: prev holds the entries that collate before entry. */
  datatype Tree = Nil | Node(prev: Tree, entry: seq<char>, next: Tree)

  function InOrder(t: Tree): seq<seq<char>>
  {
    match t
    case Nil => []
    case Node(l, x, r) => InOrder(l) + [x] + InOrder(r)
  }

  /** Every entry of prev collates at or before entry, every entry of next after it. */
  ghost predicate Ordered(t: Tree, cm: bool)
  {
    match t
    case Nil => true
    case Node(l, x, r) =>
      Ordered(l, cm) && Ordered(r, cm)
      && (forall y | y in InOrder(l) :: !After(y, x, cm))
      && (forall y | y in InOrder(r) :: After(y, x, cm))
  }

  /**
   * glob_collate_entry with a successful malloc: the new leaf goes after the
   * node it is compared with when it collates after it, and before it
   * otherwise, so an entry equal to one already present goes before it.
   */
  function Insert(t: Tree, e: seq<char>, cm: bool): (r: Tree)
    ensures r.Node?
    ensures multiset(InOrder(r)) == multiset(InOrder(t)) + multiset{e}
  {
    match t
    case Nil => Node(Nil, e, Nil)
    case Node(l, x, rt) =>
      if After(e, x, cm) then Node(l, x, Insert(rt, e, cm)) else Node(Insert(l, e, cm), x, rt)
  }

  /** glob_collate_entry: a failed malloc leaves the tree as it was. */
  method CollateEntry(t: Tree, e: seq<char>, cm: bool, heap: Allocator) returns (r: Tree)
    modifies heap
    ensures r == if old(heap.grants) > 0 then Insert(t, e, cm) else t
    ensures heap.grants == if old(heap.grants) > 0 then old(heap.grants) - 1 else 0
  {
    var ok := heap.Allocate();
    r := if ok then Insert(t, e, cm) else t;
  }

  /** Insertion keeps the collating order of the tree. */
  lemma {:induction false} InsertOrdered(t: Tree, e: seq<char>, cm: bool)
    requires Ordered(t, cm)
    ensures Ordered(Insert(t, e, cm), cm)
  {
    match t
    case Nil =>
    case Node(l, x, r) =>
      if After(e, x, cm) {
        InsertOrdered(r, e, cm);
        forall y | y in InOrder(Insert(r, e, cm))
          ensures After(y, x, cm)
        {
          assert y in multiset(InOrder(Insert(r, e, cm)));
          assert y in multiset(InOrder(r)) || y == e;
        }
      } else {
        InsertOrdered(l, e, cm);
        forall y | y in InOrder(Insert(l, e, cm))
          ensures !After(y, x, cm)
        {
          assert y in multiset(InOrder(Insert(l, e, cm)));
          assert y in multiset(InOrder(l)) || y == e;
        }
      }
  }

  /** The in-order sequence of an ordered tree is sorted. */
  lemma {:induction false} OrderedSorted(t: Tree, cm: bool)
    requires Ordered(t, cm)
    ensures Sorted(InOrder(t), cm)
  {
    match t
    case Nil =>
    case Node(l, x, r) =>
      OrderedSorted(l, cm);
      OrderedSorted(r, cm);
      var sl, sr := InOrder(l), InOrder(r);
      var s := sl + [x] + sr;
      forall i, j | 0 <= i < j < |s|
        ensures !After(s[i], s[j], cm)
      {
        if j < |sl| {
          assert s[i] == sl[i] && s[j] == sl[j];
        } else if i > |sl| {
          assert s[i] == sr[i - |sl| - 1] && s[j] == sr[j - |sl| - 1];
        } else if i == |sl| {
          assert s[i] == x && s[j] in sr;
          CollationIsTotalPreorder(x, s[j], x, cm);
        } else {
          assert s[i] in sl;
          if j == |sl| {
            assert s[j] == x;
          } else {
            assert s[j] in sr;
            CollationIsTotalPreorder(s[i], x, s[j], cm);
            CollationIsTotalPreorder(x, s[j], x, cm);
          }
        }
      }
  }

  /** The collator t with the entries of names inserted one after another. */
  function Build(t: Tree, names: seq<seq<char>>, cm: bool): Tree
    decreases |names|
  {
    if names == [] then t else Build(Insert(t, names[0], cm), names[1..], cm)
  }

  /** Inserting a list of entries into an ordered collator keeps it ordered. */
  lemma {:induction false} BuildOrdered(t: Tree, names: seq<seq<char>>, cm: bool)
    requires Ordered(t, cm)
    ensures Ordered(Build(t, names, cm), cm)
    decreases |names|
  {
    if names != [] {
      InsertOrdered(t, names[0], cm);
      BuildOrdered(Insert(t, names[0], cm), names[1..], cm);
    }
  }

  /** Inserting a list of entries into a collator adds exactly those entries. */
  lemma {:induction false} BuildPermutes(t: Tree, names: seq<seq<char>>, cm: bool)
    ensures multiset(InOrder(Build(t, names, cm))) == multiset(InOrder(t)) + multiset(names)
    decreases |names|
  {
    if names != [] {
      var n, rest := names[0], names[1..];
      var t1 := Insert(t, n, cm);
      assert Build(t, names, cm) == Build(t1, rest, cm);
      BuildPermutes(t1, rest, cm);
      MultisetCons(names);
      var before, inserted := multiset(InOrder(t)), multiset(InOrder(t1));
      assert inserted == before + multiset{n};
      assert multiset(names) == multiset{n} + multiset(rest);
    }
  }

  lemma MultisetCons<T>(s: seq<T>)
    requires s != []
    ensures multiset(s) == multiset{s[0]} + multiset(s[1..])
  {
    assert s == [s[0]] + s[1..];
  }

  /**
   * The in-order flush of the collator built from a list of matches yields
   * every match exactly once, in collating order.
   */
  lemma CollatedIsSortedPermutation(names: seq<seq<char>>, cm: bool)
    ensures Sorted(InOrder(Build(Nil, names, cm)), cm)
    ensures multiset(InOrder(Build(Nil, names, cm))) == multiset(names)
  {
    BuildOrdered(Nil, names, cm);
    BuildPermutes(Nil, names, cm);
    OrderedSorted(Build(Nil, names, cm), cm);
  }

  /** A later entry that collates equal to an earlier one is stored before it. */
  lemma EqualEntriesReversed(a: seq<char>, b: seq<char>, cm: bool)
    requires Key(a, cm) == Key(b, cm)
    ensures InOrder(Insert(Insert(Nil, a, cm), b, cm)) == [b, a]
  {
    LessIrreflexive(Key(a, cm));
    InsertNotAfter(a, b, cm);
  }

  /** An entry that does not collate after the root goes before it. */
  lemma InsertNotAfter(a: seq<char>, b: seq<char>, cm: bool)
    requires !After(b, a, cm)
    ensures InOrder(Insert(Insert(Nil, a, cm), b, cm)) == [b, a]
  {
    InsertLeaf(a, cm);
    InsertLeft(Nil, a, Nil, b, cm);
    InsertLeaf(b, cm);
    InOrderPair(a, b);
  }

  lemma InsertLeaf(e: seq<char>, cm: bool)
    ensures Insert(Nil, e, cm) == Node(Nil, e, Nil)
  {
  }

  lemma InsertLeft(l: Tree, x: seq<char>, r: Tree, e: seq<char>, cm: bool)
    requires !After(e, x, cm)
    ensures Insert(Node(l, x, r), e, cm) == Node(Insert(l, e, cm), x, r)
  {
  }

  lemma InOrderPair(a: seq<char>, b: seq<char>)
    ensures InOrder(Node(Node(Nil, b, Nil), a, Nil)) == [b, a]
  {
    assert InOrder(Node(Nil, b, Nil)) == [b];
  }
}
