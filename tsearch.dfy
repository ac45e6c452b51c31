// tsearch/tfind/tdelete/twalk: Knuth's unbalanced binary search tree
// (Algorithms T and D, TAOCP section 6.2.2).  Keys are integers and the
// comparator is their three-way comparison; a missing comparator or root
// pointer is an explicit flag.  Trees are values: each operation returns
// the new tree.

module TSearch {

  datatype Option<T> = None | Some(value: T)

  datatype Tree = Nil | Node(left: Tree, key: int, right: Tree)

  function Keys(t: Tree): set<int>
  {
    match t
    case Nil => {}
    case Node(l, k, r) => Keys(l) + {k} + Keys(r)
  }

  function Size(t: Tree): nat
  {
    match t
    case Nil => 0
    case Node(l, _, r) => Size(l) + 1 + Size(r)
  }

  /** Left keys are smaller and right keys larger, at every node. */
  predicate IsBST(t: Tree)
  {
    match t
    case Nil => true
    case Node(l, k, r) =>
      IsBST(l) && IsBST(r)
      && (forall x :: x in Keys(l) ==> x < k)
      && (forall x :: x in Keys(r) ==> k < x)
  }

  /** The comparator: negative, zero or positive. */
  function Compare(a: int, b: int): (c: int)
    ensures c == 0 <==> a == b
    ensures c < 0 <==> a < b
  {
    if a < b then -1 else if a == b then 0 else 1
  }

  // ---------------------------------------------------------------- tfind

  /** Steps T1-T4: descend left on a negative comparison, right otherwise. */
  function Find(t: Tree, key: int): (r: Option<Tree>)
    ensures r.Some? ==> r.value.Node? && r.value.key == key && r.value in Subtrees(t)
    ensures r.None? ==> key !in Keys(t) || !IsBST(t)
  {
    match t
    case Nil => None
    case Node(l, k, rt) =>
      var c := Compare(key, k);
      if c == 0 then Some(t)
      else if c < 0 then Find(l, key)
      else Find(rt, key)
  }

  function Subtrees(t: Tree): set<Tree>
  {
    match t
    case Nil => {Nil}
    case Node(l, _, r) => {t} + Subtrees(l) + Subtrees(r)
  }

  /** tfind: a null root pointer or comparator gives null. */
  function TFind(key: int, rootp: Option<Tree>, hasCompar: bool): (r: Option<Tree>)
    ensures (rootp.None? || !hasCompar) ==> r.None?
    ensures r.Some? ==> r.value.Node? && r.value.key == key
  {
    if rootp.None? || !hasCompar then None else Find(rootp.value, key)
  }

  lemma {:induction false} FindIff(t: Tree, key: int)
    requires IsBST(t)
    ensures Find(t, key).Some? <==> key in Keys(t)
  {
    match t
    case Nil =>
    case Node(l, k, r) =>
      if key < k {
        FindIff(l, key);
      } else if key > k {
        FindIff(r, key);
      }
  }

  // -------------------------------------------------------------- tsearch

  datatype SearchResult = SearchResult(tree: Tree, node: Option<Tree>)

  /**
   * Find or insert (steps T1-T5).  When the key is absent and the
   * allocation succeeds, a new leaf with null links is linked where the
   * descent stopped; a failed allocation returns null and changes nothing.
   */
  function Insert(t: Tree, key: int, allocOk: bool): (r: SearchResult)
    ensures r.node.Some? ==> r.node.value.Node? && r.node.value.key == key
  {
    match t
    case Nil =>
      if allocOk then SearchResult(Node(Nil, key, Nil), Some(Node(Nil, key, Nil)))
      else SearchResult(Nil, None)
    case Node(l, k, rt) =>
      var c := Compare(key, k);
      if c == 0 then SearchResult(t, Some(t))
      else if c < 0 then
        var s := Insert(l, key, allocOk);
        SearchResult(Node(s.tree, k, rt), s.node)
      else
        var s := Insert(rt, key, allocOk);
        SearchResult(Node(l, k, s.tree), s.node)
  }

  /** tsearch: a null root pointer or comparator returns null. */
  function TSearch(key: int, rootp: Option<Tree>, hasCompar: bool, allocOk: bool): (r: Option<SearchResult>)
    ensures (rootp.None? || !hasCompar) <==> r.None?
  {
    if rootp.None? || !hasCompar then None else Some(Insert(rootp.value, key, allocOk))
  }

  lemma {:induction false} InsertExisting(t: Tree, key: int, allocOk: bool)
    requires IsBST(t) && key in Keys(t)
    ensures Insert(t, key, allocOk).tree == t
    ensures Insert(t, key, allocOk).node == Find(t, key)
  {
    match t
    case Node(l, k, r) =>
      if key < k {
        InsertExisting(l, key, allocOk);
      } else if key > k {
        InsertExisting(r, key, allocOk);
      }
  }

  lemma {:induction false} InsertNew(t: Tree, key: int)
    requires key !in Keys(t)
    ensures Keys(Insert(t, key, true).tree) == Keys(t) + {key}
    ensures Size(Insert(t, key, true).tree) == Size(t) + 1
    ensures Insert(t, key, true).node == Some(Node(Nil, key, Nil))
  {
    match t
    case Nil =>
    case Node(l, k, r) =>
      if key < k {
        InsertNew(l, key);
      } else {
        InsertNew(r, key);
      }
  }

  lemma {:induction false} InsertFails(t: Tree, key: int)
    requires key !in Keys(t)
    ensures Insert(t, key, false) == SearchResult(t, None)
  {
    match t
    case Nil =>
    case Node(l, k, r) =>
      if key < k {
        InsertFails(l, key);
      } else {
        InsertFails(r, key);
      }
  }

  lemma {:induction false} InsertKeys(t: Tree, key: int, allocOk: bool)
    ensures Keys(Insert(t, key, allocOk).tree) <= Keys(t) + {key}
    ensures Keys(t) <= Keys(Insert(t, key, allocOk).tree)
  {
    match t
    case Nil =>
    case Node(l, k, r) =>
      if key < k {
        InsertKeys(l, key, allocOk);
      } else if key > k {
        InsertKeys(r, key, allocOk);
      }
  }

  lemma {:induction false} InsertBST(t: Tree, key: int, allocOk: bool)
    requires IsBST(t)
    ensures IsBST(Insert(t, key, allocOk).tree)
  {
    match t
    case Nil =>
    case Node(l, k, r) =>
      InsertKeys(l, key, allocOk);
      InsertKeys(r, key, allocOk);
      if key < k {
        InsertBST(l, key, allocOk);
      } else if key > k {
        InsertBST(r, key, allocOk);
      }
  }

  /** The new leaf sits where a later search for its key arrives. */
  lemma {:induction false} InsertedLeafIsFound(t: Tree, key: int)
    requires IsBST(t) && key !in Keys(t)
    ensures Find(Insert(t, key, true).tree, key) == Some(Node(Nil, key, Nil))
  {
    match t
    case Nil =>
    case Node(l, k, r) =>
      if key < k {
        InsertedLeafIsFound(l, key);
      } else {
        InsertedLeafIsFound(r, key);
      }
  }

  // -------------------------------------------------------------- tdelete

  function MinKey(t: Tree): (m: int)
    requires t.Node?
    ensures m in Keys(t)
  {
    if t.left == Nil then t.key else MinKey(t.left)
  }

  /** Step D3's inner work: the leftmost node's parent takes its right link. */
  function DetachMin(t: Tree): (r: Tree)
    requires t.Node?
  {
    if t.left == Nil then t.right else Node(DetachMin(t.left), t.key, t.right)
  }

  /** Steps D1-D3: the tree that replaces the deleted node in its parent link. */
  function Unlink(t: Tree): (r: Tree)
    requires t.Node?
  {
    var q := t.left;
    var r := t.right;
    if q == Nil then r
    else if r == Nil then q
    else if r.left == Nil then Node(q, r.key, r.right)
    else Node(q, MinKey(r.left), Node(DetachMin(r.left), r.key, r.right))
  }

  datatype DeleteResult = DeleteResult(tree: Tree, parent: Option<int>)

  /**
   * Descend to the key; `p` is the key of the node the current link was
   * taken from (the root itself when the root matches).  A missing key
   * returns null and the tree unchanged.
   */
  function DeleteFrom(t: Tree, key: int, p: int): (r: DeleteResult)
  {
    match t
    case Nil => DeleteResult(t, None)
    case Node(l, k, rt) =>
      var c := Compare(key, k);
      if c == 0 then DeleteResult(Unlink(t), Some(p))
      else if c < 0 then
        var d := DeleteFrom(l, key, k);
        DeleteResult(Node(d.tree, k, rt), d.parent)
      else
        var d := DeleteFrom(rt, key, k);
        DeleteResult(Node(l, k, d.tree), d.parent)
  }

  /** tdelete: null for a null root pointer, an empty tree or a null comparator. */
  function TDelete(key: int, rootp: Option<Tree>, hasCompar: bool): (r: Option<DeleteResult>)
    ensures (rootp.None? || !hasCompar || rootp.value.Nil?) <==> r.None?
  {
    if rootp.None? || rootp.value.Nil? || !hasCompar then None
    else Some(DeleteFrom(rootp.value, key, rootp.value.key))
  }

  lemma {:induction false} DetachMinKeys(t: Tree)
    requires t.Node? && IsBST(t)
    ensures Keys(DetachMin(t)) == Keys(t) - {MinKey(t)}
    ensures IsBST(DetachMin(t))
    ensures forall x :: x in Keys(DetachMin(t)) ==> MinKey(t) < x
  {
    if t.left != Nil {
      DetachMinKeys(t.left);
    }
  }

  lemma UnlinkKeys(t: Tree)
    requires t.Node? && IsBST(t)
    ensures Keys(Unlink(t)) == Keys(t) - {t.key}
    ensures IsBST(Unlink(t))
  {
    var q, r := t.left, t.right;
    assert t.key !in Keys(q) && t.key !in Keys(r);
    if q != Nil && r != Nil && r.left != Nil {
      SuccessorKeys(q, t.key, r);
    }
  }

  /** Step D3: the successor takes the deleted node's place. */
  lemma SuccessorKeys(q: Tree, k: int, r: Tree)
    requires IsBST(Node(q, k, r)) && r.Node? && r.left.Node?
    ensures var m := MinKey(r.left);
      var n := Node(q, m, Node(DetachMin(r.left), r.key, r.right));
      Keys(n) == Keys(q) + Keys(r) && IsBST(n)
  {
    var m := MinKey(r.left);
    DetachMinKeys(r.left);
    var rest := Node(DetachMin(r.left), r.key, r.right);
    assert m in Keys(r);
    assert IsBST(rest);
    assert Keys(rest) == Keys(r) - {m};
  }

  /** True when some node keyed pk has a child whose key is `key`. */
  predicate IsParent(t: Tree, pk: int, key: int)
  {
    match t
    case Nil => false
    case Node(l, k, r) =>
      (k == pk && ((l.Node? && l.key == key) || (r.Node? && r.key == key)))
      || IsParent(l, pk, key) || IsParent(r, pk, key)
  }

  lemma {:induction false} DeleteFromMissing(t: Tree, key: int, p: int)
    requires IsBST(t) && key !in Keys(t)
    ensures DeleteFrom(t, key, p) == DeleteResult(t, None)
  {
    match t
    case Nil =>
    case Node(l, k, r) =>
      if key < k {
        DeleteFromMissing(l, key, k);
      } else {
        DeleteFromMissing(r, key, k);
      }
  }

  lemma {:induction false} DeleteFromPresent(t: Tree, key: int, p: int)
    requires IsBST(t) && key in Keys(t)
    ensures Keys(DeleteFrom(t, key, p).tree) == Keys(t) - {key}
    ensures IsBST(DeleteFrom(t, key, p).tree)
    ensures DeleteFrom(t, key, p).parent.Some?
    ensures t.key == key ==> DeleteFrom(t, key, p).parent == Some(p)
    ensures t.key != key ==> IsParent(t, DeleteFrom(t, key, p).parent.value, key)
  {
    match t
    case Node(l, k, r) =>
      if key == k {
        UnlinkKeys(t);
      } else if key < k {
        DeleteFromPresent(l, key, k);
      } else {
        DeleteFromPresent(r, key, k);
      }
  }

  /**
   * tdelete removes exactly the node holding the key, keeps the order, and
   * returns the deleted node's parent, or the old root when the root held
   * the key; a missing key returns null and leaves the tree as it was.
   */
  lemma TDeleteSpec(key: int, t: Tree)
    requires IsBST(t) && t.Node?
    ensures var r := TDelete(key, Some(t), true).value;
      if key in Keys(t) then
        Keys(r.tree) == Keys(t) - {key} && IsBST(r.tree)
        && (t.key == key ==> r.parent == Some(key))
        && (t.key != key ==> r.parent.Some? && IsParent(t, r.parent.value, key))
      else r == DeleteResult(t, None)
  {
    if key in Keys(t) {
      DeleteFromPresent(t, key, t.key);
    } else {
      DeleteFromMissing(t, key, t.key);
    }
  }

  // ---------------------------------------------------------------- twalk

  datatype Visit = Preorder | Postorder | Endorder | Leaf

  datatype Step = Step(key: int, visit: Visit, level: int)

  /** trecurse: one action call per phase; the level is the recursion depth. */
  function Walk(t: Tree, level: int): (s: seq<Step>)
    requires t.Node?
    decreases t, 0
  {
    if t.left == Nil && t.right == Nil then [Step(t.key, Leaf, level)]
    else Frame(t.key, level, Sub(t.left, level + 1), Sub(t.right, level + 1))
  }

  /** A child link: a null link makes no call. */
  function Sub(t: Tree, level: int): seq<Step>
    decreases t, 1
  {
    if t == Nil then [] else Walk(t, level)
  }

  /** The visits of an internal node around the walks of its subtrees. */
  function Frame(k: int, level: int, lw: seq<Step>, rw: seq<Step>): seq<Step>
  {
    [Step(k, Preorder, level)] + lw + [Step(k, Postorder, level)] + rw + [Step(k, Endorder, level)]
  }

  /** twalk: a null root or action makes no call. */
  function TWalk(root: Tree, hasAction: bool): (s: seq<Step>)
    ensures root.Nil? || !hasAction ==> s == []
  {
    if root.Node? && hasAction then Walk(root, 0) else []
  }

  function InOrder(t: Tree): seq<int>
  {
    match t
    case Nil => []
    case Node(l, k, r) => InOrder(l) + [k] + InOrder(r)
  }

  /** The keys of the postorder and leaf visits, in call order. */
  function Middle(s: seq<Step>): seq<int>
  {
    if s == [] then []
    else (if s[0].visit == Postorder || s[0].visit == Leaf then [s[0].key] else []) + Middle(s[1..])
  }

  /** The visits made to the node keyed k, in call order. */
  function VisitsOf(s: seq<Step>, k: int): seq<Visit>
  {
    if s == [] then []
    else (if s[0].key == k then [s[0].visit] else []) + VisitsOf(s[1..], k)
  }

  lemma {:induction false} MiddleAppend(a: seq<Step>, b: seq<Step>)
    ensures Middle(a + b) == Middle(a) + Middle(b)
  {
    if a == [] {
      assert a + b == b;
    } else {
      var h := if a[0].visit == Postorder || a[0].visit == Leaf then [a[0].key] else [];
      assert (a + b)[0] == a[0];
      assert (a + b)[1..] == a[1..] + b;
      assert Middle(a + b) == h + Middle(a[1..] + b);
      MiddleAppend(a[1..], b);
      assert Middle(a) == h + Middle(a[1..]);
    }
  }

  lemma {:induction false} VisitsAppend(a: seq<Step>, b: seq<Step>, k: int)
    ensures VisitsOf(a + b, k) == VisitsOf(a, k) + VisitsOf(b, k)
  {
    if a == [] {
      assert a + b == b;
    } else {
      var h := if a[0].key == k then [a[0].visit] else [];
      assert (a + b)[0] == a[0];
      assert (a + b)[1..] == a[1..] + b;
      assert VisitsOf(a + b, k) == h + VisitsOf(a[1..] + b, k);
      VisitsAppend(a[1..], b, k);
      assert VisitsOf(a, k) == h + VisitsOf(a[1..], k);
    }
  }

  lemma FrameMiddle(k: int, level: int, lw: seq<Step>, rw: seq<Step>)
    ensures Middle(Frame(k, level, lw, rw)) == Middle(lw) + [k] + Middle(rw)
  {
    var pre, post, end := [Step(k, Preorder, level)], [Step(k, Postorder, level)], [Step(k, Endorder, level)];
    MiddleAppend(pre + lw + post + rw, end);
    MiddleAppend(pre + lw + post, rw);
    MiddleAppend(pre + lw, post);
    MiddleAppend(pre, lw);
    assert Middle(pre) == [] + Middle([]);
    assert Middle(post) == [k] + Middle([]);
    assert Middle(end) == [] + Middle([]);
  }

  lemma FrameVisits(k: int, level: int, lw: seq<Step>, rw: seq<Step>, x: int)
    ensures VisitsOf(Frame(k, level, lw, rw), x)
      == (if k == x then [Preorder] else []) + VisitsOf(lw, x)
         + (if k == x then [Postorder] else []) + VisitsOf(rw, x)
         + (if k == x then [Endorder] else [])
  {
    var pre, post, end := [Step(k, Preorder, level)], [Step(k, Postorder, level)], [Step(k, Endorder, level)];
    VisitsAppend(pre + lw + post + rw, end, x);
    VisitsAppend(pre + lw + post, rw, x);
    VisitsAppend(pre + lw, post, x);
    VisitsAppend(pre, lw, x);
    assert VisitsOf(pre, x) == (if k == x then [Preorder] else []) + VisitsOf([], x);
    assert VisitsOf(post, x) == (if k == x then [Postorder] else []) + VisitsOf([], x);
    assert VisitsOf(end, x) == (if k == x then [Endorder] else []) + VisitsOf([], x);
  }

  /** Position i of a frame is one of the node's own visits or lies in a subtree walk. */
  lemma FrameIndex(k: int, level: int, lw: seq<Step>, rw: seq<Step>, i: int)
    requires 0 <= i < |Frame(k, level, lw, rw)|
    ensures var f := Frame(k, level, lw, rw);
      (f[i].key == k && f[i].level == level)
      || (1 <= i < 1 + |lw| && f[i] == lw[i - 1])
      || (2 + |lw| <= i < 2 + |lw| + |rw| && f[i] == rw[i - 2 - |lw|])
  {
  }

  /** The postorder and leaf visits list the keys in in-order sequence. */
  lemma {:induction false} WalkInOrder(t: Tree, level: int)
    requires t.Node?
    ensures Middle(Walk(t, level)) == InOrder(t)
    decreases t, 0
  {
    if t.left == Nil && t.right == Nil {
      assert Middle([Step(t.key, Leaf, level)]) == [t.key] + Middle([]);
    } else {
      FrameMiddle(t.key, level, Sub(t.left, level + 1), Sub(t.right, level + 1));
      SubInOrder(t.left, level + 1);
      SubInOrder(t.right, level + 1);
    }
  }

  lemma {:induction false} SubInOrder(t: Tree, level: int)
    ensures Middle(Sub(t, level)) == InOrder(t)
    decreases t, 1
  {
    if t != Nil {
      WalkInOrder(t, level);
    }
  }

  lemma {:induction false} WalkKeys(t: Tree, level: int, i: int)
    requires t.Node? && 0 <= i < |Walk(t, level)|
    ensures Walk(t, level)[i].key in Keys(t)
    ensures Walk(t, level)[i].level >= level
  {
    if !(t.left == Nil && t.right == Nil) {
      var lw, rw := Sub(t.left, level + 1), Sub(t.right, level + 1);
      FrameIndex(t.key, level, lw, rw, i);
      if 1 <= i < 1 + |lw| && Walk(t, level)[i] == lw[i - 1] {
        WalkKeys(t.left, level + 1, i - 1);
      } else if 2 + |lw| <= i < 2 + |lw| + |rw| && Walk(t, level)[i] == rw[i - 2 - |lw|] {
        WalkKeys(t.right, level + 1, i - 2 - |lw|);
      }
    }
  }

  lemma {:induction false} VisitsAbsent(t: Tree, level: int, k: int)
    requires k !in Keys(t)
    ensures VisitsOf(Sub(t, level), k) == []
  {
    var w := Sub(t, level);
    if VisitsOf(w, k) != [] {
      var i := VisitIndex(w, k);
      WalkKeys(t, level, i);
    }
  }

  lemma {:induction false} VisitIndex(s: seq<Step>, k: int) returns (i: int)
    requires VisitsOf(s, k) != []
    ensures 0 <= i < |s| && s[i].key == k
  {
    if s[0].key == k {
      i := 0;
    } else {
      var j := VisitIndex(s[1..], k);
      i := j + 1;
    }
  }

  /** Depth of the node keyed k below t's root, following the search path. */
  function Depth(t: Tree, k: int): nat
  {
    match t
    case Nil => 0
    case Node(l, key, r) => if k == key then 0 else if k < key then 1 + Depth(l, k) else 1 + Depth(r, k)
  }

  /**
   * Every node gets one leaf visit if it has no children, and otherwise a
   * preorder, a postorder and an endorder visit, in that order.
   */
  lemma {:induction false} WalkVisits(t: Tree, level: int, k: int)
    requires t.Node? && IsBST(t) && k in Keys(t)
    ensures var n := Find(t, k).value;
      VisitsOf(Walk(t, level), k)
        == if n.left == Nil && n.right == Nil then [Leaf] else [Preorder, Postorder, Endorder]
  {
    if t.left == Nil && t.right == Nil {
      assert VisitsOf([Step(t.key, Leaf, level)], k) == [Leaf] + VisitsOf([], k);
    } else if k == t.key {
      VisitsAtRoot(t, level);
    } else if k < t.key {
      WalkVisits(t.left, level + 1, k);
      VisitsBelow(t, level, k, t.left, t.right);
    } else {
      WalkVisits(t.right, level + 1, k);
      VisitsBelow(t, level, k, t.right, t.left);
    }
  }

  lemma VisitsAtRoot(t: Tree, level: int)
    requires t.Node? && IsBST(t) && !(t.left == Nil && t.right == Nil)
    ensures VisitsOf(Walk(t, level), t.key) == [Preorder, Postorder, Endorder]
  {
    var lw, rw := Sub(t.left, level + 1), Sub(t.right, level + 1);
    FrameVisits(t.key, level, lw, rw, t.key);
    VisitsAbsent(t.left, level + 1, t.key);
    VisitsAbsent(t.right, level + 1, t.key);
  }

  /** When k lies in subtree `sub`, only that subtree's walk visits it. */
  lemma VisitsBelow(t: Tree, level: int, k: int, sub: Tree, other: Tree)
    requires t.Node? && IsBST(t) && !(t.left == Nil && t.right == Nil) && k != t.key
    requires (sub == t.left && other == t.right && k < t.key) || (sub == t.right && other == t.left && k > t.key)
    requires sub.Node? && k in Keys(sub)
    ensures VisitsOf(Walk(t, level), k) == VisitsOf(Walk(sub, level + 1), k)
    ensures Find(t, k) == Find(sub, k)
  {
    var lw, rw := Sub(t.left, level + 1), Sub(t.right, level + 1);
    FrameVisits(t.key, level, lw, rw, k);
    assert k !in Keys(other);
    VisitsAbsent(other, level + 1, k);
  }

  /** The level passed with each visit is the node's depth plus the start level. */
  lemma {:induction false} WalkLevels(t: Tree, level: int, i: int)
    requires t.Node? && IsBST(t) && 0 <= i < |Walk(t, level)|
    ensures Walk(t, level)[i].level == level + Depth(t, Walk(t, level)[i].key)
  {
    if !(t.left == Nil && t.right == Nil) {
      var lw, rw := Sub(t.left, level + 1), Sub(t.right, level + 1);
      var w := Walk(t, level);
      FrameIndex(t.key, level, lw, rw, i);
      if 1 <= i < 1 + |lw| && w[i] == lw[i - 1] {
        WalkKeys(t.left, level + 1, i - 1);
        WalkLevels(t.left, level + 1, i - 1);
      } else if 2 + |lw| <= i < 2 + |lw| + |rw| && w[i] == rw[i - 2 - |lw|] {
        WalkKeys(t.right, level + 1, i - 2 - |lw|);
        WalkLevels(t.right, level + 1, i - 2 - |lw|);
      }
    }
  }

  predicate Increasing(s: seq<int>)
  {
    forall i, j :: 0 <= i < j < |s| ==> s[i] < s[j]
  }

  lemma {:induction false} InOrderKeys(t: Tree)
    ensures forall x :: x in InOrder(t) <==> x in Keys(t)
  {
    if t.Node? {
      InOrderKeys(t.left);
      InOrderKeys(t.right);
    }
  }

  /** The in-order key list of a search tree is strictly increasing. */
  lemma {:induction false} InOrderIncreasing(t: Tree)
    requires IsBST(t)
    ensures Increasing(InOrder(t))
  {
    if t.Node? {
      InOrderIncreasing(t.left);
      InOrderIncreasing(t.right);
      InOrderKeys(t.left);
      InOrderKeys(t.right);
      var a, b := InOrder(t.left), InOrder(t.right);
      var s := a + [t.key] + b;
      forall i, j | 0 <= i < j < |s|
        ensures s[i] < s[j]
      {
        if j < |a| {
        } else if i < |a| {
          assert s[i] in a;
          if j > |a| {
            assert s[j] == b[j - |a| - 1];
            assert s[j] in b;
          }
        } else if i == |a| {
          assert s[j] == b[j - |a| - 1];
          assert s[j] in b;
        } else {
          assert s[i] == b[i - |a| - 1] && s[j] == b[j - |a| - 1];
        }
      }
    }
  }
}
