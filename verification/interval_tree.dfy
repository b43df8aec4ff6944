/** An interval tree of free windows: an unbalanced binary search tree keyed
    by each window's low end (equal lows go right), where every node also
    records `max`, the largest high end in its subtree, to prune searches.
    The tree is an immutable value; each operation returns the new tree.
 */
module IntervalTree {
  import opened Intervals

  datatype Tree =
    | Nil
    | Node(low: int, high: int, max: int, left: Tree, right: Tree)
  {
    /** The window stored at this node. */
    function Iv(): Interval
      requires Node?
    {
      Interval(low, high)
    }
  }

  /** The multiset of windows stored in a tree. */
  function Elems(t: Tree): multiset<Interval> {
    match t
    case Nil => multiset{}
    case Node(a, b, _, l, r) => Elems(l) + multiset{Interval(a, b)} + Elems(r)
  }

  function Max(x: int, y: int): int {
    if x < y then y else x
  }

  /** The `max` a node with high end `high` and children `l`, `r` must
      carry: its own high end or a child's `max`, whichever is largest. */
  function NodeMax(high: int, l: Tree, r: Tree): int {
    if l.Nil? && r.Nil? then high
    else if l.Nil? then Max(high, r.max)
    else if r.Nil? then Max(high, l.max)
    else Max(high, Max(l.max, r.max))
  }

  /** Every node's `max` is consistent with its own window and children. */
  ghost predicate MaxOk(t: Tree) {
    t.Node? ==> MaxOk(t.left) && MaxOk(t.right) && t.max == NodeMax(t.high, t.left, t.right)
  }

  /** Search-tree order by low end: left lows are strictly smaller, right
      lows are greater or equal (ties go right). */
  ghost predicate Bst(t: Tree) {
    t.Node? ==>
      && Bst(t.left) && Bst(t.right)
      && (forall x :: x in Elems(t.left) ==> x.low < t.low)
      && (forall x :: x in Elems(t.right) ==> t.low <= x.low)
  }

  /** The windows are pairwise disjoint and each is stored once. */
  ghost predicate Separated(m: multiset<Interval>) {
    && (forall x :: x in m ==> m[x] == 1)
    && (forall x, y :: x in m && y in m && x != y ==> Disjoint(x, y))
  }

  ghost predicate AllProper(m: multiset<Interval>) {
    forall x :: x in m ==> Proper(x)
  }

  /** The shape the driver's tree keeps between operations. */
  ghost predicate Valid(t: Tree) {
    Bst(t) && MaxOk(t) && AllProper(Elems(t)) && Separated(Elems(t))
  }

  /** Some stored window fully contains [lo, hi]. */
  ghost predicate CoveredBy(m: multiset<Interval>, lo: int, hi: int) {
    exists x :: x in m && Covers(x, lo, hi)
  }

  /** Minute t is free in some stored window. */
  ghost predicate FreeAt(m: multiset<Interval>, t: int) {
    exists x :: x in m && HasMinute(x, t)
  }

  // ---------------------------------------------------------------------
  // Node construction

  /** A fresh node: it stores exactly [lo, hi], has no children, and its
      `max` is its own high end, which is trivially the largest in its
      one-node subtree. */
  function NewNode(lo: int, hi: int): (r: Tree)
    ensures r.Node? && r.left.Nil? && r.right.Nil?
    ensures Elems(r) == multiset{Interval(lo, hi)}
    ensures r.max == hi
    ensures MaxOk(r) && Bst(r)
  {
    Node(lo, hi, hi, Nil, Nil)
  }

  /** Under MaxOk, every high end in a subtree is at most its `max`. */
  lemma {:induction false} HighsBelowMax(t: Tree)
    requires MaxOk(t) && t.Node?
    ensures forall x :: x in Elems(t) ==> x.high <= t.max
  {
    assert t.high <= t.max;
    if t.left.Node? {
      HighsBelowMax(t.left);
      assert t.left.max <= t.max;
    }
    if t.right.Node? {
      HighsBelowMax(t.right);
      assert t.right.max <= t.max;
    }
  }

  /** Under MaxOk, `max` is the high end of some window in the subtree, so
      together with HighsBelowMax it is exactly the largest high end. */
  lemma {:induction false} MaxIsReached(t: Tree)
    requires MaxOk(t) && t.Node?
    ensures exists x :: x in Elems(t) && x.high == t.max
  {
    if t.max == t.high {
      assert Interval(t.low, t.high) in Elems(t);
    } else if t.left.Node? && t.max == t.left.max {
      MaxIsReached(t.left);
      var x :| x in Elems(t.left) && x.high == t.left.max;
      assert x in Elems(t);
    } else {
      MaxIsReached(t.right);
      var x :| x in Elems(t.right) && x.high == t.right.max;
      assert x in Elems(t);
    }
  }

  // ---------------------------------------------------------------------
  // Insertion

  /** Standard BST insertion keyed by low end, ties going right; `max` is
      raised along the path. */
  function Insert(t: Tree, lo: int, hi: int): (r: Tree)
    ensures r.Node?
    ensures t.Node? ==> r.low == t.low && r.high == t.high
  {
    match t
    case Nil => NewNode(lo, hi)
    case Node(a, b, m, l, rt) =>
      if lo < a then Node(a, b, Max(m, hi), Insert(l, lo, hi), rt)
      else Node(a, b, Max(m, hi), l, Insert(rt, lo, hi))
  }

  /** Insertion adds exactly one copy of [lo, hi] and changes nothing
      else. */
  lemma {:induction false} InsertAddsOne(t: Tree, lo: int, hi: int)
    ensures Elems(Insert(t, lo, hi)) == Elems(t) + multiset{Interval(lo, hi)}
  {
    match t
    case Nil =>
    case Node(a, b, m, l, rt) =>
      if lo < a {
        InsertAddsOne(l, lo, hi);
        var l2 := Insert(l, lo, hi);
        assert Insert(t, lo, hi) == Node(a, b, Max(m, hi), l2, rt);
        MultisetShift(Elems(l), Elems(l2), Elems(rt), Interval(a, b), Interval(lo, hi));
      } else {
        InsertAddsOne(rt, lo, hi);
      }
  }

  lemma MultisetShift(l: multiset<Interval>, l2: multiset<Interval>, r: multiset<Interval>,
                      y: Interval, x: Interval)
    requires l2 == l + multiset{x}
    ensures l2 + multiset{y} + r == l + multiset{y} + r + multiset{x}
  {
  }

  /** Insertion keeps the search order by low end, ties going right. */
  lemma {:induction false} InsertKeepsBst(t: Tree, lo: int, hi: int)
    requires Bst(t)
    ensures Bst(Insert(t, lo, hi))
  {
    match t
    case Nil =>
    case Node(a, b, m, l, rt) =>
      if lo < a {
        InsertKeepsBst(l, lo, hi);
        InsertAddsOne(l, lo, hi);
        InsertBstLeft(a, b, m, l, rt, lo, hi);
      } else {
        InsertKeepsBst(rt, lo, hi);
        InsertAddsOne(rt, lo, hi);
        InsertBstRight(a, b, m, l, rt, lo, hi);
      }
  }

  lemma InsertBstLeft(a: int, b: int, m: int, l: Tree, rt: Tree, lo: int, hi: int)
    requires lo < a && Bst(Node(a, b, m, l, rt)) && Bst(Insert(l, lo, hi))
    requires Elems(Insert(l, lo, hi)) == Elems(l) + multiset{Interval(lo, hi)}
    ensures Bst(Insert(Node(a, b, m, l, rt), lo, hi))
  {
    var l' := Insert(l, lo, hi);
    assert forall x :: x in Elems(l') ==> x.low < a;
    NodeBst(a, b, Max(m, hi), l', rt);
  }

  lemma InsertBstRight(a: int, b: int, m: int, l: Tree, rt: Tree, lo: int, hi: int)
    requires a <= lo && Bst(Node(a, b, m, l, rt)) && Bst(Insert(rt, lo, hi))
    requires Elems(Insert(rt, lo, hi)) == Elems(rt) + multiset{Interval(lo, hi)}
    ensures Bst(Insert(Node(a, b, m, l, rt), lo, hi))
  {
    var r' := Insert(rt, lo, hi);
    assert forall x :: x in Elems(r') ==> a <= x.low;
    NodeBst(a, b, Max(m, hi), l, r');
  }

  /** A node over ordered subtrees, with smaller lows left and the rest
      right, is ordered. */
  lemma NodeBst(a: int, b: int, m: int, l: Tree, r: Tree)
    requires Bst(l) && Bst(r)
    requires forall x :: x in Elems(l) ==> x.low < a
    requires forall x :: x in Elems(r) ==> a <= x.low
    ensures Bst(Node(a, b, m, l, r))
  {
  }


  /** Raising `max` along the insertion path keeps every node's `max`
      equal to the largest high end below it. */
  lemma {:induction false} InsertKeepsMaxOk(t: Tree, lo: int, hi: int)
    requires MaxOk(t)
    ensures MaxOk(Insert(t, lo, hi))
    ensures Insert(t, lo, hi).max == (if t.Nil? then hi else Max(t.max, hi))
  {
    match t
    case Nil =>
    case Node(a, b, m, l, rt) =>
      if lo < a {
        InsertKeepsMaxOk(l, lo, hi);
      } else {
        InsertKeepsMaxOk(rt, lo, hi);
      }
  }

  // ---------------------------------------------------------------------
  // Overlap search

  /** All stored windows overlapping [lo, hi], in the order the recursive
      search meets them: node, then left subtree (skipped when its `max`
      is below lo), then right subtree. */
  function SearchOverlap(t: Tree, lo: int, hi: int): (r: seq<Interval>)
    ensures forall i :: 0 <= i < |r| ==> Overlaps(r[i], lo, hi)
  {
    match t
    case Nil => []
    case Node(a, b, _, l, rt) =>
      var own := if Overlaps(Interval(a, b), lo, hi) then [Interval(a, b)] else [];
      var fromLeft := if l.Node? && l.max >= lo then SearchOverlap(l, lo, hi) else [];
      own + fromLeft + SearchOverlap(rt, lo, hi)
  }

  /** Under MaxOk the search reports each window exactly as often as it
      is stored when it overlaps [lo, hi], and never otherwise, even though
      it skips left subtrees whose `max` is below lo. */
  lemma {:induction false} SearchOverlapCount(t: Tree, lo: int, hi: int, x: Interval)
    requires MaxOk(t)
    ensures multiset(SearchOverlap(t, lo, hi))[x] == (if Overlaps(x, lo, hi) then Elems(t)[x] else 0)
  {
    match t
    case Nil =>
    case Node(a, b, _, l, rt) =>
      SearchOverlapCount(rt, lo, hi, x);
      if l.Node? && l.max >= lo {
        SearchOverlapCount(l, lo, hi, x);
      } else {
        PrunedSubtreeMissesWindow(l, lo, hi);
      }
      SearchCountStep(t, lo, hi, x);
  }

  /** One node of the count argument, given the counts for its subtrees. */
  lemma SearchCountStep(t: Tree, lo: int, hi: int, x: Interval)
    requires t.Node?
    requires multiset(SearchOverlap(t.right, lo, hi))[x]
          == (if Overlaps(x, lo, hi) then Elems(t.right)[x] else 0)
    requires t.left.Node? && t.left.max >= lo ==>
      multiset(SearchOverlap(t.left, lo, hi))[x]
        == (if Overlaps(x, lo, hi) then Elems(t.left)[x] else 0)
    requires !(t.left.Node? && t.left.max >= lo) ==>
      forall z :: z in Elems(t.left) ==> !Overlaps(z, lo, hi)
    ensures multiset(SearchOverlap(t, lo, hi))[x] == (if Overlaps(x, lo, hi) then Elems(t)[x] else 0)
  {
    if !(t.left.Node? && t.left.max >= lo) {
      assert Overlaps(x, lo, hi) ==> x !in Elems(t.left);
    }
  }

  lemma SearchOverlapComplete(t: Tree, lo: int, hi: int)
    requires MaxOk(t)
    ensures forall x ::
      multiset(SearchOverlap(t, lo, hi))[x] == (if Overlaps(x, lo, hi) then Elems(t)[x] else 0)
  {
    forall x {
      SearchOverlapCount(t, lo, hi, x);
    }
  }

  /** A left subtree skipped because its `max` is below lo holds no window
      overlapping [lo, hi], so skipping it loses nothing. */
  lemma PrunedSubtreeMissesWindow(l: Tree, lo: int, hi: int)
    ensures MaxOk(l) && l.Node? && l.max < lo ==>
      forall x :: x in Elems(l) ==> !Overlaps(x, lo, hi)
  {
    if MaxOk(l) && l.Node? {
      HighsBelowMax(l);
    }
  }

  // ---------------------------------------------------------------------
  // Containment query

  /** Is [lo, hi] fully inside one stored window?  A node's own window is
      tried first, then the left subtree when its `max` reaches lo, then
      the right subtree. */
  function IsAvailable(t: Tree, lo: int, hi: int): (r: bool)
    ensures r ==> CoveredBy(Elems(t), lo, hi)
  {
    match t
    case Nil => false
    case Node(a, b, _, l, rt) =>
      if lo >= a && hi <= b then
        assert Interval(a, b) in Elems(t);
        true
      else if l.Node? && l.max >= lo && IsAvailable(l, lo, hi) then true
      else IsAvailable(rt, lo, hi)
  }

  /** With correct `max` fields and lo <= hi the pruning loses nothing:
      the query succeeds exactly when one stored window contains
      [lo, hi]; in particular an empty tree never answers yes. */
  lemma {:induction false} IsAvailableExactly(t: Tree, lo: int, hi: int)
    requires MaxOk(t) && lo <= hi
    ensures IsAvailable(t, lo, hi) <==> CoveredBy(Elems(t), lo, hi)
  {
    match t
    case Nil =>
    case Node(a, b, _, l, rt) =>
      if CoveredBy(Elems(t), lo, hi) && !(lo >= a && hi <= b) {
        var x :| x in Elems(t) && Covers(x, lo, hi);
        if x in Elems(l) {
          HighsBelowMax(l);
          IsAvailableExactly(l, lo, hi);
        } else {
          assert x in Elems(rt);
          IsAvailableExactly(rt, lo, hi);
        }
      }
  }

  // ---------------------------------------------------------------------
  // Deletion

  /** The leftmost window of a non-empty subtree. */
  function FindMin(t: Tree): (m: Interval)
    requires t.Node?
    ensures m in Elems(t)
    ensures Bst(t) ==> forall x :: x in Elems(t) ==> m.low <= x.low
  {
    if t.left.Nil? then Interval(t.low, t.high) else FindMin(t.left)
  }

  /** A node over the given children whose `max` is recomputed from them. */
  function Rebuild(low: int, high: int, l: Tree, r: Tree): (t: Tree)
    ensures MaxOk(l) && MaxOk(r) ==> MaxOk(t)
    ensures Elems(t) == Elems(l) + multiset{Interval(low, high)} + Elems(r)
  {
    Node(low, high, NodeMax(high, l, r), l, r)
  }

  /** Deletion by exact key [lo, hi].  The search follows the low end; a
      node with the same low end but a different high end stops it.  A
      found node with two children takes over the leftmost window of its
      right subtree, which is then deleted there.  `max` is recomputed on
      the way back up. */
  function Delete(t: Tree, lo: int, hi: int): Tree {
    match t
    case Nil => Nil
    case Node(a, b, _, l, rt) =>
      if lo < a then Rebuild(a, b, Delete(l, lo, hi), rt)
      else if lo > a then Rebuild(a, b, l, Delete(rt, lo, hi))
      else if b == hi then
        if l.Nil? then rt
        else if rt.Nil? then l
        else
          var m := FindMin(rt);
          Rebuild(m.low, m.high, l, Delete(rt, m.low, m.high))
      else Rebuild(a, b, l, rt)
  }

  /** Windows that share a low end defeat the exact-key search: with
      [480, 600] inserted before [480, 720], deleting [480, 720] stops at
      the root and leaves it stored. */
  lemma SameLowNotDeleted()
    ensures var t := Insert(Insert(Nil, 480, 600), 480, 720);
      Interval(480, 720) in Elems(t) && Elems(Delete(t, 480, 720)) == Elems(t)
  {
    var leaf := Node(480, 720, 720, Nil, Nil);
    var t := Insert(Insert(Nil, 480, 600), 480, 720);
    assert t == Node(480, 600, 720, Nil, leaf);
    assert Delete(t, 480, 720) == Rebuild(480, 600, Nil, leaf);
  }

  /** Deletion keeps every `max` field correct. */
  lemma {:induction false} DeleteKeepsMaxOk(t: Tree, lo: int, hi: int)
    requires MaxOk(t)
    ensures MaxOk(Delete(t, lo, hi))
  {
    match t
    case Nil =>
    case Node(a, b, _, l, rt) =>
      if lo < a {
        DeleteKeepsMaxOk(l, lo, hi);
      } else if lo > a {
        DeleteKeepsMaxOk(rt, lo, hi);
      } else if b == hi && l.Node? && rt.Node? {
        var m := FindMin(rt);
        DeleteKeepsMaxOk(rt, m.low, m.high);
      }
  }

  /** Deleting a window that is not stored changes nothing that is stored. */
  lemma {:induction false} DeleteAbsent(t: Tree, lo: int, hi: int)
    requires Interval(lo, hi) !in Elems(t)
    ensures Elems(Delete(t, lo, hi)) == Elems(t)
  {
    match t
    case Nil =>
    case Node(a, b, _, l, rt) =>
      if lo < a {
        DeleteAbsent(l, lo, hi);
      } else if lo > a {
        DeleteAbsent(rt, lo, hi);
      }
  }

  /** In a search tree, deleting the leftmost window of a subtree removes
      exactly that one window. */
  lemma {:induction false} DeleteMinRemovesIt(t: Tree)
    requires Bst(t) && t.Node?
    ensures Elems(Delete(t, FindMin(t).low, FindMin(t).high)) == Elems(t) - multiset{FindMin(t)}
  {
    var m := FindMin(t);
    if t.left.Node? {
      assert m == FindMin(t.left);
      assert m.low < t.low;
      DeleteMinRemovesIt(t.left);
    }
  }

  /** The deletion search for [lo, hi] ends at a node holding exactly
      [lo, hi]. */
  ghost predicate FoundBy(t: Tree, lo: int, hi: int) {
    match t
    case Nil => false
    case Node(a, b, _, l, rt) =>
      if lo < a then FoundBy(l, lo, hi)
      else if lo > a then FoundBy(rt, lo, hi)
      else b == hi
  }

  lemma {:induction false} FoundIsStored(t: Tree, lo: int, hi: int)
    requires FoundBy(t, lo, hi)
    ensures Interval(lo, hi) in Elems(t)
  {
    match t
    case Node(a, b, _, l, rt) =>
      if lo < a {
        FoundIsStored(l, lo, hi);
      } else if lo > a {
        FoundIsStored(rt, lo, hi);
      }
  }

  /** Removing a copy from one part of a sum removes it from the sum. */
  lemma RemoveFromPart(p: multiset<Interval>, q: multiset<Interval>, x: Interval)
    requires x in p
    ensures (p - multiset{x}) + q == (p + q) - multiset{x}
    ensures q + (p - multiset{x}) == (q + p) - multiset{x}
  {
  }

  /** The stored windows after deletion, given whether the search finds
      [lo, hi]. */
  ghost function AfterDelete(t: Tree, lo: int, hi: int): multiset<Interval> {
    if FoundBy(t, lo, hi) then Elems(t) - multiset{Interval(lo, hi)} else Elems(t)
  }

  /** In a search tree, deletion removes one copy of [lo, hi] when its
      search finds it, and otherwise leaves the stored windows as they
      are. */
  lemma {:induction false} DeleteEffect(t: Tree, lo: int, hi: int)
    requires Bst(t)
    ensures Elems(Delete(t, lo, hi)) == AfterDelete(t, lo, hi)
  {
    match t
    case Nil =>
    case Node(a, b, _, l, rt) =>
      if lo < a {
        DeleteEffect(l, lo, hi);
        DeleteEffectLeft(t, lo, hi);
      } else if lo > a {
        DeleteEffect(rt, lo, hi);
        DeleteEffectRight(t, lo, hi);
      } else if b == hi && l.Node? && rt.Node? {
        DeleteMinRemovesIt(rt);
        DeleteEffectTwoChildren(t, lo, hi);
      } else {
        DeleteEffectOther(t, lo, hi);
      }
  }

  lemma DeleteEffectLeft(t: Tree, lo: int, hi: int)
    requires t.Node? && lo < t.low
    requires Elems(Delete(t.left, lo, hi)) == AfterDelete(t.left, lo, hi)
    ensures Elems(Delete(t, lo, hi)) == AfterDelete(t, lo, hi)
  {
    var iv := Interval(lo, hi);
    assert Delete(t, lo, hi) == Rebuild(t.low, t.high, Delete(t.left, lo, hi), t.right);
    if FoundBy(t.left, lo, hi) {
      FoundIsStored(t.left, lo, hi);
      RemoveFromPart(Elems(t.left), multiset{t.Iv()} + Elems(t.right), iv);
    }
  }

  lemma DeleteEffectRight(t: Tree, lo: int, hi: int)
    requires t.Node? && lo > t.low
    requires Elems(Delete(t.right, lo, hi)) == AfterDelete(t.right, lo, hi)
    ensures Elems(Delete(t, lo, hi)) == AfterDelete(t, lo, hi)
  {
    var iv := Interval(lo, hi);
    assert Delete(t, lo, hi) == Rebuild(t.low, t.high, t.left, Delete(t.right, lo, hi));
    if FoundBy(t.right, lo, hi) {
      FoundIsStored(t.right, lo, hi);
      RemoveFromPart(Elems(t.right), Elems(t.left) + multiset{t.Iv()}, iv);
    }
  }

  lemma DeleteEffectTwoChildren(t: Tree, lo: int, hi: int)
    requires t.Node? && lo == t.low && hi == t.high && t.left.Node? && t.right.Node?
    requires Elems(Delete(t.right, FindMin(t.right).low, FindMin(t.right).high))
          == Elems(t.right) - multiset{FindMin(t.right)}
    ensures Elems(Delete(t, lo, hi)) == AfterDelete(t, lo, hi)
  {
    var m := FindMin(t.right);
    assert Delete(t, lo, hi) == Rebuild(m.low, m.high, t.left, Delete(t.right, m.low, m.high));
    RemoveFromPart(Elems(t.right), Elems(t.left) + multiset{m}, m);
  }

  lemma DeleteEffectOther(t: Tree, lo: int, hi: int)
    requires t.Node? && lo == t.low
    requires hi != t.high || t.left.Nil? || t.right.Nil?
    ensures Elems(Delete(t, lo, hi)) == AfterDelete(t, lo, hi)
  {
    if hi != t.high {
      DeleteOtherHigh(t, lo, hi);
    } else if t.left.Nil? {
      DeleteNoLeft(t, lo, hi);
    } else {
      DeleteNoRight(t, lo, hi);
    }
  }

  lemma DeleteOtherHigh(t: Tree, lo: int, hi: int)
    requires t.Node? && lo == t.low && hi != t.high
    ensures Elems(Delete(t, lo, hi)) == AfterDelete(t, lo, hi)
  {
    assert Delete(t, lo, hi) == Rebuild(t.low, t.high, t.left, t.right);
  }

  lemma DeleteNoLeft(t: Tree, lo: int, hi: int)
    requires t.Node? && lo == t.low && hi == t.high && t.left.Nil?
    ensures Elems(Delete(t, lo, hi)) == AfterDelete(t, lo, hi)
  {
    assert Delete(t, lo, hi) == t.right;
    assert Elems(t) == multiset{Interval(lo, hi)} + Elems(t.right);
  }

  lemma DeleteNoRight(t: Tree, lo: int, hi: int)
    requires t.Node? && lo == t.low && hi == t.high && t.left.Node? && t.right.Nil?
    ensures Elems(Delete(t, lo, hi)) == AfterDelete(t, lo, hi)
  {
    assert Delete(t, lo, hi) == t.left;
    assert Elems(t) == Elems(t.left) + multiset{Interval(lo, hi)};
  }


  /** Deletion never adds a window. */
  lemma DeleteShrinks(t: Tree, lo: int, hi: int)
    requires Bst(t)
    ensures forall x :: x in Elems(Delete(t, lo, hi)) ==> x in Elems(t)
  {
    DeleteEffect(t, lo, hi);
  }

  /** A node over two search trees whose lows straddle its own low is a
      search tree. */
  lemma RebuildBst(a: int, b: int, l: Tree, r: Tree)
    requires Bst(l) && Bst(r)
    requires forall x :: x in Elems(l) ==> x.low < a
    requires forall x :: x in Elems(r) ==> a <= x.low
    ensures Bst(Rebuild(a, b, l, r))
  {
  }

  /** Deletion keeps the search order. */
  lemma {:induction false} DeleteKeepsBst(t: Tree, lo: int, hi: int)
    requires Bst(t)
    ensures Bst(Delete(t, lo, hi))
  {
    match t
    case Nil =>
    case Node(a, b, _, l, rt) =>
      if lo < a {
        assert Delete(t, lo, hi) == Rebuild(a, b, Delete(l, lo, hi), rt);
        DeleteKeepsBst(l, lo, hi);
        DeleteShrinks(l, lo, hi);
        RebuildBst(a, b, Delete(l, lo, hi), rt);
      } else if lo > a {
        assert Delete(t, lo, hi) == Rebuild(a, b, l, Delete(rt, lo, hi));
        DeleteKeepsBst(rt, lo, hi);
        DeleteShrinks(rt, lo, hi);
        RebuildBst(a, b, l, Delete(rt, lo, hi));
      } else if b == hi && l.Node? && rt.Node? {
        var m := FindMin(rt);
        assert Delete(t, lo, hi) == Rebuild(m.low, m.high, l, Delete(rt, m.low, m.high));
        DeleteKeepsBst(rt, m.low, m.high);
        DeleteShrinks(rt, m.low, m.high);
        RebuildBst(m.low, m.high, l, Delete(rt, m.low, m.high));
      } else if b != hi {
        assert Delete(t, lo, hi) == Rebuild(a, b, l, rt);
      }
  }

  /** No two stored windows share a low end. */
  ghost predicate DistinctLows(m: multiset<Interval>) {
    forall x, y :: x in m && y in m && x.low == y.low ==> x == y
  }

  /** Disjoint well-formed windows have distinct low ends. */
  lemma SeparatedHasDistinctLows(m: multiset<Interval>)
    requires AllProper(m) && Separated(m)
    ensures DistinctLows(m)
  {
  }

  lemma DistinctLowsSub(m: multiset<Interval>, n: multiset<Interval>)
    requires m <= n && DistinctLows(n)
    ensures DistinctLows(m)
  {
  }

  lemma SeparatedSub(m: multiset<Interval>, n: multiset<Interval>)
    requires m <= n && Separated(n) && AllProper(n)
    ensures Separated(m) && AllProper(m)
  {
  }

  /** Adding one well-formed window disjoint from all others keeps a
      collection separated. */
  lemma SeparatedAdd(m: multiset<Interval>, x: Interval)
    requires Separated(m) && AllProper(m) && Proper(x)
    requires forall y :: y in m ==> Disjoint(y, x)
    ensures Separated(m + multiset{x}) && AllProper(m + multiset{x})
  {
    assert x !in m;
  }

  /** When stored low ends are distinct, the deletion search finds every
      stored window. */
  lemma {:induction false} FoundWhenDistinct(t: Tree, lo: int, hi: int)
    requires Bst(t) && DistinctLows(Elems(t)) && Interval(lo, hi) in Elems(t)
    ensures FoundBy(t, lo, hi)
  {
    match t
    case Node(a, b, _, l, rt) =>
      if lo < a {
        DistinctSearchGoesLeft(t, lo, hi);
        FoundWhenDistinct(l, lo, hi);
      } else if lo > a {
        DistinctSearchGoesRight(t, lo, hi);
        FoundWhenDistinct(rt, lo, hi);
      } else {
        assert Interval(a, b) in Elems(t);
      }
  }

  lemma DistinctSearchGoesLeft(t: Tree, lo: int, hi: int)
    requires t.Node? && lo < t.low
    requires Bst(t) && DistinctLows(Elems(t)) && Interval(lo, hi) in Elems(t)
    ensures Bst(t.left) && DistinctLows(Elems(t.left)) && Interval(lo, hi) in Elems(t.left)
  {
    assert Interval(lo, hi) !in Elems(t.right);
    DistinctLowsSub(Elems(t.left), Elems(t));
  }

  lemma DistinctSearchGoesRight(t: Tree, lo: int, hi: int)
    requires t.Node? && lo > t.low
    requires Bst(t) && DistinctLows(Elems(t)) && Interval(lo, hi) in Elems(t)
    ensures Bst(t.right) && DistinctLows(Elems(t.right)) && Interval(lo, hi) in Elems(t.right)
  {
    assert Interval(lo, hi) !in Elems(t.left);
    DistinctLowsSub(Elems(t.right), Elems(t));
  }

  /** With distinct low ends, deleting a stored window removes exactly one
      copy of it; deleting an absent one changes nothing. */
  lemma DeleteExactly(t: Tree, lo: int, hi: int)
    requires Bst(t) && DistinctLows(Elems(t))
    ensures Elems(Delete(t, lo, hi)) == Elems(t) - multiset{Interval(lo, hi)}
  {
    DeleteEffect(t, lo, hi);
    if Interval(lo, hi) in Elems(t) {
      FoundWhenDistinct(t, lo, hi);
    } else {
      assert Elems(t) - multiset{Interval(lo, hi)} == Elems(t);
    }
  }

  /** Deletion keeps a valid tree valid and removes exactly the window. */
  lemma DeleteKeepsValid(t: Tree, lo: int, hi: int)
    requires Valid(t)
    ensures Valid(Delete(t, lo, hi))
    ensures Elems(Delete(t, lo, hi)) == Elems(t) - multiset{Interval(lo, hi)}
  {
    SeparatedHasDistinctLows(Elems(t));
    DeleteExactly(t, lo, hi);
    DeleteKeepsBst(t, lo, hi);
    DeleteKeepsMaxOk(t, lo, hi);
    SeparatedSub(Elems(Delete(t, lo, hi)), Elems(t));
  }

  /** Inserting a well-formed window disjoint from every stored one keeps a
      valid tree valid. */
  lemma InsertKeepsValid(t: Tree, lo: int, hi: int)
    requires Valid(t) && lo < hi
    requires forall x :: x in Elems(t) ==> Disjoint(x, Interval(lo, hi))
    ensures Valid(Insert(t, lo, hi))
    ensures Elems(Insert(t, lo, hi)) == Elems(t) + multiset{Interval(lo, hi)}
  {
    InsertAddsOne(t, lo, hi);
    InsertKeepsBst(t, lo, hi);
    InsertKeepsMaxOk(t, lo, hi);
    SeparatedAdd(Elems(t), Interval(lo, hi));
  }

  // ---------------------------------------------------------------------
  // Reservation: subtracting a window from the free windows

  /** One step of the reservation loop for an overlapping window y: delete
      it, then put back the part before lo and the part after hi. */
  function CarveOne(t: Tree, y: Interval, lo: int, hi: int): Tree {
    PutBack(Delete(t, y.low, y.high), y, lo, hi)
  }

  /** Reinsert the part of y before lo, then the part after hi. */
  function PutBack(t: Tree, y: Interval, lo: int, hi: int): Tree {
    PutPiece(PutPiece(t, y.low, lo, y.low < lo), hi, y.high, hi < y.high)
  }

  /** Insert [lo, hi] when c holds. */
  function PutPiece(t: Tree, lo: int, hi: int, c: bool): Tree {
    if c then Insert(t, lo, hi) else t
  }

  /** The reservation loop over the overlapping windows, in search order. */
  function Carve(t: Tree, ovs: seq<Interval>, lo: int, hi: int): Tree
    decreases |ovs|
  {
    if ovs == [] then t
    else Carve(CarveOne(t, ovs[0], lo, hi), ovs[1..], lo, hi)
  }

  /** Reserve [lo, hi]: every stored window overlapping it is replaced by
      what is left of it outside the window. */
  function Modify(t: Tree, lo: int, hi: int): Tree {
    Carve(t, SearchOverlap(t, lo, hi), lo, hi)
  }

  /** The remainders of a sequence of windows, in order. */
  function Remainders(ovs: seq<Interval>, lo: int, hi: int): seq<Interval> {
    if ovs == [] then [] else Remainder(ovs[0], lo, hi) + Remainders(ovs[1..], lo, hi)
  }

  /** A window inside y is disjoint from anything y is disjoint from. */
  lemma WithinKeepsDisjoint(p: Interval, y: Interval, z: Interval)
    requires Within(p, y) && Disjoint(z, y)
    ensures Disjoint(z, p)
  {
  }

  /** The pieces left of a stored overlapping window y are disjoint from
      every other stored window and from each other, so none of them is
      stored already. */
  lemma PiecesFit(e: multiset<Interval>, y: Interval, lo: int, hi: int)
    requires Separated(e) && AllProper(e) && y in e && Overlaps(y, lo, hi) && lo <= hi
    ensures forall z :: z in e - multiset{y} ==>
      (y.low < lo ==> Disjoint(z, Interval(y.low, lo))) &&
      (hi < y.high ==> Disjoint(z, Interval(hi, y.high)))
    ensures y.low < lo && hi < y.high ==> Disjoint(Interval(y.low, lo), Interval(hi, y.high))
    ensures forall p :: p in Remainder(y, lo, hi) ==> p !in e - multiset{y}
  {
    forall z | z in e - multiset{y}
      ensures (y.low < lo ==> Disjoint(z, Interval(y.low, lo)))
      ensures (hi < y.high ==> Disjoint(z, Interval(hi, y.high)))
    {
      assert z != y && z in e;
      if y.low < lo {
        WithinKeepsDisjoint(Interval(y.low, lo), y, z);
      }
      if hi < y.high {
        WithinKeepsDisjoint(Interval(hi, y.high), y, z);
      }
    }
  }

  /** Conditionally inserting a well-formed window disjoint from all
      stored ones keeps a valid tree valid. */
  lemma AddPiece(t: Tree, lo: int, hi: int, c: bool)
    requires Valid(t)
    requires c ==> lo < hi && forall z :: z in Elems(t) ==> Disjoint(z, Interval(lo, hi))
    ensures Valid(PutPiece(t, lo, hi, c))
    ensures Elems(PutPiece(t, lo, hi, c))
         == Elems(t) + multiset(if c then [Interval(lo, hi)] else [])
  {
    if c {
      InsertKeepsValid(t, lo, hi);
    }
  }

  /** Putting back the remainder of y, when it is disjoint from everything
      stored, keeps a valid tree valid. */
  lemma PutBackEffect(t: Tree, y: Interval, lo: int, hi: int)
    requires Valid(t) && lo <= hi && Overlaps(y, lo, hi)
    requires forall z :: z in Elems(t) ==>
      (y.low < lo ==> Disjoint(z, Interval(y.low, lo))) &&
      (hi < y.high ==> Disjoint(z, Interval(hi, y.high)))
    ensures Valid(PutBack(t, y, lo, hi))
    ensures Elems(PutBack(t, y, lo, hi)) == Elems(t) + multiset(Remainder(y, lo, hi))
  {
    var t2 := PutPiece(t, y.low, lo, y.low < lo);
    AddPiece(t, y.low, lo, y.low < lo);
    SecondPieceFits(Elems(t), Elems(t2), y, lo, hi);
    SecondPiece(t, t2, y, lo, hi);
  }

  /** The part after hi goes in second; the result is the whole put-back. */
  lemma SecondPiece(t: Tree, t2: Tree, y: Interval, lo: int, hi: int)
    requires t2 == PutPiece(t, y.low, lo, y.low < lo) && Valid(t2)
    requires hi < y.high ==> forall z :: z in Elems(t2) ==> Disjoint(z, Interval(hi, y.high))
    requires Elems(t2) + multiset(if hi < y.high then [Interval(hi, y.high)] else [])
         == Elems(t) + multiset(Remainder(y, lo, hi))
    ensures Valid(PutBack(t, y, lo, hi))
    ensures Elems(PutBack(t, y, lo, hi)) == Elems(t) + multiset(Remainder(y, lo, hi))
  {
    AddPiece(t2, hi, y.high, hi < y.high);
  }

  /** The part after hi is disjoint from everything once the part before lo
      is back, and the two parts make up the remainder. */
  lemma SecondPieceFits(e: multiset<Interval>, e2: multiset<Interval>, y: Interval,
                        lo: int, hi: int)
    requires lo <= hi && Overlaps(y, lo, hi)
    requires forall z :: z in e ==>
      (y.low < lo ==> Disjoint(z, Interval(y.low, lo))) &&
      (hi < y.high ==> Disjoint(z, Interval(hi, y.high)))
    requires e2 == e + multiset(if y.low < lo then [Interval(y.low, lo)] else [])
    ensures hi < y.high ==> forall z :: z in e2 ==> Disjoint(z, Interval(hi, y.high))
    ensures e2 + multiset(if hi < y.high then [Interval(hi, y.high)] else [])
         == e + multiset(Remainder(y, lo, hi))
  {
  }


  /** One reservation step on a valid tree removes y, adds its remainder,
      and keeps the tree valid. */
  lemma CarveOneEffect(t: Tree, y: Interval, lo: int, hi: int)
    requires Valid(t) && lo <= hi && y in Elems(t) && Overlaps(y, lo, hi)
    ensures Valid(CarveOne(t, y, lo, hi))
    ensures Elems(CarveOne(t, y, lo, hi))
         == (Elems(t) - multiset{y}) + multiset(Remainder(y, lo, hi))
  {
    DeleteKeepsValid(t, y.low, y.high);
    PiecesFit(Elems(t), y, lo, hi);
    PutBackEffect(Delete(t, y.low, y.high), y, lo, hi);
  }

  /** Pointwise multiset identity behind one loop step. */
  lemma StepBookkeeping(e: multiset<Interval>, y: Interval, p: multiset<Interval>,
                        r: multiset<Interval>, q: multiset<Interval>)
    requires forall x :: x in r ==> x !in p
    ensures ((e - multiset{y}) + p) - r + q == (e - (multiset{y} + r)) + (p + q)
  {
    forall x
      ensures (((e - multiset{y}) + p) - r + q)[x] == ((e - (multiset{y} + r)) + (p + q))[x]
    {
      if x in r {
        assert p[x] == 0;
      }
    }
  }

  /** Multiset bookkeeping for one loop step: removing the first window and
      adding its pieces, then the rest, is removing all and adding all pieces. */
  lemma CarveBookkeeping(e: multiset<Interval>, ovs: seq<Interval>, lo: int, hi: int,
                         e1: multiset<Interval>, e2: multiset<Interval>)
    requires ovs != []
    requires forall i :: 1 <= i < |ovs| ==> ovs[i] in e - multiset{ovs[0]}
    requires forall p :: p in Remainder(ovs[0], lo, hi) ==> p !in e - multiset{ovs[0]}
    requires e1 == (e - multiset{ovs[0]}) + multiset(Remainder(ovs[0], lo, hi))
    requires e2 == (e1 - multiset(ovs[1..])) + multiset(Remainders(ovs[1..], lo, hi))
    ensures e2 == (e - multiset(ovs)) + multiset(Remainders(ovs, lo, hi))
  {
    var y := ovs[0];
    var rest := ovs[1..];
    var p := multiset(Remainder(y, lo, hi));
    var r := multiset(rest);
    var q := multiset(Remainders(rest, lo, hi));
    UnconsFacts(ovs, lo, hi);
    RestNotInPieces(e, ovs, lo, hi);
    StepBookkeeping(e, y, p, r, q);
  }

  lemma UnconsFacts(ovs: seq<Interval>, lo: int, hi: int)
    requires ovs != []
    ensures multiset(ovs) == multiset{ovs[0]} + multiset(ovs[1..])
    ensures multiset(Remainders(ovs, lo, hi))
         == multiset(Remainder(ovs[0], lo, hi)) + multiset(Remainders(ovs[1..], lo, hi))
  {
    assert ovs == [ovs[0]] + ovs[1..];
  }

  lemma RestNotInPieces(e: multiset<Interval>, ovs: seq<Interval>, lo: int, hi: int)
    requires ovs != []
    requires forall i :: 1 <= i < |ovs| ==> ovs[i] in e - multiset{ovs[0]}
    requires forall p :: p in Remainder(ovs[0], lo, hi) ==> p !in e - multiset{ovs[0]}
    ensures forall x :: x in multiset(ovs[1..]) ==> x !in multiset(Remainder(ovs[0], lo, hi))
  {
    forall x | x in multiset(ovs[1..])
      ensures x !in multiset(Remainder(ovs[0], lo, hi))
    {
      var i :| 0 <= i < |ovs[1..]| && ovs[1..][i] == x;
      assert ovs[i + 1] == x;
    }
  }

  /** Distinct stored windows that all overlap [lo, hi]: what the
      reservation loop is run over. */
  ghost predicate Targets(e: multiset<Interval>, ovs: seq<Interval>, lo: int, hi: int) {
    (forall i :: 0 <= i < |ovs| ==> ovs[i] in e && Overlaps(ovs[i], lo, hi)) &&
    (forall i, j :: 0 <= i < j < |ovs| ==> ovs[i] != ovs[j])
  }

  /** After the first target is replaced by pieces, the others are still
      targets. */
  lemma TargetsTail(e: multiset<Interval>, p: multiset<Interval>, ovs: seq<Interval>,
                    lo: int, hi: int)
    requires ovs != [] && Targets(e, ovs, lo, hi)
    ensures Targets((e - multiset{ovs[0]}) + p, ovs[1..], lo, hi)
    ensures forall i :: 1 <= i < |ovs| ==> ovs[i] in e - multiset{ovs[0]}
  {
    forall i | 1 <= i < |ovs|
      ensures ovs[i] in e - multiset{ovs[0]}
    {
      assert ovs[i] != ovs[0];
    }
    var rest := ovs[1..];
    forall i | 0 <= i < |rest|
      ensures rest[i] in (e - multiset{ovs[0]}) + p
    {
      assert rest[i] == ovs[i + 1];
    }
  }

  /** The reservation loop, run over distinct stored windows that overlap
      [lo, hi], removes each of them and adds their remainders, and keeps
      the tree valid. */
  lemma {:induction false} CarveEffect(t: Tree, ovs: seq<Interval>, lo: int, hi: int)
    requires Valid(t) && lo <= hi && Targets(Elems(t), ovs, lo, hi)
    ensures Valid(Carve(t, ovs, lo, hi))
    ensures Elems(Carve(t, ovs, lo, hi))
         == (Elems(t) - multiset(ovs)) + multiset(Remainders(ovs, lo, hi))
    decreases |ovs|
  {
    if ovs != [] {
      var y := ovs[0];
      var rest := ovs[1..];
      var t' := CarveOne(t, y, lo, hi);
      var p := multiset(Remainder(y, lo, hi));
      CarveOneEffect(t, y, lo, hi);
      PiecesFit(Elems(t), y, lo, hi);
      TargetsTail(Elems(t), p, ovs, lo, hi);
      CarveEffect(t', rest, lo, hi);
      assert Carve(t, ovs, lo, hi) == Carve(t', rest, lo, hi);
      CarveBookkeeping(Elems(t), ovs, lo, hi, Elems(t'), Elems(Carve(t', rest, lo, hi)));
    }
  }

  /** A window listed twice is counted at least twice. */
  lemma DuplicateCounts(s: seq<Interval>, i: int, j: int)
    requires 0 <= i < j < |s| && s[i] == s[j]
    ensures multiset(s)[s[i]] >= 2
  {
    assert s == s[..j] + s[j..];
    assert s[i] in s[..j];
    assert s[j] in s[j..];
  }

  /** On a valid tree the overlap search lists distinct stored windows. */
  lemma SearchTargets(t: Tree, lo: int, hi: int)
    requires Valid(t)
    ensures Targets(Elems(t), SearchOverlap(t, lo, hi), lo, hi)
  {
    var e := Elems(t);
    var s := SearchOverlap(t, lo, hi);
    SearchOverlapComplete(t, lo, hi);
    forall i | 0 <= i < |s|
      ensures s[i] in e
    {
      assert multiset(s)[s[i]] > 0;
    }
    forall i, j | 0 <= i < j < |s|
      ensures s[i] != s[j]
    {
      if s[i] == s[j] {
        DuplicateCounts(s, i, j);
        assert false;
      }
    }
  }

  /** Reserving [lo, hi] in a valid tree keeps it valid, and replaces the
      overlapping windows by their remainders. */
  lemma ModifyEffect(t: Tree, lo: int, hi: int)
    requires Valid(t) && lo <= hi
    ensures Valid(Modify(t, lo, hi))
    ensures Elems(Modify(t, lo, hi))
         == (Elems(t) - multiset(SearchOverlap(t, lo, hi)))
            + multiset(Remainders(SearchOverlap(t, lo, hi), lo, hi))
  {
    SearchTargets(t, lo, hi);
    CarveEffect(t, SearchOverlap(t, lo, hi), lo, hi);
  }

  /** A window is among the remainders exactly when it is a piece of one
      of the windows. */
  lemma {:induction false} InRemainders(ovs: seq<Interval>, lo: int, hi: int, x: Interval)
    ensures x in Remainders(ovs, lo, hi) <==>
      exists i :: 0 <= i < |ovs| && x in Remainder(ovs[i], lo, hi)
  {
    if ovs != [] {
      InRemainders(ovs[1..], lo, hi, x);
      if x in Remainders(ovs[1..], lo, hi) {
        var i :| 0 <= i < |ovs[1..]| && x in Remainder(ovs[1..][i], lo, hi);
        assert x in Remainder(ovs[i + 1], lo, hi);
      }
      if exists i :: 0 <= i < |ovs| && x in Remainder(ovs[i], lo, hi) {
        var i :| 0 <= i < |ovs| && x in Remainder(ovs[i], lo, hi);
        if i > 0 {
          assert x in Remainder(ovs[1..][i - 1], lo, hi);
        }
      }
    }
  }

  /** The multiset reading of one reservation, for a search result s that
      lists each overlapping window as often as it is stored. */
  lemma ContentsAfterCarve(e: multiset<Interval>, s: seq<Interval>, lo: int, hi: int,
                           x: Interval)
    requires forall z :: multiset(s)[z] == (if Overlaps(z, lo, hi) then e[z] else 0)
    ensures x in (e - multiset(s)) + multiset(Remainders(s, lo, hi)) <==>
      (x in e && !Overlaps(x, lo, hi)) ||
      (exists y :: y in e && Overlaps(y, lo, hi) && x in Remainder(y, lo, hi))
  {
    InRemainders(s, lo, hi, x);
    assert x in e - multiset(s) <==> x in e && !Overlaps(x, lo, hi) by {
      assert multiset(s)[x] == (if Overlaps(x, lo, hi) then e[x] else 0);
    }
    if exists y :: y in e && Overlaps(y, lo, hi) && x in Remainder(y, lo, hi) {
      var y :| y in e && Overlaps(y, lo, hi) && x in Remainder(y, lo, hi);
      PieceOfListed(e, s, lo, hi, x, y);
    }
    if x in Remainders(s, lo, hi) {
      var i :| 0 <= i < |s| && x in Remainder(s[i], lo, hi);
      ListedIsOverlapping(e, s, lo, hi, i);
    }
  }

  lemma PieceOfListed(e: multiset<Interval>, s: seq<Interval>, lo: int, hi: int,
                      x: Interval, y: Interval)
    requires forall z :: multiset(s)[z] == (if Overlaps(z, lo, hi) then e[z] else 0)
    requires y in e && Overlaps(y, lo, hi) && x in Remainder(y, lo, hi)
    ensures exists i :: 0 <= i < |s| && x in Remainder(s[i], lo, hi)
  {
    assert multiset(s)[y] == e[y];
    assert y in s;
    var i :| 0 <= i < |s| && s[i] == y;
    assert x in Remainder(s[i], lo, hi);
  }

  lemma ListedIsOverlapping(e: multiset<Interval>, s: seq<Interval>, lo: int, hi: int, i: int)
    requires forall z :: multiset(s)[z] == (if Overlaps(z, lo, hi) then e[z] else 0)
    requires 0 <= i < |s|
    ensures s[i] in e && Overlaps(s[i], lo, hi)
  {
    assert multiset(s)[s[i]] > 0;
  }

  /** After reserving [lo, hi] a valid tree holds exactly the stored
      windows that miss [lo, hi] and the pieces left of those that overlap
      it. */
  lemma ModifyContents(t: Tree, lo: int, hi: int, x: Interval)
    requires Valid(t) && lo <= hi
    ensures x in Elems(Modify(t, lo, hi)) <==>
      (x in Elems(t) && !Overlaps(x, lo, hi)) ||
      (exists y :: y in Elems(t) && Overlaps(y, lo, hi) && x in Remainder(y, lo, hi))
  {
    ModifyEffect(t, lo, hi);
    SearchOverlapComplete(t, lo, hi);
    ContentsAfterCarve(Elems(t), SearchOverlap(t, lo, hi), lo, hi, x);
  }

  /** Reserving [lo, hi] takes exactly the minutes lo .. hi-1 out of the
      free time and leaves every other minute as it was. */
  lemma ModifyFreeTime(t: Tree, lo: int, hi: int, m: int)
    requires Valid(t) && lo <= hi
    ensures FreeAt(Elems(Modify(t, lo, hi)), m) <==> FreeAt(Elems(t), m) && !(lo <= m < hi)
  {
    var e' := Elems(Modify(t, lo, hi));
    if FreeAt(e', m) {
      var x :| x in e' && HasMinute(x, m);
      ModifyContents(t, lo, hi, x);
      if !(x in Elems(t) && !Overlaps(x, lo, hi)) {
        var y :| y in Elems(t) && Overlaps(y, lo, hi) && x in Remainder(y, lo, hi);
        RemainderMinutes(y, lo, hi, m);
        assert AnyHasMinute(Remainder(y, lo, hi), m);
      }
    }
    if FreeAt(Elems(t), m) && !(lo <= m < hi) {
      var y :| y in Elems(t) && HasMinute(y, m);
      if Overlaps(y, lo, hi) {
        RemainderMinutes(y, lo, hi, m);
        var i :| 0 <= i < |Remainder(y, lo, hi)| && HasMinute(Remainder(y, lo, hi)[i], m);
        ModifyContents(t, lo, hi, Remainder(y, lo, hi)[i]);
      } else {
        ModifyContents(t, lo, hi, y);
      }
    }
  }

  /** Once [lo, hi] (with at least one minute) is reserved, it is no longer
      available. */
  lemma ModifyBlocksWindow(t: Tree, lo: int, hi: int)
    requires Valid(t) && lo < hi
    ensures !IsAvailable(Modify(t, lo, hi), lo, hi)
  {
    if IsAvailable(Modify(t, lo, hi), lo, hi) {
      var x :| x in Elems(Modify(t, lo, hi)) && Covers(x, lo, hi);
      assert HasMinute(x, lo);
      ModifyFreeTime(t, lo, hi, lo);
    }
  }

  /** When no stored window overlaps [lo, hi] the tree is left untouched. */
  lemma ModifyUntouched(t: Tree, lo: int, hi: int)
    requires MaxOk(t)
    requires forall x :: x in Elems(t) ==> !Overlaps(x, lo, hi)
    ensures Modify(t, lo, hi) == t
  {
    var s := SearchOverlap(t, lo, hi);
    if s != [] {
      SearchOverlapCount(t, lo, hi, s[0]);
      assert false;
    }
  }
}
