// The search order and the heap order of a treap, and what a rotation does to
// them (experimental/treap.h).

module TreapOrder {
  import opened TreapShape

  datatype Entry = Entry(priority: nat, key: nat, value: nat)

  // What a treap stores: at each node's address, what it was inserted with.
  function Entries(m: Memory): map<nat, Entry> {
    map n | n in m :: Entry(m[n].priority, m[n].key, m[n].value)
  }

  // ----- what a rotation that lifts y above its parent x changes -----

  // b is the child of y that changes sides; 0 when there is none.
  ghost predicate Rotated(m: Memory, m': Memory, x: nat, y: nat, b: nat) {
    && x in m && y in m && x != y && m.Keys == m'.Keys && Entries(m) == Entries(m')
    && m[y].parent == x && m[x].parent != y && (b in m ==> m[b].parent == y)
    && forall k :: k in m ==>
         m'[k].parent == if k == x then y else if k == y then m[x].parent else if k == b then x else m[k].parent
  }

  lemma RotatedKeeps(m: Memory, m': Memory, x: nat, y: nat, b: nat)
    requires Rotated(m, m', x, y, b)
    ensures m.Keys == m'.Keys && Entries(m) == Entries(m')
  {
  }

  // The subtree of y now occupies what x's did; x's is smaller and y's rank is outside it.
  ghost predicate Lifted(at: Places, at': Places, x: nat, y: nat) {
    && x in at && y in at && at.Keys == at'.Keys && (forall k :: k in at ==> at'[k].rank == at[k].rank)
    && at'[y].lo == at[x].lo < at[y].rank < at[x].hi == at'[y].hi
    && at[x].lo <= at'[x].lo && at'[x].hi <= at[x].hi
    && (at'[x].lo == at[y].rank || at'[x].hi == at[y].rank)
    && at[x].lo <= at[y].lo && at[y].hi <= at[x].hi && (at[y].hi == at[x].rank || at[y].lo == at[x].rank)
  }

  lemma LeftRotates(m: Memory, at: Places, root: nat, x: nat)
    requires Tree(m, at, root) && x in m && m[x].right in m
    ensures m[x].right in at && Rotated(m, RotateLeft(m, x), x, m[x].right, m[m[x].right].left)
  {
    hide Tree, RotateLeft, PlacesLeft;
    LeftDistinct(m, at, root, x);
    LeftWords(m, at, root, x, x);
    var m' := RotateLeft(m, x);
    forall k | k in m ensures
      && m'[k].parent == (if k == x then m[x].right else if k == m[x].right then m[x].parent
         else if k == m[m[x].right].left then x else m[k].parent)
      && m'[k].priority == m[k].priority && m'[k].key == m[k].key && m'[k].value == m[k].value
    {
      LeftWords(m, at, root, x, k);
    }
  }

  lemma LeftLifts(m: Memory, at: Places, root: nat, x: nat)
    requires Tree(m, at, root) && x in m && m[x].right in m
    ensures m[x].right in at && Rotated(m, RotateLeft(m, x), x, m[x].right, m[m[x].right].left)
    ensures Lifted(at, PlacesLeft(at, x, m[x].right), x, m[x].right)
  {
    hide Tree, RotateLeft, PlacesLeft, Rotated, ParentOk, GapsOk, ChildOk;
    LeftRotates(m, at, root, x);
    LeftDistinct(m, at, root, x);
    TreeAt(m, at, root, x);
    TreeAt(m, at, root, m[x].right);
    RanksAfterLeft(at, x, m[x].right);
    LeftWords(m, at, root, x, x);
  }

  lemma MirrorRotated(m: Memory, m': Memory, x: nat, y: nat, b: nat)
    requires Rotated(m, m', x, y, b)
    ensures Rotated(Mirror(m), Mirror(m'), x, y, b)
  {
    assert forall k :: k in m ==> Entries(m)[k] == Entries(m')[k];
  }

  lemma MirrorLifted(at: Places, at': Places, x: nat, y: nat)
    requires Lifted(at, at', x, y)
    ensures Lifted(MirrorPlaces(at), MirrorPlaces(at'), x, y)
  {
  }

  lemma RightLifts(m: Memory, at: Places, root: nat, x: nat)
    requires Tree(m, at, root) && x in m && m[x].left in m
    ensures m[x].left in at && Rotated(m, RotateRight(m, x), x, m[x].left, m[m[x].left].right)
    ensures Lifted(at, PlacesRight(at, x, m[x].left), x, m[x].left)
  {
    RightIsMirroredLeft(m, at, root, x);
    MirrorTwice(m, at);
    LeftLifts(Mirror(m), MirrorPlaces(at), root, x);
    hide Tree, RotateLeft, RotateRight, PlacesLeft, PlacesRight, Rotated, Lifted;
    var m', at' := RotateLeft(Mirror(m), x), PlacesLeft(MirrorPlaces(at), x, m[x].left);
    MirrorRotated(Mirror(m), m', x, m[x].left, m[m[x].left].right);
    MirrorLifted(MirrorPlaces(at), at', x, m[x].left);
  }

  // ----- search order -----

  // A rotation keeps the search order.
  lemma SortedAfterLift(m: Memory, at: Places, m': Memory, at': Places, x: nat, y: nat, b: nat)
    requires m.Keys == at.Keys && Sorted(m, at) && Rotated(m, m', x, y, b) && Lifted(at, at', x, y)
    ensures m'.Keys == at'.Keys && Sorted(m', at')
  {
    assert forall k :: k in m ==> Entries(m)[k] == Entries(m')[k];
  }

  // ----- heap order -----

  // No parent has a larger priority than its child.
  ghost predicate HeapEdge(m: Memory, k: nat)
    requires k in m
  {
    m[k].parent in m ==> m[m[k].parent].priority <= m[k].priority
  }

  ghost predicate HeapOrder(m: Memory) {
    forall k {:trigger HeapEdge(m, k)} :: k in m ==> HeapEdge(m, k)
  }

  // The heap order, except between x and its parent; x's children still respect x's parent.
  ghost predicate HeapOrderBut(m: Memory, x: nat) {
    && (forall k {:trigger HeapEdge(m, k)} :: k in m && k != x ==> HeapEdge(m, k))
    && (forall k :: k in m && x in m && m[x].parent in m && m[k].parent == x ==>
         m[m[x].parent].priority <= m[k].priority)
  }

  // insert: lifting the new node y above a parent of larger priority leaves only
  // the edge above y open.
  lemma LiftingNew(m: Memory, m': Memory, x: nat, y: nat, b: nat)
    requires Rotated(m, m', x, y, b) && HeapOrderBut(m, y) && m[x].priority > m[y].priority
    ensures HeapOrderBut(m', y)
  {
    assert forall k :: k in m ==> Entries(m)[k] == Entries(m')[k];
    assert HeapEdge(m, x);
    forall k | k in m' && k != y ensures HeapEdge(m', k) {
      assert HeapEdge(m, k);
    }
    forall k | k in m' && m'[y].parent in m' && m'[k].parent == y
      ensures m'[m'[y].parent].priority <= m'[k].priority
    {
      assert HeapEdge(m, k);
    }
  }

  // remove: lifting the child y with the smaller priority above the doomed node x
  // leaves only the edge above x open.
  lemma LiftingSmaller(m: Memory, m': Memory, x: nat, y: nat, b: nat)
    requires Rotated(m, m', x, y, b) && HeapOrderBut(m, x)
    requires forall k :: k in m && m[k].parent == x ==> m[y].priority <= m[k].priority
    ensures HeapOrderBut(m', x)
  {
    assert forall k :: k in m ==> Entries(m)[k] == Entries(m')[k];
    assert HeapEdge(m, y);
    forall k | k in m' && k != x ensures HeapEdge(m', k) {
      assert HeapEdge(m, k);
    }
    forall k | k in m' && m'[x].parent in m' && m'[k].parent == x
      ensures m'[m'[x].parent].priority <= m'[k].priority
    {
      assert HeapEdge(m, k);
    }
  }

  // ----- subtrees -----

  // The nodes of the subtree at n.
  ghost function Inside(at: Places, n: nat): set<nat> {
    set k | k in at && n in at && at[n].lo < at[k].rank < at[n].hi
  }

  // Lifting y gives it the whole subtree of x, and x a strictly smaller one.
  lemma LiftMovesSubtree(at: Places, at': Places, x: nat, y: nat)
    requires Lifted(at, at', x, y) && at[x].lo < at[x].rank < at[x].hi
    ensures Inside(at', y) == Inside(at, x) && Inside(at, y) < Inside(at', y)
    ensures Inside(at', x) < Inside(at, x)
  {
    assert x in Inside(at, x) && x !in Inside(at, y);
    assert y in Inside(at, x) && y !in Inside(at', x);
  }

  // A subtree is its top and the subtrees of the two children.
  lemma SubtreeSplits(m: Memory, at: Places, root: nat, n: nat)
    requires Tree(m, at, root) && n in m
    ensures n in Inside(at, n) && Inside(at, n) == {n} + Inside(at, m[n].left) + Inside(at, m[n].right)
    ensures n !in Inside(at, m[n].left) && n !in Inside(at, m[n].right)
    ensures Inside(at, m[n].left) !! Inside(at, m[n].right)
  {
    assert NodeOk(m, at, n) && GapsOk(m, at, n);
    ZeroIsNull(m, at, root);
    forall k | k in Inside(at, n) && k != n ensures k in Inside(at, m[n].left) + Inside(at, m[n].right) {
      assert at[k].rank != at[n].rank;
    }
  }

  lemma RootHoldsAll(m: Memory, at: Places, root: nat)
    requires Tree(m, at, root)
    ensures Inside(at, root) == m.Keys
  {
    if root != 0 {
      forall k | k in m ensures k in Inside(at, root) {
        assert NodeOk(m, at, k);
      }
    }
  }

  // ----- the recursive checks of the source -----

  ghost predicate HeapProperty(m: Memory, at: Places, root: nat, n: nat, lower: nat)
    requires Tree(m, at, root) && (n == 0 || n in m)
    decreases Inside(at, n), n != 0
  {
    if n == 0 then true
    else
      SubtreeSplits(m, at, root, n);
      assert NodeOk(m, at, n);
      && lower <= m[n].priority
      && HeapProperty(m, at, root, m[n].left, m[n].priority)
      && HeapProperty(m, at, root, m[n].right, m[n].priority)
  }

  ghost predicate BstProperty(m: Memory, at: Places, root: nat, n: nat, lower: int, upper: int)
    requires Tree(m, at, root) && (n == 0 || n in m)
    decreases Inside(at, n), n != 0
  {
    if n == 0 then true
    else
      SubtreeSplits(m, at, root, n);
      assert NodeOk(m, at, n);
      && lower <= m[n].key <= upper
      && BstProperty(m, at, root, m[n].left, lower, m[n].key)
      && BstProperty(m, at, root, m[n].right, m[n].key, upper)
  }

  // The recursive heap check from a node accepts exactly when the bound holds of
  // the node and every edge inside its subtree is in order.
  lemma {:induction false} HeapPropertyInside(m: Memory, at: Places, root: nat, n: nat, lower: nat)
    requires Tree(m, at, root) && (n == 0 || n in m)
    ensures HeapProperty(m, at, root, n, lower) <==>
      ((n != 0 ==> lower <= m[n].priority) && forall k {:trigger HeapEdge(m, k)} :: k in Inside(at, n) && k != n ==>
        HeapEdge(m, k))
    decreases Inside(at, n), n != 0
  {
    if n == 0 {
      ZeroIsNull(m, at, root);
    } else {
      SubtreeSplits(m, at, root, n);
      ZeroIsNull(m, at, root);
      assert NodeOk(m, at, n);
      HeapPropertyInside(m, at, root, m[n].left, m[n].priority);
      HeapPropertyInside(m, at, root, m[n].right, m[n].priority);
      if m[n].left != 0 {
        SubtreeSplits(m, at, root, m[n].left);
        assert m[n].left in Inside(at, n) && (HeapEdge(m, m[n].left) <==> m[n].priority <= m[m[n].left].priority);
      }
      if m[n].right != 0 {
        SubtreeSplits(m, at, root, m[n].right);
        assert m[n].right in Inside(at, n) && (HeapEdge(m, m[n].right) <==> m[n].priority <= m[m[n].right].priority);
      }
    }
  }

  // The check on the whole treap accepts exactly the heap-ordered ones whose least
  // priority, the root's, is at least the bound.
  lemma HeapPropertyIsHeapOrder(m: Memory, at: Places, root: nat, lower: nat)
    requires Tree(m, at, root)
    ensures root == 0 || root in m
    ensures HeapProperty(m, at, root, root, lower) <==> HeapOrder(m) && (root != 0 ==> lower <= m[root].priority)
  {
    HeapPropertyInside(m, at, root, root, lower);
    RootHoldsAll(m, at, root);
    ZeroIsNull(m, at, root);
    if root != 0 {
      assert HeapEdge(m, root);
    }
  }

  // INT_MIN as it compares with an unsigned priority, which has 32 bits, and INT_MAX.
  const INT_MIN_UNSIGNED := 0x8000_0000
  const INT_MAX := 0x7FFF_FFFF

  // Called as the source's assertions have it, the heap check rejects every treap
  // whose root's priority is below 2^31, in order or not.
  lemma HeapPropertyAtIntMin(m: Memory, at: Places, root: nat)
    requires Tree(m, at, root)
    ensures root == 0 || root in m
    ensures HeapProperty(m, at, root, root, INT_MIN_UNSIGNED) <==>
      HeapOrder(m) && (root != 0 ==> INT_MIN_UNSIGNED <= m[root].priority)
  {
    HeapPropertyIsHeapOrder(m, at, root, INT_MIN_UNSIGNED);
  }

  // Keys of a subtree lie between the bounds and grow with the rank.
  ghost predicate SortedInside(m: Memory, at: Places, s: set<nat>, lower: int, upper: int)
    requires s <= m.Keys == at.Keys
  {
    && (forall k :: k in s ==> lower <= m[k].key <= upper)
    && (forall j, k :: j in s && k in s && at[j].rank < at[k].rank ==> m[j].key <= m[k].key)
  }

  lemma SortedSplits(m: Memory, at: Places, n: nat, l: set<nat>, r: set<nat>, lower: int, upper: int)
    requires n in m && l <= m.Keys && r <= m.Keys && m.Keys == at.Keys
    requires forall k :: k in l ==> at[k].rank < at[n].rank
    requires forall k :: k in r ==> at[n].rank < at[k].rank
    ensures SortedInside(m, at, {n} + l + r, lower, upper) <==>
      lower <= m[n].key <= upper && SortedInside(m, at, l, lower, m[n].key) && SortedInside(m, at, r, m[n].key, upper)
  {
    var s := {n} + l + r;
    if SortedInside(m, at, s, lower, upper) {
      assert n in s && l <= s && r <= s;
    }
  }

  lemma {:induction false} BstPropertyInside(m: Memory, at: Places, root: nat, n: nat, lower: int, upper: int)
    requires Tree(m, at, root) && (n == 0 || n in m)
    ensures BstProperty(m, at, root, n, lower, upper) <==> SortedInside(m, at, Inside(at, n), lower, upper)
    decreases Inside(at, n), n != 0
  {
    if n == 0 {
      ZeroIsNull(m, at, root);
    } else {
      SubtreeSplits(m, at, root, n);
      assert NodeOk(m, at, n);
      BstPropertyInside(m, at, root, m[n].left, lower, m[n].key);
      BstPropertyInside(m, at, root, m[n].right, m[n].key, upper);
      ZeroIsNull(m, at, root);
      hide Tree;
      SortedSplits(m, at, n, Inside(at, m[n].left), Inside(at, m[n].right), lower, upper);
      hide SortedInside;
    }
  }

  // The check on the whole treap accepts exactly the search-ordered ones whose keys
  // all lie between the bounds.
  lemma BstPropertyIsSorted(m: Memory, at: Places, root: nat, lower: int, upper: int)
    requires Tree(m, at, root)
    ensures root == 0 || root in m
    ensures BstProperty(m, at, root, root, lower, upper) <==>
      Sorted(m, at) && forall k :: k in m ==> lower <= m[k].key <= upper
  {
    BstPropertyInside(m, at, root, root, lower, upper);
    RootHoldsAll(m, at, root);
  }

  // Called as the source's assertions have it, the search check rejects every treap
  // but the empty one: INT_MIN, which compares as unsigned with a key, is above
  // INT_MAX at any width, and so no key is between the bounds.
  lemma BstPropertyAtIntMin(m: Memory, at: Places, root: nat, width: nat)
    requires Tree(m, at, root) && width >= 0x1_0000_0000
    ensures root == 0 || root in m
    ensures BstProperty(m, at, root, root, width - INT_MIN_UNSIGNED, INT_MAX) <==> root == 0
  {
    BstPropertyIsSorted(m, at, root, width - INT_MIN_UNSIGNED, INT_MAX);
  }
}
