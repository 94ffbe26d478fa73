// The treap as it is updated in place (experimental/treap.h), and the best-fit
// heap built on it (experimental/cartesianheap.h).

module Treap {
  import opened TreapShape
  import opened TreapLeaves
  import opened TreapOrder

  // ----- the search order around a new leaf and without an old one -----

  // A key fits between the ranks lo and hi.
  ghost predicate Fits(m: Memory, at: Places, key: nat, lo: real, hi: real)
    requires m.Keys == at.Keys
  {
    && (forall k :: k in m && at[k].rank <= lo ==> m[k].key <= key)
    && (forall k :: k in m && hi <= at[k].rank ==> key <= m[k].key)
  }

  ghost predicate Hangs(m: Memory, at: Places, root: nat, p: nat, onLeft: bool, node: nat, lo: real, hi: real)
    requires m.Keys == at.Keys
  {
    if p == 0 then node == root && lo == 0.0 && hi == 1.0
    else
      && p in m
      && (if onLeft then node == m[p].left && lo == at[p].lo && hi == at[p].rank
          else node == m[p].right && lo == at[p].rank && hi == at[p].hi)
  }

  // A child that hangs between lo and hi occupies these ranks.
  lemma HangsThere(m: Memory, at: Places, root: nat, p: nat, onLeft: bool, node: nat, lo: real, hi: real)
    requires Tree(m, at, root) && Hangs(m, at, root, p, onLeft, node, lo, hi)
    ensures node != 0 ==> node in m && at[node].lo == lo && at[node].hi == hi && lo < at[node].rank < hi
    ensures node == 0 ==> lo < hi && Gap(at, lo, hi)
  {
    if p != 0 {
      assert NodeOk(m, at, p) && GapsOk(m, at, p);
    }
    if node in m {
      assert NodeOk(m, at, node);
    }
  }

  lemma FitsBelow(m: Memory, at: Places, node: nat, key: nat, lo: real, hi: real)
    requires m.Keys == at.Keys && Sorted(m, at) && Ranked(at) && node in m && Fits(m, at, key, lo, hi)
    ensures key <= m[node].key ==> Fits(m, at, key, lo, at[node].rank)
    ensures m[node].key <= key ==> Fits(m, at, key, at[node].rank, hi)
  {
  }

  lemma SortedAfterAttach(m: Memory, at: Places, root: nat, p: nat, onLeft: bool, n: nat, leaf: Node, lo: real,
                          hi: real)
    requires m.Keys == at.Keys && Sorted(m, at) && Gap(at, lo, hi) && Fits(m, at, leaf.key, lo, hi)
    requires lo < hi && n !in m && Hangs(m, at, root, p, onLeft, 0, lo, hi) && (p == 0 ==> 0 !in m)
    ensures Attach(m, p, onLeft, n, leaf).Keys == Gained(at, p, onLeft, n).Keys
    ensures Sorted(Attach(m, p, onLeft, n, leaf), Gained(at, p, onLeft, n))
  {
    assert Gained(at, p, onLeft, n)[n].rank == (lo + hi) / 2.0;
    hide RightGap, LeftGap, Middle, Hangs;
  }

  lemma HeapAfterAttach(m: Memory, at: Places, root: nat, p: nat, onLeft: bool, n: nat, leaf: Node)
    requires Tree(m, at, root) && HeapOrder(m) && n !in m && n != 0 && leaf.parent != n
    ensures n in Attach(m, p, onLeft, n, leaf) && HeapOrderBut(Attach(m, p, onLeft, n, leaf), n)
  {
    var m' := Attach(m, p, onLeft, n, leaf);
    forall k | k in m ensures m[k].parent != n && HeapEdge(m', k) {
      assert ParentOk(m, root, k) && HeapEdge(m, k);
    }
  }

  lemma EntriesAfterAttach(m: Memory, p: nat, onLeft: bool, n: nat, leaf: Node)
    requires n !in m
    ensures Entries(Attach(m, p, onLeft, n, leaf)) == Entries(m)[n := Entry(leaf.priority, leaf.key, leaf.value)]
  {
  }

  lemma OrderAfterAttach(m: Memory, at: Places, root: nat, p: nat, onLeft: bool, n: nat, leaf: Node, lo: real, hi: real)
    requires Tree(m, at, root) && Sorted(m, at) && HeapOrder(m)
    requires if p == 0 then root == 0 else p in m
    requires Hangs(m, at, root, p, onLeft, 0, lo, hi) && lo < hi && Gap(at, lo, hi) && Fits(m, at, leaf.key, lo, hi)
    requires n != 0 && n !in m && leaf.parent == p && leaf.left == 0 && leaf.right == 0
    ensures Attach(m, p, onLeft, n, leaf).Keys == Gained(at, p, onLeft, n).Keys && n in Attach(m, p, onLeft, n, leaf)
    ensures Tree(Attach(m, p, onLeft, n, leaf), Gained(at, p, onLeft, n), if p == 0 then n else root)
    ensures Sorted(Attach(m, p, onLeft, n, leaf), Gained(at, p, onLeft, n))
    ensures HeapOrderBut(Attach(m, p, onLeft, n, leaf), n)
    ensures Entries(Attach(m, p, onLeft, n, leaf)) == Entries(m)[n := Entry(leaf.priority, leaf.key, leaf.value)]
  {
    ZeroIsNull(m, at, root);
    assert p != 0 ==> Vacant(m, p, onLeft, n, leaf);
    hide *;
    SortedAfterAttach(m, at, root, p, onLeft, n, leaf, lo, hi);
    TreeAfterAttach(m, at, root, p, onLeft, n, leaf);
    HeapAfterAttach(m, at, root, p, onLeft, n, leaf);
    EntriesAfterAttach(m, p, onLeft, n, leaf);
  }

  lemma OrderAfterClip(m: Memory, at: Places, n: nat)
    requires m.Keys == at.Keys && Sorted(m, at) && HeapOrderBut(m, n) && n in m
    ensures Clip(m, n).Keys == (at - {n}).Keys && Sorted(Clip(m, n), at - {n})
    ensures HeapOrder(Clip(m, n)) && Entries(Clip(m, n)) == Entries(m) - {n}
  {
    hide Clip;
    var m' := Clip(m, n);
    ClipKeeps(m, n);
    forall k | k in m' ensures HeapEdge(m', k) {
      assert HeapEdge(m, k);
    }
  }

  lemma ClipKeeps(m: Memory, n: nat)
    requires n in m
    ensures Clip(m, n).Keys == m.Keys - {n}
    ensures forall k :: k in m && k != n ==>
      var w := Clip(m, n)[k];
      w.priority == m[k].priority && w.key == m[k].key && w.value == m[k].value && w.parent == m[k].parent
  {
  }

  // Once the edge above x is in order, every edge is.
  lemma HeapOrderClosed(m: Memory, x: nat)
    requires x in m && HeapOrderBut(m, x) && HeapEdge(m, x)
    ensures HeapOrder(m)
  {
  }

  lemma HeapOrderOpened(m: Memory, at: Places, root: nat, x: nat)
    requires Tree(m, at, root) && HeapOrder(m) && x in m
    ensures HeapOrderBut(m, x)
  {
    forall k | k in m && m[x].parent in m && m[k].parent == x ensures m[m[x].parent].priority <= m[k].priority {
      assert HeapEdge(m, k) && HeapEdge(m, x);
    }
  }

  lemma ParentIsThere(m: Memory, at: Places, root: nat, x: nat)
    requires Tree(m, at, root) && x in m
    ensures m[x].parent != 0 ==> m[x].parent in m
    ensures m[x].parent != x
  {
    assert ParentOk(m, root, x) && NodeOk(m, at, x);
    if m[x].parent in m {
      assert NodeOk(m, at, m[x].parent);
    }
  }

  lemma TreeKeys(m: Memory, at: Places, root: nat)
    requires Tree(m, at, root)
    ensures m.Keys == at.Keys
  {
  }

  // The children of x are its left and its right child.
  lemma ChildrenOf(m: Memory, at: Places, root: nat, x: nat)
    requires Tree(m, at, root) && x in m
    ensures (m[x].left != 0 ==> m[x].left in m) && (m[x].right != 0 ==> m[x].right in m)
    ensures forall k :: k in m && m[k].parent == x ==> k != 0 && (k == m[x].left || k == m[x].right)
  {
    assert NodeOk(m, at, x);
    forall k | k in m && m[k].parent == x ensures k != 0 && (k == m[x].left || k == m[x].right) {
      assert ParentOk(m, root, k) && NodeOk(m, at, k);
    }
  }

  // A node x, its child y, y's child b and x's parent are different nodes.
  ghost predicate Apart(m: Memory, x: nat, y: nat, b: nat)
    requires x in m
  {
    var p := m[x].parent;
    && 0 !in m && y in m && y != x && b != x && b != y && p != x && p != y
    && (b != 0 ==> b in m && b != p) && (p != 0 ==> p in m)
  }

  lemma LeftApart(m: Memory, at: Places, root: nat, x: nat)
    requires Tree(m, at, root) && x in m && m[x].right in m
    ensures Apart(m, x, m[x].right, m[m[x].right].left)
  {
    hide Tree;
    LeftDistinct(m, at, root, x);
  }

  lemma RightApart(m: Memory, at: Places, root: nat, x: nat)
    requires Tree(m, at, root) && x in m && m[x].left in m
    ensures Apart(m, x, m[x].left, m[m[x].left].right)
  {
    hide Tree;
    RightDistinct(m, at, root, x);
  }

  lemma RankInside(m: Memory, at: Places, root: nat, n: nat)
    requires Tree(m, at, root) && n in m
    ensures m.Keys == at.Keys && at[n].lo < at[n].rank < at[n].hi
  {
    TreeAt(m, at, root, n);
    hide Tree;
  }

  // The writes of a left rotation, in the order of the source.
  lemma LeftWrites(m: Memory, x: nat)
    requires x in m && m[x].right in m && Apart(m, x, m[x].right, m[m[x].right].left)
    ensures var y := m[x].right;
      var b, p := m[y].left, m[x].parent;
      var m1 := m[x := m[x].(right := b)];
      var m2 := if b != 0 then m1[b := m1[b].(parent := x)] else m1;
      var m3 := m2[y := m2[y].(parent := p)];
      var m4 := if p == 0 then m3 else m3[p := if m3[p].left == x then m3[p].(left := y) else m3[p].(right := y)];
      var m5 := m4[y := m4[y].(left := x)];
      TreapShape.RotateLeft(m, x) == m5[x := m5[x].(parent := y)]
  {
  }

  // The writes of a right rotation, in the order of the source.
  lemma RightWrites(m: Memory, x: nat)
    requires x in m && m[x].left in m && Apart(m, x, m[x].left, m[m[x].left].right)
    ensures var y := m[x].left;
      var b, p := m[y].right, m[x].parent;
      var m1 := m[x := m[x].(left := b)];
      var m2 := if b != 0 then m1[b := m1[b].(parent := x)] else m1;
      var m3 := m2[y := m2[y].(parent := p)];
      var m4 := if p == 0 then m3 else m3[p := if m3[p].left == x then m3[p].(left := y) else m3[p].(right := y)];
      var m5 := m4[y := m4[y].(right := x)];
      TreapShape.RotateRight(m, x) == m5[x := m5[x].(parent := y)]
  {
  }

  // The writes that hang a leaf, and those that clip one off.
  lemma AttachWrites(m: Memory, p: nat, onLeft: bool, n: nat, leaf: Node)
    requires n !in m && 0 !in m && (p != 0 ==> p in m)
    ensures Attach(m, p, onLeft, n, leaf) ==
      if p == 0 then m[n := leaf]
      else if onLeft then m[n := leaf][p := m[p].(left := n)]
      else m[n := leaf][p := m[p].(right := n)]
  {
  }

  lemma ClipWrites(m: Memory, n: nat)
    requires n in m && 0 !in m && (m[n].parent != 0 ==> m[n].parent in m)
    ensures var p := m[n].parent;
      Clip(m, n) ==
        if p == 0 then m - {n}
        else if m[p].left == n then m[p := m[p].(left := 0)] - {n}
        else m[p := m[p].(right := 0)] - {n}
  {
  }

  class Treap {
    var mem: Memory
    var root: nat
    ghost var at: Places

    ghost predicate Shaped()
      reads this
    {
      Tree(mem, at, root) && Sorted(mem, at)
    }

    ghost predicate Valid()
      reads this
    {
      Shaped() && HeapOrder(mem)
    }

    constructor ()
      ensures Valid() && Entries(mem) == map[]
    {
      mem, root, at := map[], 0, map[];
    }

    method RotateLeft(node: nat)
      requires node in mem && mem[node].right in mem && Apart(mem, node, mem[node].right, mem[mem[node].right].left)
      modifies this`mem, this`root
      ensures mem == TreapShape.RotateLeft(old(mem), node)
      ensures root == NewRoot(old(mem), old(root), node, old(mem[node].right))
    {
      hide TreapShape.RotateLeft;
      LeftWrites(mem, node);
      var right := mem[node].right;
      mem := mem[node := mem[node].(right := mem[right].left)];
      if mem[right].left != 0 {
        mem := mem[mem[right].left := mem[mem[right].left].(parent := node)];
      }
      mem := mem[right := mem[right].(parent := mem[node].parent)];
      if mem[node].parent == 0 {
        root := right;
      } else {
        var parent := mem[node].parent;
        mem := mem[parent := if mem[parent].left == node then mem[parent].(left := right)
          else mem[parent].(right := right)];
      }
      mem := mem[right := mem[right].(left := node)];
      mem := mem[node := mem[node].(parent := right)];
    }

    method RotateRight(node: nat)
      requires node in mem && mem[node].left in mem && Apart(mem, node, mem[node].left, mem[mem[node].left].right)
      modifies this`mem, this`root
      ensures mem == TreapShape.RotateRight(old(mem), node)
      ensures root == NewRoot(old(mem), old(root), node, old(mem[node].left))
    {
      hide TreapShape.RotateRight;
      RightWrites(mem, node);
      var left := mem[node].left;
      mem := mem[node := mem[node].(left := mem[left].right)];
      if mem[left].right != 0 {
        mem := mem[mem[left].right := mem[mem[left].right].(parent := node)];
      }
      mem := mem[left := mem[left].(parent := mem[node].parent)];
      if mem[node].parent == 0 {
        root := left;
      } else {
        var parent := mem[node].parent;
        mem := mem[parent := if mem[parent].left == node then mem[parent].(left := left)
          else mem[parent].(right := left)];
      }
      mem := mem[left := mem[left].(right := node)];
      mem := mem[node := mem[node].(parent := left)];
    }

    // RotateLeft, and the places that go with it.
    method LiftRight(node: nat)
      requires Shaped() && node in mem && mem[node].right != 0
      modifies this
      ensures old(mem[node].right) in old(mem) && old(mem[node].right) in old(at)
      ensures Shaped() && mem == TreapShape.RotateLeft(old(mem), node)
      ensures Rotated(old(mem), mem, node, old(mem[node].right), old(mem[mem[node].right].left))
      ensures Lifted(old(at), at, node, old(mem[node].right))
    {
      hide Tree, Lifted, Rotated, Sorted, TreapShape.RotateLeft, PlacesLeft, Apart;
      TreeKeys(mem, at, root);
      ChildrenOf(mem, at, root, node);
      TreeAfterLeft(mem, at, root, node);
      LeftLifts(mem, at, root, node);
      LeftApart(mem, at, root, node);
      ghost var right := mem[node].right;
      SortedAfterLift(mem, at, TreapShape.RotateLeft(mem, node), PlacesLeft(at, node, right), node, right,
        mem[right].left);
      RotateLeft(node);
      at := PlacesLeft(at, node, right);
    }

    // RotateRight, and the places that go with it.
    method LiftLeft(node: nat)
      requires Shaped() && node in mem && mem[node].left != 0
      modifies this
      ensures old(mem[node].left) in old(mem) && old(mem[node].left) in old(at)
      ensures Shaped() && mem == TreapShape.RotateRight(old(mem), node)
      ensures Rotated(old(mem), mem, node, old(mem[node].left), old(mem[mem[node].left].right))
      ensures Lifted(old(at), at, node, old(mem[node].left))
    {
      hide Tree, Lifted, Rotated, Sorted, TreapShape.RotateRight, PlacesRight, Apart;
      TreeKeys(mem, at, root);
      ChildrenOf(mem, at, root, node);
      TreeAfterRight(mem, at, root, node);
      RightLifts(mem, at, root, node);
      RightApart(mem, at, root, node);
      ghost var left := mem[node].left;
      SortedAfterLift(mem, at, TreapShape.RotateRight(mem, node), PlacesRight(at, node, left), node, left,
        mem[left].right);
      RotateRight(node);
      at := PlacesRight(at, node, left);
    }

    // The free place below which a new key belongs.
    method FindPlace(key: nat) returns (parent: nat, ghost lo: real, ghost hi: real)
      requires Shaped()
      ensures parent == 0 ==> root == 0
      ensures parent != 0 ==> parent in mem
      ensures Hangs(mem, at, root, parent, parent != 0 && key < mem[parent].key, 0, lo, hi)
      ensures lo < hi && Gap(at, lo, hi) && Fits(mem, at, key, lo, hi)
    {
      parent, lo, hi := 0, 0.0, 1.0;
      var node := root;
      ghost var onLeft := false;
      assert Fits(mem, at, key, lo, hi) by {
        forall k | k in mem ensures 0.0 < at[k].rank < 1.0 {
          assert NodeOk(mem, at, k);
        }
      }
      ZeroIsNull(mem, at, root);
      HangsThere(mem, at, root, parent, onLeft, node, lo, hi);
      while node != 0
        invariant parent != 0 ==> parent in mem && onLeft == (key < mem[parent].key)
        invariant parent == 0 ==> !onLeft && node == root
        invariant Hangs(mem, at, root, parent, onLeft, node, lo, hi) && Fits(mem, at, key, lo, hi)
        invariant node != 0 ==> node in mem && at[node].lo == lo && at[node].hi == hi
        invariant node == 0 ==> lo < hi && Gap(at, lo, hi)
        decreases Inside(at, node), node != 0
      {
        assert NodeOk(mem, at, node);
        SubtreeSplits(mem, at, root, node);
        FitsBelow(mem, at, node, key, lo, hi);
        parent := node;
        hide Tree, Fits, NodeOk, Gap;
        if key < mem[node].key {
          onLeft, hi := true, at[node].rank;
          node := mem[node].left;
        } else {
          onLeft, lo := false, at[node].rank;
          node := mem[node].right;
        }
        HangsThere(mem, at, root, parent, onLeft, node, lo, hi);
      }
    }

    // Hangs the new node below the place found for it.
    method HangLeaf(parent: nat, n: nat, key: nat, value: nat, priority: nat, ghost lo: real, ghost hi: real)
      requires Valid() && n != 0 && n !in mem
      requires if parent == 0 then root == 0 else parent in mem
      requires Hangs(mem, at, root, parent, parent != 0 && key < mem[parent].key, 0, lo, hi)
      requires lo < hi && Gap(at, lo, hi) && Fits(mem, at, key, lo, hi)
      modifies this
      ensures Shaped() && n in mem && mem[n].parent == parent && HeapOrderBut(mem, n)
      ensures Entries(mem) == old(Entries(mem))[n := Entry(priority, key, value)]
    {
      hide Tree, Sorted, HeapOrder, HeapOrderBut, Entries, Fits, Gap, Gained, Hangs, Attach;
      ghost var onLeft := parent != 0 && key < mem[parent].key;
      var leaf := Node(priority, key, value, parent, 0, 0);
      ZeroIsNull(mem, at, root);
      TreeKeys(mem, at, root);
      AttachWrites(mem, parent, onLeft, n, leaf);
      OrderAfterAttach(mem, at, root, parent, onLeft, n, leaf, lo, hi);
      ghost var m, places := Attach(mem, parent, onLeft, n, leaf), Gained(at, parent, onLeft, n);
      mem := mem[n := leaf];
      if parent == 0 {
        root := n;
      } else if key < mem[parent].key {
        mem := mem[parent := mem[parent].(left := n)];
      } else {
        mem := mem[parent := mem[parent].(right := n)];
      }
      assert mem == m;
      at := places;
    }

    // Adds exactly one entry, at the address n.
    method Insert(n: nat, key: nat, value: nat, priority: nat)
      requires Valid() && n != 0 && n !in mem && value != 0
      modifies this
      ensures Valid() && Entries(mem) == old(Entries(mem))[n := Entry(priority, key, value)]
    {
      ghost var lo, hi;
      var parent;
      parent, lo, hi := FindPlace(key);
      HangLeaf(parent, n, key, value, priority, lo, hi);
      hide Tree, Sorted, HeapOrder, HeapOrderBut, Entries;
      ZeroIsNull(mem, at, root);
      ParentIsThere(mem, at, root, n);
      while parent != 0 && mem[parent].priority > mem[n].priority
        invariant Shaped() && n in mem && parent == mem[n].parent && (parent != 0 ==> parent in mem)
        invariant HeapOrderBut(mem, n) && Entries(mem) == old(Entries(mem))[n := Entry(priority, key, value)]
        decreases mem.Keys - Inside(at, n)
      {
        Raise(parent, n);
        parent := mem[n].parent;
      }
      ZeroIsNull(mem, at, root);
      HeapOrderClosed(mem, n);
    }

    // One step of the insertion's way up.
    method Raise(parent: nat, n: nat)
      requires Shaped() && n in mem && parent == mem[n].parent && parent in mem
      requires HeapOrderBut(mem, n) && mem[parent].priority > mem[n].priority
      modifies this
      ensures Shaped() && n in mem && (mem[n].parent != 0 ==> mem[n].parent in mem)
      ensures HeapOrderBut(mem, n) && Entries(mem) == old(Entries(mem)) && mem.Keys == old(mem.Keys)
      ensures Inside(at, n) > old(Inside(at, n)) && Inside(at, n) <= mem.Keys
    {
      ghost var m, places := mem, at;
      assert NodeOk(mem, at, parent);
      OneChild(mem, at, root, n);
      ZeroIsNull(mem, at, root);
      ghost var b;
      hide Tree, Sorted, HeapOrderBut, Entries;
      if mem[parent].left == n {
        b := mem[n].right;
        LiftLeft(parent);
      } else {
        b := mem[n].left;
        LiftRight(parent);
      }
      LiftingNew(m, mem, parent, n, b);
      LiftMovesSubtree(places, at, parent, n);
      ParentIsThere(mem, at, root, n);
    }

    // Removes exactly the entry at node.
    method Remove(node: nat) returns (r: nat)
      requires Valid() && (node != 0 ==> node in mem)
      modifies this
      ensures r == node && Valid()
      ensures Entries(mem) == if node == 0 then old(Entries(mem)) else old(Entries(mem)) - {node}
    {
      hide Tree, Sorted, HeapOrder, HeapOrderBut, Entries;
      r := node;
      ZeroIsNull(mem, at, root);
      if node != 0 {
        HeapOrderOpened(mem, at, root, node);
        while mem[node].left != 0 || mem[node].right != 0
          invariant Shaped() && node in mem && HeapOrderBut(mem, node) && Entries(mem) == old(Entries(mem))
          decreases Inside(at, node)
        {
          Sink(node);
        }
        ClipLeaf(node);
      }
    }

    // The removal's end, when the node has become a leaf.
    method ClipLeaf(node: nat)
      requires Shaped() && Leaf(mem, node) && HeapOrderBut(mem, node)
      modifies this
      ensures Valid() && Entries(mem) == old(Entries(mem)) - {node}
    {
      hide Tree, Sorted, HeapOrder, HeapOrderBut, Entries, Clip;
      TreeKeys(mem, at, root);
      ZeroIsNull(mem, at, root);
      ParentIsThere(mem, at, root, node);
      ClipWrites(mem, node);
      TreeAfterClip(mem, at, root, node);
      OrderAfterClip(mem, at, node);
      var parent := mem[node].parent;
      if parent == 0 {
        root := 0;
      } else if mem[parent].left == node {
        mem := mem[parent := mem[parent].(left := 0)];
      } else {
        mem := mem[parent := mem[parent].(right := 0)];
      }
      mem := mem - {node};
      at := at - {node};
    }

    // One step of the removal's way down.
    method Sink(node: nat)
      requires Shaped() && node in mem && HeapOrderBut(mem, node)
      requires mem[node].left != 0 || mem[node].right != 0
      modifies this
      ensures Shaped() && node in mem && HeapOrderBut(mem, node) && Entries(mem) == old(Entries(mem))
      ensures Inside(at, node) < old(Inside(at, node))
    {
      hide Tree, Sorted, HeapOrderBut, Entries, Rotated, Lifted, TreapShape.RotateLeft, TreapShape.RotateRight;
      ghost var m, places := mem, at;
      RankInside(mem, at, root, node);
      ChildrenOf(mem, at, root, node);
      ghost var y, b;
      if mem[node].right == 0 {
        y, b := mem[node].left, mem[mem[node].left].right;
        LiftLeft(node);
      } else if mem[node].left == 0 {
        y, b := mem[node].right, mem[mem[node].right].left;
        LiftRight(node);
      } else if mem[mem[node].left].priority < mem[mem[node].right].priority {
        y, b := mem[node].left, mem[mem[node].left].right;
        LiftLeft(node);
      } else {
        y, b := mem[node].right, mem[mem[node].right].left;
        LiftRight(node);
      }
      RotatedKeeps(m, mem, node, y, b);
      LiftingSmaller(m, mem, node, y, b);
      LiftMovesSubtree(places, at, node, y);
    }

    // A node with this key; 0 exactly when there is none.
    method Lookup(key: nat) returns (node: nat)
      requires Valid()
      ensures node != 0 ==> node in mem && mem[node].key == key
      ensures node == 0 ==> forall k :: k in mem ==> mem[k].key != key
    {
      node := root;
      RootHoldsAll(mem, at, root);
      ZeroIsNull(mem, at, root);
      while node != 0
        invariant node != 0 ==> node in mem
        invariant forall k :: k in mem && mem[k].key == key ==> k in Inside(at, node)
        decreases Inside(at, node), node != 0
      {
        assert NodeOk(mem, at, node);
        if key == mem[node].key {
          return;
        }
        SubtreeSplits(mem, at, root, node);
        hide Tree;
        if key < mem[node].key {
          node := mem[node].left;
        } else {
          node := mem[node].right;
        }
      }
    }

    // The smallest key that is at least the given one, over the whole treap.
    method LookupGeq(key: nat) returns (best: nat)
      requires Valid()
      ensures best != 0 ==> best in mem && key <= mem[best].key
      ensures best != 0 ==> forall k :: k in mem && key <= mem[k].key ==> mem[best].key <= mem[k].key
      ensures best == 0 ==> forall k :: k in mem ==> mem[k].key < key
    {
      best := 0;
      var node := root;
      RootHoldsAll(mem, at, root);
      ZeroIsNull(mem, at, root);
      while node != 0
        invariant node != 0 ==> node in mem
        invariant best != 0 ==> best in mem && key <= mem[best].key
        invariant forall k :: k in mem && key <= mem[k].key && k !in Inside(at, node) ==>
          best != 0 && mem[best].key <= mem[k].key
        decreases Inside(at, node), node != 0
      {
        assert NodeOk(mem, at, node);
        if key == mem[node].key {
          return node;
        }
        SubtreeSplits(mem, at, root, node);
        hide Tree;
        if mem[node].key < key {
          node := mem[node].right;
        } else {
          if best == 0 || mem[best].key > mem[node].key {
            best := node;
          }
          node := mem[node].left;
        }
      }
    }
  }
}
