// The shape of a treap (experimental/treap.h): nodes with parent pointers in memory, a binary
// search tree by key and a heap by priority, restored by rotations.

module TreapShape {

  // 0 is the null pointer.
  datatype Node = Node(priority: nat, key: nat, value: nat, parent: nat, left: nat, right: nat)

  type Memory = map<nat, Node>

  // The place of a node in the search order: its rank, and the open interval of
  // ranks that its subtree occupies.
  datatype Place = Place(lo: real, rank: real, hi: real)

  type Places = map<nat, Place>

  // ----- the invariant -----

  // c is no node, or a child of n whose subtree occupies the ranks from lo to hi.
  ghost predicate ChildOk(m: Memory, at: Places, n: nat, c: nat, lo: real, hi: real)
    requires m.Keys == at.Keys
  {
    c != 0 ==> c in m && m[c].parent == n && at[c].lo == lo && at[c].hi == hi
  }

  ghost predicate NodeOk(m: Memory, at: Places, n: nat)
    requires m.Keys == at.Keys && n in m
  {
    && n != 0 && 0.0 <= at[n].lo < at[n].rank < at[n].hi <= 1.0
    && ChildOk(m, at, n, m[n].left, at[n].lo, at[n].rank)
    && ChildOk(m, at, n, m[n].right, at[n].rank, at[n].hi)
  }

  ghost predicate ParentOk(m: Memory, root: nat, n: nat)
    requires n in m
  {
    var p := m[n].parent;
    if p == 0 then n == root else p in m && (m[p].left == n || m[p].right == n)
  }

  ghost predicate RootOk(m: Memory, at: Places, root: nat)
    requires m.Keys == at.Keys
  {
    if root == 0 then m == map[]
    else root in m && m[root].parent == 0 && at[root].lo == 0.0 && at[root].hi == 1.0
  }

  // No rank lies in the interval of a missing child, and no two nodes share one.
  ghost predicate Gap(at: Places, lo: real, hi: real) {
    forall k :: k in at ==> !(lo < at[k].rank < hi)
  }

  ghost predicate GapsOk(m: Memory, at: Places, n: nat)
    requires m.Keys == at.Keys && n in m
  {
    && (m[n].left == 0 ==> Gap(at, at[n].lo, at[n].rank))
    && (m[n].right == 0 ==> Gap(at, at[n].rank, at[n].hi))
  }

  // The interval of a missing left child and that of a missing right child do
  // not overlap.
  ghost predicate GapsApart(m: Memory, at: Places)
    requires m.Keys == at.Keys
  {
    forall n, k :: n in m && k in m && m[n].left == 0 && m[k].right == 0 ==>
      at[n].rank <= at[k].rank || at[k].hi <= at[n].lo
  }

  ghost predicate Ranked(at: Places) {
    forall j, k :: j in at && k in at && j != k ==> at[j].rank != at[k].rank
  }

  ghost predicate Tree(m: Memory, at: Places, root: nat) {
    && m.Keys == at.Keys && RootOk(m, at, root) && Ranked(at) && GapsApart(m, at)
    && (forall n {:trigger NodeOk(m, at, n)} :: n in m ==> NodeOk(m, at, n))
    && (forall n {:trigger ParentOk(m, root, n)} :: n in m ==> ParentOk(m, root, n))
    && (forall n {:trigger GapsOk(m, at, n)} :: n in m ==> GapsOk(m, at, n))
  }

  // Non-strict search order.
  ghost predicate Sorted(m: Memory, at: Places)
    requires m.Keys == at.Keys
  {
    forall j, k :: j in m && k in m && at[j].rank < at[k].rank ==> m[j].key <= m[k].key
  }

  // ----- rotations -----

  // Hangs y where x was, below x's parent.
  function Relink(m: Memory, p: nat, x: nat, y: nat): Memory {
    if p in m then m[p := if m[p].left == x then m[p].(left := y) else m[p].(right := y)] else m
  }

  function Reparent(m: Memory, n: nat, p: nat): Memory {
    if n in m then m[n := m[n].(parent := p)] else m
  }

  function RotateLeft(m: Memory, x: nat): Memory
    requires x in m && m[x].right in m
  {
    var y := m[x].right;
    var b, p := m[y].left, m[x].parent;
    var m1 := Relink(Reparent(m, b, x), p, x, y);
    m1[x := m[x].(right := b, parent := y)][y := m[y].(left := x, parent := p)]
  }

  function RotateRight(m: Memory, x: nat): Memory
    requires x in m && m[x].left in m
  {
    var y := m[x].left;
    var b, p := m[y].right, m[x].parent;
    var m1 := Relink(Reparent(m, b, x), p, x, y);
    m1[x := m[x].(left := b, parent := y)][y := m[y].(right := x, parent := p)]
  }

  function PlacesLeft(at: Places, x: nat, y: nat): Places
    requires x in at && y in at
  {
    at[x := at[x].(hi := at[y].rank)][y := at[y].(lo := at[x].lo)]
  }

  function PlacesRight(at: Places, x: nat, y: nat): Places
    requires x in at && y in at
  {
    at[x := at[x].(lo := at[y].rank)][y := at[y].(hi := at[x].hi)]
  }

  function NewRoot(m: Memory, root: nat, x: nat, y: nat): nat
    requires x in m
  {
    if m[x].parent == 0 then y else root
  }

  // What the invariant says of one node.
  lemma TreeAt(m: Memory, at: Places, root: nat, n: nat)
    requires Tree(m, at, root) && n in m
    ensures m.Keys == at.Keys && NodeOk(m, at, n) && ParentOk(m, root, n) && GapsOk(m, at, n)
  {
  }

  lemma ZeroIsNull(m: Memory, at: Places, root: nat)
    requires Tree(m, at, root)
    ensures 0 !in m
  {
    if 0 in m && NodeOk(m, at, 0) {
    }
  }

  // Only the root has no parent, so a child is another node than the root.
  lemma RootIsAlone(m: Memory, at: Places, root: nat, x: nat)
    requires Tree(m, at, root) && x in m && m[x].parent != 0
    ensures root != 0 && root != x && root in m
    ensures m[x].left != root && m[x].right != root
  {
    assert NodeOk(m, at, x);
    ZeroIsNull(m, at, root);
  }

  // The nodes that a left rotation at x touches are different ones.
  lemma LeftDistinct(m: Memory, at: Places, root: nat, x: nat)
    requires Tree(m, at, root) && x in m && m[x].right in m
    ensures var y := m[x].right;
      var b, p := m[y].left, m[x].parent;
      && 0 !in m && y != x && b != x && b != y && p != x && p != y
      && (b != 0 ==> b in m && b != p && m[b].parent == y && at[b].lo == at[x].rank && at[b].hi == at[y].rank)
      && (p != 0 ==> p in m && (m[p].left == x || m[p].right == x))
      && m[y].parent == x && at[y].lo == at[x].rank && at[y].hi == at[x].hi
  {
    var y := m[x].right;
    var b, p := m[y].left, m[x].parent;
    assert NodeOk(m, at, x) && NodeOk(m, at, y) && ParentOk(m, root, x);
    if p != 0 {
      assert NodeOk(m, at, p);
    }
    if b != 0 {
      assert NodeOk(m, at, b);
    }
    ZeroIsNull(m, at, root);
  }

  // What a left rotation leaves at each node.
  lemma LeftWords(m: Memory, at: Places, root: nat, x: nat, n: nat)
    requires Tree(m, at, root) && x in m && m[x].right in m && n in m
    ensures var y := m[x].right;
      var b, p, m', at' := m[y].left, m[x].parent, RotateLeft(m, x), PlacesLeft(at, x, y);
      && y in at && m'.Keys == m.Keys && at'.Keys == m.Keys
      && m'[x] == m[x].(right := b, parent := y) && at'[x] == at[x].(hi := at[y].rank)
      && m'[y] == m[y].(left := x, parent := p) && at'[y] == at[y].(lo := at[x].lo)
      && (n != x && n != y ==> at'[n] == at[n])
      && (n != x && n != y && n != b && n != p ==> m'[n] == m[n])
      && (n != 0 && n == b ==> m'[n] == m[n].(parent := x))
      && (n != 0 && n == p ==> m'[n] == if m[n].left == x then m[n].(left := y) else m[n].(right := y))
  {
    LeftDistinct(m, at, root, x);
  }

  lemma LeftChildAfterLeft(m: Memory, at: Places, root: nat, x: nat, n: nat)
    requires Tree(m, at, root) && x in m && m[x].right in m && n in m
    ensures var y := m[x].right;
      && y in at
      && RotateLeft(m, x).Keys == m.Keys == PlacesLeft(at, x, y).Keys
      && var m', at' := RotateLeft(m, x), PlacesLeft(at, x, y);
      ChildOk(m', at', n, m'[n].left, at'[n].lo, at'[n].rank)
  {
    hide Tree, RotateLeft, PlacesLeft, ParentOk, GapsOk;
    LeftDistinct(m, at, root, x);
    TreeAt(m, at, root, n);
    TreeAt(m, at, root, x);
    TreeAt(m, at, root, m[x].right);
    LeftWords(m, at, root, x, n);
    if m[n].left != 0 {
      LeftWords(m, at, root, x, m[n].left);
    }
  }

  lemma RightChildAfterLeft(m: Memory, at: Places, root: nat, x: nat, n: nat)
    requires Tree(m, at, root) && x in m && m[x].right in m && n in m
    ensures var y := m[x].right;
      && y in at
      && RotateLeft(m, x).Keys == m.Keys == PlacesLeft(at, x, y).Keys
      && var m', at' := RotateLeft(m, x), PlacesLeft(at, x, y);
      ChildOk(m', at', n, m'[n].right, at'[n].rank, at'[n].hi)
  {
    hide Tree, RotateLeft, PlacesLeft, ParentOk, GapsOk;
    LeftDistinct(m, at, root, x);
    TreeAt(m, at, root, n);
    TreeAt(m, at, root, x);
    TreeAt(m, at, root, m[x].right);
    LeftWords(m, at, root, x, n);
    if m[n].right != 0 {
      LeftWords(m, at, root, x, m[n].right);
    }
    if n == x && m[m[x].right].left != 0 {
      LeftWords(m, at, root, x, m[m[x].right].left);
    }
  }

  lemma NodeAfterLeft(m: Memory, at: Places, root: nat, x: nat, n: nat)
    requires Tree(m, at, root) && x in m && m[x].right in m && n in m
    ensures var y := m[x].right;
      && y in at
      && RotateLeft(m, x).Keys == m.Keys == PlacesLeft(at, x, y).Keys
      && NodeOk(RotateLeft(m, x), PlacesLeft(at, x, y), n)
  {
    hide Tree, RotateLeft, PlacesLeft, ChildOk, ParentOk, GapsOk;
    LeftChildAfterLeft(m, at, root, x, n);
    RightChildAfterLeft(m, at, root, x, n);
    LeftWords(m, at, root, x, n);
    LeftDistinct(m, at, root, x);
    TreeAt(m, at, root, n);
    TreeAt(m, at, root, x);
    TreeAt(m, at, root, m[x].right);
  }

  lemma ParentAfterLeft(m: Memory, at: Places, root: nat, x: nat, n: nat)
    requires Tree(m, at, root) && x in m && m[x].right in m && n in m
    ensures n in RotateLeft(m, x) && ParentOk(RotateLeft(m, x), NewRoot(m, root, x, m[x].right), n)
  {
    hide Tree, RotateLeft, PlacesLeft, GapsOk;
    LeftDistinct(m, at, root, x);
    TreeAt(m, at, root, n);
    TreeAt(m, at, root, x);
    TreeAt(m, at, root, m[x].right);
    LeftWords(m, at, root, x, n);
    if m[n].parent != 0 {
      TreeAt(m, at, root, m[n].parent);
      LeftWords(m, at, root, x, m[n].parent);
    }
    if n == m[x].right && m[x].parent != 0 {
      TreeAt(m, at, root, m[x].parent);
      LeftWords(m, at, root, x, m[x].parent);
    }
  }

  lemma GapsAfterLeft(m: Memory, at: Places, root: nat, x: nat, n: nat)
    requires Tree(m, at, root) && x in m && m[x].right in m && n in m
    ensures var y := m[x].right;
      && y in at
      && RotateLeft(m, x).Keys == m.Keys == PlacesLeft(at, x, y).Keys
      && GapsOk(RotateLeft(m, x), PlacesLeft(at, x, y), n)
  {
    hide Tree, RotateLeft, PlacesLeft, NodeOk, ParentOk, Gap;
    LeftDistinct(m, at, root, x);
    TreeAt(m, at, root, n);
    TreeAt(m, at, root, m[x].right);
    LeftWords(m, at, root, x, n);
    var at' := PlacesLeft(at, x, m[x].right);
    GapAfterLeft(at, x, m[x].right, at'[n].lo, at'[n].rank);
    GapAfterLeft(at, x, m[x].right, at'[n].rank, at'[n].hi);
  }

  // A rotation moves no rank.
  lemma GapAfterLeft(at: Places, x: nat, y: nat, lo: real, hi: real)
    requires x in at && y in at
    ensures Gap(PlacesLeft(at, x, y), lo, hi) <==> Gap(at, lo, hi)
  {
    hide PlacesLeft;
    var at' := PlacesLeft(at, x, y);
    RanksAfterLeft(at, x, y);
    assert (forall k :: k in at ==> !(lo < at[k].rank < hi)) <==> (forall k :: k in at' ==> !(lo < at'[k].rank < hi));
  }

  lemma RanksAfterLeft(at: Places, x: nat, y: nat)
    requires x in at && y in at
    ensures PlacesLeft(at, x, y).Keys == at.Keys && forall k :: k in at ==> PlacesLeft(at, x, y)[k].rank == at[k].rank
  {
  }

  lemma ApartAfterLeft(m: Memory, at: Places, root: nat, x: nat)
    requires Tree(m, at, root) && x in m && m[x].right in m
    ensures var y := m[x].right;
      && y in at
      && RotateLeft(m, x).Keys == m.Keys == PlacesLeft(at, x, y).Keys
      && GapsApart(RotateLeft(m, x), PlacesLeft(at, x, y))
  {
    LeftDistinct(m, at, root, x);
    var y := m[x].right;
    var m', at' := RotateLeft(m, x), PlacesLeft(at, x, y);
    hide NodeOk, ParentOk, RootOk, RotateLeft, PlacesLeft;
    LeftWords(m, at, root, x, x);
    forall n, k | n in m && k in m && m'[n].left == 0 && m'[k].right == 0
      ensures at'[n].rank <= at'[k].rank || at'[k].hi <= at'[n].lo
    {
      LeftWords(m, at, root, x, n);
      LeftWords(m, at, root, x, k);
      assert GapsOk(m, at, n) && GapsOk(m, at, k) && GapsOk(m, at, y);
    }
  }

  lemma RootAfterLeft(m: Memory, at: Places, root: nat, x: nat)
    requires Tree(m, at, root) && x in m && m[x].right in m
    ensures var y := m[x].right;
      && y in at
      && RotateLeft(m, x).Keys == m.Keys == PlacesLeft(at, x, y).Keys
      && RootOk(RotateLeft(m, x), PlacesLeft(at, x, y), NewRoot(m, root, x, y)) && Ranked(PlacesLeft(at, x, y))
  {
    hide RotateLeft, PlacesLeft, GapsApart, GapsOk, NodeOk;
    LeftDistinct(m, at, root, x);
    RanksAfterLeft(at, x, m[x].right);
    LeftWords(m, at, root, x, x);
    if m[x].parent != 0 {
      RootIsAlone(m, at, root, x);
      LeftWords(m, at, root, x, root);
    }
    TreeAt(m, at, root, x);
    hide Tree;
  }

  // A left rotation keeps the tree.
  lemma TreeAfterLeft(m: Memory, at: Places, root: nat, x: nat)
    requires Tree(m, at, root) && x in m && m[x].right in m
    ensures m[x].right in at
    ensures Tree(RotateLeft(m, x), PlacesLeft(at, x, m[x].right), NewRoot(m, root, x, m[x].right))
  {
    RootAfterLeft(m, at, root, x);
    ApartAfterLeft(m, at, root, x);
    hide NodeOk, ParentOk, GapsOk, GapsApart, RootOk, Ranked, RotateLeft, PlacesLeft, NewRoot;
    var y := m[x].right;
    var m', at' := RotateLeft(m, x), PlacesLeft(at, x, y);
    forall n | n in m' ensures NodeOk(m', at', n) && ParentOk(m', NewRoot(m, root, x, y), n) && GapsOk(m', at', n) {
      NodeAfterLeft(m, at, root, x, n);
      ParentAfterLeft(m, at, root, x, n);
      GapsAfterLeft(m, at, root, x, n);
    }
  }

  // ----- mirror images -----

  // Swapping left and right everywhere turns a tree into a tree and a left
  // rotation into a right rotation.
  function Mirror(m: Memory): Memory {
    map n | n in m :: m[n].(left := m[n].right, right := m[n].left)
  }

  function MirrorPlaces(at: Places): Places {
    map n | n in at :: Place(1.0 - at[n].hi, 1.0 - at[n].rank, 1.0 - at[n].lo)
  }

  lemma MirrorTwice(m: Memory, at: Places)
    ensures Mirror(Mirror(m)) == m && MirrorPlaces(MirrorPlaces(at)) == at
  {
  }

  lemma MirrorGap(at: Places, lo: real, hi: real)
    requires Gap(at, lo, hi)
    ensures Gap(MirrorPlaces(at), 1.0 - hi, 1.0 - lo)
  {
    forall k | k in MirrorPlaces(at) ensures !(1.0 - hi < MirrorPlaces(at)[k].rank < 1.0 - lo) {
      assert k in at;
    }
  }

  lemma MirrorNode(m: Memory, at: Places, root: nat, n: nat)
    requires m.Keys == at.Keys && n in m && NodeOk(m, at, n) && ParentOk(m, root, n)
    ensures Mirror(m).Keys == MirrorPlaces(at).Keys == m.Keys
    ensures NodeOk(Mirror(m), MirrorPlaces(at), n) && ParentOk(Mirror(m), root, n)
  {
  }

  lemma MirrorGaps(m: Memory, at: Places, n: nat)
    requires m.Keys == at.Keys && n in m && GapsOk(m, at, n)
    ensures Mirror(m).Keys == MirrorPlaces(at).Keys == m.Keys
    ensures GapsOk(Mirror(m), MirrorPlaces(at), n)
  {
    if m[n].left == 0 {
      MirrorGap(at, at[n].lo, at[n].rank);
    }
    if m[n].right == 0 {
      MirrorGap(at, at[n].rank, at[n].hi);
    }
    hide Gap;
  }

  lemma MirrorApart(m: Memory, at: Places)
    requires m.Keys == at.Keys && GapsApart(m, at) && Ranked(at)
    ensures Mirror(m).Keys == MirrorPlaces(at).Keys == m.Keys
    ensures GapsApart(Mirror(m), MirrorPlaces(at)) && Ranked(MirrorPlaces(at))
  {
    var m', at' := Mirror(m), MirrorPlaces(at);
    forall n, k | n in m' && k in m' && m'[n].left == 0 && m'[k].right == 0
      ensures at'[n].rank <= at'[k].rank || at'[k].hi <= at'[n].lo
    {
      assert m[k].left == 0 && m[n].right == 0;
    }
    forall j, k | j in at' && k in at' && j != k ensures at'[j].rank != at'[k].rank {
      assert at[j].rank != at[k].rank;
    }
  }

  lemma MirrorRoot(m: Memory, at: Places, root: nat)
    requires m.Keys == at.Keys && RootOk(m, at, root)
    ensures Mirror(m).Keys == MirrorPlaces(at).Keys == m.Keys
    ensures RootOk(Mirror(m), MirrorPlaces(at), root)
  {
    if root == 0 {
      assert Mirror(m).Keys == {};
    }
  }

  lemma MirrorTree(m: Memory, at: Places, root: nat)
    requires Tree(m, at, root)
    ensures Tree(Mirror(m), MirrorPlaces(at), root)
  {
    hide NodeOk, ParentOk, GapsOk, GapsApart, Ranked, RootOk, Mirror, MirrorPlaces;
    MirrorApart(m, at);
    MirrorRoot(m, at, root);
    forall n | n in m
      ensures NodeOk(Mirror(m), MirrorPlaces(at), n) && ParentOk(Mirror(m), root, n)
        && GapsOk(Mirror(m), MirrorPlaces(at), n)
    {
      assert NodeOk(m, at, n) && ParentOk(m, root, n) && GapsOk(m, at, n);
      MirrorNode(m, at, root, n);
      MirrorGaps(m, at, n);
    }
  }

  // A node is one child of its parent, not both.
  lemma OneChild(m: Memory, at: Places, root: nat, x: nat)
    requires Tree(m, at, root) && x in m && m[x].parent != 0
    ensures m[x].parent in m && (m[m[x].parent].left == x <==> m[m[x].parent].right != x)
  {
    assert NodeOk(m, at, x) && ParentOk(m, root, x);
    assert NodeOk(m, at, m[x].parent);
  }

  lemma RelinkMirrored(m: Memory, p: nat, x: nat, y: nat)
    requires p in m ==> (m[p].left == x <==> m[p].right != x)
    ensures Mirror(Relink(m, p, x, y)) == Relink(Mirror(m), p, x, y)
  {
  }

  lemma RotationMirrored(m: Memory, x: nat)
    requires 0 !in m && x in m && m[x].left in m
    requires m[x].parent in m ==> (m[m[x].parent].left == x <==> m[m[x].parent].right != x)
    ensures RotateRight(m, x) == Mirror(RotateLeft(Mirror(m), x))
  {
    var y := m[x].left;
    var b, p := m[y].right, m[x].parent;
    var m1 := Reparent(m, b, x);
    assert Mirror(m1) == Reparent(Mirror(m), b, x);
    RelinkMirrored(m1, p, x, y);
    var m2 := Relink(m1, p, x, y);
    hide Relink, Reparent;
    assert Mirror(m2) == Relink(Reparent(Mirror(m), b, x), p, x, y);
  }

  lemma PlacesMirrored(at: Places, x: nat, y: nat)
    requires x in at && y in at
    ensures MirrorPlaces(at).Keys == at.Keys
    ensures PlacesRight(at, x, y) == MirrorPlaces(PlacesLeft(MirrorPlaces(at), x, y))
  {
  }

  lemma RightIsMirroredLeft(m: Memory, at: Places, root: nat, x: nat)
    requires Tree(m, at, root) && x in m && m[x].left in m
    ensures Tree(Mirror(m), MirrorPlaces(at), root) && Mirror(m)[x].right in Mirror(m)
    ensures m[x].left in at
    ensures RotateRight(m, x) == Mirror(RotateLeft(Mirror(m), x))
    ensures PlacesRight(at, x, m[x].left) == MirrorPlaces(PlacesLeft(MirrorPlaces(at), x, m[x].left))
  {
    MirrorTree(m, at, root);
    if m[x].parent != 0 {
      OneChild(m, at, root, x);
    }
    ZeroIsNull(m, at, root);
    assert m.Keys == at.Keys;
    hide *;
    PlacesMirrored(at, x, m[x].left);
    RotationMirrored(m, x);
    assert m[x].parent == 0 ==> m[x].parent !in m;
  }

  // The nodes that a right rotation at x touches are different ones.
  lemma RightDistinct(m: Memory, at: Places, root: nat, x: nat)
    requires Tree(m, at, root) && x in m && m[x].left in m
    ensures var y := m[x].left;
      var b, p := m[y].right, m[x].parent;
      && 0 !in m && y != x && b != x && b != y && p != x && p != y
      && (b != 0 ==> b in m && b != p)
      && (p != 0 ==> p in m)
  {
    MirrorTree(m, at, root);
    LeftDistinct(Mirror(m), MirrorPlaces(at), root, x);
  }

  // A right rotation keeps the tree.
  lemma TreeAfterRight(m: Memory, at: Places, root: nat, x: nat)
    requires Tree(m, at, root) && x in m && m[x].left in m
    ensures m[x].left in at
    ensures Tree(RotateRight(m, x), PlacesRight(at, x, m[x].left), NewRoot(m, root, x, m[x].left))
  {
    RightIsMirroredLeft(m, at, root, x);
    TreeAfterLeft(Mirror(m), MirrorPlaces(at), root, x);
    MirrorTree(RotateLeft(Mirror(m), x), PlacesLeft(MirrorPlaces(at), x, m[x].left), NewRoot(m, root, x, m[x].left));
  }
}
