// Hanging a new leaf into a treap and clipping a leaf off (experimental/treap.h).

module TreapLeaves {
  import opened TreapShape

  // The new leaf n as a child of p, on the given side; p = 0 makes it the root.
  function Attach(m: Memory, p: nat, onLeft: bool, n: nat, leaf: Node): Memory {
    if p in m && p != n then m[n := leaf][p := if onLeft then m[p].(left := n) else m[p].(right := n)] else m[n := leaf]
  }

  // A place for the leaf in the middle of the gap it fills.
  ghost function Middle(lo: real, hi: real): Place {
    Place(lo, (lo + hi) / 2.0, hi)
  }

  ghost predicate Vacant(m: Memory, p: nat, onLeft: bool, n: nat, leaf: Node) {
    && n != 0 && n !in m && leaf.parent == p && leaf.left == 0 && leaf.right == 0
    && p in m && (if onLeft then m[p].left == 0 else m[p].right == 0)
  }

  ghost function LeftGap(at: Places, p: nat): Place
    requires p in at
  {
    Middle(at[p].lo, at[p].rank)
  }

  // Two missing left children leave gaps that do not overlap.
  lemma LeftGapsApart(m: Memory, at: Places, root: nat, n: nat, k: nat)
    requires Tree(m, at, root) && n in m && k in m && m[n].left == 0 && m[k].left == 0 && n != k
    ensures at[n].rank <= at[k].lo || at[k].rank <= at[n].lo
  {
    assert GapsOk(m, at, n) && GapsOk(m, at, k);
    hide Tree, NodeOk, ParentOk, RootOk, GapsApart;
    assert NodeOk(m, at, n) && NodeOk(m, at, k);
  }

  lemma NodeAfterAttach(m: Memory, at: Places, root: nat, p: nat, n: nat, leaf: Node, k: nat)
    requires Tree(m, at, root) && Vacant(m, p, true, n, leaf) && k in m
    ensures p in at && Attach(m, p, true, n, leaf).Keys == at[n := LeftGap(at, p)].Keys
    ensures NodeOk(Attach(m, p, true, n, leaf), at[n := LeftGap(at, p)], k)
    ensures ParentOk(Attach(m, p, true, n, leaf), root, k)
  {
    hide Tree, RootOk, GapsOk, GapsApart, Ranked;
    TreeAt(m, at, root, k);
    TreeAt(m, at, root, p);
  }

  lemma GapsAfterAttach(m: Memory, at: Places, root: nat, p: nat, n: nat, leaf: Node, k: nat)
    requires Tree(m, at, root) && Vacant(m, p, true, n, leaf) && k in m
    ensures p in at && Attach(m, p, true, n, leaf).Keys == at[n := LeftGap(at, p)].Keys
    ensures GapsOk(Attach(m, p, true, n, leaf), at[n := LeftGap(at, p)], k)
  {
    assert NodeOk(m, at, k) && GapsOk(m, at, k) && NodeOk(m, at, p) && GapsOk(m, at, p);
    if k != p && m[k].left == 0 {
      LeftGapsApart(m, at, root, p, k);
    }
    assert m[k].right == 0 ==> at[p].rank <= at[k].rank || at[k].hi <= at[p].lo;
    hide Tree, RootOk, GapsApart, Ranked, ParentOk;
  }

  lemma LeafAfterAttach(m: Memory, at: Places, root: nat, p: nat, n: nat, leaf: Node)
    requires Tree(m, at, root) && Vacant(m, p, true, n, leaf)
    ensures p in at && Attach(m, p, true, n, leaf).Keys == at[n := LeftGap(at, p)].Keys
    ensures var m', at' := Attach(m, p, true, n, leaf), at[n := LeftGap(at, p)];
      NodeOk(m', at', n) && ParentOk(m', root, n) && GapsOk(m', at', n) && Ranked(at') && RootOk(m', at', root)
  {
    assert NodeOk(m, at, p) && GapsOk(m, at, p);
    assert root == 0 ==> p !in m;
    hide Tree, ParentOk, GapsApart;
  }

  lemma ApartAfterAttach(m: Memory, at: Places, root: nat, p: nat, n: nat, leaf: Node)
    requires Tree(m, at, root) && Vacant(m, p, true, n, leaf)
    ensures p in at && Attach(m, p, true, n, leaf).Keys == at[n := LeftGap(at, p)].Keys
    ensures GapsApart(Attach(m, p, true, n, leaf), at[n := LeftGap(at, p)])
  {
    var m', at' := Attach(m, p, true, n, leaf), at[n := LeftGap(at, p)];
    assert NodeOk(m, at, p);
    forall j, k | j in m' && k in m' && m'[j].left == 0 && m'[k].right == 0
      ensures at'[j].rank <= at'[k].rank || at'[k].hi <= at'[j].lo
    {
      if j != n && k == n {
        LeftGapsApart(m, at, root, p, j);
      }
    }
  }

  lemma TreeAfterAttachLeft(m: Memory, at: Places, root: nat, p: nat, n: nat, leaf: Node)
    requires Tree(m, at, root) && Vacant(m, p, true, n, leaf)
    ensures p in at && Tree(Attach(m, p, true, n, leaf), at[n := LeftGap(at, p)], root)
  {
    LeafAfterAttach(m, at, root, p, n, leaf);
    ApartAfterAttach(m, at, root, p, n, leaf);
    var m', at' := Attach(m, p, true, n, leaf), at[n := LeftGap(at, p)];
    hide NodeOk, ParentOk, GapsOk, GapsApart, RootOk, Ranked;
    forall k | k in m' ensures NodeOk(m', at', k) && ParentOk(m', root, k) && GapsOk(m', at', k) {
      if k != n {
        NodeAfterAttach(m, at, root, p, n, leaf, k);
        GapsAfterAttach(m, at, root, p, n, leaf, k);
      }
    }
  }

  ghost function RightGap(at: Places, p: nat): Place
    requires p in at
  {
    Middle(at[p].rank, at[p].hi)
  }

  lemma MirrorAttach(m: Memory, at: Places, p: nat, n: nat, leaf: Node)
    requires Vacant(m, p, false, n, leaf) && p in at
    ensures Vacant(Mirror(m), p, true, n, leaf) && p in MirrorPlaces(at)
    ensures Mirror(Attach(Mirror(m), p, true, n, leaf)) == Attach(m, p, false, n, leaf)
    ensures MirrorPlaces(MirrorPlaces(at)[n := LeftGap(MirrorPlaces(at), p)]) == at[n := RightGap(at, p)]
  {
  }

  lemma TreeAfterAttachRight(m: Memory, at: Places, root: nat, p: nat, n: nat, leaf: Node)
    requires Tree(m, at, root) && Vacant(m, p, false, n, leaf)
    ensures p in at && Tree(Attach(m, p, false, n, leaf), at[n := RightGap(at, p)], root)
  {
    assert p in m && m.Keys == at.Keys;
    hide *;
    MirrorTree(m, at, root);
    MirrorAttach(m, at, p, n, leaf);
    TreeAfterAttachLeft(Mirror(m), MirrorPlaces(at), root, p, n, leaf);
    MirrorTree(Attach(Mirror(m), p, true, n, leaf), MirrorPlaces(at)[n := LeftGap(MirrorPlaces(at), p)], root);
  }

  // The first node of an empty treap.
  lemma TreeAfterAttachRoot(n: nat, leaf: Node)
    requires n != 0 && leaf.parent == 0 && leaf.left == 0 && leaf.right == 0
    ensures Tree(map[n := leaf], map[n := Middle(0.0, 1.0)], n)
  {
    var m, at := map[n := leaf], map[n := Middle(0.0, 1.0)];
    assert m.Keys == at.Keys;
    assert NodeOk(m, at, n) && ParentOk(m, n, n) && GapsOk(m, at, n);
  }

  // The treap without the leaf n.
  function Clip(m: Memory, n: nat): Memory
    requires n in m
  {
    Relink(m, m[n].parent, n, 0) - {n}
  }

  ghost predicate Leaf(m: Memory, n: nat) {
    n in m && m[n].left == 0 && m[n].right == 0
  }

  ghost predicate LeftLeaf(m: Memory, at: Places, root: nat, n: nat) {
    && Tree(m, at, root) && Leaf(m, n)
    && m[n].parent in m && m[m[n].parent].left == n
  }

  // What clipping a left leaf leaves at every other node.
  lemma ClipWords(m: Memory, at: Places, root: nat, n: nat, k: nat)
    requires LeftLeaf(m, at, root, n) && k in m && k != n
    ensures Clip(m, n).Keys == m.Keys - {n} == (at - {n}).Keys
    ensures n != 0 && m[n].parent != n && m.Keys == at.Keys && (at - {n})[k] == at[k]
    ensures Clip(m, n)[k] == if k == m[n].parent then m[k].(left := 0) else m[k]
  {
    assert NodeOk(m, at, m[n].parent) && NodeOk(m, at, n);
    hide Tree, NodeOk;
  }

  lemma ClipKeys(m: Memory, at: Places, root: nat, n: nat)
    requires LeftLeaf(m, at, root, n)
    ensures Clip(m, n).Keys == m.Keys - {n} == (at - {n}).Keys
  {
  }

  // The leaf is the child of its parent alone, and has no child.
  lemma NoOtherParent(m: Memory, at: Places, root: nat, n: nat, k: nat)
    requires LeftLeaf(m, at, root, n) && k in m && k != n
    ensures m[k].right != n && (m[k].left == n <==> k == m[n].parent) && m[k].parent != n
  {
    TreeAt(m, at, root, k);
    TreeAt(m, at, root, n);
    TreeAt(m, at, root, m[n].parent);
    hide Tree;
  }

  lemma NodeAfterClip(m: Memory, at: Places, root: nat, n: nat, k: nat)
    requires LeftLeaf(m, at, root, n) && k in m && k != n
    ensures Clip(m, n).Keys == m.Keys - {n} == (at - {n}).Keys
    ensures NodeOk(Clip(m, n), at - {n}, k) && ParentOk(Clip(m, n), root, k)
  {
    hide Tree, Clip;
    TreeAt(m, at, root, k);
    NoOtherParent(m, at, root, n, k);
    ClipWords(m, at, root, n, k);
    if m[k].left != 0 && m[k].left != n {
      ClipWords(m, at, root, n, m[k].left);
    }
    if m[k].right != 0 {
      ClipWords(m, at, root, n, m[k].right);
    }
    if m[k].parent != 0 {
      ClipWords(m, at, root, n, m[k].parent);
    }
  }

  lemma GapsAfterClip(m: Memory, at: Places, root: nat, n: nat, k: nat)
    requires LeftLeaf(m, at, root, n) && k in m && k != n
    ensures Clip(m, n).Keys == m.Keys - {n} == (at - {n}).Keys
    ensures GapsOk(Clip(m, n), at - {n}, k)
  {
    hide Clip, ParentOk, Gap, NodeOk, RootOk, GapsApart;
    TreeAt(m, at, root, k);
    ClipWords(m, at, root, n, k);
    if k == m[n].parent {
      LeafIsThere(m, at, root, n);
      GapsMerge(at, n, at[k].lo, at[k].rank);
    } else {
      GapWithout(at, n, at[k].lo, at[k].rank);
    }
    GapWithout(at, n, at[k].rank, at[k].hi);
  }

  lemma LeafIsThere(m: Memory, at: Places, root: nat, n: nat)
    requires LeftLeaf(m, at, root, n)
    ensures n in at && m[n].parent in at && at[n].lo == at[m[n].parent].lo && at[n].hi == at[m[n].parent].rank
    ensures Ranked(at) && Gap(at, at[n].lo, at[n].rank) && Gap(at, at[n].rank, at[n].hi)
  {
    TreeAt(m, at, root, n);
    TreeAt(m, at, root, m[n].parent);
    hide Gap, ParentOk, Ranked;
  }

  lemma GapsMerge(at: Places, n: nat, lo: real, hi: real)
    requires n in at && Ranked(at) && Gap(at, lo, at[n].rank) && Gap(at, at[n].rank, hi)
    ensures Gap(at - {n}, lo, hi)
  {
  }

  lemma GapWithout(at: Places, n: nat, lo: real, hi: real)
    ensures Gap(at, lo, hi) ==> Gap(at - {n}, lo, hi)
  {
  }

  lemma RootAfterClip(m: Memory, at: Places, root: nat, n: nat)
    requires LeftLeaf(m, at, root, n)
    ensures Clip(m, n).Keys == m.Keys - {n} == (at - {n}).Keys
    ensures RootOk(Clip(m, n), at - {n}, root) && Ranked(at - {n})
  {
    assert NodeOk(m, at, n) && NodeOk(m, at, m[n].parent);
  }

  lemma ApartAfterClip(m: Memory, at: Places, root: nat, n: nat)
    requires LeftLeaf(m, at, root, n)
    ensures Clip(m, n).Keys == m.Keys - {n} == (at - {n}).Keys
    ensures GapsApart(Clip(m, n), at - {n})
  {
    hide Clip, NodeOk, ParentOk, GapsOk, RootOk;
    var m', at', p := Clip(m, n), at - {n}, m[n].parent;
    TreeAt(m, at, root, n);
    LeafIsThere(m, at, root, n);
    ClipKeys(m, at, root, n);
    forall j, k | j in m' && k in m' && m'[j].left == 0 && m'[k].right == 0
      ensures at'[j].rank <= at'[k].rank || at'[k].hi <= at'[j].lo
    {
      ClipWords(m, at, root, n, j);
      ClipWords(m, at, root, n, k);
      assert at[k].rank != at[n].rank;
    }
  }

  lemma TreeAfterClipLeft(m: Memory, at: Places, root: nat, n: nat)
    requires LeftLeaf(m, at, root, n)
    ensures Tree(Clip(m, n), at - {n}, root)
  {
    RootAfterClip(m, at, root, n);
    ApartAfterClip(m, at, root, n);
    var m', at' := Clip(m, n), at - {n};
    hide NodeOk, ParentOk, GapsOk, GapsApart, RootOk, Ranked;
    forall k | k in m' ensures NodeOk(m', at', k) && ParentOk(m', root, k) && GapsOk(m', at', k) {
      NodeAfterClip(m, at, root, n, k);
      GapsAfterClip(m, at, root, n, k);
    }
  }

  // A leaf that is the root is the whole treap: its gaps are all the ranks there are.
  lemma LonelyRoot(m: Memory, at: Places, root: nat, n: nat)
    requires Tree(m, at, root) && Leaf(m, n) && m[n].parent == 0
    ensures n == root && m.Keys == {n}
  {
    assert ParentOk(m, root, n) && GapsOk(m, at, n);
    forall k | k in m ensures k == n {
      assert NodeOk(m, at, k);
    }
  }

  lemma MirrorClip(m: Memory, at: Places, root: nat, n: nat)
    requires Leaf(m, n) && m[n].parent in m && m[m[n].parent].right == n && m[m[n].parent].left != n
    requires Tree(Mirror(m), MirrorPlaces(at), root)
    ensures n in Mirror(m) && LeftLeaf(Mirror(m), MirrorPlaces(at), root, n)
    ensures Mirror(Clip(Mirror(m), n)) == Clip(m, n)
    ensures MirrorPlaces(MirrorPlaces(at) - {n}) == at - {n}
  {
    hide Tree;
  }

  // Clipping a leaf off keeps the tree.
  lemma TreeAfterClip(m: Memory, at: Places, root: nat, n: nat)
    requires Tree(m, at, root) && Leaf(m, n)
    ensures Tree(Clip(m, n), at - {n}, if m[n].parent == 0 then 0 else root)
  {
    assert n in m;
    if m[n].parent == 0 {
      LonelyRoot(m, at, root, n);
      ZeroIsNull(m, at, root);
      assert Clip(m, n) == map[] && at - {n} == map[];
    } else {
      OneChild(m, at, root, n);
      if m[m[n].parent].left == n {
        TreeAfterClipLeft(m, at, root, n);
      } else {
        hide *;
        MirrorTree(m, at, root);
        MirrorClip(m, at, root, n);
        TreeAfterClipLeft(Mirror(m), MirrorPlaces(at), root, n);
        MirrorTree(Clip(Mirror(m), n), MirrorPlaces(at) - {n}, root);
      }
    }
  }

  // Hanging a leaf on a free side of p, or as the root of an empty treap, keeps the tree.
  ghost function Gained(at: Places, p: nat, onLeft: bool, n: nat): Places {
    at[n := if p !in at then Middle(0.0, 1.0) else if onLeft then LeftGap(at, p) else RightGap(at, p)]
  }

  lemma TreeAfterAttach(m: Memory, at: Places, root: nat, p: nat, onLeft: bool, n: nat, leaf: Node)
    requires Tree(m, at, root)
    requires if p == 0 then root == 0 && n != 0 && leaf.parent == 0 && leaf.left == 0 && leaf.right == 0
             else Vacant(m, p, onLeft, n, leaf)
    ensures Tree(Attach(m, p, onLeft, n, leaf), Gained(at, p, onLeft, n), if p == 0 then n else root)
  {
    if p == 0 {
      assert at == map[];
      TreeAfterAttachRoot(n, leaf);
    } else if onLeft {
      TreeAfterAttachLeft(m, at, root, p, n, leaf);
    } else {
      TreeAfterAttachRight(m, at, root, p, n, leaf);
    }
  }
}
