// Boundary tags on values: header words in memory, the blocks they describe,
// and what splitting, joining, taking and freeing a block does to them.

module BoundaryTags {

  const HEADER := 8

  // prevFree and prevSize describe the block in front of the header.
  datatype Header = Header(prevFree: bool, prevSize: nat, size: nat)

  // Header words by address. A word that is overwritten, even in part, is gone.
  type Memory = map<nat, Header>

  function Write(m: Memory, a: nat, h: Header): Memory {
    (map k | k in m && (k + HEADER <= a || a + HEADER <= k) :: m[k])[a := h]
  }

  // A client may write anything into [lo, hi).
  function Scribble(m: Memory, lo: nat, hi: nat): Memory {
    map k | k in m && (k + HEADER <= lo || hi <= k) :: m[k]
  }

  ghost predicate Apart(m: Memory) {
    forall a, b :: a in m && b in m && a < b ==> a + HEADER <= b
  }

  lemma WriteKeepsApart(m: Memory, a: nat, h: Header)
    requires Apart(m)
    ensures Apart(Write(m, a, h))
    ensures a in m ==> Write(m, a, h) == m[a := h]
    ensures a in Write(m, a, h) && Write(m, a, h)[a] == h
  {
  }

  // Blocks by header address, with the sizes of their objects; the first block
  // of every region of memory, and the header past the last one.
  datatype Layout = Layout(blocks: map<nat, nat>, starts: set<nat>, ends: set<nat>) {
    function Next(h: nat): nat
      requires h in blocks
    {
      h + HEADER + blocks[h]
    }
  }

  function Object(h: nat): nat { h + HEADER }

  // Blocks do not overlap each other or the two headers past the end of a
  // region.
  ghost predicate Disjoint(l: Layout) {
    && (forall h, k :: h in l.blocks && k in l.blocks && h < k ==> l.Next(h) <= k)
    && (forall h, e :: h in l.blocks && e in l.ends ==> l.Next(h) <= e || e + 2 * HEADER <= h)
    && (forall e, f :: e in l.ends && f in l.ends && e < f ==> e + 2 * HEADER <= f)
  }

  // The successor of every block is a block or an end, and a region has one
  // start.
  ghost predicate Linked(l: Layout) {
    && (forall h {:trigger Continued(l, h)} :: h in l.blocks ==> Continued(l, h))
    && l.starts <= l.blocks.Keys
  }

  ghost predicate Continued(l: Layout, h: nat)
    requires h in l.blocks
  {
    (l.Next(h) in l.blocks || l.Next(h) in l.ends) && l.Next(h) !in l.starts
  }

  // The header at h names the block in front of it.
  ghost predicate Preceded(m: Memory, l: Layout, h: nat) {
    && h in m && HEADER + m[h].prevSize <= h
    && var p := h - HEADER - m[h].prevSize; p in l.blocks && l.blocks[p] == m[h].prevSize
  }

  // The size at both ends of block h.
  ghost predicate Sized(m: Memory, l: Layout, h: nat)
    requires h in l.blocks
  {
    h in m && m[h].size == l.blocks[h] && l.Next(h) in m && m[l.Next(h)].prevSize == l.blocks[h]
  }

  // The free bit of block h, which is kept in the header behind it, tells whether
  // the block is in the dictionary. An exempt block is there without its bit.
  ghost predicate Marked(m: Memory, l: Layout, dict: set<nat>, exempt: set<nat>, h: nat)
    requires h in l.blocks && l.Next(h) in m
  {
    m[l.Next(h)].prevFree <==> Object(h) in dict && h !in exempt
  }

  ghost predicate AllSized(m: Memory, l: Layout) {
    forall h :: h in l.blocks ==> 0 < h && Sized(m, l, h)
  }

  // Every free bit is right, except that of the block `open` (0 for none).
  ghost predicate AllMarked(m: Memory, l: Layout, dict: set<nat>, exempt: set<nat>, open: nat)
    requires AllSized(m, l)
  {
    && (forall h :: h in l.blocks && h != open ==> Marked(m, l, dict, exempt, h))
    && (forall p :: p in dict ==> HEADER <= p && p - HEADER in l.blocks)
    && (open != 0 ==> open in l.blocks && Object(open) !in dict)
  }

  ghost predicate AllPreceded(m: Memory, l: Layout) {
    && (forall h {:trigger Preceded(m, l, h)} :: h in l.blocks && h !in l.starts ==> Preceded(m, l, h))
    && (forall e {:trigger Preceded(m, l, e)} :: e in l.ends ==> Preceded(m, l, e))
  }

  // The first header of a region names no block in front of it; the last two
  // claim the space past the end as in use.
  ghost predicate Bordered(m: Memory, l: Layout) {
    && (forall h :: h in l.starts ==> h in m && m[h].prevSize == 0 && !m[h].prevFree)
    && (forall e :: e in l.ends ==> e in m && m[e].size == 0 && e + HEADER in m && !m[e + HEADER].prevFree)
  }

  ghost predicate Tagged(m: Memory, l: Layout, dict: set<nat>, exempt: set<nat>, open: nat) {
    Apart(m) && AllSized(m, l) && AllMarked(m, l, dict, exempt, open) && AllPreceded(m, l) && Bordered(m, l)
  }

  // No free block is followed by a free block.
  ghost predicate Coalesced(l: Layout, dict: set<nat>) {
    forall h :: h in l.blocks && Object(h) in dict ==> Object(l.Next(h)) !in dict
  }

  // ----- the operations on the layout -----

  function Split(l: Layout, h: nat, size: nat): (r: Layout)
    requires h in l.blocks && size + HEADER <= l.blocks[h]
  {
    l.(blocks := l.blocks[h := size][h + HEADER + size := l.blocks[h] - size - HEADER])
  }

  function Join(l: Layout, h: nat): Layout
    requires h in l.blocks && l.Next(h) in l.blocks
  {
    var n := l.Next(h);
    l.(blocks := (l.blocks - {n})[h := l.blocks[h] + HEADER + l.blocks[n]])
  }

  lemma SplitParts(l: Layout, h: nat, size: nat)
    requires h in l.blocks && size + HEADER <= l.blocks[h]
    ensures var r, piece := Split(l, h, size), h + HEADER + size;
      && r.starts == l.starts && r.ends == l.ends && r.blocks.Keys == l.blocks.Keys + {piece}
      && r.blocks[h] == size && r.blocks[piece] == l.blocks[h] - size - HEADER
      && forall k :: k in l.blocks && k != h && k != piece ==> r.blocks[k] == l.blocks[k]
  {
  }

  lemma JoinParts(l: Layout, h: nat)
    requires h in l.blocks && l.Next(h) in l.blocks
    ensures var r, n := Join(l, h), l.Next(h);
      && r.starts == l.starts && r.ends == l.ends && r.blocks.Keys == l.blocks.Keys - {n}
      && r.blocks[h] == l.blocks[h] + HEADER + l.blocks[n]
      && forall k :: k in l.blocks && k != h && k != n ==> r.blocks[k] == l.blocks[k]
  {
  }

  lemma DisjointSplit(l: Layout, h: nat, size: nat)
    requires Disjoint(l) && h in l.blocks && size + HEADER <= l.blocks[h]
    ensures var r := Split(l, h, size);
            Disjoint(r) && r.Next(h) == h + HEADER + size && r.Next(h) !in l.blocks && r.Next(r.Next(h)) == l.Next(h)
  {
    hide Split;
    SplitParts(l, h, size);
  }

  lemma LinkedSplit(l: Layout, h: nat, size: nat)
    requires Disjoint(l) && Linked(l) && h in l.blocks && size + HEADER <= l.blocks[h]
    ensures Linked(Split(l, h, size))
  {
    DisjointSplit(l, h, size);
    hide Disjoint;
    var r := Split(l, h, size);
    forall k | k in r.blocks ensures Continued(r, k) {
      assert k in l.blocks ==> Continued(l, k);
      assert Continued(l, h);
    }
  }

  lemma DisjointJoin(l: Layout, h: nat)
    requires Disjoint(l) && h in l.blocks && l.Next(h) in l.blocks
    ensures Disjoint(Join(l, h)) && Join(l, h).Next(h) == l.Next(l.Next(h))
  {
    hide Join;
    JoinParts(l, h);
  }

  lemma LinkedJoin(l: Layout, h: nat)
    requires Disjoint(l) && Linked(l) && h in l.blocks && l.Next(h) in l.blocks
    ensures Linked(Join(l, h))
  {
    var n, r := l.Next(h), Join(l, h);
    assert Continued(l, h) && Continued(l, n);
    forall k | k in r.blocks ensures Continued(r, k) {
      assert Continued(l, k);
      assert k != h ==> l.Next(k) != n;
    }
  }

  // ----- the operations on memory -----

  // The addresses whose header words matter.
  ghost predicate Tracked(l: Layout, a: nat) {
    a in l.blocks || a in l.ends || (HEADER <= a && a - HEADER in l.ends)
  }

  ghost predicate Agree(m: Memory, m': Memory, l: Layout, except: set<nat>) {
    forall a :: Tracked(l, a) && a !in except && a in m ==> a in m' && m'[a] == m[a]
  }

  // What lies inside an object is no header that matters.
  lemma InsideIsUntracked(l: Layout, h: nat, a: nat)
    requires Disjoint(l) && h in l.blocks && Tracked(l, a)
    ensures a + HEADER <= Object(h) || l.Next(h) <= a
  {
  }

  lemma AgreeOnScribble(m: Memory, l: Layout, h: nat, lo: nat, hi: nat)
    requires Disjoint(l) && h in l.blocks && Object(h) <= lo <= hi <= l.Next(h)
    ensures Agree(m, Scribble(m, lo, hi), l, {})
  {
    forall a | Tracked(l, a) && a in m ensures a in Scribble(m, lo, hi) {
      InsideIsUntracked(l, h, a);
    }
  }

  lemma AgreeOnWrite(m: Memory, l: Layout, h: nat, a: nat, w: Header)
    requires Disjoint(l) && h in l.blocks && Object(h) <= a && a + HEADER <= l.Next(h)
    ensures Agree(m, Write(m, a, w), l, {})
  {
    forall b | Tracked(l, b) && b in m ensures b in Write(m, a, w) && Write(m, a, w)[b] == m[b] {
      InsideIsUntracked(l, h, b);
    }
  }

  lemma SizedAgree(m: Memory, m': Memory, l: Layout, h: nat)
    requires Linked(l) && h in l.blocks && Sized(m, l, h) && Agree(m, m', l, {})
    ensures Sized(m', l, h) && m'[l.Next(h)] == m[l.Next(h)]
  {
    assert Continued(l, h) && Tracked(l, h) && Tracked(l, l.Next(h));
  }

  lemma PrecededAgree(m: Memory, m': Memory, l: Layout, h: nat)
    requires Preceded(m, l, h) && (h in l.blocks || h in l.ends) && Agree(m, m', l, {})
    ensures Preceded(m', l, h)
  {
    assert Tracked(l, h);
  }

  lemma BorderedAgree(m: Memory, m': Memory, l: Layout)
    requires Linked(l) && Bordered(m, l) && Agree(m, m', l, {})
    ensures Bordered(m', l)
  {
    forall e | e in l.ends ensures e in m' && m'[e] == m[e] && e + HEADER in m' && m'[e + HEADER] == m[e + HEADER] {
      assert Tracked(l, e) && Tracked(l, e + HEADER);
    }
    forall h | h in l.starts ensures h in m' && m'[h] == m[h] {
      assert Tracked(l, h);
    }
  }

  // Only the tracked words count.
  lemma TaggedAgree(m: Memory, m': Memory, l: Layout, dict: set<nat>, exempt: set<nat>, open: nat)
    requires Linked(l) && Tagged(m, l, dict, exempt, open) && Agree(m, m', l, {}) && Apart(m')
    ensures Tagged(m', l, dict, exempt, open)
  {
    hide Agree, Linked, Preceded;
    forall h | h in l.blocks ensures Sized(m', l, h) && (h != open ==> Marked(m', l, dict, exempt, h)) {
      SizedAgree(m, m', l, h);
    }
    forall h | (h in l.blocks && h !in l.starts) || h in l.ends ensures Preceded(m', l, h) {
      assert Preceded(m, l, h);
      PrecededAgree(m, m', l, h);
    }
    BorderedAgree(m, m', l);
  }

  // The headers at both ends of a block are there, and matter.
  lemma HeadersTracked(m: Memory, l: Layout, h: nat)
    requires Linked(l) && AllSized(m, l) && h in l.blocks
    ensures 0 < h && h in m && l.Next(h) in m && Tracked(l, h) && Tracked(l, l.Next(h)) && Sized(m, l, h)
  {
    assert Sized(m, l, h) && Continued(l, h);
  }

  // No two blocks share a successor.
  lemma OneSuccessor(l: Layout, h: nat, k: nat)
    requires Disjoint(l) && h in l.blocks && k in l.blocks && h != k
    ensures l.Next(h) != l.Next(k)
  {
  }

  // The words a split writes.
  ghost predicate SplitWords(m: Memory, m': Memory, l: Layout, h: nat, size: nat)
    requires h in l.blocks && size + HEADER <= l.blocks[h]
  {
    var n, piece, rest := l.Next(h), h + HEADER + size, l.blocks[h] - size - HEADER;
    && h in m && n in m && piece in m' && m'[piece] == Header(false, size, rest)
    && h in m' && m'[h] == m[h].(size := size)
    && n in m' && m'[n] == m[n].(prevSize := rest)
    && Agree(m, m', l, {h, n}) && Apart(m')
  }

  lemma UpdateKeepsApart(m: Memory, a: nat, w: Header)
    requires Apart(m) && a in m
    ensures Apart(m[a := w])
  {
  }

  // The header of the new piece goes where no header that matters is.
  lemma SplitWrite(m: Memory, m1: Memory, l: Layout, h: nat, size: nat, junk: bool)
    requires Disjoint(l) && Linked(l) && Apart(m) && AllSized(m, l) && h in l.blocks && size + HEADER <= l.blocks[h]
    requires m1 == m[h := m[h].(size := size)]
    ensures var n, piece, rest := l.Next(h), h + HEADER + size, l.blocks[h] - size - HEADER;
            var m2 := Write(m1, piece, Header(junk, size, rest));
            && h in m2 && m2[h] == m1[h] && n in m && n in m2 && m2[n] == m[n]
            && piece in m2 && m2[piece] == Header(junk, size, rest) && Apart(m2)
            && Agree(m1, m2, l, {})
  {
    hide AllSized, Sized, Linked, Continued, Disjoint, Apart, Tracked, Write;
    var n, piece, rest := l.Next(h), h + HEADER + size, l.blocks[h] - size - HEADER;
    HeadersTracked(m, l, h);
    UpdateKeepsApart(m, h, m1[h]);
    AgreeOnWrite(m1, l, h, piece, Header(junk, size, rest));
    WriteKeepsApart(m1, piece, Header(junk, size, rest));
  }

  lemma CoalescedSplit(l: Layout, dict: set<nat>, h: nat, size: nat)
    requires Disjoint(l) && h in l.blocks && size + HEADER <= l.blocks[h] && Object(h) !in dict
    requires Object(l.Next(h)) !in dict && Object(h + HEADER + size) !in dict && Coalesced(l, dict)
    ensures Coalesced(Split(l, h, size), dict + {Object(h + HEADER + size)})
  {
    DisjointSplit(l, h, size);
    var r, piece := Split(l, h, size), h + HEADER + size;
    forall k | k in r.blocks && Object(k) in dict + {Object(piece)}
      ensures Object(r.Next(k)) !in dict + {Object(piece)}
    {
      if k != piece {
        OneSuccessor(l, h, k);
        PieceIsNoSuccessor(l, h, piece, k);
      }
    }
  }

  lemma PieceIsNoSuccessor(l: Layout, h: nat, piece: nat, k: nat)
    requires Disjoint(l) && h in l.blocks && k in l.blocks && Object(h) <= piece < l.Next(h)
    ensures l.Next(k) != piece
  {
  }

  lemma CoalescedJoin(l: Layout, dict: set<nat>, h: nat)
    requires Disjoint(l) && h in l.blocks && l.Next(h) in l.blocks
    requires Object(h) !in dict && Object(l.Next(h)) !in dict && Coalesced(l, dict)
    ensures Coalesced(Join(l, h), dict)
  {
    DisjointJoin(l, h);
  }

  // The block in front of h is not free.
  ghost predicate Isolated(l: Layout, dict: set<nat>, h: nat) {
    forall k :: k in l.blocks && l.Next(k) == h ==> Object(k) !in dict
  }

  lemma IsolatedJoin(l: Layout, dict: set<nat>, h: nat, k: nat)
    requires Disjoint(l) && h in l.blocks && l.Next(h) in l.blocks && Object(h) !in dict && Object(l.Next(h)) !in dict
    requires k != l.Next(h) && Isolated(l, dict, k)
    ensures Isolated(Join(l, h), dict, k)
  {
    DisjointJoin(l, h);
  }

  lemma CoalescedInsert(l: Layout, dict: set<nat>, h: nat)
    requires h in l.blocks && Coalesced(l, dict) && Object(l.Next(h)) !in dict
    requires Isolated(l, dict, h)
    ensures Coalesced(l, dict + {Object(h)})
  {
  }

  lemma SplitAgree(m: Memory, m1: Memory, m2: Memory, m': Memory, l: Layout, h: nat, n: nat, piece: nat)
    requires Agree(m1, m2, l, {}) && h in m1 && m1 == m[h := m1[h]]
    requires n in m' && piece in m' && m' == m2[n := m'[n]][piece := m'[piece]] && !Tracked(l, piece)
    ensures Agree(m, m', l, {h, n})
  {
  }

  lemma PieceIsUntracked(l: Layout, h: nat, piece: nat)
    requires Disjoint(l) && h in l.blocks && Object(h) <= piece && piece + HEADER <= l.Next(h)
    ensures !Tracked(l, piece) && piece != h && piece != l.Next(h)
  {
    if Tracked(l, piece) {
      InsideIsUntracked(l, h, piece);
    }
  }

  ghost predicate SameFlag(m: Memory, m': Memory, a: nat) {
    a in m && a in m' && m'[a].prevFree == m[a].prevFree
  }

  lemma SizedSplit(m: Memory, m': Memory, l: Layout, h: nat, size: nat, k: nat)
    requires Disjoint(l) && Linked(l) && AllSized(m, l)
    requires h in l.blocks && size + HEADER <= l.blocks[h] && SplitWords(m, m', l, h, size)
    requires k in Split(l, h, size).blocks
    ensures Sized(m', Split(l, h, size), k)
    ensures k in l.blocks && k != h ==> SameFlag(m, m', l.Next(k))
    ensures 0 < k
  {
    hide Split, Disjoint, Linked, AllSized, Tracked, Apart;
    SplitParts(l, h, size);
    DisjointSplit(l, h, size);
    HeadersTracked(m, l, h);
    if k in l.blocks && k != h {
      OneSuccessor(l, h, k);
      HeadersTracked(m, l, k);
    }
  }

  lemma PrecededSplit(m: Memory, m': Memory, l: Layout, h: nat, size: nat, k: nat)
    requires Disjoint(l)
    requires h in l.blocks && size + HEADER <= l.blocks[h] && SplitWords(m, m', l, h, size)
    requires k == h + HEADER + size || ((k in l.blocks || k in l.ends) && Preceded(m, l, k))
    ensures Preceded(m', Split(l, h, size), k)
  {
    hide Split, Disjoint, Apart;
    SplitParts(l, h, size);
    DisjointSplit(l, h, size);
    if k != h + HEADER + size && k != l.Next(h) {
      assert Tracked(l, k);
      assert k - HEADER - m[k].prevSize != h;
    }
  }

  lemma BorderedSplit(m: Memory, m': Memory, l: Layout, h: nat, size: nat)
    requires Disjoint(l) && Linked(l) && Bordered(m, l)
    requires h in l.blocks && size + HEADER <= l.blocks[h] && SplitWords(m, m', l, h, size)
    ensures Bordered(m', Split(l, h, size))
  {
    assert Continued(l, h);
    forall e | e in l.ends ensures e in m' && m'[e].size == 0 && e + HEADER in m' && !m'[e + HEADER].prevFree {
      assert Tracked(l, e) && Tracked(l, e + HEADER);
    }
    forall k | k in l.starts ensures k in m' && m'[k].prevSize == 0 && !m'[k].prevFree {
      assert Tracked(l, k);
    }
  }

  lemma SplitFlags(m: Memory, m': Memory, l: Layout, h: nat, size: nat)
    requires h in l.blocks && size + HEADER <= l.blocks[h] && SplitWords(m, m', l, h, size)
    ensures SameFlag(m, m', l.Next(h)) && h + HEADER + size in m' && !m'[h + HEADER + size].prevFree
  {
  }

  lemma MarkedSplitAt(m: Memory, m': Memory, l: Layout, dict: set<nat>, exempt: set<nat>, h: nat, size: nat, k: nat)
    requires Disjoint(l) && Linked(l) && AllSized(m, l) && AllMarked(m, l, dict, exempt, 0)
    requires h in l.blocks && size + HEADER <= l.blocks[h] && Object(h) !in dict && SplitWords(m, m', l, h, size)
    requires Object(h + HEADER + size) !in dict
    requires k in Split(l, h, size).blocks
    ensures 0 < k && Sized(m', Split(l, h, size), k) && Marked(m', Split(l, h, size), dict, exempt, k)
  {
    hide Disjoint, Linked, SplitWords, Split, AllSized, Sized;
    var r, piece := Split(l, h, size), h + HEADER + size;
    SplitParts(l, h, size);
    DisjointSplit(l, h, size);
    SplitFlags(m, m', l, h, size);
    SizedNext(m, l);
    SizedSplit(m, m', l, h, size, k);
    assert Marked(m, l, dict, exempt, if k == piece then h else k);
    assert Marked(m, l, dict, exempt, h);
  }

  lemma MarkedSplit(m: Memory, m': Memory, l: Layout, dict: set<nat>, exempt: set<nat>, h: nat, size: nat)
    requires Disjoint(l) && Linked(l) && AllSized(m, l) && AllMarked(m, l, dict, exempt, 0)
    requires h in l.blocks && size + HEADER <= l.blocks[h] && Object(h) !in dict && SplitWords(m, m', l, h, size)
    ensures AllSized(m', Split(l, h, size)) && AllMarked(m', Split(l, h, size), dict, exempt, 0)
    ensures Object(h + HEADER + size) !in dict
  {
    var r := Split(l, h, size);
    DisjointSplit(l, h, size);
    assert forall p :: p in dict ==> p - HEADER in r.blocks;
    hide Disjoint, Linked, Agree, SplitWords, Sized, Marked;
    forall k | k in r.blocks ensures 0 < k && Sized(m', r, k) {
      MarkedSplitAt(m, m', l, dict, exempt, h, size, k);
    }
    forall k | k in r.blocks ensures Sized(m', r, k) && Marked(m', r, dict, exempt, k) {
      MarkedSplitAt(m, m', l, dict, exempt, h, size, k);
    }
  }

  lemma AllPrecededSplit(m: Memory, m': Memory, l: Layout, h: nat, size: nat)
    requires Disjoint(l) && AllPreceded(m, l)
    requires h in l.blocks && size + HEADER <= l.blocks[h] && SplitWords(m, m', l, h, size)
    ensures AllPreceded(m', Split(l, h, size))
  {
    var r, piece := Split(l, h, size), h + HEADER + size;
    hide Disjoint, Preceded, SplitWords;
    forall k | (k in r.blocks && k !in r.starts) || k in r.ends ensures Preceded(m', r, k) {
      assert k != piece ==> Preceded(m, l, k);
      PrecededSplit(m, m', l, h, size, k);
    }
  }

  // Splitting a block in use leaves two blocks in use.
  lemma TaggedSplit(m: Memory, m': Memory, l: Layout, dict: set<nat>, exempt: set<nat>, h: nat, size: nat)
    requires Disjoint(l) && Linked(l) && Tagged(m, l, dict, exempt, 0)
    requires h in l.blocks && size + HEADER <= l.blocks[h] && Object(h) !in dict && SplitWords(m, m', l, h, size)
    ensures Disjoint(Split(l, h, size)) && Linked(Split(l, h, size))
    ensures Tagged(m', Split(l, h, size), dict, exempt, 0) && Object(h + HEADER + size) !in dict
  {
    assert Apart(m');
    hide Disjoint, Linked, Preceded, SplitWords, AllSized, AllMarked, AllPreceded, Bordered, Split, Apart;
    DisjointSplit(l, h, size);
    LinkedSplit(l, h, size);
    MarkedSplit(m, m', l, dict, exempt, h, size);
    AllPrecededSplit(m, m', l, h, size);
    BorderedSplit(m, m', l, h, size);
  }

  // The words a join writes.
  ghost predicate JoinWords(m: Memory, m': Memory, l: Layout, h: nat)
    requires h in l.blocks && l.Next(h) in l.blocks
  {
    var n := l.Next(h);
    var end, size := l.Next(n), l.blocks[h] + HEADER + l.blocks[n];
    && h in m && end in m
    && h in m' && m'[h] == m[h].(size := size)
    && end in m' && m'[end] == m[end].(prevSize := size)
    && Agree(m, m', l, {h, end}) && Apart(m')
  }

  lemma JoinAgree(m: Memory, m': Memory, l: Layout, h: nat, end: nat)
    requires h in m' && end in m' && m' == m[h := m'[h]][end := m'[end]]
    ensures Agree(m, m', l, {h, end})
  {
  }

  lemma SizedJoin(m: Memory, m': Memory, l: Layout, h: nat, k: nat)
    requires Disjoint(l) && Linked(l) && AllSized(m, l)
    requires h in l.blocks && l.Next(h) in l.blocks && JoinWords(m, m', l, h)
    requires k in Join(l, h).blocks
    ensures k in l.blocks && k != l.Next(h) && Sized(m', Join(l, h), k)
    ensures SameFlag(m, m', if k == h then l.Next(l.Next(h)) else l.Next(k))
  {
    hide Join, Disjoint, Linked, AllSized, Tracked, Apart;
    JoinParts(l, h);
    DisjointJoin(l, h);
    HeadersTracked(m, l, h);
    HeadersTracked(m, l, l.Next(h));
    if k != h {
      OneSuccessor(l, h, k);
      OneSuccessor(l, l.Next(h), k);
      HeadersTracked(m, l, k);
    }
  }

  lemma PrecededJoin(m: Memory, m': Memory, l: Layout, h: nat, k: nat)
    requires Disjoint(l)
    requires h in l.blocks && l.Next(h) in l.blocks && JoinWords(m, m', l, h)
    requires k != l.Next(h) && (k in l.blocks || k in l.ends) && Preceded(m, l, k)
    ensures Preceded(m', Join(l, h), k)
  {
    hide Join, Disjoint, Apart;
    JoinParts(l, h);
    DisjointJoin(l, h);
    var n := l.Next(h);
    if k != l.Next(n) {
      assert Tracked(l, k);
      assert k - HEADER - m[k].prevSize != h && k - HEADER - m[k].prevSize != n;
    }
  }

  lemma BorderedJoin(m: Memory, m': Memory, l: Layout, h: nat)
    requires Disjoint(l) && Linked(l) && Bordered(m, l)
    requires h in l.blocks && l.Next(h) in l.blocks && JoinWords(m, m', l, h)
    ensures Bordered(m', Join(l, h))
  {
    assert Continued(l, h) && Continued(l, l.Next(h));
    forall e | e in l.ends ensures e in m' && m'[e].size == 0 && e + HEADER in m' && !m'[e + HEADER].prevFree {
      assert Tracked(l, e) && Tracked(l, e + HEADER);
    }
    forall k | k in l.starts ensures k in m' && m'[k].prevSize == 0 && !m'[k].prevFree {
      assert Tracked(l, k);
    }
  }

  lemma MarkedJoin(m: Memory, m': Memory, l: Layout, dict: set<nat>, exempt: set<nat>, h: nat, open: nat)
    requires Disjoint(l) && Linked(l) && AllSized(m, l) && AllMarked(m, l, dict, exempt, open)
    requires h in l.blocks && l.Next(h) in l.blocks && JoinWords(m, m', l, h)
    requires Object(h) !in dict && Object(l.Next(h)) !in dict
    requires open == h || open == l.Next(h)
    ensures AllSized(m', Join(l, h)) && AllMarked(m', Join(l, h), dict, exempt, if open == h then 0 else h)
  {
    hide Disjoint, Linked, JoinWords, AllSized, Sized, Join;
    var r, n := Join(l, h), l.Next(h);
    JoinParts(l, h);
    DisjointJoin(l, h);
    SizedNext(m, l);
    forall k | k in r.blocks ensures 0 < k && Sized(m', r, k) {
      SizedJoin(m, m', l, h, k);
    }
    SizedIsAll(m', r);
    SizedNext(m', r);
    forall k | k in r.blocks
      ensures k != h || open == h ==> Marked(m', r, dict, exempt, k)
    {
      SizedJoin(m, m', l, h, k);
      assert Marked(m, l, dict, exempt, if k == h then if open == h then n else h else k);
    }
  }

  lemma AllPrecededJoin(m: Memory, m': Memory, l: Layout, h: nat)
    requires Disjoint(l) && AllPreceded(m, l)
    requires h in l.blocks && l.Next(h) in l.blocks && JoinWords(m, m', l, h)
    ensures AllPreceded(m', Join(l, h))
  {
    var r := Join(l, h);
    BlockIsNoEnd(l, l.Next(h));
    hide Disjoint, Preceded, JoinWords;
    forall k | (k in r.blocks && k !in r.starts) || k in r.ends ensures Preceded(m', r, k) {
      assert k in r.blocks ==> k in l.blocks;
      assert Preceded(m, l, k);
      PrecededJoin(m, m', l, h, k);
    }
  }

  // Joining two blocks that are out of the dictionary. The free bit of the
  // second becomes that of the whole.
  lemma TaggedJoin(m: Memory, m': Memory, l: Layout, dict: set<nat>, exempt: set<nat>, h: nat, open: nat)
    requires Disjoint(l) && Linked(l) && Tagged(m, l, dict, exempt, open)
    requires h in l.blocks && l.Next(h) in l.blocks && JoinWords(m, m', l, h)
    requires Object(h) !in dict && Object(l.Next(h)) !in dict
    requires open == h || open == l.Next(h)
    ensures Disjoint(Join(l, h)) && Linked(Join(l, h))
    ensures Tagged(m', Join(l, h), dict, exempt, if open == h then 0 else h)
  {
    assert Apart(m');
    hide Disjoint, Linked, Preceded, JoinWords, AllSized, AllMarked, AllPreceded, Bordered, Join, Apart;
    DisjointJoin(l, h);
    LinkedJoin(l, h);
    MarkedJoin(m, m', l, dict, exempt, h, open);
    AllPrecededJoin(m, m', l, h);
    BorderedJoin(m, m', l, h);
  }

  lemma BlockIsNoEnd(l: Layout, h: nat)
    requires Disjoint(l) && h in l.blocks
    ensures h !in l.ends
  {
  }

  // The word that setting the free bit of block h writes.
  ghost predicate MarkWord(m: Memory, m': Memory, l: Layout, h: nat, free: bool)
    requires h in l.blocks
  {
    var n := l.Next(h);
    n in m && n in m' && m'[n] == m[n].(prevFree := free) && Agree(m, m', l, {n}) && Apart(m')
  }

  lemma MarkAgree(m: Memory, m': Memory, l: Layout, n: nat)
    requires n in m' && m' == m[n := m'[n]]
    ensures Agree(m, m', l, {n})
  {
  }

  lemma MarkedMark(m: Memory, m': Memory, l: Layout, dict: set<nat>, dict': set<nat>, exempt: set<nat>, h: nat,
                   open: nat, free: bool)
    requires Disjoint(l) && Linked(l) && AllSized(m, l) && AllMarked(m, l, dict, exempt, open)
    requires h in l.blocks && Object(h) !in dict && MarkWord(m, m', l, h, free) && (open == 0 || open == h)
    requires dict' == (if free then dict + {Object(h)} else dict) && (free ==> h !in exempt)
    ensures AllSized(m', l) && AllMarked(m', l, dict', exempt, 0)
  {
    forall k | k in l.blocks ensures Sized(m', l, k) && Marked(m', l, dict', exempt, k) {
      assert Sized(m, l, k) && Continued(l, k) && Tracked(l, k) && Tracked(l, l.Next(k));
      if k != h {
        OneSuccessor(l, h, k);
        assert Marked(m, l, dict, exempt, k);
      }
    }
  }

  lemma PrecededMark(m: Memory, m': Memory, l: Layout, h: nat, free: bool)
    requires h in l.blocks && AllPreceded(m, l) && MarkWord(m, m', l, h, free)
    ensures AllPreceded(m', l)
  {
    forall k | (k in l.blocks && k !in l.starts) || k in l.ends ensures Preceded(m', l, k) {
      assert Preceded(m, l, k) && Tracked(l, k);
    }
  }

  lemma BorderedMark(m: Memory, m': Memory, l: Layout, h: nat, free: bool)
    requires Disjoint(l) && Linked(l) && Bordered(m, l)
    requires h in l.blocks && MarkWord(m, m', l, h, free)
    ensures Bordered(m', l)
  {
    assert Continued(l, h);
    forall e | e in l.ends ensures e in m' && m'[e].size == 0 && e + HEADER in m' && !m'[e + HEADER].prevFree {
      assert Tracked(l, e) && Tracked(l, e + HEADER);
    }
    forall k | k in l.starts ensures k in m' && m'[k].prevSize == 0 && !m'[k].prevFree {
      assert Tracked(l, k);
    }
  }

  // Setting the free bit of a block that is out of the dictionary; with the
  // bit set it goes into the dictionary.
  lemma TaggedMark(m: Memory, m': Memory, l: Layout, dict: set<nat>, dict': set<nat>, exempt: set<nat>, h: nat,
                   open: nat, free: bool)
    requires Disjoint(l) && Linked(l) && Tagged(m, l, dict, exempt, open)
    requires h in l.blocks && Object(h) !in dict && MarkWord(m, m', l, h, free) && (open == 0 || open == h)
    requires dict' == (if free then dict + {Object(h)} else dict) && (free ==> h !in exempt)
    ensures Tagged(m', l, dict', exempt, 0)
  {
    assert Apart(m');
    hide Disjoint, Linked, MarkWord, AllSized, AllMarked, AllPreceded, Bordered, Apart;
    MarkedMark(m, m', l, dict, dict', exempt, h, open, free);
    PrecededMark(m, m', l, h, free);
    BorderedMark(m, m', l, h, free);
  }

  // Taking a block out of the dictionary leaves its own bit open.
  lemma MarkedTake(m: Memory, l: Layout, dict: set<nat>, exempt: set<nat>, h: nat)
    requires AllSized(m, l) && AllMarked(m, l, dict, exempt, 0) && Object(h) in dict
    ensures h in l.blocks && AllMarked(m, l, dict - {Object(h)}, exempt - {h}, h)
  {
    SizedNext(m, l);
    hide AllSized;
    forall k | k in l.blocks && k != h ensures Marked(m, l, dict - {Object(h)}, exempt - {h}, k) {
      assert Marked(m, l, dict, exempt, k);
    }
  }

  lemma SizedIsAll(m: Memory, l: Layout)
    requires forall h :: h in l.blocks ==> 0 < h && Sized(m, l, h)
    ensures AllSized(m, l)
  {
  }

  lemma SizedNext(m: Memory, l: Layout)
    requires AllSized(m, l)
    ensures forall k :: k in l.blocks ==> 0 < k && l.Next(k) in m
  {
    forall k | k in l.blocks ensures 0 < k && l.Next(k) in m {
      assert Sized(m, l, k);
    }
  }

  lemma TaggedTake(m: Memory, l: Layout, dict: set<nat>, exempt: set<nat>, h: nat)
    requires Tagged(m, l, dict, exempt, 0) && Object(h) in dict
    ensures h in l.blocks && Tagged(m, l, dict - {Object(h)}, exempt - {h}, h)
  {
    hide AllSized, AllMarked, AllPreceded, Bordered, Apart;
    MarkedTake(m, l, dict, exempt, h);
  }

  // A block in use may enter the dictionary without its bit; it is exempt then.
  lemma MarkedSealed(m: Memory, l: Layout, dict: set<nat>, exempt: set<nat>, h: nat)
    requires AllSized(m, l) && AllMarked(m, l, dict, exempt, 0) && h in l.blocks && Object(h) !in dict
    ensures AllMarked(m, l, dict + {Object(h)}, exempt + {h}, 0)
  {
    SizedNext(m, l);
    hide AllSized;
    forall k | k in l.blocks ensures Marked(m, l, dict + {Object(h)}, exempt + {h}, k) {
      assert Marked(m, l, dict, exempt, k);
    }
  }

  lemma TaggedSealed(m: Memory, l: Layout, dict: set<nat>, exempt: set<nat>, h: nat)
    requires Tagged(m, l, dict, exempt, 0) && h in l.blocks && Object(h) !in dict
    ensures Tagged(m, l, dict + {Object(h)}, exempt + {h}, 0)
  {
    hide AllSized, AllMarked, AllPreceded, Bordered, Apart;
    MarkedSealed(m, l, dict, exempt, h);
  }

  // ----- a block from fresh memory -----

  // Nothing but the end header at lo, if there is one, lies in [lo, hi).
  ghost predicate Room(l: Layout, lo: nat, hi: nat) {
    && (forall h :: h in l.blocks ==> l.Next(h) <= lo || hi <= h)
    && (forall e :: e in l.ends && e != lo ==> e + 2 * HEADER <= lo || hi <= e)
  }

  // A block at h with `size` bytes: behind the last block of the region that
  // ends at h, or the first of a new region.
  function Grow(l: Layout, h: nat, size: nat): Layout {
    Layout(l.blocks[h := size],
           if h in l.ends then l.starts else l.starts + {h},
           l.ends - {h} + {h + HEADER + size})
  }

  ghost predicate GrowWords(m: Memory, m': Memory, l: Layout, h: nat, size: nat) {
    var n := h + HEADER + size;
    && (h in l.ends ==> h in m)
    && h in m' && m'[h] == Header(h in l.ends && m[h].prevFree, if h in l.ends then m[h].prevSize else 0, size)
    && n in m' && m'[n].prevSize == size && m'[n].size == 0
    && n + HEADER in m' && !m'[n + HEADER].prevFree
    && Agree(m, m', l, {h, h + HEADER}) && Apart(m')
  }

  lemma RoomIsUntracked(l: Layout, lo: nat, hi: nat, a: nat)
    requires Room(l, lo, hi) && Tracked(l, a) && a != lo && a != lo + HEADER
    ensures a + HEADER <= lo || hi <= a
  {
  }

  lemma AgreeInRoom(m: Memory, m1: Memory, l: Layout, lo: nat, hi: nat, a: nat, w: Header)
    requires Room(l, lo, hi) && lo <= a && a + HEADER <= hi
    requires Agree(m, m1, l, {lo, lo + HEADER})
    ensures Agree(m, Write(m1, a, w), l, {lo, lo + HEADER})
    ensures forall b :: b in m1 && (b + HEADER <= a || a + HEADER <= b) ==>
      b in Write(m1, a, w) && Write(m1, a, w)[b] == m1[b]
  {
    forall b | Tracked(l, b) && b !in {lo, lo + HEADER} && b in m
      ensures b in Write(m1, a, w) && Write(m1, a, w)[b] == m[b]
    {
      RoomIsUntracked(l, lo, hi, b);
    }
  }

  lemma AgreeRefl(m: Memory, l: Layout, except: set<nat>)
    ensures Agree(m, m, l, except)
  {
  }

  lemma EndsInMemory(m: Memory, l: Layout, dict: set<nat>, exempt: set<nat>, open: nat)
    requires Tagged(m, l, dict, exempt, open)
    ensures Apart(m) && forall e :: e in l.ends ==> e in m
  {
  }

  lemma GrownParts(l: Layout, h: nat, size: nat)
    ensures h + HEADER + size in Grow(l, h, size).ends
    ensures l.starts <= Grow(l, h, size).starts
  {
  }

  lemma RoomIn(l: Layout, lo: nat, hi: nat, hi': nat)
    requires Room(l, lo, hi') && hi <= hi'
    ensures Room(l, lo, hi)
  {
  }

  lemma RoomAfterSplit(l: Layout, h: nat, size: nat, lo: nat, hi: nat)
    requires Room(l, lo, hi) && h in l.blocks && size + HEADER <= l.blocks[h]
    ensures Room(Split(l, h, size), lo, hi)
  {
  }

  lemma RoomAfterJoin(l: Layout, h: nat, lo: nat, hi: nat)
    requires Disjoint(l) && Room(l, lo, hi) && lo in l.ends && h in l.blocks && l.Next(h) in l.blocks
    ensures Room(Join(l, h), lo, hi)
  {
  }

  lemma RoomAfterGrow(l: Layout, h: nat, size: nat, hi: nat)
    requires Room(l, h, hi) && h + size + 3 * HEADER <= hi
    ensures Room(Grow(l, h, size), h + HEADER + size, hi)
  {
  }

  // A block in use behind the last one is next to no other.
  lemma CoalescedGrow(l: Layout, dict: set<nat>, h: nat, size: nat)
    requires h !in l.blocks && Object(h) !in dict
    ensures Coalesced(l, dict) ==> Coalesced(Grow(l, h, size), dict)
  {
  }

  lemma DisjointGrow(l: Layout, h: nat, size: nat)
    requires Disjoint(l) && Room(l, h, h + size + 3 * HEADER)
    ensures h !in l.blocks && Disjoint(Grow(l, h, size))
  {
  }

  lemma LinkedGrow(l: Layout, h: nat, size: nat)
    requires Linked(l) && Room(l, h, h + size + 3 * HEADER)
    ensures Linked(Grow(l, h, size))
  {
    var r := Grow(l, h, size);
    forall k | k in r.blocks ensures Continued(r, k) {
      assert k in l.blocks ==> Continued(l, k);
    }
  }

  lemma SizedGrow(m: Memory, m': Memory, l: Layout, h: nat, size: nat, k: nat)
    requires Disjoint(l) && Linked(l) && AllSized(m, l)
    requires Room(l, h, h + size + 3 * HEADER) && GrowWords(m, m', l, h, size)
    requires k in l.blocks && k != h
    ensures Grow(l, h, size).Next(k) == l.Next(k) && Sized(m', Grow(l, h, size), k)
    ensures m'[l.Next(k)].prevFree == m[l.Next(k)].prevFree
  {
    assert Sized(m, l, k) && Continued(l, k) && Tracked(l, k) && Tracked(l, l.Next(k));
  }

  lemma MarkedGrow(m: Memory, m': Memory, l: Layout, dict: set<nat>, exempt: set<nat>, h: nat, size: nat)
    requires Disjoint(l) && Linked(l) && AllSized(m, l) && AllMarked(m, l, dict, exempt, 0)
    requires 0 < h && Room(l, h, h + size + 3 * HEADER) && GrowWords(m, m', l, h, size)
    ensures AllSized(m', Grow(l, h, size)) && AllMarked(m', Grow(l, h, size), dict, exempt, h)
  {
    var r := Grow(l, h, size);
    DisjointGrow(l, h, size);
    assert Sized(m', r, h);
    assert r.blocks == l.blocks[h := size];
    hide Disjoint, Linked, Room, GrowWords, Grow;
    forall k | k in r.blocks ensures 0 < k && Sized(m', r, k) && (k != h ==> Marked(m', r, dict, exempt, k)) {
      if k != h {
        SizedGrow(m, m', l, h, size, k);
        assert Marked(m, l, dict, exempt, k);
      }
    }
  }

  lemma PrecededGrow(m: Memory, m': Memory, l: Layout, h: nat, size: nat)
    requires Disjoint(l) && AllPreceded(m, l)
    requires Room(l, h, h + size + 3 * HEADER) && GrowWords(m, m', l, h, size)
    ensures AllPreceded(m', Grow(l, h, size))
  {
    var r := Grow(l, h, size);
    forall k | (k in r.blocks && k !in r.starts) || k in r.ends ensures Preceded(m', r, k) {
      if k != h + HEADER + size {
        assert Preceded(m, l, k) && Tracked(l, k);
      }
    }
  }

  lemma EndKept(m: Memory, m': Memory, l: Layout, h: nat, size: nat, e: nat)
    requires Disjoint(l) && Bordered(m, l) && e in l.ends && e != h
    requires Room(l, h, h + size + 3 * HEADER) && GrowWords(m, m', l, h, size)
    ensures e in m' && m'[e].size == 0 && e + HEADER in m' && !m'[e + HEADER].prevFree
  {
    assert Tracked(l, e) && Tracked(l, e + HEADER);
  }

  lemma StartKept(m: Memory, m': Memory, l: Layout, h: nat, size: nat, k: nat)
    requires Linked(l) && Bordered(m, l) && k in l.starts
    requires Room(l, h, h + size + 3 * HEADER) && GrowWords(m, m', l, h, size)
    ensures k in m' && m'[k].prevSize == 0 && !m'[k].prevFree
  {
    assert Tracked(l, k);
  }

  lemma BorderedGrow(m: Memory, m': Memory, l: Layout, h: nat, size: nat)
    requires Disjoint(l) && Linked(l) && Bordered(m, l)
    requires Room(l, h, h + size + 3 * HEADER) && GrowWords(m, m', l, h, size)
    ensures Bordered(m', Grow(l, h, size))
  {
    hide Disjoint, Linked, Room, Agree, Apart;
    forall e | e in l.ends && e != h
      ensures e in m' && m'[e].size == 0 && e + HEADER in m' && !m'[e + HEADER].prevFree
    {
      EndKept(m, m', l, h, size, e);
    }
    forall k | k in l.starts ensures k in m' && m'[k].prevSize == 0 && !m'[k].prevFree {
      StartKept(m, m', l, h, size, k);
    }
  }

  // A block from fresh memory is tagged but for its own free bit. Behind a
  // region its header is the old end header, whose tags are already right.
  lemma TaggedGrow(m: Memory, m': Memory, l: Layout, dict: set<nat>, exempt: set<nat>, h: nat, size: nat)
    requires Disjoint(l) && Linked(l) && Tagged(m, l, dict, exempt, 0)
    requires 0 < h && Room(l, h, h + size + 3 * HEADER) && GrowWords(m, m', l, h, size)
    ensures h !in l.blocks && Object(h) !in dict
    ensures Disjoint(Grow(l, h, size)) && Linked(Grow(l, h, size))
    ensures Tagged(m', Grow(l, h, size), dict, exempt, h)
  {
    DisjointGrow(l, h, size);
    assert Apart(m') && Object(h) !in dict;
    hide Disjoint, Linked, GrowWords, AllSized, AllMarked, AllPreceded, Bordered, Apart, Room, Grow;
    LinkedGrow(l, h, size);
    MarkedGrow(m, m', l, dict, exempt, h, size);
    PrecededGrow(m, m', l, h, size);
    BorderedGrow(m, m', l, h, size);
  }
}
