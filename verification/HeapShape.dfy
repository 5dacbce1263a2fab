/**
  base/heap.h: a binary heap of linked nodes.

  The ghost view lists the nodes by their index in the complete tree: the node at
  index i, counted from 1, has its parent at i / 2 and its children at 2i and 2i + 1.
  */
module HeapShape {

  import opened Basics

  /** struct heap_node; address 0 is the null pointer. */
  datatype HeapNode = HeapNode(parent: Ptr, left: Ptr, right: Ptr)

  type Memory = map<Ptr, HeapNode>
  type Keys = map<Ptr, int>

  /** The node at index i, null outside the tree. */
  function Slot(s: seq<Ptr>, i: int): Ptr {
    if 1 <= i <= |s| then s[i - 1] else 0
  }

  function NodeAt(s: seq<Ptr>, i: int): HeapNode {
    HeapNode(Slot(s, i / 2), Slot(s, 2 * i), Slot(s, 2 * i + 1))
  }

  ghost predicate Distinct(s: seq<Ptr>) {
    && (forall i, j :: 1 <= i < j <= |s| ==> Slot(s, i) != Slot(s, j))
    && (forall i :: 1 <= i <= |s| ==> Slot(s, i) != 0)
  }

  ghost predicate Placed(m: Memory, s: seq<Ptr>, i: int) {
    Slot(s, i) in m && m[Slot(s, i)] == NodeAt(s, i)
  }

  /** The nodes of s are linked in m as the complete tree of |s| nodes. */
  ghost predicate Linked(m: Memory, root: Ptr, s: seq<Ptr>) {
    && Distinct(s) && root == Slot(s, 1)
    && forall i :: 1 <= i <= |s| ==> Placed(m, s, i)
  }

  /** Nothing has been allocated or freed, and only the given nodes have been written. */
  ghost predicate OnlyWithin(m: Memory, m': Memory, s: seq<Ptr>) {
    m.Keys == m'.Keys && forall p :: p in m && p !in s ==> m'[p] == m[p]
  }

  function Swapped(s: seq<Ptr>, i: int, j: int): seq<Ptr>
    requires 1 <= i <= |s| && 1 <= j <= |s|
  {
    s[i - 1 := s[j - 1]][j - 1 := s[i - 1]]
  }

  lemma SlotSwapped(s: seq<Ptr>, i: int, j: int, c: int)
    requires 1 <= i < j <= |s|
    ensures Slot(Swapped(s, i, j), c) == if c == i then Slot(s, j) else if c == j then Slot(s, i) else Slot(s, c)
  {
  }

  lemma SwappedDistinct(s: seq<Ptr>, i: int, j: int)
    requires Distinct(s) && 1 <= i < j <= |s|
    ensures Distinct(Swapped(s, i, j))
    ensures forall p :: p in Swapped(s, i, j) <==> p in s
  {
    var s' := Swapped(s, i, j);
    assert s'[i - 1] == s[j - 1] && s'[j - 1] == s[i - 1];
    forall p | p in s ensures p in s' {
      var a :| 0 <= a < |s| && s[a] == p;
      assert a != i - 1 && a != j - 1 ==> s'[a] == p;
    }
    forall a | 1 <= a <= |s| ensures Slot(s', a) != 0 {
      SlotSwapped(s, i, j, a);
    }
    forall a, b | 1 <= a < b <= |s| ensures Slot(s', a) != Slot(s', b) {
      SlotSwapped(s, i, j, a);
      SlotSwapped(s, i, j, b);
    }
  }

  // ---- heap order

  ghost predicate Keyed(s: seq<Ptr>, key: Keys) {
    forall i :: 1 <= i <= |s| ==> Slot(s, i) in key
  }

  ghost predicate Ordered(s: seq<Ptr>, key: Keys, i: int)
    requires Keyed(s, key) && 2 <= i <= |s|
  {
    key[Slot(s, i / 2)] <= key[Slot(s, i)]
  }

  ghost predicate HeapOrdered(s: seq<Ptr>, key: Keys) {
    Keyed(s, key) && forall i :: 2 <= i <= |s| ==> Ordered(s, key, i)
  }

  /** The root has the least key. */
  lemma {:induction false} RootMinimal(s: seq<Ptr>, key: Keys, i: int)
    requires HeapOrdered(s, key) && 1 <= i <= |s|
    ensures key[Slot(s, 1)] <= key[Slot(s, i)]
    decreases i
  {
    if i > 1 {
      RootMinimal(s, key, i / 2);
      assert Ordered(s, key, i);
    }
  }

  // ---- the path to the last node

  /** The index reached from index i by d steps, the low bit of path telling right from left. */
  function Follow(i: nat, path: nat, d: nat): nat
    decreases d
  {
    if d == 0 then i else Follow(2 * i + path % 2, path / 2, d - 1)
  }

  lemma {:induction false} FollowGrows(i: nat, path: nat, d: nat)
    ensures Follow(i, path, d) >= i
    ensures d > 0 && i > 0 ==> Follow(i, path, d) > i
    decreases d
  {
    if d > 0 { FollowGrows(2 * i + path % 2, path / 2, d - 1); }
  }

  // ---- heap_swap

  /** What the assignments of heap_swap leave at the node of index a, of the node at j and its parent. */
  function AfterSwap(m: Memory, s: seq<Ptr>, j: int, p: Ptr): HeapNode
    requires 2 <= j <= |s| && p in m
  {
    var i, x, y := j / 2, Slot(s, j / 2), Slot(s, j);
    var sibling := Slot(s, if j % 2 == 0 then j + 1 else j - 1);
    if p == y then HeapNode(Slot(s, i / 2), if j % 2 == 0 then x else sibling, if j % 2 == 0 then sibling else x)
    else if p == x then HeapNode(y, Slot(s, 2 * j), Slot(s, 2 * j + 1))
    else if p == Slot(s, i / 2) then (if i % 2 == 0 then m[p].(left := y) else m[p].(right := y))
    else if p == sibling then m[p].(parent := y)
    else if p == Slot(s, 2 * j) || p == Slot(s, 2 * j + 1) then m[p].(parent := x)
    else m[p]
  }

  lemma SwapLinked(m: Memory, m': Memory, root: Ptr, root': Ptr, s: seq<Ptr>, j: int)
    requires Linked(m, root, s) && 2 <= j <= |s|
    requires m'.Keys == m.Keys && forall p :: p in s && p in m ==> m'[p] == AfterSwap(m, s, j, p)
    requires root' == if j / 2 == 1 then Slot(s, j) else root
    ensures Linked(m', root', Swapped(s, j / 2, j))
  {
    var i := j / 2;
    var s' := Swapped(s, i, j);
    SwappedDistinct(s, i, j);
    SlotSwapped(s, i, j, 1);
    forall a | 1 <= a <= |s| ensures Placed(m', s', a) {
      SwapLinkedAt(m, root, s, j, a);
      assert Slot(s', a) in s;
    }
  }

  lemma SwapLinkedAt(m: Memory, root: Ptr, s: seq<Ptr>, j: int, a: int)
    requires Linked(m, root, s) && 2 <= j <= |s| && 1 <= a <= |s|
    ensures Slot(Swapped(s, j / 2, j), a) in m
    ensures AfterSwap(m, s, j, Slot(Swapped(s, j / 2, j), a)) == NodeAt(Swapped(s, j / 2, j), a)
  {
    var i := j / 2;
    assert Placed(m, s, a) && Placed(m, s, i) && Placed(m, s, j);
    SlotSwapped(s, i, j, a);
    SlotSwapped(s, i, j, a / 2);
    SlotSwapped(s, i, j, 2 * a);
    SlotSwapped(s, i, j, 2 * a + 1);
  }

  // ---- heap order away from one index

  /** Order fails at most between index i and its parent or its children, whose keys are in order with each other. */
  ghost predicate OrderedExcept(s: seq<Ptr>, key: Keys, i: int) {
    && Keyed(s, key)
    && (forall m :: 2 <= m <= |s| && m != i && m / 2 != i ==> Ordered(s, key, m))
    && (forall m :: 2 <= m <= |s| && m / 2 == i && i >= 2 ==> key[Slot(s, i / 2)] <= key[Slot(s, m)])
  }

  ghost predicate OrderedBelow(s: seq<Ptr>, key: Keys, i: int)
    requires Keyed(s, key)
  {
    forall m :: 2 <= m <= |s| && m / 2 == i ==> Ordered(s, key, m)
  }

  /** A step of sift up: the node at i, smaller than its parent, moves to i / 2. */
  lemma SiftUpStep(s: seq<Ptr>, key: Keys, i: int)
    requires Distinct(s) && OrderedExcept(s, key, i) && OrderedBelow(s, key, i)
    requires 2 <= i <= |s| && key[Slot(s, i)] < key[Slot(s, i / 2)]
    ensures OrderedExcept(Swapped(s, i / 2, i), key, i / 2) && OrderedBelow(Swapped(s, i / 2, i), key, i / 2)
  {
    var p, s' := i / 2, Swapped(s, i / 2, i);
    forall c ensures Slot(s', c) == if c == p then Slot(s, i) else if c == i then Slot(s, p) else Slot(s, c) {
      SlotSwapped(s, p, i, c);
    }
    assert p >= 2 ==> Ordered(s, key, p);
    forall m | 2 <= m <= |s| && m / 2 == p ensures Ordered(s', key, m) {
      if m != i { assert Ordered(s, key, m); }
    }
    forall m | 2 <= m <= |s| && m / 2 == p && p >= 2 ensures key[Slot(s', p / 2)] <= key[Slot(s', m)] {
      if m != i { assert Ordered(s, key, m); }
    }
    forall m | 2 <= m <= |s| && m != p && m / 2 != p ensures Ordered(s', key, m) {
      assert m != i;
      if m / 2 == i { assert key[Slot(s, p)] <= key[Slot(s, m)]; } else { assert Ordered(s, key, m); }
    }
  }

  /** A step of sift down: the least child c of the node at i, not above it, takes its place. */
  lemma SiftDownStep(s: seq<Ptr>, key: Keys, i: int, c: int)
    requires Distinct(s) && OrderedExcept(s, key, i) && 1 <= i && 2 <= c <= |s| && c / 2 == i
    requires key[Slot(s, c)] <= key[Slot(s, i)]
    requires forall m :: 2 <= m <= |s| && m / 2 == i ==> key[Slot(s, c)] <= key[Slot(s, m)]
    ensures OrderedExcept(Swapped(s, i, c), key, c)
  {
    var s' := Swapped(s, i, c);
    forall d ensures Slot(s', d) == if d == i then Slot(s, c) else if d == c then Slot(s, i) else Slot(s, d) {
      SlotSwapped(s, i, c, d);
    }
    forall m | 2 <= m <= |s| && m / 2 == c ensures key[Slot(s', i)] <= key[Slot(s', m)] {
      assert Ordered(s, key, m);
    }
    forall m | 2 <= m <= |s| && m != c && m / 2 != c ensures Ordered(s', key, m) {
      if m / 2 == i {
      } else if m == i {
        assert key[Slot(s, i / 2)] <= key[Slot(s, c)];
      } else {
        assert Ordered(s, key, m);
      }
    }
  }

  // ---- appending, dropping and replacing a node

  /** If x is the parent of index n, its child there becomes to. */
  function WithChild(x: HeapNode, isParent: bool, n: int, to: Ptr): HeapNode {
    if !isParent then x else if n % 2 == 0 then x.(left := to) else x.(right := to)
  }

  lemma AppendLinked(m: Memory, m': Memory, root: Ptr, root': Ptr, s: seq<Ptr>, node: Ptr)
    requires Linked(m, root, s) && node != 0 && node in m && node !in s && m'.Keys == m.Keys
    requires var n := |s| + 1;
      && m'[node] == HeapNode(Slot(s, n / 2), 0, 0)
      && (forall p :: p in s && p in m ==> m'[p] == WithChild(m[p], p == Slot(s, n / 2), n, node))
      && root' == (if n == 1 then node else root)
    ensures Linked(m', root', s + [node])
  {
    var s', n := s + [node], |s| + 1;
    assert forall c :: Slot(s', c) == if c == n then node else Slot(s, c);
    assert forall c :: 1 <= c <= |s| ==> Slot(s, c) in s;
    forall a | 1 <= a <= n ensures Placed(m', s', a) {
      if a < n {
        assert Placed(m, s, a);
        assert Slot(s, a) == Slot(s, n / 2) ==> a == n / 2;
      }
    }
  }

  lemma DropLinked(m: Memory, m': Memory, root: Ptr, s: seq<Ptr>)
    requires Linked(m, root, s) && |s| >= 2 && m'.Keys == m.Keys
    requires forall p :: p in s && p in m ==> m'[p] == WithChild(m[p], p == Slot(s, |s| / 2), |s|, 0)
    ensures Linked(m', root, s[..|s| - 1])
  {
    var n, s' := |s|, s[..|s| - 1];
    assert forall c :: Slot(s', c) == if c == n then 0 else Slot(s, c);
    assert forall c :: 1 <= c <= |s| ==> Slot(s, c) in s;
    forall a | 1 <= a < n ensures Placed(m', s', a) {
      assert Placed(m, s, a);
      assert Slot(s, a) == Slot(s, n / 2) ==> a == n / 2;
    }
  }

  /** What heap_replace leaves at the node p when r takes the place of the node at index i. */
  function AfterReplace(m: Memory, s: seq<Ptr>, i: int, r: Ptr, p: Ptr): HeapNode
    requires p in m && r in m && Slot(s, i) in m
  {
    if p == r then m[Slot(s, i)]
    else if p == Slot(s, i / 2) then (if i % 2 == 0 then m[p].(left := r) else m[p].(right := r))
    else if p == Slot(s, 2 * i) || p == Slot(s, 2 * i + 1) then m[p].(parent := r)
    else m[p]
  }

  lemma SlotReplaced(s: seq<Ptr>, i: int, r: Ptr, c: int)
    requires 1 <= i <= |s|
    ensures Slot(s[i - 1 := r], c) == if c == i then r else Slot(s, c)
    ensures 1 <= c <= |s| ==> Slot(s, c) in s
  {
  }

  /** The node at index a of the new tree. */
  lemma ReplacedAt(m: Memory, m': Memory, s: seq<Ptr>, i: int, r: Ptr, a: int)
    requires Distinct(s) && 1 <= i <= |s| && 1 <= a <= |s| && Slot(s, i) in m && r in m && r != 0 && r !in s
    requires Placed(m, s, a) && Placed(m, s, i)
    requires var p := if a == i then r else Slot(s, a); p in m' && p in m && m'[p] == AfterReplace(m, s, i, r, p)
    ensures Placed(m', s[i - 1 := r], a)
  {
    SlotReplaced(s, i, r, a);
    SlotReplaced(s, i, r, a / 2);
    SlotReplaced(s, i, r, 2 * a);
    SlotReplaced(s, i, r, 2 * a + 1);
  }

  lemma ReplaceLinked(m: Memory, m': Memory, root: Ptr, root': Ptr, s: seq<Ptr>, i: int, r: Ptr)
    requires Linked(m, root, s) && 1 <= i <= |s| && Slot(s, i) in m
    requires r != 0 && r in m && r !in s && m'.Keys == m.Keys
    requires forall p :: p in m && (p in s || p == r) && p != Slot(s, i) ==> m'[p] == AfterReplace(m, s, i, r, p)
    requires root' == if i == 1 then r else root
    ensures Linked(m', root', s[i - 1 := r])
  {
    hide NodeAt, AfterReplace;
    var s' := s[i - 1 := r];
    forall a | 1 <= a <= |s| ensures Placed(m', s', a) && Slot(s', a) != 0 {
      SlotReplaced(s, i, r, a);
      assert Placed(m, s, a) && Placed(m, s, i);
      ReplacedAt(m, m', s, i, r, a);
    }
    forall a, b | 1 <= a < b <= |s'| ensures Slot(s', a) != Slot(s', b) {
      SlotReplaced(s, i, r, a);
      SlotReplaced(s, i, r, b);
    }
  }
}
