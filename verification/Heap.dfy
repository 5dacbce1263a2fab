/** base/heap.h: insertion and removal in the linked heap. */
module Heap {

  import opened Basics
  import opened HeapShape

  class Heap {
    var mem: Memory
    var root: Ptr
    var nelts: nat
    ghost var slots: seq<Ptr> // the members, by index in the complete tree

    ghost predicate Valid(key: Keys)
      reads this
    {
      Linked(mem, root, slots) && nelts == |slots| && HeapOrdered(slots, key)
    }

    /** heap_init */
    constructor ()
      ensures Valid(map[]) && mem == map[] && slots == []
    {
      mem, root, nelts, slots := map[], 0, 0, [];
    }

    /** heap_swap, the links from above and from the grandchildren. */
    method SwapOuter(pparent: Ptr, parent: Ptr, child: Ptr, lchild: Ptr, rchild: Ptr)
      requires pparent != 0 ==> pparent in mem && pparent != lchild && pparent != rchild
      requires pparent != 0 ==> mem[pparent].left == parent || mem[pparent].right == parent
      requires (lchild != 0 ==> lchild in mem && lchild != rchild) && (rchild != 0 ==> rchild in mem)
      modifies this`mem, this`root
      ensures root == if pparent == 0 then child else old(root)
      ensures mem.Keys == old(mem).Keys && forall p :: p in mem ==> mem[p] == OuterSwapped(old(mem), pparent, parent, child, lchild, rchild, p)
    {
      if pparent == 0 {
        root := child;
      } else if mem[pparent].left == parent {
        mem := mem[pparent := mem[pparent].(left := child)];
      } else if mem[pparent].right == parent {
        mem := mem[pparent := mem[pparent].(right := child)];
      }
      if lchild != 0 { mem := mem[lchild := mem[lchild].(parent := parent)]; }
      if rchild != 0 { mem := mem[rchild := mem[rchild].(parent := parent)]; }
    }

    /** heap_swap, the links among parent, child and sibling. */
    method SwapInner(pparent: Ptr, parent: Ptr, child: Ptr, lchild: Ptr, rchild: Ptr, ghost sibling': Ptr)
      requires parent in mem && child in mem && parent != child && parent != 0 && child != 0
      requires (mem[parent].left == child && mem[parent].right == sibling') || (mem[parent].left == sibling' != child && mem[parent].right == child)
      requires sibling' != 0 ==> sibling' in mem && sibling' != parent && sibling' != child
      modifies this`mem
      ensures mem.Keys == old(mem).Keys && forall p :: p in mem ==> mem[p] == InnerSwapped(old(mem), pparent, parent, child, lchild, rchild, sibling', p)
    {
      var sibling;
      mem := mem[child := mem[child].(parent := pparent)];
      if mem[parent].left == child {
        sibling := mem[parent].right;
        mem := mem[child := mem[child].(left := parent)];
        mem := mem[child := mem[child].(right := sibling)];
      } else {
        sibling := mem[parent].left;
        mem := mem[child := mem[child].(left := sibling)];
        mem := mem[child := mem[child].(right := parent)];
      }
      if sibling != 0 { mem := mem[sibling := mem[sibling].(parent := child)]; }
      mem := mem[parent := mem[parent].(parent := child)];
      mem := mem[parent := mem[parent].(left := lchild)];
      mem := mem[parent := mem[parent].(right := rchild)];
    }

    /** heap_swap */
    method Swap(parent: Ptr, child: Ptr, ghost s: seq<Ptr>, ghost j: int)
      requires Linked(mem, root, s) && 2 <= j <= |s| && child == Slot(s, j) && parent == Slot(s, j / 2)
      modifies this`mem, this`root
      ensures Linked(mem, root, Swapped(s, j / 2, j))
      ensures OnlyWithin(old(mem), mem, s)
    {
      assert Distinct(s);
      hide Linked, Slot, Swapped, Distinct;
      SwapSite(mem, root, s, j);
      SwapApart(s, j);
      assert mem[child].parent == parent && (mem[parent].left == child || mem[parent].right == child);
      var pparent := mem[parent].parent;
      var lchild := mem[child].left;
      var rchild := mem[child].right;
      ghost var sibling := Slot(s, if j % 2 == 0 then j + 1 else j - 1);
      SwapOuter(pparent, parent, child, lchild, rchild);
      SwapInner(pparent, parent, child, lchild, rchild, sibling);
      SwapLinked(old(mem), mem, old(root), root, s, j);
    }

    /** The loop that reads the path to the last node off the bits of nelts. */
    method PathTo(nelts: nat) returns (path: nat, d: nat)
      requires nelts >= 1
      ensures Follow(1, path, d) == nelts && (nelts == 1 ==> path == 0)
    {
      path, d := 0, 0;
      var n := nelts;
      while n >= 2
        invariant n >= 1 && Follow(n, path, d) == nelts && (nelts == 1 ==> n == 1 && path == 0)
      {
        path := 2 * path + n % 2;
        d, n := d + 1, n / 2;
      }
    }

    /** The walk from the root to the parent of the last node. */
    method Walk(path0: nat, d0: nat, ghost n: nat, ghost s: seq<Ptr>) returns (parent: Ptr, path: nat)
      requires Linked(mem, root, s) && Follow(1, path0, d0) == n && n <= |s| + 1
      ensures n == 1 ==> parent == root && path == path0 && d0 == 0
      ensures n >= 2 ==> parent == Slot(s, n / 2) && path % 2 == n % 2
    {
      parent, path := root, path0;
      var d := d0;
      ghost var i := 1;
      FollowGrows(1, path, d);
      while d > 1
        invariant i >= 1 && Follow(i, path, d) == n && parent == Slot(s, i)
        invariant d == 0 ==> path == path0 && d0 == 0 && i == 1
      {
        FollowGrows(2 * i + path % 2, path / 2, d - 1);
        assert Placed(mem, s, i);
        parent := if path % 2 == 1 then mem[parent].right else mem[parent].left;
        i := 2 * i + path % 2;
        d, path := d - 1, path / 2;
      }
      if d == 1 {
        assert Follow(i, path, 1) == Follow(2 * i + path % 2, path / 2, 0) == n;
      }
    }

    /** The sift-up loops of heap_insert and heap_remove. */
    method SiftUp(node: Ptr, key: Keys, ghost s0: seq<Ptr>, ghost i0: int) returns (ghost s: seq<Ptr>)
      requires Linked(mem, root, s0) && Stands(mem, s0, i0, node)
      requires OrderedExcept(s0, key, i0) && OrderedBelow(s0, key, i0)
      modifies this`mem, this`root
      ensures Linked(mem, root, s) && HeapOrdered(s, key) && |s| == |s0|
      ensures forall p :: p in s <==> p in s0
      ensures OnlyWithin(old(mem), mem, s0)
    {
      s := s0;
      ghost var i := i0;
      assert i >= 1 ==> Placed(mem, s, i);
      while mem[node].parent != 0 && key[node] < key[mem[node].parent]
        invariant Linked(mem, root, s) && |s| == |s0| && Stands(mem, s, i, node) && (i >= 1 ==> Placed(mem, s, i))
        invariant OrderedExcept(s, key, i) && OrderedBelow(s, key, i)
        invariant forall p :: p in s <==> p in s0
        invariant OnlyWithin(old(mem), mem, s0)
        decreases i
      {
        SiftUpStep(s, key, i);
        SwappedDistinct(s, i / 2, i);
        SlotSwapped(s, i / 2, i, i / 2);
        Swap(mem[node].parent, node, s, i);
        s, i := Swapped(s, i / 2, i), i / 2;
        assert Placed(mem, s, i);
      }
      SiftedUp(s, key, i);
    }

    /** heap_insert: node arrives with null children, which the source does not set. */
    method Insert(node: Ptr, key: Keys)
      requires Valid(key) && node != 0 && node in mem && node in key && node !in slots
      requires mem[node].left == 0 && mem[node].right == 0
      modifies this
      ensures Valid(key) && |slots| == |old(slots)| + 1
      ensures forall p :: p in slots <==> p in old(slots) || p == node
      ensures OnlyWithin(old(mem), mem, old(slots) + [node])
    {
      hide HeapOrdered, OrderedExcept;
      nelts := nelts + 1;
      var path, d := PathTo(nelts);
      var parent;
      parent, path := Walk(path, d, nelts, slots);
      AppendSite(mem, root, slots, node);
      mem := mem[node := mem[node].(parent := parent)];
      if parent == 0 {
        root := node;
      } else if path % 2 == 1 {
        mem := mem[parent := mem[parent].(right := node)];
      } else {
        mem := mem[parent := mem[parent].(left := node)];
      }
      AppendLinked(old(mem), mem, old(root), root, slots, node);
      Appended(slots, key, node);
      slots := SiftUp(node, key, slots + [node], |slots| + 1);
    }

    /** The sift-down loop of heap_remove: on equal keys the child moves up. */
    method SiftDown(v: Ptr, key: Keys, ghost s0: seq<Ptr>, ghost i0: int) returns (ghost s: seq<Ptr>, ghost i: int)
      requires Linked(mem, root, s0) && Stands(mem, s0, i0, v)
      requires OrderedExcept(s0, key, i0)
      modifies this`mem, this`root
      ensures Linked(mem, root, s) && |s| == |s0| && Stands(mem, s, i, v)
      ensures OrderedExcept(s, key, i) && OrderedBelow(s, key, i)
      ensures forall p :: p in s <==> p in s0
      ensures OnlyWithin(old(mem), mem, s0)
    {
      s, i := s0, i0;
      while true
        invariant Linked(mem, root, s) && |s| == |s0| && Stands(mem, s, i, v)
        invariant OrderedExcept(s, key, i)
        invariant forall p :: p in s <==> p in s0
        invariant OnlyWithin(old(mem), mem, s0)
        decreases |s| - i
      {
        var est := v;
        assert i >= 1 ==> Placed(mem, s, i);
        if mem[v].left != 0 {
          est := if key[est] < key[mem[v].left] then est else mem[v].left;
        }
        if mem[v].right != 0 {
          est := if key[est] < key[mem[v].right] then est else mem[v].right;
        }
        if est == v { break; }
        ghost var c := if est == Slot(s, 2 * i) then 2 * i else 2 * i + 1;
        SiftDownStep(s, key, i, c);
        SwappedDistinct(s, i, c);
        SlotSwapped(s, i, c, c);
        Swap(v, est, s, c);
        s, i := Swapped(s, i, c), c;
      }
    }

    /** heap_replace; a node that has been unlinked already is replaced by itself, and i is 0. */
    method Replace(s_: Ptr, r: Ptr, ghost s: seq<Ptr>, ghost i: int)
      requires Linked(mem, root, s) && 0 <= i <= |s|
      requires i >= 1 ==> s_ == Slot(s, i) && r != 0 && r in mem && r !in s
      requires i == 0 ==> r == s_ && Unlinked(mem, s_)
      modifies this`mem, this`root
      ensures Linked(mem, root, if i == 0 then s else s[i - 1 := r])
      ensures i == 0 ==> mem == old(mem) && root == old(root)
      ensures OnlyWithin(old(mem), mem, s + [r])
    {
      if i >= 1 { ReplaceSite(mem, root, s, i); }
      hide Linked;
      if mem[s_].parent == 0 {
        root := r;
      } else if mem[mem[s_].parent].left == s_ {
        mem := mem[mem[s_].parent := mem[mem[s_].parent].(left := r)];
      } else if mem[mem[s_].parent].right == s_ {
        mem := mem[mem[s_].parent := mem[mem[s_].parent].(right := r)];
      }
      if mem[s_].left != 0 { mem := mem[mem[s_].left := mem[mem[s_].left].(parent := r)]; }
      if mem[s_].right != 0 { mem := mem[mem[s_].right := mem[mem[s_].right].(parent := r)]; }
      mem := mem[r := HeapNode(mem[s_].parent, mem[s_].left, mem[s_].right)];
      if i >= 1 {
        ReplaceLinked(old(mem), mem, old(root), root, s, i, r);
      } else {
        assert mem == old(mem);
      }
    }

    /** Unlinks the last node, unless it is the root. */
    method TakeLast(parent: Ptr, path: nat, ghost s: seq<Ptr>) returns (last: Ptr)
      requires Linked(mem, root, s) && |s| >= 1
      requires if |s| == 1 then parent == root && path == 0 else parent == Slot(s, |s| / 2) && path % 2 == |s| % 2
      modifies this`mem
      ensures |s| == 1 ==> last == 0 && mem == old(mem)
      ensures |s| >= 2 ==> last == Slot(s, |s|) != 0 && Linked(mem, root, s[..|s| - 1])
      ensures |s| >= 2 ==> last in mem && Unlinked(mem, last)
      ensures OnlyWithin(old(mem), mem, s)
    {
      assert Placed(mem, s, |s|) && (|s| >= 2 ==> Placed(mem, s, |s| / 2));
      assert |s| % 2 == 1 && |s| > 1 ==> Placed(mem, s, |s| - 1);
      if path % 2 == 1 {
        last := mem[parent].right;
        mem := mem[parent := mem[parent].(right := 0)];
      } else {
        last := mem[parent].left;
        mem := mem[parent := mem[parent].(left := 0)];
      }
      if |s| >= 2 { DropLinked(old(mem), mem, root, s); } else { assert mem == old(mem); }
    }

    /** The last node takes the place i of the removed one, whose links are cleared; i is 0 when they are the same. */
    method PutLast(node: Ptr, last: Ptr, ghost s: seq<Ptr>, ghost i: int)
      requires Linked(mem, root, s) && 0 <= i <= |s| && last != 0 && last in mem && last !in s
      requires if i == 0 then node == last && Unlinked(mem, node) else node == Slot(s, i)
      modifies this`mem, this`root
      ensures var s' := if i == 0 then s else s[i - 1 := last];
        && Linked(mem, root, s') && Stands(mem, s', i, last)
        && (forall p :: p in s' <==> (p in s && p != node) || (p == last && i != 0))
      ensures node in mem && mem[node] == HeapNode(0, 0, 0)
      ensures OnlyWithin(old(mem), mem, s + [last])
    {
      assert i >= 1 ==> Placed(mem, s, i);
      Replace(node, last, s, i);
      ghost var s' := if i == 0 then s else s[i - 1 := last];
      if i >= 1 {
        Replaced(s, i, last);
        assert node == s[i - 1] && node in s && node != last;
        assert Placed(mem, s', i);
      }
      hide Linked;
      ghost var m := mem;
      mem := mem[node := HeapNode(0, 0, 0)];
      CellWritten(m, mem, node, root, s');
    }

    /**
      The rest of heap_remove: the last node takes the place i of the removed one and is sifted. When
      the last node is itself the removed one it has no place any more, and i is 0.
      */
    method MoveLast(node: Ptr, last: Ptr, key: Keys, ghost s: seq<Ptr>, ghost i: int) returns (ghost s': seq<Ptr>)
      requires Linked(mem, root, s) && 0 <= i <= |s| && last != 0 && last in mem && last !in s
      requires if i == 0 then node == last && Unlinked(mem, node) else node == Slot(s, i)
      requires OrderedExcept(if i == 0 then s else s[i - 1 := last], key, i)
      modifies this`mem, this`root
      ensures Linked(mem, root, s') && HeapOrdered(s', key) && |s'| == |s|
      ensures forall p :: p in s' <==> (p in s && p != node) || (p == last && i != 0)
      ensures node in mem && mem[node] == HeapNode(0, 0, 0)
      ensures OnlyWithin(old(mem), mem, s + [last])
    {
      hide HeapOrdered, OrderedExcept, Linked;
      PutLast(node, last, s, i);
      s' := if i == 0 then s else s[i - 1 := last];
      ghost var j;
      s', j := SiftDown(last, key, s', i);
      s' := SiftUp(last, key, s', j);
    }

    /** heap_remove of a member. */
    method Remove(node: Ptr, key: Keys)
      requires Valid(key) && (slots != [] ==> node in slots)
      modifies this
      ensures Valid(key) && (old(slots) != [] ==> |slots| == |old(slots)| - 1)
      ensures forall p :: p in slots <==> p in old(slots) && p != node
      ensures old(slots) != [] ==> node in mem && mem[node] == HeapNode(0, 0, 0)
      ensures OnlyWithin(old(mem), mem, old(slots))
    {
      if nelts == 0 { return; }
      ghost var s, i := slots, Index(slots, node);
      LastRemoved(s, key, i);
      hide HeapOrdered, OrderedExcept;
      assert Placed(mem, s, i) && Placed(mem, s, 1);
      var path, d := PathTo(nelts);
      nelts := nelts - 1;
      var parent;
      parent, path := Walk(path, d, |s|, s);
      var last := TakeLast(parent, path, s);
      slots := s[..|s| - 1];
      if last == 0 {
        if root == node { root := 0; }
        return;
      }
      slots := MoveLast(node, last, key, slots, if node == last then 0 else i);
    }

    /** heap_dequeue: removes a member with the least key. */
    method Dequeue(key: Keys)
      requires Valid(key)
      modifies this
      ensures Valid(key) && (old(slots) != [] ==> |slots| == |old(slots)| - 1 && old(root) in old(slots))
      ensures forall p :: p in slots <==> p in old(slots) && p != old(root)
      ensures forall p :: p in slots ==> p in key && old(root) in key && key[old(root)] <= key[p]
      ensures old(slots) != [] ==> old(root) in mem && mem[old(root)] == HeapNode(0, 0, 0)
      ensures OnlyWithin(old(mem), mem, old(slots))
    {
      RootLeast(slots, key);
      Remove(root, key);
    }
  }

  /** v is at index i, or, when i is 0, outside the tree and without links. */
  ghost predicate Stands(m: Memory, s: seq<Ptr>, i: int, v: Ptr) {
    v in m && if i == 0 then v !in s && m[v] == HeapNode(0, 0, 0) else 1 <= i <= |s| && v == Slot(s, i)
  }

  /** What is left of a last node: its parent does not lead to it any more. */
  ghost predicate Unlinked(m: Memory, v: Ptr) {
    v in m && m[v].left == 0 && m[v].right == 0 && m[v].parent != 0 && m[v].parent in m &&
    m[m[v].parent].left != v && m[m[v].parent].right != v
  }

  ghost function Index(s: seq<Ptr>, p: Ptr): (i: int)
    requires p in s
    ensures 1 <= i <= |s| && Slot(s, i) == p
  {
    var a :| 0 <= a < |s| && s[a] == p;
    a + 1
  }

  lemma RootLeast(s: seq<Ptr>, key: Keys)
    requires HeapOrdered(s, key)
    ensures s != [] ==> Slot(s, 1) in s
    ensures forall p :: p in s ==> p in key && Slot(s, 1) in key && key[Slot(s, 1)] <= key[p]
  {
    forall p | p in s ensures p in key && Slot(s, 1) in key && key[Slot(s, 1)] <= key[p] {
      RootMinimal(s, key, Index(s, p));
    }
  }

  function OuterSwapped(m: Memory, pparent: Ptr, parent: Ptr, child: Ptr, lchild: Ptr, rchild: Ptr, p: Ptr): HeapNode
    requires p in m
  {
    if p == pparent && p != 0 then (if m[p].left == parent then m[p].(left := child) else m[p].(right := child))
    else if p != 0 && (p == lchild || p == rchild) then m[p].(parent := parent)
    else m[p]
  }

  function InnerSwapped(m: Memory, pparent: Ptr, parent: Ptr, child: Ptr, lchild: Ptr, rchild: Ptr, sibling: Ptr, p: Ptr): HeapNode
    requires p in m && parent in m
  {
    if p == child then
      (if m[parent].left == child then HeapNode(pparent, parent, sibling) else HeapNode(pparent, sibling, parent))
    else if p == parent then HeapNode(child, lchild, rchild)
    else if p == sibling && p != 0 then m[p].(parent := child)
    else m[p]
  }

  /** The nodes around a swap: how they are linked. */
  lemma SwapSite(m: Memory, root: Ptr, s: seq<Ptr>, j: int)
    requires Linked(m, root, s) && 2 <= j <= |s|
    ensures
      var i := j / 2;
      var x, y, g, b := Slot(s, i), Slot(s, j), Slot(s, i / 2), Slot(s, if j % 2 == 0 then j + 1 else j - 1);
      var lc, rc := Slot(s, 2 * j), Slot(s, 2 * j + 1);
      && Live(m, s, x) && Live(m, s, y) && (g != 0 <==> i != 1)
      && m[y] == HeapNode(x, lc, rc)
      && m[x] == HeapNode(g, if j % 2 == 0 then y else b, if j % 2 == 0 then b else y)
      && (g != 0 ==> Live(m, s, g) && (if i % 2 == 0 then m[g].left == x else m[g].right == x && m[g].left != x))
      && (b != 0 ==> Live(m, s, b)) && (lc != 0 ==> Live(m, s, lc)) && (rc != 0 ==> Live(m, s, rc))
  {
    var i := j / 2;
    assert Placed(m, s, i) && Placed(m, s, j);
    assert i / 2 >= 1 ==> Placed(m, s, i / 2);
    var b := if j % 2 == 0 then j + 1 else j - 1;
    assert b <= |s| ==> Placed(m, s, b);
    assert 2 * j <= |s| ==> Placed(m, s, 2 * j);
    assert 2 * j + 1 <= |s| ==> Placed(m, s, 2 * j + 1);
  }

  /** The nodes around a swap differ. */
  lemma SwapApart(s: seq<Ptr>, j: int)
    requires Distinct(s) && 2 <= j <= |s|
    ensures 0 !in s
    ensures
      var i := j / 2;
      var x, y, g, b := Slot(s, i), Slot(s, j), Slot(s, i / 2), Slot(s, if j % 2 == 0 then j + 1 else j - 1);
      var lc, rc := Slot(s, 2 * j), Slot(s, 2 * j + 1);
      && x != 0 && x != y && x != g && x != b && x != lc && x != rc
      && y != 0 && y != g && y != b && y != lc && y != rc
      && (g != 0 ==> g != b && g != lc && g != rc) && (b != 0 ==> b != lc && b != rc) && (lc != 0 ==> lc != rc)
  {
    assert forall k :: 0 <= k < |s| ==> s[k] == Slot(s, k + 1);
    var i, b := j / 2, if j % 2 == 0 then j + 1 else j - 1;
    assert i / 2 < i < j < 2 * j < 2 * j + 1 && i < b < 2 * j && b != j;
  }

  ghost predicate Live(m: Memory, s: seq<Ptr>, p: Ptr) { p in m && p in s }

  lemma SiftedUp(s: seq<Ptr>, key: Keys, i: int)
    requires OrderedExcept(s, key, i) && OrderedBelow(s, key, i) && 0 <= i <= |s|
    requires i >= 2 ==> Ordered(s, key, i)
    ensures HeapOrdered(s, key)
  {
    forall m | 2 <= m <= |s| ensures Ordered(s, key, m) {
      if m != i && m / 2 != i { assert Ordered(s, key, m); }
    }
  }

  lemma AppendSite(m: Memory, root: Ptr, s: seq<Ptr>, node: Ptr)
    requires Linked(m, root, s)
    ensures var p := Slot(s, (|s| + 1) / 2); p != 0 ==> p in m && p in s
    ensures Slot(s, (|s| + 1) / 2) == 0 <==> |s| == 0
  {
    if |s| >= 1 { assert Placed(m, s, (|s| + 1) / 2); }
  }

  lemma Appended(s: seq<Ptr>, key: Keys, node: Ptr)
    requires HeapOrdered(s, key) && node in key
    ensures OrderedExcept(s + [node], key, |s| + 1) && OrderedBelow(s + [node], key, |s| + 1)
    ensures Slot(s + [node], |s| + 1) == node
  {
    var s' := s + [node];
    assert forall c :: Slot(s', c) == if c == |s| + 1 then node else Slot(s, c);
    forall m | 2 <= m <= |s| ensures Ordered(s', key, m) { assert Ordered(s, key, m); }
  }

  /** The nodes around a replaced node. */
  lemma ReplaceSite(m: Memory, root: Ptr, s: seq<Ptr>, i: int)
    requires Linked(m, root, s) && 1 <= i <= |s|
    ensures 0 !in s
    ensures
      var x, g, lc, rc := Slot(s, i), Slot(s, i / 2), Slot(s, 2 * i), Slot(s, 2 * i + 1);
      && Live(m, s, x) && x != 0 && m[x] == HeapNode(g, lc, rc)
      && (g != 0 <==> i != 1)
      && (g != 0 ==> Live(m, s, g) && (if i % 2 == 0 then m[g].left == x else m[g].right == x && m[g].left != x))
      && (lc != 0 ==> Live(m, s, lc)) && (rc != 0 ==> Live(m, s, rc))
      && x != g && x != lc && x != rc
      && (g != 0 ==> g != lc && g != rc) && (lc != 0 ==> lc != rc)
  {
    assert forall k :: 0 <= k < |s| ==> s[k] == Slot(s, k + 1);
    assert Placed(m, s, i);
    assert i / 2 >= 1 ==> Placed(m, s, i / 2);
    assert 2 * i <= |s| ==> Placed(m, s, 2 * i);
    assert 2 * i + 1 <= |s| ==> Placed(m, s, 2 * i + 1);
  }

  lemma Replaced(s: seq<Ptr>, i: int, r: Ptr)
    requires Distinct(s) && 1 <= i <= |s| && r !in s
    ensures forall p :: p in s[i - 1 := r] <==> (p in s && p != Slot(s, i)) || p == r
    ensures Slot(s[i - 1 := r], i) == r
  {
    var s' := s[i - 1 := r];
    forall p | p in s && p != Slot(s, i) ensures p in s' {
      var a :| 0 <= a < |s| && s[a] == p;
      assert s'[a] == p;
    }
    forall p | p in s' ensures (p in s && p != Slot(s, i)) || p == r {
      var a :| 0 <= a < |s| && s'[a] == p;
      assert Slot(s, a + 1) == s[a];
    }
    assert s'[i - 1] == r;
  }

  /** Writing a node outside the tree changes nothing in it. */
  lemma CellWritten(m: Memory, m': Memory, node: Ptr, root: Ptr, s: seq<Ptr>)
    requires Linked(m, root, s) && node !in s
    requires forall p :: p in m && p != node ==> p in m' && m'[p] == m[p]
    ensures Linked(m', root, s)
  {
    forall a | 1 <= a <= |s| ensures Placed(m', s, a) { assert Placed(m, s, a); }
  }

  /** Order after the last node has gone, and after it has taken the place of index i. */
  lemma LastRemoved(s: seq<Ptr>, key: Keys, i: int)
    requires HeapOrdered(s, key) && Distinct(s) && 1 <= i <= |s|
    ensures var s1 := s[..|s| - 1];
      && HeapOrdered(s1, key) && Slot(s, |s|) !in s1
      && (forall p :: p in s <==> p in s1 || p == Slot(s, |s|))
      && OrderedExcept(s1, key, 0)
      && (i < |s| ==> Slot(s1, i) == Slot(s, i) && OrderedExcept(s1[i - 1 := Slot(s, |s|)], key, i))
  {
    var n, s1 := |s|, s[..|s| - 1];
    assert s == s1 + [Slot(s, n)];
    assert forall c :: 1 <= c < n ==> Slot(s1, c) == Slot(s, c);
    assert forall c :: 0 <= c < n - 1 ==> s1[c] == Slot(s, c + 1);
    forall m | 2 <= m < n ensures Ordered(s1, key, m) { assert Ordered(s, key, m); }
    if i < n {
      var s2 := s1[i - 1 := Slot(s, n)];
      assert forall c :: 1 <= c < n ==> Slot(s2, c) == if c == i then Slot(s, n) else Slot(s, c);
      forall m | 2 <= m < n && m != i && m / 2 != i ensures Ordered(s2, key, m) { assert Ordered(s, key, m); }
      forall m | 2 <= m < n && m / 2 == i && i >= 2 ensures key[Slot(s2, i / 2)] <= key[Slot(s2, m)] {
        assert Ordered(s, key, m) && Ordered(s, key, i);
      }
    }
  }
}
