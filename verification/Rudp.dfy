/** event/rudp.c: the peers of a reliable-UDP socket, an ordered map kept in a red-black tree. */
module Rudp {

  import opened Basics
  import opened RbShape
  import opened RbColor
  import opened RbLink
  import opened RbTree
  import opened SockAddr

  type Addrs = map<Ptr, Addr>

  predicate Less(x: Key, y: Key) { MemCmp(x, y) < 0 }

  /** The entries of s have addresses and stand in strictly increasing key order. */
  ghost predicate Sorted(s: seq<Ptr>, addrs: Addrs) {
    && (forall p :: p in s ==> p in addrs)
    && (forall i, j :: 0 <= i < j < |s| ==> Less(KeyOf(addrs[s[i]]), KeyOf(addrs[s[j]])))
  }

  /** entries maps the key of every address of s to that address, and holds nothing else. */
  ghost predicate Indexes(entries: map<Key, Ptr>, s: seq<Ptr>, addrs: Addrs)
    requires forall p :: p in s ==> p in addrs
  {
    && (forall p :: p in s ==> KeyOf(addrs[p]) in entries && entries[KeyOf(addrs[p])] == p)
    && (forall key :: key in entries ==> entries[key] in s && KeyOf(addrs[entries[key]]) == key)
  }

  predicate IsBelow(p: Ptr, key: Key, addrs: Addrs) { p in addrs && Less(KeyOf(addrs[p]), key) }

  predicate IsAbove(p: Ptr, key: Key, addrs: Addrs) { p in addrs && Less(key, KeyOf(addrs[p])) }

  ghost predicate Below(a: seq<Ptr>, key: Key, addrs: Addrs) { forall p :: p in a ==> IsBelow(p, key, addrs) }

  ghost predicate Above(b: seq<Ptr>, key: Key, addrs: Addrs) { forall p :: p in b ==> IsAbove(p, key, addrs) }

  /** key belongs between the entries of a and those of b. */
  ghost predicate Between(a: seq<Ptr>, key: Key, b: seq<Ptr>, addrs: Addrs) {
    Below(a, key, addrs) && Above(b, key, addrs)
  }

  /** The linked nodes are a red-black tree in key order that holds exactly the given entries. */
  ghost predicate Refines(m: Memory, root: Ptr, tree: Tree, addrs: Addrs, entries: map<Key, Ptr>) {
    && Linked(m, root, Top, tree) && RedBlack(tree)
    && m.Keys == addrs.Keys && 0 !in addrs
    && Sorted(Inorder(tree), addrs) && Indexes(entries, Inorder(tree), addrs)
  }

  class Rudp {
    const rb: RbRoot
    var addrs: Addrs
    ghost var tree: Tree
    ghost var entries: map<Key, Ptr>

    ghost predicate Valid()
      reads this, rb
    {
      Refines(rb.mem, rb.root, tree, addrs, entries)
    }

    /** rudp_init */
    constructor ()
      ensures Valid() && fresh(rb) && entries == map[] && addrs == map[]
    {
      rb := new RbRoot();
      addrs, tree, entries := map[], E, map[];
    }

    /** rb_link_node and rb_insert_color at the place where Descend ended. */
    method Attach(node: Ptr, parent: Ptr, n: Slot, ghost k: Ctx)
      requires Valid() && node in addrs && node !in Inorder(tree)
      requires parent == Parent(k) && n == SlotOf(k)
      requires At(rb.mem, rb.root, k, E, KeyOf(addrs[node]), addrs, tree)
      modifies this`tree, this`entries, rb
      ensures Valid() && entries == old(entries)[KeyOf(addrs[node]) := node]
    {
      hide Sorted, Indexes, RedBlack;
      Attachable(rb.mem, rb.root, k, node, addrs, tree, entries);
      ghost var was := tree;
      tree := rb.Insert(node, parent, n, k);
      Attached(old(rb.mem), old(rb.root), k, node, addrs, was, entries, rb.mem, rb.root, tree);
      entries := entries[KeyOf(addrs[node]) := node];
    }

    /** rb_erase of the entry e. */
    method Detach(e: Ptr)
      requires Valid() && e in Inorder(tree)
      modifies this`tree, this`entries, rb
      ensures Valid() && entries == old(entries) - {KeyOf(addrs[e])}
      ensures forall p :: p in Inorder(tree) <==> p in old(Inorder(tree)) && p != e
      ensures |Inorder(tree)| < |old(Inorder(tree))|
    {
      hide Sorted, Indexes, RedBlack;
      ghost var was := tree;
      Detachable(rb.mem, rb.root, e, addrs, tree, entries);
      tree := rb.Erase(e, tree);
      Detached(old(rb.mem), old(rb.root), e, addrs, was, entries, rb.mem, rb.root, tree);
      entries := entries - {KeyOf(addrs[e])};
    }

    /** rudp_insert */
    method Insert(entry: Ptr) returns (ok: bool)
      requires Valid() && entry in addrs && entry !in Inorder(tree)
      modifies this`tree, this`entries, rb
      ensures Valid() && ok == (KeyOf(addrs[entry]) !in old(entries))
      ensures entries == if ok then old(entries)[KeyOf(addrs[entry]) := entry] else old(entries)
    {
      hide Sorted, Indexes, RedBlack;
      ghost var k, turns;
      var e, parent, n, exists_;
      e, parent, n, exists_, k, turns := Find(addrs[entry]);
      if !exists_ {
        Attach(entry, parent, n, k);
      }
      ok := !exists_;
    }

    /** rudp_search: null when there is no entry. */
    method Search(addr: Addr) returns (r: Ptr, ghost turns: nat)
      requires Valid()
      ensures r == if KeyOf(addr) in entries then entries[KeyOf(addr)] else 0
      ensures r != 0 <==> KeyOf(addr) in entries
      ensures r != 0 ==> r in Inorder(tree) && r in addrs && KeyOf(addrs[r]) == KeyOf(addr)
      ensures Short(turns, tree)
    {
      var e, parent, n, exists_;
      ghost var k;
      e, parent, n, exists_, k, turns := Find(addr);
      r := if exists_ then e else 0;
    }

    /** Descend, in terms of the entries. */
    method Find(key: Addr) returns (e: Ptr, parent: Ptr, n: Slot, exists_: bool, ghost k: Ctx, ghost turns: nat)
      requires Valid()
      ensures exists_ == (KeyOf(key) in entries)
      ensures exists_ ==> e == entries[KeyOf(key)] && e in Inorder(tree) && e in addrs && e != 0 && KeyOf(addrs[e]) == KeyOf(key)
      ensures !exists_ ==> parent == Parent(k) && n == SlotOf(k) && At(rb.mem, rb.root, k, E, KeyOf(key), addrs, tree)
      ensures Short(turns, tree)
    {
      hide Sorted, Indexes, RedBlack, Height, Short, At;
      e, parent, n, exists_, k, turns := Descend(rb, addrs, key, tree);
      Shortly(turns, tree);
      if exists_ {
        Present(rb.mem, rb.root, e, addrs, tree, entries);
      } else {
        Absent(rb.mem, rb.root, k, KeyOf(key), addrs, tree, entries);
      }
    }

    /** rudp_remove: unlinks the entry, which stays allocated. */
    method Remove(addr: Addr) returns (e: Ptr)
      requires Valid()
      modifies this`tree, this`entries, rb
      ensures Valid() && entries == old(entries) - {KeyOf(addr)}
      ensures e == if KeyOf(addr) in old(entries) then old(entries)[KeyOf(addr)] else 0
      ensures e != 0 ==> e in addrs && e !in Inorder(tree)
    {
      hide Sorted, Indexes, RedBlack;
      ghost var turns;
      e, turns := Search(addr);
      if e != 0 {
        Detach(e);
      }
    }

    /** rudp_get: p is the address the allocator returns if an entry has to be made. */
    method Get(addr: Addr, p: Ptr) returns (e: Ptr)
      requires Valid() && p != 0 && p !in addrs
      modifies this, rb
      ensures Valid() && e == if KeyOf(addr) in old(entries) then old(entries)[KeyOf(addr)] else p
      ensures entries == old(entries)[KeyOf(addr) := e]
      ensures addrs == if KeyOf(addr) in old(entries) then old(addrs) else old(addrs)[p := Copied(addr)]
    {
      hide Sorted, Indexes, RedBlack;
      ghost var k, turns;
      var parent, n, exists_;
      e, parent, n, exists_, k, turns := Find(addr);
      if !exists_ {
        e := p;
        SameEntry(addr, addr);
        Allocated(rb.mem, rb.root, p, Copied(addr), addrs, tree, entries);
        AllocatedAt(rb.mem, rb.root, p, Copied(addr), k, addrs, tree);
        rb.mem, addrs := rb.mem[p := RbNode(0, 0, 0, Red)], addrs[p := Copied(addr)];
        Attach(e, parent, n, k);
      }
    }

    /** rudp_entry_free: releases an allocated entry that is in no tree. */
    method Free(e: Ptr)
      requires Valid() && e in addrs && e !in Inorder(tree)
      modifies this`addrs, rb
      ensures Valid() && addrs == old(addrs) - {e}
    {
      hide RedBlack;
      Released(rb.mem, rb.root, e, addrs, tree, entries);
      rb.mem, addrs := rb.mem - {e}, addrs - {e};
    }

    /** rudp_del */
    method Del(addr: Addr)
      requires Valid()
      modifies this, rb
      ensures Valid() && entries == old(entries) - {KeyOf(addr)}
      ensures addrs == if KeyOf(addr) in old(entries) then old(addrs) - {old(entries)[KeyOf(addr)]} else old(addrs)
    {
      hide Sorted, Indexes, RedBlack;
      var e;
      ghost var turns;
      e, turns := Search(addr);
      if e != 0 {
        Detach(e);
        Free(e);
      }
    }

    /** rudp_cleanup: the linked entries are freed, each once, and nothing else is. */
    method Cleanup() returns (freed: seq<Ptr>)
      requires Valid()
      modifies this, rb
      ensures Valid() && entries == map[] && rb.root == 0
      ensures forall p :: p in freed <==> p in old(Inorder(tree))
      ensures NoDup(freed)
      ensures addrs == old(addrs) - set p | p in freed
    {
      hide Sorted, Indexes, RedBlack, Cleaned, Refines;
      freed := [];
      ghost var start, addrs0 := Inorder(tree), addrs;
      CleanStart(start, addrs);
      while rb.root != 0
        invariant Valid() && Cleaned(start, addrs0, freed, Inorder(tree), addrs)
        decreases |Inorder(tree)|
      {
        var n := rb.root;
        RootEntry(rb.mem, rb.root, addrs, tree, entries);
        ghost var was := Inorder(tree);
        Detach(n);
        CleanStep(start, addrs0, freed, was, addrs, n, Inorder(tree));
        Free(n);
        freed := freed + [n];
      }
      NoEntries(rb.mem, rb.root, addrs, tree, entries);
      CleanEnd(start, addrs0, freed, addrs);
    }
  }

  /** Of the entries of start, those of freed have been freed, each once, and the others are left. */
  ghost predicate Cleaned(start: seq<Ptr>, addrs0: Addrs, freed: seq<Ptr>, left: seq<Ptr>, addrs: Addrs) {
    && NoDup(freed)
    && (forall p :: p in start <==> p in freed || p in left)
    && (forall p :: p in freed ==> p !in left)
    && addrs == addrs0 - set p | p in freed
  }

  lemma CleanStart(start: seq<Ptr>, addrs: Addrs)
    ensures Cleaned(start, addrs, [], start, addrs)
  {
  }

  lemma CleanStep(start: seq<Ptr>, addrs0: Addrs, freed: seq<Ptr>, left: seq<Ptr>, addrs: Addrs, n: Ptr, left': seq<Ptr>)
    requires Cleaned(start, addrs0, freed, left, addrs) && n in left
    requires forall p :: p in left' <==> p in left && p != n
    ensures Cleaned(start, addrs0, freed + [n], left', addrs - {n})
  {
    var freed' := freed + [n];
    forall p ensures p in freed' <==> p in freed || p == n {}
    assert (set p | p in freed') == (set p | p in freed) + {n};
    forall i | 0 <= i < |freed| ensures freed[i] != n { assert freed[i] in freed; }
  }

  lemma CleanEnd(start: seq<Ptr>, addrs0: Addrs, freed: seq<Ptr>, addrs: Addrs)
    requires Cleaned(start, addrs0, freed, [], addrs)
    ensures NoDup(freed) && (forall p :: p in freed <==> p in start) && addrs == addrs0 - set p | p in freed
  {
  }

  /** A number of turns that is at most 2*log2(n+1) in a tree of n nodes. */
  ghost predicate Short(turns: nat, tree: Tree) {
    Pow2(turns) <= (|Inorder(tree)| + 1) * (|Inorder(tree)| + 1)
  }

  /** The descent shared by rudp_insert, rudp_search and rudp_get. */
  method Descend(rb: RbRoot, addrs: Addrs, key: Addr, ghost tree: Tree)
    returns (e: Ptr, parent: Ptr, n: Slot, exists_: bool, ghost k: Ctx, ghost turns: nat)
    requires Linked(rb.mem, rb.root, Top, tree) && Sorted(Inorder(tree), addrs)
    ensures exists_ ==> e in Ids(tree) && e in Inorder(tree) && KeyOf(addrs[e]) == KeyOf(key)
    ensures !exists_ ==> parent == Parent(k) && n == SlotOf(k) && At(rb.mem, rb.root, k, E, KeyOf(key), addrs, tree)
    ensures turns <= Height(tree)
  {
    e, parent, n, exists_ := 0, 0, RootSlot, false;
    ghost var t := tree;
    k, turns := Top, 0;
    assert Whole(k, t) == Inorder(tree);
    AtSlot(rb.mem, rb.root, k, t);
    while rb.Load(n) != 0
      invariant n == SlotOf(k) && parent == Parent(k) && SlotRead(rb.mem, rb.root, n, t)
      invariant At(rb.mem, rb.root, k, t, KeyOf(key), addrs, tree)
      invariant turns + Height(t) <= Height(tree)
      decreases t
    {
      turns := turns + 1;
      parent := rb.Load(n);
      e := parent;
      AtNode(rb.mem, rb.root, k, t, key, addrs, tree);
      var cmp := Compare(key, addrs[e]);
      if cmp < 0 {
        n := LeftOf(parent);
        k, t := Lf(k, t.id, t.c, t.r), t.l;
      } else if cmp > 0 {
        n := RightOf(parent);
        k, t := Rt(k, t.id, t.c, t.l), t.r;
      } else {
        exists_ := true;
        return;
      }
      AtSlot(rb.mem, rb.root, k, t);
    }
  }

  ghost predicate SlotRead(m: Memory, root: Ptr, n: Slot, t: Tree) {
    match n
    case RootSlot => root == Root(t) && (t.T? ==> t.id != 0)
    case LeftOf(p) => p in m && m[p].left == Root(t) && (t.T? ==> t.id != 0)
    case RightOf(p) => p in m && m[p].right == Root(t) && (t.T? ==> t.id != 0)
  }

  lemma AtSlot(m: Memory, root: Ptr, k: Ctx, t: Tree)
    requires Linked(m, root, k, t)
    ensures SlotRead(m, root, SlotOf(k), t)
  {
  }

  /** The search for key has come to the subtree t. */
  ghost predicate At(m: Memory, root: Ptr, k: Ctx, t: Tree, key: Key, addrs: Addrs, tree: Tree) {
    && Linked(m, root, k, t) && Plug(k, t) == tree && Whole(k, t) == Inorder(tree)
    && Between(Before(k), key, After(k), addrs)
  }

  lemma AtNode(m: Memory, root: Ptr, k: Ctx, t: Tree, key: Addr, addrs: Addrs, tree: Tree)
    requires At(m, root, k, t, KeyOf(key), addrs, tree) && Sorted(Inorder(tree), addrs) && t.T?
    ensures t.id in addrs && t.id in Inorder(tree) && t.id in Ids(tree)
    ensures var cmp := Compare(key, addrs[t.id]);
      if cmp < 0 then At(m, root, Lf(k, t.id, t.c, t.r), t.l, KeyOf(key), addrs, tree)
      else if cmp > 0 then At(m, root, Rt(k, t.id, t.c, t.l), t.r, KeyOf(key), addrs, tree)
      else KeyOf(addrs[t.id]) == KeyOf(key)
  {
    NodeHere(k, t, addrs);
    InorderIds(tree);
    var x, y := KeyOf(key), KeyOf(addrs[t.id]);
    CompareByKey(key, addrs[t.id]);
    MemCmpOpposite(x, y);
    MemCmpZero(x, y);
    if Less(x, y) {
      GoLeft(k, t, x, addrs);
      Up(m, root, Lf(k, t.id, t.c, t.r), t.l);
    } else if Less(y, x) {
      GoRight(k, t, x, addrs);
      Up(m, root, Rt(k, t.id, t.c, t.l), t.r);
    }
  }

  /** The subtree in focus lies within the sorted sequence. */
  lemma NodeHere(k: Ctx, t: Tree, addrs: Addrs)
    requires t.T? && Sorted(Whole(k, t), addrs)
    ensures t.id in addrs && t.id in Whole(k, t)
  {
    var i := |Before(k)| + |Inorder(t.l)|;
    assert Inorder(t)[|Inorder(t.l)|] == t.id;
    assert Whole(k, t)[i] == t.id;
  }

  lemma SortedSplit(a: seq<Ptr>, b: seq<Ptr>, addrs: Addrs)
    requires Sorted(a + b, addrs)
    ensures Sorted(a, addrs) && Sorted(b, addrs)
    ensures forall p, q :: p in a && q in b ==> Less(KeyOf(addrs[p]), KeyOf(addrs[q]))
  {
    var s := a + b;
    assert forall i :: 0 <= i < |a| ==> s[i] == a[i];
    assert forall i :: 0 <= i < |b| ==> s[|a| + i] == b[i];
    assert forall p :: p in a ==> p in s;
    assert forall p :: p in b ==> p in s;
  }

  /** Of a sorted sequence, what follows an entry above the key is above the key. */
  lemma RightAbove(x: seq<Ptr>, id: Ptr, r: seq<Ptr>, y: seq<Ptr>, key: Key, addrs: Addrs)
    requires Sorted(x + [id] + r + y, addrs) && IsAbove(id, key, addrs)
    ensures Above([id] + r, key, addrs)
  {
    var s, n := x + [id] + r + y, |x|;
    forall p | p in [id] + r ensures IsAbove(p, key, addrs) {
      if p != id {
        var j :| 0 <= j < |r| && r[j] == p;
        assert s[n] == id && s[n + 1 + j] == p && s[n + 1 + j] in s;
        assert Less(KeyOf(addrs[s[n]]), KeyOf(addrs[s[n + 1 + j]]));
        MemCmpTransitive(key, KeyOf(addrs[id]), KeyOf(addrs[p]));
      }
    }
  }

  lemma LeftBelow(x: seq<Ptr>, l: seq<Ptr>, id: Ptr, y: seq<Ptr>, key: Key, addrs: Addrs)
    requires Sorted(x + l + [id] + y, addrs) && IsBelow(id, key, addrs)
    ensures Below(l + [id], key, addrs)
  {
    var s, n := x + l + [id] + y, |x| + |l|;
    forall p | p in l + [id] ensures IsBelow(p, key, addrs) {
      if p != id {
        var j :| 0 <= j < |l| && l[j] == p;
        assert s[n] == id && s[|x| + j] == p && s[|x| + j] in s;
        assert Less(KeyOf(addrs[s[|x| + j]]), KeyOf(addrs[s[n]]));
        MemCmpTransitive(KeyOf(addrs[p]), KeyOf(addrs[id]), key);
      }
    }
  }

  lemma AboveJoin(x: seq<Ptr>, y: seq<Ptr>, key: Key, addrs: Addrs)
    requires Above(x, key, addrs) && Above(y, key, addrs)
    ensures Above(x + y, key, addrs)
  {
    hide IsAbove;
  }

  lemma BelowJoin(x: seq<Ptr>, y: seq<Ptr>, key: Key, addrs: Addrs)
    requires Below(x, key, addrs) && Below(y, key, addrs)
    ensures Below(x + y, key, addrs)
  {
    hide IsBelow;
  }

  lemma WholeAround(k: Ctx, t: Tree)
    requires t.T?
    ensures Whole(k, t) == Before(k) + Inorder(t.l) + [t.id] + Inorder(t.r) + After(k)
    ensures Whole(k, t) == Before(k) + Inorder(t.l) + [t.id] + (Inorder(t.r) + After(k))
  {
    assert Inorder(t) == Inorder(t.l) + [t.id] + Inorder(t.r);
    hide Inorder, Before, After;
    Regrouped(Before(k), Inorder(t.l), t.id, Inorder(t.r), After(k));
    Associative(Before(k) + Inorder(t.l) + [t.id], Inorder(t.r), After(k));
  }

  lemma GoLeft(k: Ctx, t: Tree, key: Key, addrs: Addrs)
    requires t.T? && Sorted(Whole(k, t), addrs) && Between(Before(k), key, After(k), addrs)
    requires t.id in addrs && Less(key, KeyOf(addrs[t.id]))
    ensures Between(Before(k), key, [t.id] + Inorder(t.r) + After(k), addrs)
  {
    var x, r, y := Before(k) + Inorder(t.l), Inorder(t.r), After(k);
    WholeAround(k, t);
    hide Sorted, Below, Above, Whole, Inorder, Before, After;
    RightAbove(x, t.id, r, y, key, addrs);
    AboveJoin([t.id] + r, y, key, addrs);
  }

  lemma GoRight(k: Ctx, t: Tree, key: Key, addrs: Addrs)
    requires t.T? && Sorted(Whole(k, t), addrs) && Between(Before(k), key, After(k), addrs)
    requires t.id in addrs && Less(KeyOf(addrs[t.id]), key)
    ensures Between(Before(k) + Inorder(t.l) + [t.id], key, After(k), addrs)
  {
    var x, l, y := Before(k), Inorder(t.l), Inorder(t.r) + After(k);
    WholeAround(k, t);
    hide Sorted, Below, Above, Whole, Inorder, Before, After;
    LeftBelow(x, l, t.id, y, key, addrs);
    BelowJoin(x, l + [t.id], key, addrs);
    assert x + (l + [t.id]) == x + l + [t.id];
  }

  lemma Shortly(turns: nat, tree: Tree)
    requires RedBlack(tree) && turns <= Height(tree)
    ensures Short(turns, tree)
  {
    HeightBound(tree);
    Pow2Monotonic(turns, Height(tree));
  }

  lemma Present(m: Memory, root: Ptr, e: Ptr, addrs: Addrs, tree: Tree, entries: map<Key, Ptr>)
    requires Refines(m, root, tree, addrs, entries) && e in Inorder(tree)
    ensures e in addrs && e != 0 && KeyOf(addrs[e]) in entries && entries[KeyOf(addrs[e])] == e
  {
  }

  lemma Absent(m: Memory, root: Ptr, k: Ctx, key: Key, addrs: Addrs, tree: Tree, entries: map<Key, Ptr>)
    requires At(m, root, k, E, key, addrs, tree) && Refines(m, root, tree, addrs, entries)
    ensures key !in entries
  {
    hide Linked, RedBlack, Sorted;
    assert Before(k) + After(k) == Whole(k, E);
    assert key in entries ==> entries[key] in Before(k) || entries[key] in After(k);
    MemCmpZero(key, key);
  }

  lemma SortedInsert(a: seq<Ptr>, p: Ptr, b: seq<Ptr>, addrs: Addrs, entries: map<Key, Ptr>)
    requires Sorted(a + b, addrs) && Indexes(entries, a + b, addrs) && p !in a + b
    requires p in addrs && Between(a, KeyOf(addrs[p]), b, addrs) && KeyOf(addrs[p]) !in entries
    ensures Sorted(a + [p] + b, addrs)
    ensures Indexes(entries[KeyOf(addrs[p]) := p], a + [p] + b, addrs)
  {
    assert forall q :: q in a + [p] + b <==> q in a + b || q == p;
    SortedBetween(a, p, b, addrs);
  }

  lemma SortedBetween(a: seq<Ptr>, p: Ptr, b: seq<Ptr>, addrs: Addrs)
    requires Sorted(a + b, addrs) && p in addrs && Between(a, KeyOf(addrs[p]), b, addrs)
    ensures Sorted(a + [p] + b, addrs)
  {
    SortedSplit(a, b, addrs);
    hide KeyOf, Less;
    var s := a + [p] + b;
    forall i, j | 0 <= i < j < |s| ensures Less(KeyOf(addrs[s[i]]), KeyOf(addrs[s[j]])) {
      if j < |a| {
        assert s[i] == a[i] && s[j] == a[j];
      } else if i > |a| {
        assert s[i] == b[i - |a| - 1] && s[j] == b[j - |a| - 1];
      } else {
        assert i < |a| ==> s[i] in a && IsBelow(s[i], KeyOf(addrs[p]), addrs);
        assert j > |a| ==> s[j] in b && IsAbove(s[j], KeyOf(addrs[p]), addrs);
      }
    }
  }

  lemma {:induction false} WithoutContents(s: seq<Ptr>, p: Ptr)
    ensures forall q :: q in Without(s, p) <==> q in s && q != p
  {
    if s != [] {
      WithoutContents(s[1..], p);
      assert s == [s[0]] + s[1..];
    }
  }

  lemma {:induction false} SortedWithout(s: seq<Ptr>, p: Ptr, addrs: Addrs)
    requires Sorted(s, addrs)
    ensures Sorted(Without(s, p), addrs)
  {
    WithoutContents(s, p);
    if s != [] {
      var x, s' := s[0], s[1..];
      assert s == [x] + s';
      SortedSplit([x], s', addrs);
      SortedWithout(s', p, addrs);
      WithoutContents(s', p);
      assert forall q :: q in s' ==> Less(KeyOf(addrs[x]), KeyOf(addrs[q]));
    }
  }

  lemma IndexesWithout(s: seq<Ptr>, p: Ptr, addrs: Addrs, entries: map<Key, Ptr>)
    requires Sorted(s, addrs) && Indexes(entries, s, addrs) && p in s
    ensures Sorted(Without(s, p), addrs)
    ensures Indexes(entries - {KeyOf(addrs[p])}, Without(s, p), addrs)
  {
    SortedWithout(s, p, addrs);
    WithoutContents(s, p);
  }

  lemma {:induction false} WithoutShorter(s: seq<Ptr>, p: Ptr)
    ensures |Without(s, p)| <= |s| && (p in s ==> |Without(s, p)| < |s|)
  {
    if s != [] { WithoutShorter(s[1..], p); }
  }

  lemma Attachable(m: Memory, root: Ptr, k: Ctx, node: Ptr, addrs: Addrs, tree: Tree, entries: map<Key, Ptr>)
    requires node in addrs && At(m, root, k, E, KeyOf(addrs[node]), addrs, tree)
    requires Refines(m, root, tree, addrs, entries) && node !in Inorder(tree)
    ensures node !in CtxIds(k) && CtxBalanced(k, 0) && node in m && node != 0
  {
    WholeEmpty(k);
    AroundIds(k);
    SoundUnplug(k, E);
  }

  lemma Attached(m: Memory, root: Ptr, k: Ctx, node: Ptr, addrs: Addrs, tree: Tree, entries: map<Key, Ptr>, m': Memory, root': Ptr, tree': Tree)
    requires node in addrs && At(m, root, k, E, KeyOf(addrs[node]), addrs, tree)
    requires Refines(m, root, tree, addrs, entries) && node !in Inorder(tree)
    requires Linked(m', root', Top, tree') && RedBlack(tree') && m'.Keys == m.Keys
    requires Inorder(tree') == Before(k) + [node] + After(k)
    ensures Refines(m', root', tree', addrs, entries[KeyOf(addrs[node]) := node])
  {
    WholeEmpty(k);
    Absent(m, root, k, KeyOf(addrs[node]), addrs, tree, entries);
    SortedInsert(Before(k), node, After(k), addrs, entries);
  }

  lemma Detachable(m: Memory, root: Ptr, e: Ptr, addrs: Addrs, tree: Tree, entries: map<Key, Ptr>)
    requires Refines(m, root, tree, addrs, entries) && e in Inorder(tree)
    ensures e in Ids(tree) && e in addrs
  {
    InorderIds(tree);
  }

  lemma Detached(m: Memory, root: Ptr, e: Ptr, addrs: Addrs, tree: Tree, entries: map<Key, Ptr>, m': Memory, root': Ptr, tree': Tree)
    requires Refines(m, root, tree, addrs, entries) && e in Inorder(tree)
    requires Linked(m', root', Top, tree') && RedBlack(tree') && m'.Keys == m.Keys
    requires Inorder(tree') == Without(Inorder(tree), e)
    ensures Refines(m', root', tree', addrs, entries - {KeyOf(addrs[e])})
    ensures forall p :: p in Inorder(tree') <==> p in Inorder(tree) && p != e
    ensures |Inorder(tree')| < |Inorder(tree)|
  {
    IndexesWithout(Inorder(tree), e, addrs, entries);
    WithoutContents(Inorder(tree), e);
    WithoutShorter(Inorder(tree), e);
  }

  lemma RootEntry(m: Memory, root: Ptr, addrs: Addrs, tree: Tree, entries: map<Key, Ptr>)
    requires Refines(m, root, tree, addrs, entries) && root != 0
    ensures root in Inorder(tree) && root in addrs
  {
    assert root in Ids(tree);
    InorderIds(tree);
  }

  lemma NoEntries(m: Memory, root: Ptr, addrs: Addrs, tree: Tree, entries: map<Key, Ptr>)
    requires Refines(m, root, tree, addrs, entries) && root == 0
    ensures entries == map[] && Inorder(tree) == []
  {
    assert Inorder(tree) == [];
  }

  lemma Allocated(m: Memory, root: Ptr, p: Ptr, a: Addr, addrs: Addrs, tree: Tree, entries: map<Key, Ptr>)
    requires Refines(m, root, tree, addrs, entries) && p != 0 && p !in addrs
    ensures Refines(m[p := RbNode(0, 0, 0, Red)], root, tree, addrs[p := a], entries)
    ensures p !in Inorder(tree)
  {
    var m' := m[p := RbNode(0, 0, 0, Red)];
    assert p !in Inorder(tree);
    InorderIds(tree);
    RepFrame(m, m', tree, 0);
  }

  lemma AllocatedAt(m: Memory, root: Ptr, p: Ptr, a: Addr, k: Ctx, addrs: Addrs, tree: Tree)
    requires At(m, root, k, E, KeyOf(a), addrs, tree) && p !in m && p !in addrs
    ensures At(m[p := RbNode(0, 0, 0, Red)], root, k, E, KeyOf(a), addrs[p := a], tree)
  {
    CtxFrame(m, m[p := RbNode(0, 0, 0, Red)], root, k, 0);
  }

  lemma Released(m: Memory, root: Ptr, p: Ptr, addrs: Addrs, tree: Tree, entries: map<Key, Ptr>)
    requires Refines(m, root, tree, addrs, entries) && p !in Inorder(tree)
    ensures Refines(m - {p}, root, tree, addrs - {p}, entries)
  {
    InorderIds(tree);
    RepFrame(m, m - {p}, tree, 0);
  }
}
