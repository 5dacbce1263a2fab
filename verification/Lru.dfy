/**
  cpputil/LRUCache.h: a list of nodes in order of use and a map from keys to their nodes. A node
  is known by a number, which stands for the iterator that the map holds.
  */
module Lru {

  import opened Basics
  import opened LruSpec

  /** The entries of the nodes in the list. */
  function Entries<K, V>(list: seq<Ptr>, nodes: map<Ptr, Entry<K, V>>): seq<Entry<K, V>>
    requires forall i :: 0 <= i < |list| ==> list[i] in nodes
  {
    seq(|list|, i requires 0 <= i < |list| => nodes[list[i]])
  }

  predicate Keyed<K(==), V>(nodes: map<Ptr, Entry<K, V>>, hash: map<K, Ptr>, p: Ptr) {
    p in nodes && nodes[p].key in hash && hash[nodes[p].key] == p
  }

  /** The map leads from each key to the one node with that key, and each node is in the list once. */
  ghost predicate Agree<K(!new), V(!new)>(list: seq<Ptr>, nodes: map<Ptr, Entry<K, V>>, hash: map<K, Ptr>) {
    NoDup(list) &&
    (forall i :: 0 <= i < |list| ==> list[i] in nodes) &&
    (forall p :: p in list ==> Keyed(nodes, hash, p)) &&
    (forall p :: p in nodes ==> p in list) &&
    (forall k :: k in hash ==> hash[k] in nodes && nodes[hash[k]].key == k)
  }

  /** The list without the node at i. */
  function Cut(list: seq<Ptr>, i: nat): seq<Ptr>
    requires i < |list|
  {
    list[..i] + list[i + 1..]
  }

  lemma AgreeUnique<K(!new), V(!new)>(list: seq<Ptr>, nodes: map<Ptr, Entry<K, V>>, hash: map<K, Ptr>)
    requires Agree(list, nodes, hash)
    ensures Unique(Entries(list, nodes))
    ensures forall k :: Has(Entries(list, nodes), k) <==> k in hash
  {
    var es := Entries(list, nodes);
    forall i, j | 0 <= i < j < |es| ensures es[i].key != es[j].key {
      assert Keyed(nodes, hash, list[i]) && Keyed(nodes, hash, list[j]);
    }
    forall k | k in hash ensures Has(es, k) {
      var i :| 0 <= i < |list| && list[i] == hash[k];
      assert es[i].key == k;
    }
    forall k | Has(es, k) ensures k in hash {
      var i :| 0 <= i < |es| && es[i].key == k;
      assert Keyed(nodes, hash, list[i]);
    }
  }

  /** Taking out the node of a key takes out its entry. */
  lemma {:induction false} CutIsExcept<K(!new), V(!new)>(es: seq<Entry<K, V>>, i: nat)
    requires Unique(es) && i < |es|
    ensures es[..i] + es[i + 1..] == Except(es, es[i].key)
    decreases |es|
  {
    var key := es[i].key;
    TailUnique(es);
    if i == 0 {
      forall j | 0 <= j < |es[1..]| ensures es[1..][j].key != key { assert es[j + 1].key != es[0].key; }
      ExceptHas(es[1..], key);
      assert [] + es[1..] == es[1..];
    } else {
      assert es[0].key != key;
      CutIsExcept(es[1..], i - 1);
      assert es[1..][i - 1] == es[i];
      assert [es[0]] + (es[1..][..i - 1] + es[1..][i..]) == es[..i] + es[i + 1..];
    }
  }

  lemma {:induction false} ValueAt<K, V>(es: seq<Entry<K, V>>, i: nat)
    requires Unique(es) && i < |es|
    ensures Has(es, es[i].key) && ValueOf(es, es[i].key) == es[i].val
    decreases |es|
  {
    assert Has(es, es[i].key);
    if i > 0 {
      TailUnique(es);
      assert es[0].key != es[i].key;
      ValueAt(es[1..], i - 1);
      assert es[1..][i - 1] == es[i];
    }
  }

  lemma CutHas(list: seq<Ptr>, i: nat)
    requires i < |list| && NoDup(list)
    ensures NoDup(Cut(list, i))
    ensures forall q :: q in Cut(list, i) <==> q in list && q != list[i]
  {
    var c := Cut(list, i);
    forall q | q in list && q != list[i] ensures q in c {
      var j :| 0 <= j < |list| && list[j] == q;
      assert c[if j < i then j else j - 1] == q;
    }
    forall j | 0 <= j < |c| ensures c[j] in list && c[j] != list[i] {
      assert c[j] == list[if j < i then j else j + 1];
    }
  }

  lemma EntriesCut<K, V>(list: seq<Ptr>, nodes: map<Ptr, Entry<K, V>>, more: map<Ptr, Entry<K, V>>, i: nat)
    requires i < |list| && forall j :: 0 <= j < |list| ==> list[j] in nodes
    requires forall q :: q in Cut(list, i) ==> q in more && more[q] == nodes[q]
    ensures var es := Entries(list, nodes); Entries(Cut(list, i), more) == es[..i] + es[i + 1..]
  {
    var c := Cut(list, i);
    forall j | 0 <= j < |c| ensures more[c[j]] == nodes[list[if j < i then j else j + 1]] { assert c[j] in c; }
  }

  /** A node taken out of list, nodes and map. */
  lemma AgreeCut<K(!new), V(!new)>(list: seq<Ptr>, nodes: map<Ptr, Entry<K, V>>, hash: map<K, Ptr>, i: nat)
    requires Agree(list, nodes, hash) && i < |list|
    ensures list[i] in list && list[i] in nodes
    ensures var p := list[i]; var key := nodes[p].key;
      Agree(Cut(list, i), nodes - {p}, hash - {key}) &&
      Entries(Cut(list, i), nodes - {p}) == Except(Entries(list, nodes), key)
  {
    var p := list[i];
    var key := nodes[p].key;
    AgreeUnique(list, nodes, hash);
    CutIsExcept(Entries(list, nodes), i);
    CutHas(list, i);
    hide NoDup, Cut, Except, Unique, Has;
    EntriesCut(list, nodes, nodes - {p}, i);
    KeyedCut(list, nodes, hash, Cut(list, i), p);
  }

  lemma KeyedCut<K(!new), V(!new)>(list: seq<Ptr>, nodes: map<Ptr, Entry<K, V>>, hash: map<K, Ptr>, c: seq<Ptr>, p: Ptr)
    requires Agree(list, nodes, hash) && p in list && NoDup(c)
    requires forall q :: q in c <==> q in list && q != p
    ensures Agree(c, nodes - {p}, hash - {nodes[p].key})
  {
    var key := nodes[p].key;
    forall q | q in c ensures Keyed(nodes - {p}, hash - {key}, q) {
      assert Keyed(nodes, hash, q) && Keyed(nodes, hash, p);
    }
    forall i | 0 <= i < |c| ensures c[i] in nodes - {p} { assert c[i] in c; }
  }

  /** A node moved to the front. */
  lemma AgreeMove<K(!new), V(!new)>(list: seq<Ptr>, nodes: map<Ptr, Entry<K, V>>, hash: map<K, Ptr>, i: nat)
    requires Agree(list, nodes, hash) && i < |list|
    ensures Agree([list[i]] + Cut(list, i), nodes, hash)
    ensures var es := Entries(list, nodes);
      Entries([list[i]] + Cut(list, i), nodes) == [es[i]] + Except(es, es[i].key)
  {
    var es := Entries(list, nodes);
    AgreeUnique(list, nodes, hash);
    CutIsExcept(es, i);
    FrontHas(list, i);
    AgreeSame(list, nodes, hash, [list[i]] + Cut(list, i));
    hide Except, Unique, Has, Keyed, NoDup, Cut;
    EntriesFront(list, nodes, i);
  }

  lemma EntriesFront<K, V>(list: seq<Ptr>, nodes: map<Ptr, Entry<K, V>>, i: nat)
    requires i < |list| && forall j :: 0 <= j < |list| ==> list[j] in nodes
    ensures var l := [list[i]] + Cut(list, i); var es := Entries(list, nodes);
      (forall j :: 0 <= j < |l| ==> l[j] in nodes) && Entries(l, nodes) == [es[i]] + (es[..i] + es[i + 1..])
  {
    var l := [list[i]] + Cut(list, i);
    forall j | 0 <= j < |l|
      ensures l[j] == list[if j == 0 then i else if j <= i then j - 1 else j]
    {
    }
  }

  lemma FrontHas(list: seq<Ptr>, i: nat)
    requires i < |list| && NoDup(list)
    ensures var l := [list[i]] + Cut(list, i); NoDup(l) && forall q :: q in l <==> q in list
  {
    CutHas(list, i);
    var c := Cut(list, i);
    var l := [list[i]] + c;
    forall j | 1 <= j < |l| ensures l[j] in c { assert l[j] == c[j - 1]; }
  }

  lemma AgreeSame<K(!new), V(!new)>(list: seq<Ptr>, nodes: map<Ptr, Entry<K, V>>, hash: map<K, Ptr>, l: seq<Ptr>)
    requires Agree(list, nodes, hash) && NoDup(l) && forall q :: q in l <==> q in list
    ensures Agree(l, nodes, hash)
  {
    forall j | 0 <= j < |l| ensures l[j] in nodes { assert l[j] in l; assert Keyed(nodes, hash, l[j]); }
  }

  lemma NodeAt<K(!new), V(!new)>(list: seq<Ptr>, nodes: map<Ptr, Entry<K, V>>, hash: map<K, Ptr>, i: nat)
    requires Agree(list, nodes, hash) && i < |list|
    ensures list[i] in nodes && Entries(list, nodes)[i] == nodes[list[i]]
    ensures nodes[list[i]].key in hash && hash[nodes[list[i]].key] == list[i]
  {
    assert list[i] in list;
  }

  lemma KeyAt<K(!new), V(!new)>(list: seq<Ptr>, nodes: map<Ptr, Entry<K, V>>, hash: map<K, Ptr>, key: K)
    requires Agree(list, nodes, hash)
    ensures Has(Entries(list, nodes), key) <==> key in hash
    ensures key in hash ==> hash[key] in list && hash[key] in nodes && nodes[hash[key]].key == key &&
                            nodes[hash[key]].val == ValueOf(Entries(list, nodes), key)
  {
    AgreeUnique(list, nodes, hash);
    if key in hash {
      var i :| 0 <= i < |list| && list[i] == hash[key];
      ValueAt(Entries(list, nodes), i);
    }
  }

  lemma ExceptSet<K(!new), V(!new)>(es: seq<Entry<K, V>>, i: nat, e: Entry<K, V>)
    requires Unique(es) && i < |es| && e.key == es[i].key
    ensures Except(es[i := e], e.key) == Except(es, e.key)
  {
    CutIsExcept(es, i);
    CutIsExcept(es[i := e], i);
    assert es[i := e][..i] + es[i := e][i + 1..] == es[..i] + es[i + 1..];
  }

  /** A new node at the front. */
  lemma AgreeFront<K(!new), V(!new)>(list: seq<Ptr>, nodes: map<Ptr, Entry<K, V>>, hash: map<K, Ptr>, p: Ptr, e: Entry<K, V>)
    requires Agree(list, nodes, hash) && p !in nodes && e.key !in hash
    ensures Agree([p] + list, nodes[p := e], hash[e.key := p])
    ensures forall q :: q in list ==> q in nodes
    ensures Entries([p] + list, nodes[p := e]) == [e] + Entries(list, nodes)
  {
    var l, n, h := [p] + list, nodes[p := e], hash[e.key := p];
    forall q | q in l ensures Keyed(n, h, q) {
      if q != p { assert q in list && Keyed(nodes, hash, q); }
    }
    forall i | 0 <= i < |list| ensures list[i] != p { assert Keyed(nodes, hash, list[i]); }
  }

  class LruCache<K(==,!new), V(!new)> {
    var capacity: nat
    var list: seq<Ptr>
    var nodes: map<Ptr, Entry<K, V>>
    var hash: map<K, Ptr>
    /** The calls of the eviction callback. */
    var evicted: seq<Entry<K, V>>

    ghost predicate Valid()
      reads this
    {
      Agree(list, nodes, hash) && |list| <= capacity && capacity >= 1
    }

    /** The entries, most recently used first. */
    ghost function Contents(): (r: seq<Entry<K, V>>)
      reads this
      requires Agree(list, nodes, hash)
      ensures |r| == |list|
    {
      Entries(list, nodes)
    }

    constructor (n: nat)
      ensures Valid() && Contents() == [] && capacity == (if n == 0 then 1 else n) && evicted == []
    {
      capacity := if n == 0 then 1 else n;
      list, nodes, hash, evicted := [], map[], map[], [];
    }

    /** The place of a node in the list. */
    method Find(p: Ptr) returns (i: nat)
      requires p in list
      ensures i < |list| && list[i] == p && p !in list[..i]
    {
      i := 0;
      while list[i] != p
        invariant i < |list| && p in list[i..] && p !in list[..i]
        decreases |list| - i
      {
        assert list[i..] == [list[i]] + list[i + 1..];
        i := i + 1;
      }
    }

    /** std::list::erase and the erasure from the map. */
    method Unlink(i: nat)
      requires Agree(list, nodes, hash) && i < |list|
      modifies `list, `nodes, `hash
      ensures Agree(list, nodes, hash) && |list| == |old(list)| - 1
      ensures Contents() == Except(old(Contents()), old(Contents()[i]).key)
      ensures Contents() == old(Contents())[..i] + old(Contents())[i + 1..]
      ensures (forall k :: k in hash ==> k in old(hash)) && (forall p :: p in nodes ==> p in old(nodes))
    {
      hide Agree, Except, Unique, Has;
      AgreeUnique(list, nodes, hash);
      CutIsExcept(Contents(), i);
      NodeAt(list, nodes, hash, i);
      AgreeCut(list, nodes, hash, i);
      var p := list[i];
      hash := hash - {nodes[p].key};
      nodes := nodes - {p};
      list := Cut(list, i);
    }

    /** emplace_front. */
    method Prepend(p: Ptr, e: Entry<K, V>)
      requires Agree(list, nodes, hash) && p !in nodes && e.key !in hash
      modifies `list, `nodes, `hash
      ensures Agree(list, nodes, hash) && Contents() == [e] + old(Contents())
    {
      hide Agree;
      AgreeFront(list, nodes, hash, p, e);
      list := [p] + list;
      nodes := nodes[p := e];
      hash := hash[e.key := p];
    }

    /** move_to_front. */
    method MoveToFront(p: Ptr)
      requires Agree(list, nodes, hash) && p in list && p in nodes
      modifies `list
      ensures Agree(list, nodes, hash)
      ensures Contents() == [nodes[p]] + Except(old(Contents()), nodes[p].key)
    {
      hide Agree, Except;
      var i := Find(p);
      NodeAt(list, nodes, hash, i);
      AgreeMove(list, nodes, hash, i);
      assert i > 0 ==> list[..i][0] == list[0];
      assert i == 0 ==> [list[0]] + Cut(list, 0) == list;
      if list[0] != p {
        list := [p] + Cut(list, i);
      }
    }

    /** get. */
    method GetEntry(key: K) returns (r: Option<V>)
      requires Valid()
      modifies `list
      ensures Valid() && Contents() == Get(old(Contents()), key)
      ensures r == if Has(old(Contents()), key) then Some(ValueOf(old(Contents()), key)) else None
    {
      hide Agree, Except, Has, ValueOf;
      ghost var es := Contents();
      KeyAt(list, nodes, hash, key);
      if key !in hash { return None; }
      var p := hash[key];
      AgreeUnique(list, nodes, hash);
      ExceptLength(es, key);
      MoveToFront(p);
      r := Some(nodes[p].val);
    }

    /** evict_lru. */
    method EvictLru()
      requires Agree(list, nodes, hash)
      modifies `list, `nodes, `hash, `evicted
      ensures Agree(list, nodes, hash)
      ensures var es := old(Contents());
        if es == [] then Contents() == es && evicted == old(evicted)
        else Contents() == es[..|es| - 1] && evicted == old(evicted) + [es[|es| - 1]]
      ensures (forall k :: k in hash ==> k in old(hash)) && (forall p :: p in nodes ==> p in old(nodes))
    {
      hide Agree, Except;
      if |list| == 0 { return; }
      ghost var es := Contents();
      var last := |list| - 1;
      NodeAt(list, nodes, hash, last);
      evicted := evicted + [nodes[list[last]]];
      Unlink(last);
      assert es[..last] + es[last + 1..] == es[..last];
    }

    method SetValue(q: Ptr, val: V, ghost i: nat)
      requires Agree(list, nodes, hash) && i < |list| && list[i] == q && q in nodes
      modifies `nodes
      ensures Agree(list, nodes, hash) && nodes.Keys == old(nodes).Keys && nodes[q] == Entry(old(nodes[q].key), val)
      ensures Contents() == old(Contents())[i := nodes[q]]
    {
      ghost var n := nodes[q := Entry(nodes[q].key, val)];
      forall p | p in list ensures Keyed(n, hash, p) { assert Keyed(nodes, hash, p); }
      assert Keyed(nodes, hash, q);
      nodes := nodes[q := Entry(nodes[q].key, val)];
    }

    /** put; p is where the allocator puts a new node. */
    method PutEntry(key: K, val: V, p: Ptr) returns (added: bool)
      requires Valid() && p !in nodes
      modifies `list, `nodes, `hash, `evicted
      ensures Valid() && Contents() == Put(capacity, old(Contents()), key, val)
      ensures added == !Has(old(Contents()), key)
      ensures evicted == old(evicted) +
        if added && |old(list)| >= capacity then [old(Contents()[|list| - 1])] else []
    {
      hide Agree, Except, Has, Unique;
      ghost var es := Contents();
      KeyAt(list, nodes, hash, key);
      AgreeUnique(list, nodes, hash);
      assert evicted + [] == evicted;
      if key in hash {
        var q := hash[key];
        ghost var i :| 0 <= i < |list| && list[i] == q;
        NodeAt(list, nodes, hash, i);
        ExceptSet(es, i, Entry(key, val));
        ExceptLength(es, key);
        SetValue(q, val, i);
        MoveToFront(q);
        return false;
      }
      if |list| >= capacity {
        EvictLru();
      }
      Prepend(p, Entry(key, val));
      added := true;
    }

    /** remove. */
    method Remove(key: K) returns (removed: bool)
      requires Valid()
      modifies `list, `nodes, `hash, `evicted
      ensures Valid() && Contents() == Except(old(Contents()), key)
      ensures removed == Has(old(Contents()), key)
      ensures evicted == old(evicted) + if removed then [Entry(key, ValueOf(old(Contents()), key))] else []
    {
      hide Agree, Except, Has, Unique, ValueOf;
      ghost var es := Contents();
      KeyAt(list, nodes, hash, key);
      ExceptHas(es, key);
      assert evicted + [] == evicted;
      if key !in hash { return false; }
      var p := hash[key];
      var i := Find(p);
      NodeAt(list, nodes, hash, i);
      evicted := evicted + [nodes[p]];
      Unlink(i);
      removed := true;
    }

    /** set_capacity: the least recently used entries go, the last one first. */
    method SetCapacity(n: nat)
      requires Valid()
      modifies this
      ensures Valid() && capacity == (if n == 0 then 1 else n)
      ensures Contents() == if |old(list)| <= capacity then old(Contents()) else old(Contents())[..capacity]
      ensures evicted == old(evicted) + Backwards(old(Contents())[|list|..])
    {
      hide Agree;
      ghost var es, log := Contents(), evicted;
      var size := if n == 0 then 1 else n;
      capacity := size;
      assert es[..|es|] == es && es[|es|..] == [];
      assert log + [] == log;
      while |list| > capacity
        invariant capacity == size
        invariant Agree(list, nodes, hash) && |list| <= |es| && Contents() == es[..|list|]
        invariant |list| >= capacity || |list| == |es|
        invariant evicted == log + Backwards(es[|list|..])
      {
        var last := |list| - 1;
        assert es[..|list|][..last] == es[..last] && es[..|list|][last] == es[last];
        BackwardsMore(es, last);
        Associative(log, Backwards(es[last + 1..]), [es[last]]);
        EvictLru();
      }
    }

    /** remove_if: exactly the entries that the predicate accepts go, from front to back. */
    method RemoveIf(drop: (K, V) -> bool) returns (removed: nat)
      requires Valid()
      modifies `list, `nodes, `hash, `evicted
      ensures Valid() && Contents() == Keep(old(Contents()), drop)
      ensures evicted == old(evicted) + Keep(old(Contents()), Negated(drop))
      ensures removed == |old(list)| - |list|
    {
      hide Agree, Keep, Except;
      ghost var es, log := Contents(), evicted;
      ghost var spare := Negated(drop);
      removed := 0;
      var i := 0;
      assert es[0..] == es && es[..0] == [];
      assert [] + Keep(es, drop) == Keep(es, drop);
      while i < |list|
        invariant Agree(list, nodes, hash) && i <= |list| && removed == |es| - |list|
        invariant |list| <= capacity
        invariant Contents()[..i] + Keep(Contents()[i..], drop) == Keep(es, drop)
        invariant evicted + Keep(Contents()[i..], spare) == log + Keep(es, spare)
        decreases |list| - i
      {
        ghost var now := Contents();
        KeepStep(now, i, drop);
        KeepStep(now, i, spare);
        NodeAt(list, nodes, hash, i);
        var e := nodes[list[i]];
        if drop(e.key, e.val) {
          Associative(evicted, [e], Keep(now[i + 1..], spare));
          evicted := evicted + [e];
          Unlink(i);
          assert Contents()[..i] == now[..i] && Contents()[i..] == now[i + 1..];
          removed := removed + 1;
        } else {
          assert now[..i + 1] == now[..i] + [e];
          Associative(now[..i], [e], Keep(now[i + 1..], drop));
          i := i + 1;
        }
      }
      assert Contents()[..i] == Contents() && Contents()[i..] == [];
      KeepNone(drop);
      KeepNone(spare);
      assert Contents() + [] == Contents() && evicted + [] == evicted;
    }
  }

  function Negated<K, V>(drop: (K, V) -> bool): (K, V) -> bool { (k, v) => !drop(k, v) }

  function Backwards<T>(s: seq<T>): seq<T> {
    if s == [] then [] else Backwards(s[1..]) + [s[0]]
  }

  lemma BackwardsMore<T>(s: seq<T>, i: nat)
    requires i < |s|
    ensures Backwards(s[i..]) == Backwards(s[i + 1..]) + [s[i]]
  {
    assert s[i..][1..] == s[i + 1..];
  }

  lemma KeepNone<K, V>(drop: (K, V) -> bool)
    ensures Keep([], drop) == []
  {
  }

  lemma KeepStep<K, V>(list: seq<Entry<K, V>>, i: nat, drop: (K, V) -> bool)
    requires i < |list|
    ensures Keep(list[i..], drop) ==
      if drop(list[i].key, list[i].val) then Keep(list[i + 1..], drop) else [list[i]] + Keep(list[i + 1..], drop)
  {
    assert list[i..][1..] == list[i + 1..];
    var r := Keep(list[i + 1..], drop);
    assert [] + r == r;
  }
}
