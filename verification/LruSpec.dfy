/**
  What the operations of cpputil/LRUCache.h do to the list of entries, most recently used first,
  and how caches of different capacities compare.
  */
module LruSpec {

  datatype Option<T> = None | Some(value: T)

  datatype Entry<K, V> = Entry(key: K, val: V)

  /** The list without the entries of a key. */
  function Except<K(==), V>(list: seq<Entry<K, V>>, key: K): seq<Entry<K, V>> {
    if list == [] then []
    else (if list[0].key == key then [] else [list[0]]) + Except(list[1..], key)
  }

  predicate Has<K(==), V>(list: seq<Entry<K, V>>, key: K) {
    exists i :: 0 <= i < |list| && list[i].key == key
  }

  predicate Unique<K(==), V(==)>(list: seq<Entry<K, V>>) {
    forall i, j :: 0 <= i < j < |list| ==> list[i].key != list[j].key
  }

  function ValueOf<K(==), V>(list: seq<Entry<K, V>>, key: K): (v: V)
    requires Has(list, key)
  {
    if list[0].key == key then list[0].val else ValueOf(list[1..], key)
  }

  function Get<K(==), V>(list: seq<Entry<K, V>>, key: K): seq<Entry<K, V>> {
    if Has(list, key) then [Entry(key, ValueOf(list, key))] + Except(list, key) else list
  }

  function Put<K(==), V>(capacity: nat, list: seq<Entry<K, V>>, key: K, val: V): seq<Entry<K, V>> {
    if Has(list, key) then [Entry(key, val)] + Except(list, key)
    else if |list| >= capacity && list != [] then [Entry(key, val)] + list[..|list| - 1]
    else [Entry(key, val)] + list
  }

  lemma {:induction false} ExceptHas<K, V>(list: seq<Entry<K, V>>, key: K)
    ensures !Has(Except(list, key), key)
    ensures forall e :: e in Except(list, key) <==> e in list && e.key != key
    ensures |Except(list, key)| <= |list|
    ensures Has(list, key) ==> |Except(list, key)| < |list|
    ensures !Has(list, key) ==> Except(list, key) == list
    decreases |list|
  {
    if list != [] {
      ExceptHas(list[1..], key);
      assert list == [list[0]] + list[1..];
      var w := Except(list, key);
      assert forall i :: 0 <= i < |w| ==> w[i] in w;
      if Has(list, key) && list[0].key != key {
        var i :| 0 <= i < |list| && list[i].key == key;
        assert list[1..][i - 1].key == key;
      }
      if Has(list[1..], key) {
        var i :| 0 <= i < |list| - 1 && list[1..][i].key == key;
        assert list[i + 1].key == key;
      }
    }
  }

  lemma {:induction false} ExceptFrom<K, V>(list: seq<Entry<K, V>>, key: K, i: nat) returns (j: nat)
    requires i < |Except(list, key)|
    ensures j < |list| && list[j] == Except(list, key)[i]
    decreases |list|
  {
    if list[0].key == key {
      j := ExceptFrom(list[1..], key, i);
      j := j + 1;
    } else if i == 0 {
      j := 0;
    } else {
      j := ExceptFrom(list[1..], key, i - 1);
      j := j + 1;
    }
  }

  lemma {:induction false} ExceptUnique<K, V>(list: seq<Entry<K, V>>, key: K)
    requires Unique(list)
    ensures Unique(Except(list, key))
    decreases |list|
  {
    if list != [] {
      var t := list[1..];
      assert Unique(t) by {
        forall i, j | 0 <= i < j < |t| ensures t[i].key != t[j].key { assert list[i + 1].key != list[j + 1].key; }
      }
      ExceptUnique(t, key);
      ExceptHas(t, key);
      var w := Except(t, key);
      forall i | 0 <= i < |w| ensures w[i].key != list[0].key {
        var j := ExceptFrom(t, key, i);
        assert list[j + 1] == w[i];
      }
    }
  }

  // ---- subsequences

  /** s can be had from t by leaving out entries. */
  predicate Sub<T(==)>(s: seq<T>, t: seq<T>)
    decreases |t|
  {
    s == [] || (t != [] && if s[0] == t[0] then Sub(s[1..], t[1..]) else Sub(s, t[1..]))
  }

  lemma {:induction false} SubTail<T>(s: seq<T>, t: seq<T>)
    requires s != [] && Sub(s, t)
    ensures Sub(s[1..], t)
    decreases |t|, 0
  {
    if s[0] == t[0] {
      SubMore(s[1..], t[0], t[1..]);
      assert [t[0]] + t[1..] == t;
    } else {
      SubTail(s, t[1..]);
      SubMore(s[1..], t[0], t[1..]);
      assert [t[0]] + t[1..] == t;
    }
  }

  lemma {:induction false} SubMore<T>(s: seq<T>, x: T, t: seq<T>)
    requires Sub(s, t)
    ensures Sub(s, [x] + t)
    decreases |t|, 1
  {
    var u := [x] + t;
    assert u[1..] == t;
    if s != [] && s[0] == x { SubTail(s, t); }
  }

  lemma {:induction false} SubDropLast<T>(s: seq<T>, t: seq<T>)
    requires s != [] && Sub(s, t)
    ensures t != [] && Sub(s[..|s| - 1], t[..|t| - 1])
    decreases |t|
  {
    var a, b := s[..|s| - 1], t[..|t| - 1];
    if |s| > 1 {
      if s[0] == t[0] {
        SubDropLast(s[1..], t[1..]);
        assert a[1..] == s[1..][..|s| - 2] && b[1..] == t[1..][..|t| - 2];
      } else {
        SubDropLast(s, t[1..]);
        assert b[1..] == t[1..][..|t| - 2];
      }
    }
  }

  lemma {:induction false} SubLength<T>(s: seq<T>, t: seq<T>)
    requires Sub(s, t)
    ensures |s| <= |t| && (|s| == |t| ==> s == t)
    ensures forall x :: x in s ==> x in t
    decreases |t|
  {
    if s != [] {
      if s[0] == t[0] {
        SubLength(s[1..], t[1..]);
        assert s == [s[0]] + s[1..] && t == [t[0]] + t[1..];
      } else {
        SubLength(s, t[1..]);
      }
    }
  }

  lemma {:induction false} SubExcept<K, V>(s: seq<Entry<K, V>>, t: seq<Entry<K, V>>, key: K)
    requires Sub(s, t)
    ensures Sub(Except(s, key), Except(t, key))
    decreases |t|
  {
    if s != [] {
      if s[0] == t[0] {
        SubExcept(s[1..], t[1..], key);
        var a, b := Except(s[1..], key), Except(t[1..], key);
        assert [] + a == a && [] + b == b;
        if s[0].key != key {
          assert ([s[0]] + a)[1..] == a && ([t[0]] + b)[1..] == b;
        }
      } else {
        SubExcept(s, t[1..], key);
        assert [] + Except(t[1..], key) == Except(t[1..], key);
        if t[0].key != key { SubMore(Except(s, key), t[0], Except(t[1..], key)); }
      }
    }
  }

  lemma SubFront<T>(x: T, s: seq<T>, t: seq<T>)
    requires Sub(s, t)
    ensures Sub([x] + s, [x] + t)
  {
    assert ([x] + s)[1..] == s && ([x] + t)[1..] == t;
  }

  // ---- the entries that a predicate spares

  function Keep<K, V>(list: seq<Entry<K, V>>, drop: (K, V) -> bool): seq<Entry<K, V>> {
    if list == [] then []
    else (if drop(list[0].key, list[0].val) then [] else [list[0]]) + Keep(list[1..], drop)
  }

  lemma {:induction false} KeepFrom<K, V>(list: seq<Entry<K, V>>, drop: (K, V) -> bool, i: nat) returns (j: nat)
    requires i < |Keep(list, drop)|
    ensures j < |list| && list[j] == Keep(list, drop)[i]
    decreases |list|
  {
    if drop(list[0].key, list[0].val) {
      j := KeepFrom(list[1..], drop, i);
      j := j + 1;
    } else if i == 0 {
      j := 0;
    } else {
      j := KeepFrom(list[1..], drop, i - 1);
      j := j + 1;
    }
  }

  lemma {:induction false} KeepUnique<K, V>(list: seq<Entry<K, V>>, drop: (K, V) -> bool)
    requires Unique(list)
    ensures Unique(Keep(list, drop)) && |Keep(list, drop)| <= |list|
    decreases |list|
  {
    if list != [] {
      var t := list[1..];
      TailUnique(list);
      KeepUnique(t, drop);
      var w := Keep(t, drop);
      forall i | 0 <= i < |w| ensures w[i].key != list[0].key {
        var j := KeepFrom(t, drop, i);
        assert list[j + 1] == w[i];
      }
    }
  }

  lemma TailUnique<K, V>(list: seq<Entry<K, V>>)
    requires list != [] && Unique(list)
    ensures Unique(list[1..])
  {
    var t := list[1..];
    forall i, j | 0 <= i < j < |t| ensures t[i].key != t[j].key { assert list[i + 1].key != list[j + 1].key; }
  }

  /** A subsequence stays one, and no more entries come between. */
  lemma {:induction false} SubKeep<K, V>(s: seq<Entry<K, V>>, t: seq<Entry<K, V>>, drop: (K, V) -> bool)
    requires Sub(s, t)
    ensures Sub(Keep(s, drop), Keep(t, drop))
    ensures |Keep(t, drop)| - |Keep(s, drop)| <= |t| - |s|
    decreases |t|
  {
    if s == [] {
      KeepShort(t, drop);
    } else if s[0] == t[0] {
      SubKeep(s[1..], t[1..], drop);
      var a, b := Keep(s[1..], drop), Keep(t[1..], drop);
      assert [] + a == a && [] + b == b;
      SubFront(s[0], a, b);
    } else {
      SubKeep(s, t[1..], drop);
      var b := Keep(t[1..], drop);
      assert [] + b == b;
      SubMore(Keep(s, drop), t[0], b);
    }
  }

  lemma {:induction false} KeepShort<K, V>(t: seq<Entry<K, V>>, drop: (K, V) -> bool)
    ensures |Keep(t, drop)| <= |t|
    decreases |t|
  {
    if t != [] { KeepShort(t[1..], drop); }
  }

  // ---- one run on two caches

  datatype Op<!K, !V> = GetOp(key: K) | PutOp(key: K, val: V) | RemoveOp(key: K) | RemoveIfOp(drop: (K, V) -> bool)

  function Do<K(==), V>(capacity: nat, list: seq<Entry<K, V>>, op: Op<K, V>): seq<Entry<K, V>> {
    match op
    case GetOp(k) => Get(list, k)
    case PutOp(k, v) => Put(capacity, list, k, v)
    case RemoveOp(k) => Except(list, k)
    case RemoveIfOp(drop) => Keep(list, drop)
  }

  function Run<K(==), V>(capacity: nat, list: seq<Entry<K, V>>, ops: seq<Op<K, V>>): seq<Entry<K, V>>
    decreases |ops|
  {
    if ops == [] then list else Run(capacity, Do(capacity, list, ops[0]), ops[1..])
  }

  /** What holds of any two caches after the same operations: when the larger one is full, so is the smaller one. */
  predicate Related<K(==), V(==)>(c1: nat, s: seq<Entry<K, V>>, c2: nat, t: seq<Entry<K, V>>) {
    Unique(s) && Unique(t) && |s| <= c1 && |t| <= c2 && Sub(s, t) && |t| - |s| <= c2 - c1
  }

  lemma HasSub<K, V>(s: seq<Entry<K, V>>, t: seq<Entry<K, V>>, key: K)
    requires Sub(s, t) && Unique(t) && Has(s, key)
    ensures Has(t, key) && ValueOf(s, key) == ValueOf(t, key)
  {
    SubLength(s, t);
    ValueIn(s, key);
    var e := Entry(key, ValueOf(s, key));
    var i :| 0 <= i < |t| && t[i] == e;
    ValueIn(t, key);
  }

  lemma {:induction false} ValueIn<K, V>(list: seq<Entry<K, V>>, key: K)
    requires Has(list, key)
    ensures Entry(key, ValueOf(list, key)) in list
    decreases |list|
  {
    if list[0].key != key {
      var i :| 0 <= i < |list| && list[i].key == key;
      assert list[1..][i - 1].key == key;
      ValueIn(list[1..], key);
    }
  }

  lemma FrontUnique<K, V>(list: seq<Entry<K, V>>, e: Entry<K, V>)
    requires Unique(list) && !Has(list, e.key)
    ensures Unique([e] + list)
  {
  }

  lemma GetRelated<K, V>(c1: nat, s: seq<Entry<K, V>>, c2: nat, t: seq<Entry<K, V>>, key: K)
    requires Related(c1, s, c2, t)
    ensures Related(c1, Get(s, key), c2, Get(t, key))
  {
    ExceptHas(s, key);
    ExceptHas(t, key);
    if Has(t, key) {
      ExceptUnique(t, key);
      SubExcept(s, t, key);
      var e := Entry(key, ValueOf(t, key));
      var t' := Except(t, key);
      FrontUnique(t', e);
      if Has(s, key) {
        HasSub(s, t, key);
        ExceptUnique(s, key);
        FrontUnique(Except(s, key), e);
        SubFront(e, Except(s, key), t');
        ExceptLength(s, key);
        ExceptLength(t, key);
      } else {
        SubMore(s, e, t');
        ExceptLength(t, key);
      }
    } else if Has(s, key) {
      HasSub(s, t, key);
    }
  }

  lemma {:induction false} ExceptLength<K, V>(list: seq<Entry<K, V>>, key: K)
    requires Unique(list) && Has(list, key)
    ensures |Except(list, key)| == |list| - 1
    decreases |list|
  {
    var t := list[1..];
    forall i, j | 0 <= i < j < |t| ensures t[i].key != t[j].key { assert list[i + 1].key != list[j + 1].key; }
    if list[0].key == key {
      forall i | 0 <= i < |t| ensures t[i].key != key { assert list[i + 1].key != list[0].key; }
      ExceptHas(t, key);
    } else {
      var i :| 0 <= i < |list| && list[i].key == key;
      assert t[i - 1].key == key;
      ExceptLength(t, key);
    }
  }

  lemma PutRelated<K, V>(c1: nat, s: seq<Entry<K, V>>, c2: nat, t: seq<Entry<K, V>>, key: K, val: V)
    requires 1 <= c1 <= c2 && Related(c1, s, c2, t)
    ensures Related(c1, Put(c1, s, key, val), c2, Put(c2, t, key, val))
  {
    var e := Entry(key, val);
    ExceptHas(s, key);
    ExceptHas(t, key);
    SubLength(s, t);
    if Has(t, key) {
      ExceptUnique(t, key);
      ExceptLength(t, key);
      SubExcept(s, t, key);
      FrontUnique(Except(t, key), e);
      if Has(s, key) {
        ExceptUnique(s, key);
        ExceptLength(s, key);
        FrontUnique(Except(s, key), e);
        SubFront(e, Except(s, key), Except(t, key));
      } else if |s| < c1 {
        FrontUnique(s, e);
        SubFront(e, s, Except(t, key));
      } else {
        LastDropped(s, key);
        FrontUnique(s[..|s| - 1], e);
        SubPrefix(s, Except(t, key));
        SubFront(e, s[..|s| - 1], Except(t, key));
      }
    } else {
      if Has(s, key) { HasSub(s, t, key); }
      PutNew(c1, s, c2, t, e);
    }
  }

  lemma LastDropped<K, V>(s: seq<Entry<K, V>>, key: K)
    requires s != [] && Unique(s) && !Has(s, key)
    ensures Unique(s[..|s| - 1]) && !Has(s[..|s| - 1], key)
  {
  }

  lemma SubPrefix<T>(s: seq<T>, t: seq<T>)
    requires s != [] && Sub(s, t)
    ensures Sub(s[..|s| - 1], t)
  {
    SubDropLast(s, t);
    assert t == t[..|t| - 1] + [t[|t| - 1]];
    SubLonger(s[..|s| - 1], t[..|t| - 1], t[|t| - 1]);
  }

  lemma {:induction false} SubLonger<T>(s: seq<T>, t: seq<T>, x: T)
    requires Sub(s, t)
    ensures Sub(s, t + [x])
    decreases |t|
  {
    if s != [] {
      assert (t + [x])[1..] == t[1..] + [x];
      if s[0] == t[0] { SubLonger(s[1..], t[1..], x); } else { SubLonger(s, t[1..], x); }
    }
  }

  /** A key that neither cache has: the last entry of a full cache makes room. */
  lemma PutNew<K, V>(c1: nat, s: seq<Entry<K, V>>, c2: nat, t: seq<Entry<K, V>>, e: Entry<K, V>)
    requires 1 <= c1 <= c2 && Related(c1, s, c2, t) && !Has(s, e.key) && !Has(t, e.key)
    ensures Related(c1, Put(c1, s, e.key, e.val), c2, Put(c2, t, e.key, e.val))
  {
    SubLength(s, t);
    FrontUnique(s, e);
    FrontUnique(t, e);
    if |s| < c1 {
      SubFront(e, s, t);
    } else {
      LastDropped(s, e.key);
      FrontUnique(s[..|s| - 1], e);
      if |t| >= c2 {
        LastDropped(t, e.key);
        FrontUnique(t[..|t| - 1], e);
        SubDropLast(s, t);
        SubFront(e, s[..|s| - 1], t[..|t| - 1]);
      } else {
        SubPrefix(s, t);
        SubFront(e, s[..|s| - 1], t);
      }
    }
  }

  lemma RemoveRelated<K, V>(c1: nat, s: seq<Entry<K, V>>, c2: nat, t: seq<Entry<K, V>>, key: K)
    requires Related(c1, s, c2, t)
    ensures Related(c1, Except(s, key), c2, Except(t, key))
  {
    ExceptHas(s, key);
    ExceptHas(t, key);
    ExceptUnique(s, key);
    ExceptUnique(t, key);
    SubExcept(s, t, key);
    if Has(s, key) {
      HasSub(s, t, key);
      ExceptLength(s, key);
    }
    if Has(t, key) { ExceptLength(t, key); }
  }

  /**
    Through any gets, puts and removals, what the smaller cache holds the larger one holds, in the same
    order and with the same values.
    */
  lemma {:induction false} Inclusion<K, V>(c1: nat, s: seq<Entry<K, V>>, c2: nat, t: seq<Entry<K, V>>, ops: seq<Op<K, V>>)
    requires 1 <= c1 <= c2 && Related(c1, s, c2, t)
    ensures Related(c1, Run(c1, s, ops), c2, Run(c2, t, ops))
    decreases |ops|
  {
    if ops != [] {
      match ops[0] {
        case GetOp(k) => GetRelated(c1, s, c2, t, k);
        case PutOp(k, v) => PutRelated(c1, s, c2, t, k, v);
        case RemoveOp(k) => RemoveRelated(c1, s, c2, t, k);
        case RemoveIfOp(drop) =>
          KeepUnique(s, drop);
          KeepUnique(t, drop);
          SubKeep(s, t, drop);
      }
      Inclusion(c1, Do(c1, s, ops[0]), c2, Do(c2, t, ops[0]), ops[1..]);
    }
  }

  lemma InclusionFromEmpty<K, V>(c1: nat, c2: nat, ops: seq<Op<K, V>>)
    requires 1 <= c1 <= c2
    ensures Sub(Run(c1, [], ops), Run(c2, [], ops))
    ensures |Run(c1, [], ops)| <= c1 && Unique(Run(c1, [], ops))
  {
    Inclusion(c1, [], c2, [], ops);
  }
}
