/** What a cache of cpputil/LRUCache.h holds, told from the operations alone: last use and last value. */
module LruOrder {

  import opened LruSpec

  /** When a key was last asked for or put: 0 for never. */
  function LastUse<K(==), V>(ops: seq<Op<K, V>>, key: K): nat {
    if ops == [] then 0
    else
      var op := ops[|ops| - 1];
      if (op.GetOp? || op.PutOp?) && op.key == key then |ops| else LastUse(ops[..|ops| - 1], key)
  }

  /** The value that a key was last put with. */
  function LastValue<K(==), V>(ops: seq<Op<K, V>>, key: K): Option<V> {
    if ops == [] then None
    else
      var op := ops[|ops| - 1];
      if op.PutOp? && op.key == key then Some(op.val) else LastValue(ops[..|ops| - 1], key)
  }

  /** Most recently used first, each key once, each with the value it was last put with. */
  ghost predicate InOrder<K(!new), V(!new)>(ops: seq<Op<K, V>>, list: seq<Entry<K, V>>) {
    && (forall i, j :: 0 <= i < j < |list| ==> Newer(ops, list[i], list[j]))
    && (forall i :: 0 <= i < |list| ==> Known(ops, list[i]))
  }

  predicate Newer<K(==), V>(ops: seq<Op<K, V>>, a: Entry<K, V>, b: Entry<K, V>) { LastUse(ops, a.key) > LastUse(ops, b.key) }

  ghost predicate Known<K(!new), V(!new)>(ops: seq<Op<K, V>>, e: Entry<K, V>) {
    1 <= LastUse(ops, e.key) <= |ops| && LastValue(ops, e.key) == Some(e.val)
  }

  lemma {:induction false} RunLast<K, V>(capacity: nat, list: seq<Entry<K, V>>, ops: seq<Op<K, V>>, op: Op<K, V>)
    ensures Run(capacity, list, ops + [op]) == Do(capacity, Run(capacity, list, ops), op)
    decreases |ops|
  {
    var all := ops + [op];
    if ops == [] {
      assert all[1..] == [];
    } else {
      assert all[1..] == ops[1..] + [op];
      hide Do;
      RunLast(capacity, Do(capacity, list, ops[0]), ops[1..], op);
    }
  }

  /** An operation tells nothing new of a key it does not name. */
  lemma Unnamed<K(!new), V(!new)>(ops: seq<Op<K, V>>, op: Op<K, V>, e: Entry<K, V>)
    requires Known(ops, e) && (op.GetOp? || op.PutOp? ==> op.key != e.key)
    ensures LastUse(ops + [op], e.key) == LastUse(ops, e.key) && Known(ops + [op], e)
  {
    assert (ops + [op])[..|ops|] == ops;
  }

  /** A subsequence of entries that the operation does not name stays in order. */
  lemma Kept<K(!new), V(!new)>(ops: seq<Op<K, V>>, op: Op<K, V>, list: seq<Entry<K, V>>, part: seq<Entry<K, V>>)
    requires InOrder(ops, list) && Sub(part, list)
    requires forall e :: e in part ==> (op.GetOp? || op.PutOp? ==> op.key != e.key)
    ensures InOrder(ops + [op], part)
  {
    SubInOrder(ops, part, list);
    hide LastUse, LastValue, Known, Sub;
    forall i | 0 <= i < |part| ensures LastUse(ops + [op], part[i].key) == LastUse(ops, part[i].key) && Known(ops + [op], part[i]) {
      assert part[i] in part;
      Unnamed(ops, op, part[i]);
    }
  }

  lemma {:induction false} SubInOrder<K(!new), V(!new)>(ops: seq<Op<K, V>>, s: seq<Entry<K, V>>, t: seq<Entry<K, V>>)
    requires InOrder(ops, t) && Sub(s, t)
    ensures InOrder(ops, s)
    decreases |t|
  {
    if s != [] {
      var r := t[1..];
      assert InOrder(ops, r) by {
        forall i, j | 0 <= i < j < |r| ensures Newer(ops, r[i], r[j]) {
          assert r[i] == t[i + 1] && r[j] == t[j + 1];
        }
        forall i | 0 <= i < |r| ensures Known(ops, r[i]) { assert r[i] == t[i + 1]; }
      }
      if s[0] == t[0] {
        SubInOrder(ops, s[1..], r);
        SubLength(s[1..], r);
        hide Sub, Known;
        forall i, j | 0 <= i < j < |s| ensures Newer(ops, s[i], s[j]) {
          if i == 0 {
            assert s[j] == s[1..][j - 1] && s[j] in s[1..];
            var k :| 0 <= k < |r| && r[k] == s[j];
            assert r[k] == t[k + 1];
          } else {
            assert s[i] == s[1..][i - 1] && s[j] == s[1..][j - 1];
          }
        }
        forall i | 0 <= i < |s| ensures Known(ops, s[i]) { if i > 0 { assert s[i] == s[1..][i - 1]; } }
      } else {
        SubInOrder(ops, s, r);
      }
    }
  }

  /** The key that is used comes to the front. */
  lemma Fronted<K(!new), V(!new)>(ops: seq<Op<K, V>>, e: Entry<K, V>, rest: seq<Entry<K, V>>)
    requires InOrder(ops, rest) && Known(ops, e)
    requires forall i :: 0 <= i < |rest| ==> Newer(ops, e, rest[i])
    ensures InOrder(ops, [e] + rest)
  {
    hide Newer, Known, LastUse, LastValue;
    forall i, j | 0 <= i < j < |rest| + 1 ensures Newer(ops, ([e] + rest)[i], ([e] + rest)[j]) {
      FrontedAt(e, rest, i);
      FrontedAt(e, rest, j);
    }
    forall i | 0 <= i < |rest| + 1 ensures Known(ops, ([e] + rest)[i]) { FrontedAt(e, rest, i); }
  }

  lemma FrontedAt<T>(e: T, rest: seq<T>, i: nat)
    requires i <= |rest|
    ensures ([e] + rest)[i] == if i == 0 then e else rest[i - 1]
  {
  }

  lemma {:induction false} ExceptSub<K, V>(list: seq<Entry<K, V>>, key: K)
    ensures Sub(Except(list, key), list)
    decreases |list|
  {
    if list != [] {
      var r := Except(list[1..], key);
      ExceptSub(list[1..], key);
      assert list == [list[0]] + list[1..];
      if list[0].key == key {
        assert Except(list, key) == r;
        SubMore(r, list[0], list[1..]);
      } else {
        SubFront(list[0], r, list[1..]);
      }
    }
  }

  lemma {:induction false} KeepSub<K, V>(list: seq<Entry<K, V>>, drop: (K, V) -> bool)
    ensures Sub(Keep(list, drop), list)
    decreases |list|
  {
    if list != [] {
      var r := Keep(list[1..], drop);
      KeepSub(list[1..], drop);
      assert list == [list[0]] + list[1..];
      if drop(list[0].key, list[0].val) {
        assert Keep(list, drop) == r;
        SubMore(r, list[0], list[1..]);
      } else {
        SubFront(list[0], r, list[1..]);
      }
    }
  }

  lemma {:induction false} SubSelf<T>(s: seq<T>)
    ensures Sub(s, s)
  {
    if s != [] { SubSelf(s[1..]); }
  }

  /** One operation keeps the order. */
  lemma StepInOrder<K(!new), V(!new)>(capacity: nat, ops: seq<Op<K, V>>, list: seq<Entry<K, V>>, op: Op<K, V>)
    requires InOrder(ops, list) && Unique(list)
    ensures InOrder(ops + [op], Do(capacity, list, op))
  {
    match op {
      case GetOp(k) =>
        ExceptHas(list, k);
        if Has(list, k) {
          ExceptSub(list, k);
          ValueIn(list, k);
          Touched(ops, op, list, Entry(k, ValueOf(list, k)), Except(list, k));
        } else {
          SubSelf(list);
          NotHas(list, k);
          Kept(ops, op, list, list);
        }
      case PutOp(k, v) =>
        ExceptHas(list, k);
        NotHas(list, k);
        if Has(list, k) {
          ExceptSub(list, k);
          Touched(ops, op, list, Entry(k, v), Except(list, k));
        } else if |list| >= capacity && list != [] {
          SubSelf(list);
          SubPrefix(list, list);
          assert forall e :: e in list[..|list| - 1] ==> e in list;
          Touched(ops, op, list, Entry(k, v), list[..|list| - 1]);
        } else {
          SubSelf(list);
          Touched(ops, op, list, Entry(k, v), list);
        }
      case RemoveOp(k) =>
        ExceptSub(list, k);
        Kept(ops, op, list, Except(list, k));
      case RemoveIfOp(drop) =>
        KeepSub(list, drop);
        Kept(ops, op, list, Keep(list, drop));
    }
  }

  lemma NotHas<K(!new), V(!new)>(list: seq<Entry<K, V>>, key: K)
    ensures !Has(list, key) ==> forall e :: e in list ==> e.key != key
  {
  }

  lemma Touched<K(!new), V(!new)>(ops: seq<Op<K, V>>, op: Op<K, V>, list: seq<Entry<K, V>>, e: Entry<K, V>, rest: seq<Entry<K, V>>)
    requires InOrder(ops, list) && Sub(rest, list) && (op.GetOp? || op.PutOp?) && op.key == e.key
    requires forall x :: x in rest ==> x.key != e.key
    requires if op.PutOp? then op.val == e.val else e in list
    ensures InOrder(ops + [op], [e] + rest)
  {
    var all := ops + [op];
    assert all[..|ops|] == ops;
    assert LastUse(all, e.key) == |all|;
    if op.GetOp? {
      var i :| 0 <= i < |list| && list[i] == e;
      assert Known(ops, list[i]);
      assert LastValue(all, e.key) == Some(e.val);
    }
    Kept(ops, op, list, rest);
    hide Sub;
    SubLength(rest, list);
    forall j | 0 <= j < |rest| ensures Newer(all, e, rest[j]) {
      assert rest[j] in rest && rest[j] in list;
      var i :| 0 <= i < |list| && list[i] == rest[j];
      assert Known(ops, list[i]);
      Unnamed(ops, op, rest[j]);
    }
    Fronted(all, e, rest);
  }

  /** After any operations the cache is in the order of last use, most recent first, and holds the last values. */
  lemma {:induction false} Recency<K(!new), V(!new)>(capacity: nat, ops: seq<Op<K, V>>)
    requires capacity >= 1
    ensures InOrder(ops, Run(capacity, [], ops)) && Unique(Run(capacity, [], ops)) && |Run(capacity, [], ops)| <= capacity
    decreases |ops|
  {
    InclusionFromEmpty(capacity, capacity, ops);
    if ops != [] {
      var n := |ops| - 1;
      var before, op := ops[..n], ops[n];
      assert ops == before + [op];
      hide InOrder, Do, Run, Unique, Sub;
      Recency(capacity, before);
      RunLast(capacity, [], before, op);
      StepInOrder(capacity, before, Run(capacity, [], before), op);
    }
  }

  /** The entry of list that was used least recently. */
  ghost predicate LeastRecent<K(!new), V(!new)>(ops: seq<Op<K, V>>, list: seq<Entry<K, V>>, e: Entry<K, V>) {
    e in list && forall x :: x in list ==> LastUse(ops, e.key) <= LastUse(ops, x.key)
  }

  /** A put: the entry is first; all others stay, but the least recently used one when a new key comes to a full cache. */
  lemma PutKeeps<K(!new), V(!new)>(capacity: nat, ops: seq<Op<K, V>>, key: K, val: V)
    requires capacity >= 1
    ensures var list, list' := Run(capacity, [], ops), Run(capacity, [], ops + [PutOp(key, val)]);
      && list' != [] && list'[0] == Entry(key, val)
      && forall e :: e in list'[1..] <==>
           e in list && e.key != key && !(!Has(list, key) && |list| == capacity && LeastRecent(ops, list, e))
  {
    var list := Run(capacity, [], ops);
    Recency(capacity, ops);
    RunLast(capacity, [], ops, PutOp(key, val));
    hide Run, Known, LastUse, LastValue;
    ExceptHas(list, key);
    NotHas(list, key);
    var list' := Put(capacity, list, key, val);
    if !Has(list, key) && |list| >= capacity {
      LastIsLeast(ops, list);
      assert list'[1..] == list[..|list| - 1];
    } else if Has(list, key) {
      assert list'[1..] == Except(list, key);
    } else {
      assert list'[1..] == list;
    }
  }

  lemma LastIsLeast<K(!new), V(!new)>(ops: seq<Op<K, V>>, list: seq<Entry<K, V>>)
    requires InOrder(ops, list) && list != []
    ensures forall e :: e in list[..|list| - 1] <==> e in list && !LeastRecent(ops, list, e)
  {
    var n := |list| - 1;
    forall e ensures e in list[..n] <==> e in list && !LeastRecent(ops, list, e) {
      if e in list {
        var i :| 0 <= i < |list| && list[i] == e;
        if i < n {
          assert Newer(ops, list[i], list[n]);
          assert list[n] in list && e in list[..n];
        } else {
          forall x | x in list ensures LastUse(ops, e.key) <= LastUse(ops, x.key) {
            var j :| 0 <= j < |list| && list[j] == x;
            if j < n { assert Newer(ops, list[j], list[n]); }
          }
        }
      }
    }
  }

  /** A get keeps all entries, and removals take exactly the ones they name. */
  lemma OthersStay<K(!new), V(!new)>(capacity: nat, ops: seq<Op<K, V>>, key: K, drop: (K, V) -> bool)
    requires capacity >= 1
    ensures var list := Run(capacity, [], ops);
      && (forall e :: e in Run(capacity, [], ops + [GetOp(key)]) <==> e in list)
      && (forall e :: e in Run(capacity, [], ops + [RemoveOp(key)]) <==> e in list && e.key != key)
      && (forall e :: e in Run(capacity, [], ops + [RemoveIfOp(drop)]) <==> e in list && !drop(e.key, e.val))
  {
    var list := Run(capacity, [], ops);
    Recency(capacity, ops);
    RunLast(capacity, [], ops, GetOp(key));
    RunLast(capacity, [], ops, RemoveOp(key));
    RunLast(capacity, [], ops, RemoveIfOp(drop));
    hide Run, InOrder;
    ExceptHas(list, key);
    KeepHas(list, drop);
    if Has(list, key) {
      ValueIn(list, key);
      OnlyOne(list, key);
    }
  }

  lemma OnlyOne<K(!new), V(!new)>(list: seq<Entry<K, V>>, key: K)
    requires Unique(list) && Has(list, key)
    ensures forall e :: e in list && e.key == key ==> e == Entry(key, ValueOf(list, key))
  {
    ValueIn(list, key);
  }

  lemma {:induction false} KeepHas<K(!new), V(!new)>(list: seq<Entry<K, V>>, drop: (K, V) -> bool)
    ensures forall e :: e in Keep(list, drop) <==> e in list && !drop(e.key, e.val)
    decreases |list|
  {
    if list != [] {
      KeepHas(list[1..], drop);
      assert list == [list[0]] + list[1..];
    }
  }
}
