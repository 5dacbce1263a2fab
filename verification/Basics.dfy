/** What several parts of the model share. */
module Basics {

  type Byte = x: int | 0 <= x < 256
  type Bytes = seq<Byte>

  /** An address; 0 stands for the null pointer. */
  type Ptr = nat

  ghost predicate NoDup<T>(s: seq<T>) {
    forall i, j :: 0 <= i < j < |s| ==> s[i] != s[j]
  }

  /** s without every occurrence of p. */
  function Without(s: seq<Ptr>, p: Ptr): seq<Ptr> {
    if s == [] then [] else (if s[0] == p then [] else [s[0]]) + Without(s[1..], p)
  }

  lemma Associative<T>(a: seq<T>, b: seq<T>, c: seq<T>)
    ensures a + (b + c) == (a + b) + c
  {
  }

  lemma SliceDrop<T>(s: seq<T>, p: nat, a: nat, b: nat)
    requires a <= b && p + b <= |s|
    ensures s[p..][a..b] == s[p + a..p + b]
  {
    var l, r := s[p..][a..b], s[p + a..p + b];
    forall i | 0 <= i < |l| ensures l[i] == r[i] { assert l[i] == s[p..][a + i]; }
  }

  lemma DropDrop<T>(s: seq<T>, p: nat, a: nat)
    requires p + a <= |s|
    ensures s[p..][a..] == s[p + a..]
  {
    SliceDrop(s, p, a, |s| - p);
    assert s[p..][a..|s| - p] == s[p..][a..] && s[p + a..|s|] == s[p + a..];
  }

  function Concat(pieces: seq<Bytes>): Bytes {
    if pieces == [] then [] else pieces[0] + Concat(pieces[1..])
  }

  lemma {:induction false} ConcatLast(pieces: seq<Bytes>)
    requires pieces != []
    ensures Concat(pieces) == Concat(pieces[..|pieces| - 1]) + pieces[|pieces| - 1]
    decreases |pieces|
  {
    var n := |pieces| - 1;
    if n == 0 {
      assert pieces[..n] == [] && pieces[1..] == [];
    } else {
      ConcatLast(pieces[1..]);
      assert pieces[1..][..n - 1] == pieces[..n][1..];
    }
  }
}
