/** Colour and balance of the red-black trees of base/rbtree.c, on the functional view. */
module RbColor {

  import opened Basics
  import opened RbShape

  predicate BlackRoot(t: Tree) { t.E? || t.c == Black }

  /** t has black height n on every path and no red node has a red child. */
  ghost predicate Balanced(t: Tree, n: nat) {
    match t
    case E => n == 0
    case T(l, id, c, r) =>
      if c == Red then BlackRoot(l) && BlackRoot(r) && Balanced(l, n) && Balanced(r, n)
      else n > 0 && Balanced(l, n - 1) && Balanced(r, n - 1)
  }

  /** The black height along the leftmost path. */
  function BlackHeight(t: Tree): nat {
    if t.E? then 0 else BlackHeight(t.l) + if t.c == Black then 1 else 0
  }

  ghost predicate RedBlack(t: Tree) {
    BlackRoot(t) && Balanced(t, BlackHeight(t))
  }

  /** k is sound around any black-rooted subtree of black height n. */
  ghost predicate CtxBalanced(k: Ctx, n: nat) {
    !k.Top? ==>
      && Balanced(k.sib, n)
      && (k.c == Red ==> BlackRoot(k.sib) && !k.up.Top? && k.up.c == Black)
      && CtxBalanced(k.up, if k.c == Black then n + 1 else n)
  }

  /** A subtree with a red root may stand in the hole of k. */
  predicate RedFits(k: Ctx) { !k.Top? && k.c == Black }

  ghost predicate Sound(k: Ctx, t: Tree, n: nat) {
    CtxBalanced(k, n) && Balanced(t, n) && (RedFits(k) || BlackRoot(t))
  }

  lemma {:induction false} HeightUnique(t: Tree, n: nat)
    requires Balanced(t, n)
    ensures n == BlackHeight(t)
  {
    if t.T? { HeightUnique(t.l, if t.c == Black then n - 1 else n); }
  }

  lemma {:induction false} SoundPlug(k: Ctx, t: Tree, n: nat)
    requires Sound(k, t, n)
    ensures RedBlack(Plug(k, t))
  {
    if k.Top? {
      HeightUnique(t, n);
    } else {
      SoundPlug(k.up, Fill(k, t), if k.c == Black then n + 1 else n);
    }
  }

  /** A red-black tree stays sound wherever the focus is. */
  lemma {:induction false} SoundLocate(k: Ctx, t: Tree, n: nat, p: Ptr) returns (n': nat)
    requires p in Ids(t) && Sound(k, t, n)
    ensures Sound(Locate(k, t, p).0, Locate(k, t, p).1, n')
    decreases t
  {
    var m := if t.c == Black then n - 1 else n;
    if t.id == p {
      n' := n;
    } else if p in Ids(t.l) {
      n' := SoundLocate(Lf(k, t.id, t.c, t.r), t.l, m, p);
    } else {
      n' := SoundLocate(Rt(k, t.id, t.c, t.l), t.r, m, p);
    }
  }

  /** The converse of SoundPlug: a red-black tree is sound around any of its subtrees. */
  lemma {:induction false} SoundUnplug(k: Ctx, t: Tree)
    requires RedBlack(Plug(k, t))
    ensures Sound(k, t, BlackHeight(t))
  {
    if !k.Top? {
      SoundUnplug(k.up, Fill(k, t));
      var n := BlackHeight(Fill(k, t));
      HeightUnique(t, if k.c == Black then n - 1 else n);
    }
  }

  // ---- the height bound

  function Pow2(n: nat): nat { if n == 0 then 1 else 2 * Pow2(n - 1) }

  function Height(t: Tree): nat {
    if t.E? then 0
    else 1 + if Height(t.l) > Height(t.r) then Height(t.l) else Height(t.r)
  }

  lemma {:induction false} Pow2Add(a: nat, b: nat)
    ensures Pow2(a + b) == Pow2(a) * Pow2(b)
  {
    if a > 0 {
      Pow2Add(a - 1, b);
      Regroup(Pow2(a - 1), Pow2(b));
    }
  }

  lemma Regroup(a: nat, b: nat)
    ensures 2 * (a * b) == (2 * a) * b
  {
  }

  lemma {:induction false} Pow2Monotonic(a: nat, b: nat)
    requires a <= b
    ensures 1 <= Pow2(a) <= Pow2(b)
    decreases b
  {
    if a < b { Pow2Monotonic(a, b - 1); } else if a > 0 { Pow2Monotonic(a - 1, b - 1); }
  }

  lemma {:induction false} BalancedSize(t: Tree, n: nat)
    requires Balanced(t, n)
    ensures Pow2(n) <= |Inorder(t)| + 1
    ensures Height(t) <= 2 * n + if BlackRoot(t) then 0 else 1
  {
    if t.T? {
      var m := if t.c == Black then n - 1 else n;
      BalancedSize(t.l, m);
      BalancedSize(t.r, m);
    }
  }

  /** The height h of a red-black tree of size s satisfies 2^h <= (s+1)^2, that is h <= 2*log2(s+1). */
  lemma HeightBound(t: Tree)
    requires RedBlack(t)
    ensures Pow2(Height(t)) <= (|Inorder(t)| + 1) * (|Inorder(t)| + 1)
  {
    var n, s := BlackHeight(t), |Inorder(t)| + 1;
    BalancedSize(t, n);
    Pow2Monotonic(Height(t), 2 * n);
    Pow2Add(n, n);
    Squares(Pow2(n), s);
  }

  lemma Squares(a: nat, b: nat)
    requires a <= b
    ensures a * a <= b * b
  {
    assert a * a <= a * b <= b * b;
  }
}
