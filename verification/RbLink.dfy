/** Effect of the pointer updates of base/rbtree.c on the linked structure. */
module RbLink {

  import opened Basics
  import opened RbShape
  import opened RbColor

  function RotatedLeft(t: Tree): Tree
    requires t.T? && t.r.T?
  {
    T(T(t.l, t.id, t.c, t.r.l), t.r.id, t.r.c, t.r.r)
  }

  function RotatedRight(t: Tree): Tree
    requires t.T? && t.l.T?
  {
    T(t.l.l, t.l.id, t.l.c, T(t.l.r, t.id, t.c, t.r))
  }

  function ChildReplaced(m: Memory, parent: Ptr, node: Ptr, to: Ptr): Memory
    requires parent == 0 || parent in m
  {
    if parent == 0 then m
    else if m[parent].left == node then m[parent := m[parent].(left := to)]
    else m[parent := m[parent].(right := to)]
  }

  function ParentSet(m: Memory, p: Ptr, parent: Ptr): Memory
    requires p == 0 || p in m
  {
    if p == 0 then m else m[p := m[p].(parent := parent)]
  }

  lemma RotatedLeftDistinct(t: Tree)
    requires t.T? && t.r.T? && Distinct(t)
    ensures Distinct(RotatedLeft(t)) && Ids(RotatedLeft(t)) == Ids(t)
  {
    var r := t.r;
    assert Ids(r) == Ids(r.l) + {r.id} + Ids(r.r) && Distinct(r);
  }

  lemma RotatedRightDistinct(t: Tree)
    requires t.T? && t.l.T? && Distinct(t)
    ensures Distinct(RotatedRight(t)) && Ids(RotatedRight(t)) == Ids(t)
  {
    var l := t.l;
    assert Ids(l) == Ids(l.l) + {l.id} + Ids(l.r) && Distinct(l);
  }

  lemma NearRight(m: Memory, root: Ptr, k: Ctx, a: Tree, x: Ptr, cx: Color, b: Tree, y: Ptr, cy: Color, c: Tree)
    requires Linked(m, root, k, T(a, x, cx, T(b, y, cy, c)))
    ensures x in m && m[x] == RbNode(Parent(k), y, Root(a), cx) && x != 0
    ensures y in m && m[y] == RbNode(x, Root(c), Root(b), cy) && y != 0
    ensures b.T? ==> b.id in m && b.id != 0
    ensures Parent(k) != 0 ==> Parent(k) in m
    ensures x != y && Root(b) != x && Root(b) != y && Parent(k) != x && Parent(k) != y
    ensures Parent(k) != 0 ==> Parent(k) != Root(b)
  {
    var t := T(b, y, cy, c);
    assert Rep(m, t, x) && Rep(m, b, y) && Distinct(t);
    assert b.T? ==> b.id in Ids(b);
    assert y in Ids(t);
  }

  /** What the assignments of __rb_rotate_left change, node by node. */
  ghost predicate LeftSwapped(m: Memory, m': Memory, k: Ctx, x: Ptr, b: Tree, y: Ptr) {
    && m'.Keys == m.Keys
    && (forall p :: p in m && p != x && p != y && !(b.T? && p == b.id) && !(!k.Top? && p == k.id) ==> m'[p] == m[p])
    && x in m && m'[x] == m[x].(right := Root(b), parent := y)
    && y in m && m'[y] == m[y].(left := x, parent := Parent(k))
    && (b.T? ==> b.id in m && m'[b.id] == m[b.id].(parent := x))
  }

  lemma LeftRotatedBelow(m: Memory, m': Memory, k: Ctx, a: Tree, x: Ptr, cx: Color, b: Tree, y: Ptr, cy: Color, c: Tree)
    requires Disjoint(k, T(a, x, cx, T(b, y, cy, c))) && Rep(m, T(a, x, cx, T(b, y, cy, c)), Parent(k))
    requires LeftSwapped(m, m', k, x, b, y)
    ensures Rep(m', T(T(a, x, cx, b), y, cy, c), Parent(k))
  {
    var t := T(b, y, cy, c);
    assert Rep(m, t, x) && Distinct(t);
    assert Ids(t) == Ids(b) + {y} + Ids(c);
    assert b.T? ==> b.id in Ids(b);
    assert !k.Top? ==> k.id in CtxIds(k);
    RepFrame(m, m', a, x);
    Reparent(m, m', b, y, x);
    RepFrame(m, m', c, y);
  }

  lemma LeftRotated(m: Memory, m': Memory, root: Ptr, root': Ptr, k: Ctx, a: Tree, x: Ptr, cx: Color, b: Tree, y: Ptr, cy: Color, c: Tree)
    requires Linked(m, root, k, T(a, x, cx, T(b, y, cy, c)))
    requires LeftSwapped(m, m', k, x, b, y) && Refilled(m, m', root, root', k, y)
    ensures Linked(m', root', k, T(T(a, x, cx, b), y, cy, c))
    ensures OnlyWithin(m, m', CtxIds(k) + Ids(T(a, x, cx, T(b, y, cy, c))))
  {
    LeftRotatedBelow(m, m', k, a, x, cx, b, y, cy, c);
    RotatedLeftDistinct(T(a, x, cx, T(b, y, cy, c)));
    assert Ids(T(b, y, cy, c)) == Ids(b) + {y} + Ids(c);
    assert b.T? ==> b.id in Ids(b);
    Refill(m, m', root, root', k, x, y);
  }

  lemma NearLeft(m: Memory, root: Ptr, k: Ctx, a: Tree, x: Ptr, cx: Color, b: Tree, y: Ptr, cy: Color, c: Tree)
    requires Linked(m, root, k, T(T(a, x, cx, b), y, cy, c))
    ensures y in m && m[y] == RbNode(Parent(k), Root(c), x, cy) && y != 0
    ensures x in m && m[x] == RbNode(y, Root(b), Root(a), cx) && x != 0
    ensures b.T? ==> b.id in m && b.id != 0
    ensures Parent(k) != 0 ==> Parent(k) in m
    ensures x != y && Root(b) != x && Root(b) != y && Parent(k) != x && Parent(k) != y
    ensures Parent(k) != 0 ==> Parent(k) != Root(b)
  {
    var t := T(a, x, cx, b);
    assert Rep(m, t, y) && Rep(m, b, x) && Distinct(t);
    assert b.T? ==> b.id in Ids(b);
    assert x in Ids(t);
  }

  /** What the assignments of __rb_rotate_right change, node by node. */
  ghost predicate RightSwapped(m: Memory, m': Memory, k: Ctx, x: Ptr, b: Tree, y: Ptr) {
    && m'.Keys == m.Keys
    && (forall p :: p in m && p != x && p != y && !(b.T? && p == b.id) && !(!k.Top? && p == k.id) ==> m'[p] == m[p])
    && y in m && m'[y] == m[y].(left := Root(b), parent := x)
    && x in m && m'[x] == m[x].(right := y, parent := Parent(k))
    && (b.T? ==> b.id in m && m'[b.id] == m[b.id].(parent := y))
  }

  lemma RightRotatedBelow(m: Memory, m': Memory, k: Ctx, a: Tree, x: Ptr, cx: Color, b: Tree, y: Ptr, cy: Color, c: Tree)
    requires Disjoint(k, T(T(a, x, cx, b), y, cy, c)) && Rep(m, T(T(a, x, cx, b), y, cy, c), Parent(k))
    requires RightSwapped(m, m', k, x, b, y)
    ensures Rep(m', T(a, x, cx, T(b, y, cy, c)), Parent(k))
  {
    var t := T(a, x, cx, b);
    assert Rep(m, t, y) && Distinct(t);
    assert Ids(t) == Ids(a) + {x} + Ids(b);
    assert b.T? ==> b.id in Ids(b);
    assert !k.Top? ==> k.id in CtxIds(k);
    RepFrame(m, m', a, x);
    Reparent(m, m', b, x, y);
    RepFrame(m, m', c, y);
  }

  lemma RightRotated(m: Memory, m': Memory, root: Ptr, root': Ptr, k: Ctx, a: Tree, x: Ptr, cx: Color, b: Tree, y: Ptr, cy: Color, c: Tree)
    requires Linked(m, root, k, T(T(a, x, cx, b), y, cy, c))
    requires RightSwapped(m, m', k, x, b, y) && Refilled(m, m', root, root', k, x)
    ensures Linked(m', root', k, T(a, x, cx, T(b, y, cy, c)))
    ensures OnlyWithin(m, m', CtxIds(k) + Ids(T(T(a, x, cx, b), y, cy, c)))
  {
    RightRotatedBelow(m, m', k, a, x, cx, b, y, cy, c);
    RotatedRightDistinct(T(T(a, x, cx, b), y, cy, c));
    assert Ids(T(a, x, cx, b)) == Ids(a) + {x} + Ids(b);
    assert b.T? ==> b.id in Ids(b);
    Refill(m, m', root, root', k, y, x);
  }

  /** The colours after the red-uncle case of rb_insert_color. */
  function Flipped(t: Tree): Tree
    requires t.T? && t.l.T? && t.r.T?
  {
    T(t.l.(c := Black), t.id, Red, t.r.(c := Black))
  }

  lemma ColorsFlipped(m: Memory, m': Memory, root: Ptr, k: Ctx, t: Tree)
    requires Linked(m, root, k, t) && t.T? && t.l.T? && t.r.T?
    requires m'.Keys == m.Keys && t.id in m && t.l.id in m && t.r.id in m
    requires forall p :: p in m && p != t.id && p != t.l.id && p != t.r.id ==> m'[p] == m[p]
    requires m'[t.id] == m[t.id].(color := Red)
    requires m'[t.l.id] == m[t.l.id].(color := Black)
    requires m'[t.r.id] == m[t.r.id].(color := Black)
    ensures Linked(m', root, k, Flipped(t))
    ensures OnlyWithin(m, m', CtxIds(k) + Ids(t))
  {
    var l, r := t.l, t.r;
    assert Rep(m, l, t.id) && Distinct(l) && l.id in Ids(l);
    assert Rep(m, r, t.id) && Distinct(r) && r.id in Ids(r);
    RepFrame(m, m', l.l, l.id);
    RepFrame(m, m', l.r, l.id);
    RepFrame(m, m', r.l, r.id);
    RepFrame(m, m', r.r, r.id);
    CtxFrame(m, m', root, k, t.id);
  }

  lemma Turned(a: seq<Ptr>, x: Ptr, b: seq<Ptr>, y: Ptr, c: seq<Ptr>)
    ensures (a + [x] + b) + [y] + c == a + [x] + (b + [y] + c)
  {
  }

  lemma RotatedLeftSame(t: Tree)
    requires t.T? && t.r.T?
    ensures Inorder(RotatedLeft(t)) == Inorder(t) && Ids(RotatedLeft(t)) == Ids(t)
  {
    assert Inorder(t.r) == Inorder(t.r.l) + [t.r.id] + Inorder(t.r.r) && Ids(t.r) == Ids(t.r.l) + {t.r.id} + Ids(t.r.r);
    Turned(Inorder(t.l), t.id, Inorder(t.r.l), t.r.id, Inorder(t.r.r));
  }

  lemma RotatedRightSame(t: Tree)
    requires t.T? && t.l.T?
    ensures Inorder(RotatedRight(t)) == Inorder(t) && Ids(RotatedRight(t)) == Ids(t)
  {
    assert Inorder(t.l) == Inorder(t.l.l) + [t.l.id] + Inorder(t.l.r) && Ids(t.l) == Ids(t.l.l) + {t.l.id} + Ids(t.l.r);
    Turned(Inorder(t.l.l), t.l.id, Inorder(t.l.r), t.id, Inorder(t.r));
  }

  /** Length of the path from the hole to the root. */
  function Depth(k: Ctx): nat { if k.Top? then 0 else 1 + Depth(k.up) }

  /** The state between two turns of rb_insert_color: a red node whose parent may be red too. */
  ghost predicate InsertPending(k: Ctx, t: Tree, n: nat) {
    CtxBalanced(k, n) && t.T? && t.c == Red && Balanced(t, n)
  }

  lemma InsertSite(m: Memory, root: Ptr, k: Ctx, t: Tree, n: nat)
    requires Linked(m, root, k, t) && InsertPending(k, t, n) && !k.Top? && k.c == Red
    ensures !k.up.Top? && k.up.id in m && m[k.id].parent == k.up.id
    ensures m[k.up.id].left == k.id <==> k.up.Lf?
  {
    var up := k.up;
    assert CtxDistinct(up) && CtxRep(m, root, up, k.id);
    assert up.sib.T? ==> up.sib.id in Ids(up.sib);
  }

  lemma InsertFlipped(k: Ctx, t: Tree, n: nat)
    requires InsertPending(k, t, n) && !k.Top? && k.c == Red && !BlackRoot(k.up.sib)
    ensures var gt := Fill(k.up, Fill(k, t));
            && gt.l.T? && gt.r.T? && InsertPending(k.up.up, Flipped(gt), n + 1)
            && Whole(k.up.up, Flipped(gt)) == Whole(k, t)
            && CtxIds(k.up.up) + Ids(Flipped(gt)) == CtxIds(k) + Ids(t)
  {
    assert CtxBalanced(k.up, n);
    UpSame(k, t);
    UpSame(k.up, Fill(k, t));
    var gt := Fill(k.up, Fill(k, t));
    assert Balanced(Fill(k, t).(c := Black), n + 1) && Balanced(k.up.sib.(c := Black), n + 1);
    assert Balanced(Flipped(gt), n + 1) && CtxBalanced(k.up.up, n + 1);
    FlippedSame(gt);
    hide Inorder, Ids, InsertPending, CtxIds, Balanced, CtxBalanced;
  }

  lemma FlippedSame(t: Tree)
    requires t.T? && t.l.T? && t.r.T?
    ensures Inorder(Flipped(t)) == Inorder(t) && Ids(Flipped(t)) == Ids(t)
  {
    var f := Flipped(t);
    assert Inorder(f.l) == Inorder(t.l) && Inorder(f.r) == Inorder(t.r);
    assert Ids(f.l) == Ids(t.l) && Ids(f.r) == Ids(t.r);
  }

  lemma InsertRotatedLeft(k: Ctx, t: Tree, n: nat)
    requires !k.Top? && k.c == Red && k.up.Lf? && BlackRoot(k.up.sib)
    requires InsertPending(k, t, n)
    ensures var pt := if k.Rt? then RotatedLeft(Fill(k, t)) else Fill(k, t);
            var k' := Lf(k.up.up, pt.id, Black, T(pt.r, k.up.id, Red, k.up.sib));
            && InsertPending(k', pt.l, n)
            && Whole(k', pt.l) == Whole(k, t)
            && CtxIds(k') + Ids(pt.l) == CtxIds(k) + Ids(t)
  {
    assert CtxBalanced(k.up, n);
    UpSame(k, t);
    UpSame(k.up, Fill(k, t));
    var f := Fill(k, t);
    if k.Rt? { RotatedLeftSame(f); }
    var pt := if k.Rt? then RotatedLeft(f) else f;
    var g := T(pt, k.up.id, Red, k.up.sib);
    RotatedRightSame(g);
    UpSame(Lf(k.up.up, pt.id, Black, T(pt.r, k.up.id, Red, k.up.sib)), pt.l);
  }

  lemma InsertRotatedRight(k: Ctx, t: Tree, n: nat)
    requires !k.Top? && k.c == Red && k.up.Rt? && BlackRoot(k.up.sib)
    requires InsertPending(k, t, n)
    ensures var pt := if k.Lf? then RotatedRight(Fill(k, t)) else Fill(k, t);
            var k' := Rt(k.up.up, pt.id, Black, T(k.up.sib, k.up.id, Red, pt.l));
            && InsertPending(k', pt.r, n)
            && Whole(k', pt.r) == Whole(k, t)
            && CtxIds(k') + Ids(pt.r) == CtxIds(k) + Ids(t)
  {
    assert CtxBalanced(k.up, n);
    UpSame(k, t);
    UpSame(k.up, Fill(k, t));
    var f := Fill(k, t);
    if k.Lf? { RotatedRightSame(f); }
    var pt := if k.Lf? then RotatedRight(f) else f;
    var g := T(k.up.sib, k.up.id, Red, pt);
    RotatedLeftSame(g);
    UpSame(Rt(k.up.up, pt.id, Black, T(k.up.sib, k.up.id, Red, pt.l)), pt.r);
  }

  lemma InsertDone(k: Ctx, t: Tree, n: nat)
    requires InsertPending(k, t, n)
    requires k.Top? || k.c == Black
    ensures Plug(k, t).T? && RedBlack(Plug(k, t).(c := Black))
    ensures Inorder(Plug(k, t).(c := Black)) == Inorder(Plug(k, t))
  {
    if k.Top? {
      HeightUnique(t.(c := Black), n + 1);
    } else {
      SoundPlug(k, t, n);
      PlugNonEmpty(k, t);
    }
  }

  lemma {:induction false} PlugNonEmpty(k: Ctx, t: Tree)
    requires t.T?
    ensures Plug(k, t).T?
  {
    if !k.Top? { PlugNonEmpty(k.up, Fill(k, t)); }
  }

  /** The subtree t needs one more black node than it has to fill a hole of black height n + 1. */
  ghost predicate OneShort(t: Tree, n: nat) {
    if BlackRoot(t) then Balanced(t, n) else Balanced(t.(c := Black), n + 1)
  }

  /** The state between two turns of __rb_erase_color. */
  ghost predicate ErasePending(k: Ctx, t: Tree, n: nat) {
    CtxBalanced(k, n + 1) && OneShort(t, n)
  }

  function EraseMeasure(k: Ctx, t: Tree): nat {
    if BlackRoot(t) then 2 + Depth(k) else 0
  }

  lemma TopSite(m: Memory, root: Ptr, t: Tree)
    requires Linked(m, root, Top, t) && RedBlack(t)
    ensures Whole(Top, t) == Inorder(t) && CtxIds(Top) + Ids(t) == Ids(t) && Root(t) == root
    ensures ErasePending(Top, t, BlackHeight(t))
  {
  }

  lemma RootParent(m: Memory, root: Ptr, k: Ctx, t: Tree)
    requires Linked(m, root, k, t) && t.T?
    ensures t.id in m && m[t.id].parent == Parent(k)
  {
  }

  lemma EraseSite(m: Memory, root: Ptr, k: Ctx, t: Tree, n: nat)
    requires Linked(m, root, k, t) && ErasePending(k, t, n)
    ensures k.Top? <==> Root(t) == root
    ensures !k.Top? ==> k.id in m && k.sib.T? && (m[k.id].left == Root(t) <==> k.Lf?)
  {
    if !k.Top? {
      RootAbove(m, root, k, Root(t));
      assert Rep(m, k.sib, k.id) && k.sib.id in Ids(k.sib);
      assert t.T? ==> t.id in Ids(t);
    }
  }

  lemma {:induction false} RootAbove(m: Memory, root: Ptr, k: Ctx, hole: Ptr)
    requires CtxRep(m, root, k, hole) && !k.Top?
    ensures root in CtxIds(k) && root != 0
  {
    if !k.up.Top? { RootAbove(m, root, k.up, k.id); }
  }

  function WithSibling(k: Ctx, sib: Tree): Ctx
    requires !k.Top?
  {
    if k.Lf? then Lf(k.up, k.id, k.c, sib) else Rt(k.up, k.id, k.c, sib)
  }

  lemma ErasedBlackNephews(k: Ctx, t: Tree, n: nat)
    requires ErasePending(k, t, n) && BlackRoot(t) && !k.Top? && k.sib.T? && BlackRoot(k.sib)
    requires BlackRoot(k.sib.l) && BlackRoot(k.sib.r)
    ensures var k' := WithSibling(k, k.sib.(c := Red));
            && ErasePending(k'.up, Fill(k', t), if k.c == Black then n + 1 else n)
            && (BlackRoot(Fill(k', t)) <==> k.c == Black)
            && Whole(k'.up, Fill(k', t)) == Whole(k, t) && CtxIds(k'.up) + Ids(Fill(k', t)) == CtxIds(k) + Ids(t)
  {
    var k' := WithSibling(k, k.sib.(c := Red));
    UpSame(k, t);
    assert Inorder(k'.sib) == Inorder(k.sib) && Ids(k'.sib) == Ids(k.sib);
    assert Inorder(Fill(k', t)) == Inorder(Fill(k, t)) && Ids(Fill(k', t)) == Ids(Fill(k, t));
  }

  lemma ErasedRedSiblingLeft(k: Ctx, t: Tree, n: nat)
    requires ErasePending(k, t, n) && BlackRoot(t) && k.Lf? && !BlackRoot(k.sib)
    ensures var k' := Lf(Lf(k.up, k.sib.id, Black, k.sib.r), k.id, Red, k.sib.l);
            && ErasePending(k', t, n) && k'.sib.T? && BlackRoot(k'.sib) && Depth(k') == Depth(k) + 1
            && Whole(k', t) == Whole(k, t) && CtxIds(k') + Ids(t) == CtxIds(k) + Ids(t)
  {
    var k' := Lf(Lf(k.up, k.sib.id, Black, k.sib.r), k.id, Red, k.sib.l);
    var s := k.sib;
    assert Balanced(s, n + 1) && Balanced(s.l, n + 1) && Balanced(s.r, n + 1);
    UpSame(k, t);
    RotatedLeftSame(Fill(k, t));
    UpSame(k', t);
    UpSame(k'.up, Fill(k', t));
    assert CtxBalanced(k'.up, n + 1);
  }

  lemma ErasedNearNephewLeft(k: Ctx, t: Tree, n: nat)
    requires ErasePending(k, t, n) && BlackRoot(t) && k.Lf? && k.sib.T? && BlackRoot(k.sib)
    requires !BlackRoot(k.sib.l) && BlackRoot(k.sib.r)
    ensures var k' := Lf(k.up, k.id, k.c, RotatedRight(T(k.sib.l.(c := Black), k.sib.id, Red, k.sib.r)));
            && ErasePending(k', t, n) && BlackRoot(k'.sib) && !BlackRoot(k'.sib.r)
            && Whole(k', t) == Whole(k, t) && CtxIds(k') + Ids(t) == CtxIds(k) + Ids(t)
  {
    var o := T(k.sib.l.(c := Black), k.sib.id, Red, k.sib.r);
    RotatedRightSame(o);
    assert Inorder(o.l) == Inorder(k.sib.l) && Ids(o.l) == Ids(k.sib.l);
    assert Inorder(o) == Inorder(k.sib) && Ids(o) == Ids(k.sib);
    assert Balanced(k.sib, n + 1) && Balanced(k.sib.l, n);
    var s := RotatedRight(o);
    assert Balanced(s.r, n) && Balanced(s, n + 1);
  }

  lemma ErasedFarNephewLeft(k: Ctx, t: Tree, n: nat)
    requires ErasePending(k, t, n) && BlackRoot(t) && k.Lf? && k.sib.T? && BlackRoot(k.sib) && !BlackRoot(k.sib.r)
    ensures var u := T(T(t, k.id, Black, k.sib.l), k.sib.id, k.c, k.sib.r.(c := Black));
            && RedBlack(Plug(k.up, u))
            && Whole(k.up, u) == Whole(k, t) && CtxIds(k.up) + Ids(u) == CtxIds(k) + Ids(t)
  {
    var u := T(T(t, k.id, Black, k.sib.l), k.sib.id, k.c, k.sib.r.(c := Black));
    var far := k.sib.r.(c := Black);
    var p := T(t, k.id, Black, T(k.sib.l, k.sib.id, k.c, far));
    assert Balanced(k.sib, n + 1) && Balanced(k.sib.r, n) && Balanced(far, n + 1);
    UpSame(k, t);
    RotatedLeftSame(p);
    assert Inorder(far) == Inorder(k.sib.r) && Ids(far) == Ids(k.sib.r);
    assert Inorder(p.r) == Inorder(k.sib) && Ids(p.r) == Ids(k.sib);
    SoundPlug(k.up, u, if k.c == Black then n + 2 else n + 1);
  }

  lemma ErasedRedSiblingRight(k: Ctx, t: Tree, n: nat)
    requires ErasePending(k, t, n) && BlackRoot(t) && k.Rt? && !BlackRoot(k.sib)
    ensures var k' := Rt(Rt(k.up, k.sib.id, Black, k.sib.l), k.id, Red, k.sib.r);
            && ErasePending(k', t, n) && k'.sib.T? && BlackRoot(k'.sib) && Depth(k') == Depth(k) + 1
            && Whole(k', t) == Whole(k, t) && CtxIds(k') + Ids(t) == CtxIds(k) + Ids(t)
  {
    var k' := Rt(Rt(k.up, k.sib.id, Black, k.sib.l), k.id, Red, k.sib.r);
    var s := k.sib;
    assert Balanced(s, n + 1) && Balanced(s.r, n + 1) && Balanced(s.l, n + 1);
    UpSame(k, t);
    RotatedRightSame(Fill(k, t));
    UpSame(k', t);
    UpSame(k'.up, Fill(k', t));
    assert CtxBalanced(k'.up, n + 1);
  }

  lemma ErasedNearNephewRight(k: Ctx, t: Tree, n: nat)
    requires ErasePending(k, t, n) && BlackRoot(t) && k.Rt? && k.sib.T? && BlackRoot(k.sib)
    requires !BlackRoot(k.sib.r) && BlackRoot(k.sib.l)
    ensures var k' := Rt(k.up, k.id, k.c, RotatedLeft(T(k.sib.l, k.sib.id, Red, k.sib.r.(c := Black))));
            && ErasePending(k', t, n) && BlackRoot(k'.sib) && !BlackRoot(k'.sib.l)
            && Whole(k', t) == Whole(k, t) && CtxIds(k') + Ids(t) == CtxIds(k) + Ids(t)
  {
    var o := T(k.sib.l, k.sib.id, Red, k.sib.r.(c := Black));
    RotatedLeftSame(o);
    assert Inorder(o.r) == Inorder(k.sib.r) && Ids(o.r) == Ids(k.sib.r);
    assert Inorder(o) == Inorder(k.sib) && Ids(o) == Ids(k.sib);
    assert Balanced(k.sib, n + 1) && Balanced(k.sib.r, n);
    var s := RotatedLeft(o);
    assert Balanced(s.l, n) && Balanced(s, n + 1);
  }

  lemma ErasedFarNephewRight(k: Ctx, t: Tree, n: nat)
    requires ErasePending(k, t, n) && BlackRoot(t) && k.Rt? && k.sib.T? && BlackRoot(k.sib) && !BlackRoot(k.sib.l)
    ensures var u := T(k.sib.l.(c := Black), k.sib.id, k.c, T(k.sib.r, k.id, Black, t));
            && RedBlack(Plug(k.up, u))
            && Whole(k.up, u) == Whole(k, t) && CtxIds(k.up) + Ids(u) == CtxIds(k) + Ids(t)
  {
    var u := T(k.sib.l.(c := Black), k.sib.id, k.c, T(k.sib.r, k.id, Black, t));
    var far := k.sib.l.(c := Black);
    var p := T(T(far, k.sib.id, k.c, k.sib.r), k.id, Black, t);
    assert Balanced(k.sib, n + 1) && Balanced(k.sib.l, n) && Balanced(far, n + 1);
    UpSame(k, t);
    RotatedRightSame(p);
    assert Inorder(far) == Inorder(k.sib.l) && Ids(far) == Ids(k.sib.l);
    assert Inorder(p.l) == Inorder(k.sib) && Ids(p.l) == Ids(k.sib);
    SoundPlug(k.up, u, if k.c == Black then n + 2 else n + 1);
  }

  /** What the colour tests of __rb_erase_color read. */
  lemma NephewColors(m: Memory, root: Ptr, k: Ctx, t: Tree)
    requires Linked(m, root, k, t) && !k.Top? && k.sib.T?
    ensures k.id in m && Root(k.sib) == (if k.Lf? then m[k.id].right else m[k.id].left)
    ensures k.sib.id in m && m[k.sib.id] == RbNode(k.id, Root(k.sib.r), Root(k.sib.l), k.sib.c)
    ensures k.sib.l.T? ==> k.sib.l.id != 0 && k.sib.l.id in m && m[k.sib.l.id].color == k.sib.l.c
    ensures k.sib.r.T? ==> k.sib.r.id != 0 && k.sib.r.id in m && m[k.sib.r.id].color == k.sib.r.c
  {
    assert Rep(m, k.sib, k.id) && Rep(m, k.sib.l, k.sib.id) && Rep(m, k.sib.r, k.sib.id);
  }

  lemma EraseDone(k: Ctx, t: Tree, n: nat)
    requires ErasePending(k, t, n) && (BlackRoot(t) ==> k.Top?)
    ensures t.T? ==> RedBlack(Plug(k, t.(c := Black))) && Whole(k, t.(c := Black)) == Whole(k, t)
    ensures t.E? ==> RedBlack(Plug(k, t))
  {
    if BlackRoot(t) {
      HeightUnique(t, n);
    } else {
      SoundPlug(k, t.(c := Black), n + 1);
    }
  }

  // ---- rb_erase

  /** The context rel, whose top is the hole of base, seen from the root. */
  function Compose(rel: Ctx, base: Ctx): Ctx {
    match rel
    case Top => base
    case Lf(up, id, c, sib) => Lf(Compose(up, base), id, c, sib)
    case Rt(up, id, c, sib) => Rt(Compose(up, base), id, c, sib)
  }

  lemma {:induction false} ComposeLinked(m: Memory, root: Ptr, rel: Ctx, base: Ctx, t: Tree)
    ensures Linked(m, root, Compose(rel, base), t) <==> Linked(m, root, base, Plug(rel, t))
    ensures CtxIds(Compose(rel, base)) + Ids(t) == CtxIds(base) + Ids(Plug(rel, t))
  {
    if !rel.Top? {
      Up(m, root, Compose(rel, base), t);
      ComposeLinked(m, root, rel.up, base, Fill(rel, t));
    }
  }

  /** Renaming the node below which rel hangs changes neither balance nor order around it. */
  lemma {:induction false} ComposeRenamed(rel: Ctx, k: Ctx, id: Ptr, id': Ptr, c: Color, l: Tree, n: nat)
    requires CtxBalanced(Compose(rel, Rt(k, id, c, l)), n)
    ensures CtxBalanced(Compose(rel, Rt(k, id', c, l)), n)
    ensures RedFits(Compose(rel, Rt(k, id, c, l))) <==> RedFits(Compose(rel, Rt(k, id', c, l)))
    ensures After(Compose(rel, Rt(k, id, c, l))) == After(Compose(rel, Rt(k, id', c, l)))
  {
    if !rel.Top? {
      ComposeRenamed(rel.up, k, id, id', c, l, if rel.c == Black then n + 1 else n);
    }
  }

  lemma Spliced(m: Memory, m': Memory, root: Ptr, root': Ptr, k: Ctx, t: Tree, child: Tree)
    requires Linked(m, root, k, t) && t.T?
    requires (t.l.E? && child == t.r) || (t.r.E? && child == t.l)
    requires m'.Keys == m.Keys
    requires forall p :: p in m && !(child.T? && p == child.id) && !(!k.Top? && p == k.id) ==> m'[p] == m[p]
    requires child.T? ==> child.id in m && m'[child.id] == m[child.id].(parent := Parent(k))
    requires Refilled(m, m', root, root', k, Root(child))
    ensures Linked(m', root', k, child)
    ensures OnlyWithin(m, m', CtxIds(k) + Ids(child))
  {
    assert child.T? ==> child.id in Ids(child);
    assert !k.Top? ==> k.id in CtxIds(k);
    Reparent(m, m', child, t.id, Parent(k));
    Refill(m, m', root, root', k, t.id, Root(child));
  }

  lemma Substituted(m: Memory, m': Memory, root: Ptr, root': Ptr, k: Ctx, t: Tree, id: Ptr)
    requires Linked(m, root, k, t) && t.T? && id != 0 && id !in CtxIds(k) + Ids(t)
    requires m'.Keys == m.Keys && id in m && t.id in m && m'[id] == m[t.id]
    requires forall p :: p in m && p != id && p != Root(t.l) && p != Root(t.r) && !(!k.Top? && p == k.id) ==> m'[p] == m[p]
    requires t.l.T? ==> t.l.id in m && m'[t.l.id] == m[t.l.id].(parent := id)
    requires t.r.T? ==> t.r.id in m && m'[t.r.id] == m[t.r.id].(parent := id)
    requires Refilled(m, m', root, root', k, id)
    ensures Linked(m', root', k, T(t.l, id, t.c, t.r))
  {
    SubstitutedBelow(m, m', k, t, id);
    assert t.l.T? ==> t.l.id in Ids(t.l);
    assert t.r.T? ==> t.r.id in Ids(t.r);
    NonNull(m, t.l, t.id);
    NonNull(m, t.r, t.id);
    CtxNonNull(m, root, k, t.id);
    Refill(m, m', root, root', k, t.id, id);
  }

  lemma SubstitutedBelow(m: Memory, m': Memory, k: Ctx, t: Tree, id: Ptr)
    requires Disjoint(k, t) && Rep(m, t, Parent(k)) && t.T? && id != 0 && id !in CtxIds(k) + Ids(t)
    requires m'.Keys == m.Keys && id in m && m'[id] == m[t.id]
    requires forall p :: p in m && p != id && p != Root(t.l) && p != Root(t.r) && !(!k.Top? && p == k.id) ==> m'[p] == m[p]
    requires t.l.T? ==> t.l.id in m && m'[t.l.id] == m[t.l.id].(parent := id)
    requires t.r.T? ==> t.r.id in m && m'[t.r.id] == m[t.r.id].(parent := id)
    ensures Rep(m', T(t.l, id, t.c, t.r), Parent(k))
  {
    assert t.l.T? ==> t.l.id in Ids(t.l);
    assert t.r.T? ==> t.r.id in Ids(t.r);
    assert !k.Top? ==> k.id in CtxIds(k);
    NonNull(m, t.l, t.id);
    NonNull(m, t.r, t.id);
    Reparent(m, m', t.l, t.id, id);
    Reparent(m, m', t.r, t.id, id);
  }

  lemma {:induction false} NonNull(m: Memory, t: Tree, parent: Ptr)
    requires Rep(m, t, parent)
    ensures 0 !in Ids(t)
  {
    if t.T? { NonNull(m, t.l, t.id); NonNull(m, t.r, t.id); }
  }

  lemma {:induction false} CtxNonNull(m: Memory, root: Ptr, k: Ctx, hole: Ptr)
    requires CtxRep(m, root, k, hole)
    ensures 0 !in CtxIds(k)
  {
    if !k.Top? { NonNull(m, k.sib, k.id); CtxNonNull(m, root, k.up, k.id); }
  }

  lemma {:induction false} WithoutAbsent(s: seq<Ptr>, p: Ptr)
    requires p !in s
    ensures Without(s, p) == s
  {
    if s != [] { WithoutAbsent(s[1..], p); }
  }

  lemma {:induction false} WithoutAt(a: seq<Ptr>, p: Ptr, b: seq<Ptr>)
    requires p !in a && p !in b
    ensures Without(a + [p] + b, p) == a + b
  {
    var s := a + [p] + b;
    if a == [] {
      WithoutAbsent(b, p);
      assert s[1..] == b;
    } else {
      WithoutAt(a[1..], p, b);
      assert s[1..] == a[1..] + [p] + b;
    }
  }

  lemma {:induction false} InorderIds(t: Tree)
    ensures forall p :: p in Inorder(t) <==> p in Ids(t)
  {
    if t.T? { InorderIds(t.l); InorderIds(t.r); }
  }

  lemma {:induction false} AroundIds(k: Ctx)
    ensures forall p :: p in Before(k) + After(k) <==> p in CtxIds(k)
  {
    if !k.Top? { AroundIds(k.up); InorderIds(k.sib); }
  }

  /** What is left of a subtree of black height n after a node of the given colour is spliced out. */
  ghost predicate Removed(ct: Tree, color: Color, n: nat) {
    if color == Red then BlackRoot(ct) && Balanced(ct, n) else n > 0 && Balanced(ct, n - 1)
  }

  lemma ErasedInorder(k: Ctx, t: Tree)
    requires Disjoint(k, t) && t.T?
    ensures Without(Whole(k, t), t.id) == Before(k) + Inorder(t.l) + Inorder(t.r) + After(k)
    ensures t.l.E? ==> Without(Whole(k, t), t.id) == Whole(k, t.r)
    ensures t.r.E? ==> Without(Whole(k, t), t.id) == Whole(k, t.l)
  {
    assert t.id !in Before(k) && t.id !in After(k) by { AroundIds(k); assert t.id in Ids(t); }
    assert t.id !in Inorder(t.l) by { InorderIds(t.l); }
    assert t.id !in Inorder(t.r) by { InorderIds(t.r); }
    EraseGlue(Before(k), Inorder(t.l), t.id, Inorder(t.r), After(k));
  }

  lemma EraseGlue(a: seq<Ptr>, l: seq<Ptr>, p: Ptr, r: seq<Ptr>, b: seq<Ptr>)
    requires p !in a && p !in l && p !in r && p !in b
    ensures Without(a + (l + [p] + r) + b, p) == a + l + r + b
    ensures l == [] ==> a + l + r + b == a + r + b
    ensures r == [] ==> a + l + r + b == a + l + b
  {
    Regrouped(a, l, p, r, b);
    WithoutAt(a + l, p, r + b);
  }

  lemma Regrouped(a: seq<Ptr>, l: seq<Ptr>, p: Ptr, r: seq<Ptr>, b: seq<Ptr>)
    ensures a + (l + [p] + r) + b == (a + l) + [p] + (r + b)
    ensures (a + l) + (r + b) == a + l + r + b
    ensures l == [] ==> a + l == a
    ensures r == [] ==> a + l + r == a + l
  {
  }

  /** st is reached from the right child of t by going left along rel. */
  ghost predicate IsSuccessor(k: Ctx, t: Tree, rel: Ctx, st: Tree, n: nat)
    requires t.T?
  {
    var k' := Compose(rel, Rt(k, t.id, t.c, t.l));
    && st.T? && Plug(rel, st) == t.r && Sound(k', st, n)
    && AllLeft(rel)
  }

  lemma DescendLeft(k: Ctx, t: Tree, rel: Ctx, st: Tree, n: nat)
    requires t.T? && IsSuccessor(k, t, rel, st, n) && st.l.T?
    ensures IsSuccessor(k, t, Lf(rel, st.id, st.c, st.r), st.l, if st.c == Black then n - 1 else n)
  {
  }

  predicate AllLeft(rel: Ctx) { rel.Top? || (rel.Lf? && AllLeft(rel.up)) }

  lemma {:induction false} BeforeAllLeft(rel: Ctx, base: Ctx)
    requires AllLeft(rel)
    ensures Before(Compose(rel, base)) == Before(base)
  {
    if rel.Lf? { BeforeAllLeft(rel.up, base); }
  }

  lemma {:induction false} ComposeAfter(rel: Ctx, base: Ctx)
    ensures After(Compose(rel, base)) == After(rel) + After(base)
  {
    if !rel.Top? { ComposeAfter(rel.up, base); }
  }

  lemma {:induction false} PlugWhole(k: Ctx, t: Tree)
    ensures Inorder(Plug(k, t)) == Whole(k, t)
  {
    if !k.Top? {
      UpSame(k, t);
      PlugWhole(k.up, Fill(k, t));
    }
  }

  lemma {:induction false} ComposeBase(rel: Ctx, base: Ctx)
    requires !base.Top?
    ensures base.id in CtxIds(Compose(rel, base))
  {
    if !rel.Top? { ComposeBase(rel.up, base); }
  }

  lemma SuccessorReplaced(k: Ctx, t: Tree, rel: Ctx, st: Tree, n: nat)
    requires t.T? && IsSuccessor(k, t, rel, st, n) && st.l.E?
    ensures var k' := Compose(rel, Rt(k, st.id, t.c, t.l));
      && CtxBalanced(k', n) && Removed(st.r, st.c, n)
      && Parent(k') == (if rel.Top? then st.id else rel.id)
      && Whole(k', st.r) == Before(k) + Inorder(t.l) + Inorder(t.r) + After(k)
  {
    var base, base' := Rt(k, t.id, t.c, t.l), Rt(k, st.id, t.c, t.l);
    ComposeRenamed(rel, k, t.id, st.id, t.c, t.l, n);
    BeforeAllLeft(rel, base');
    assert Before(base') == Before(k) + Inorder(t.l) + [st.id];
    SuccessorFirst(k, t, rel, st);
    hide Inorder, Before, After, Compose, Balanced, CtxBalanced, Plug;
    Glued(Before(k) + Inorder(t.l), st.id, Inorder(st.r), After(Compose(rel, base)), Inorder(t.r), After(k));
  }

  lemma Glued(x: seq<Ptr>, p: Ptr, i: seq<Ptr>, a: seq<Ptr>, r: seq<Ptr>, b: seq<Ptr>)
    requires [p] + (i + a) == r + b
    ensures x + [p] + i + a == x + r + b
  {
    Associative(x + [p], i, a);
    Associative(x, [p], i + a);
    Associative(x, r, b);
  }

  lemma SuccessorFirst(k: Ctx, t: Tree, rel: Ctx, st: Tree)
    requires t.T? && st.T? && st.l.E? && Plug(rel, st) == t.r && AllLeft(rel)
    ensures [st.id] + (Inorder(st.r) + After(Compose(rel, Rt(k, t.id, t.c, t.l)))) == Inorder(t.r) + After(k)
  {
    var base := Rt(k, t.id, t.c, t.l);
    ComposeAfter(rel, base);
    BeforeAllLeft(rel, Top);
    ComposeTop(rel);
    PlugWhole(rel, st);
    assert Inorder(st.l) == [];
    FirstGlue(Inorder(t.r), Inorder(st), After(rel), Inorder(st.r), After(k), st.id);
  }

  lemma FirstGlue(whole: seq<Ptr>, sub: seq<Ptr>, above: seq<Ptr>, right: seq<Ptr>, rest: seq<Ptr>, p: Ptr)
    requires whole == [] + sub + above && sub == [] + [p] + right
    ensures [p] + (right + (above + rest)) == whole + rest
  {
  }

  lemma {:induction false} ComposeTop(rel: Ctx)
    ensures Compose(rel, Top) == rel
  {
    if !rel.Top? { ComposeTop(rel.up); }
  }
}
