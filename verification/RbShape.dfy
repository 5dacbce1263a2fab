/**
  Memory layout of the red-black tree of base/rbtree.h.

  A node is a record at an address; address 0 is the null pointer.  The ghost
  view of a linked tree is a functional tree whose nodes carry their addresses,
  together with a zipper for the part of the tree above the node in focus.
  */
module RbShape {

  import opened Basics

  datatype Color = Red | Black

  /** struct rb_node */
  datatype RbNode = RbNode(parent: Ptr, right: Ptr, left: Ptr, color: Color)

  type Memory = map<Ptr, RbNode>

  datatype Tree = E | T(l: Tree, id: Ptr, c: Color, r: Tree)

  /** The surroundings of a subtree: its parent, the parent's other subtree, and so on upwards. */
  datatype Ctx =
    | Top
    | Lf(up: Ctx, id: Ptr, c: Color, sib: Tree) // the hole is the left child of id
    | Rt(up: Ctx, id: Ptr, c: Color, sib: Tree) // the hole is the right child of id

  function Root(t: Tree): Ptr { if t.E? then 0 else t.id }

  function Parent(k: Ctx): Ptr { if k.Top? then 0 else k.id }

  ghost function Ids(t: Tree): set<Ptr> {
    if t.E? then {} else Ids(t.l) + {t.id} + Ids(t.r)
  }

  ghost function CtxIds(k: Ctx): set<Ptr> {
    if k.Top? then {} else CtxIds(k.up) + {k.id} + Ids(k.sib)
  }

  function Inorder(t: Tree): seq<Ptr> {
    if t.E? then [] else Inorder(t.l) + [t.id] + Inorder(t.r)
  }

  /** The addresses before and after the hole, in order. */
  function Before(k: Ctx): seq<Ptr> {
    match k
    case Top => []
    case Lf(up, id, c, sib) => Before(up)
    case Rt(up, id, c, sib) => Before(up) + Inorder(sib) + [id]
  }

  function After(k: Ctx): seq<Ptr> {
    match k
    case Top => []
    case Lf(up, id, c, sib) => [id] + Inorder(sib) + After(up)
    case Rt(up, id, c, sib) => After(up)
  }

  function Whole(k: Ctx, t: Tree): seq<Ptr> {
    Before(k) + Inorder(t) + After(k)
  }

  function Plug(k: Ctx, t: Tree): Tree {
    if k.Top? then t else Plug(k.up, Fill(k, t))
  }

  ghost predicate Distinct(t: Tree) {
    t.T? ==>
      && t.id !in Ids(t.l) && t.id !in Ids(t.r) && Ids(t.l) !! Ids(t.r)
      && Distinct(t.l) && Distinct(t.r)
  }

  ghost predicate CtxDistinct(k: Ctx) {
    !k.Top? ==>
      && k.id !in CtxIds(k.up) && k.id !in Ids(k.sib) && CtxIds(k.up) !! Ids(k.sib)
      && CtxDistinct(k.up) && Distinct(k.sib)
  }

  /** The nodes of t are linked in m as t says, below the node at address parent. */
  ghost predicate Rep(m: Memory, t: Tree, parent: Ptr) {
    t.T? ==>
      && t.id != 0 && t.id in m
      && m[t.id] == RbNode(parent, Root(t.r), Root(t.l), t.c)
      && Rep(m, t.l, t.id) && Rep(m, t.r, t.id)
  }

  /** The nodes around a hole filled by the address hole are linked in m as k says. */
  ghost predicate CtxRep(m: Memory, root: Ptr, k: Ctx, hole: Ptr) {
    match k
    case Top => root == hole
    case Lf(up, id, c, sib) =>
      && id != 0 && id in m
      && m[id] == RbNode(Parent(up), Root(sib), hole, c)
      && Rep(m, sib, id) && CtxRep(m, root, up, id)
    case Rt(up, id, c, sib) =>
      && id != 0 && id in m
      && m[id] == RbNode(Parent(up), hole, Root(sib), c)
      && Rep(m, sib, id) && CtxRep(m, root, up, id)
  }

  ghost predicate Disjoint(k: Ctx, t: Tree) {
    CtxDistinct(k) && Distinct(t) && CtxIds(k) !! Ids(t)
  }

  /** The whole linked structure, seen from the subtree t in focus. */
  ghost predicate Linked(m: Memory, root: Ptr, k: Ctx, t: Tree) {
    Disjoint(k, t) && Rep(m, t, Parent(k)) && CtxRep(m, root, k, Root(t))
  }

  /** Nothing has been allocated or freed, and nothing outside the given nodes has been written. */
  ghost predicate OnlyWithin(m: Memory, m': Memory, nodes: set<Ptr>) {
    && m.Keys == m'.Keys
    && forall p :: p in m && p !in nodes ==> m'[p] == m[p]
  }

  // ---- frame lemmas

  lemma {:induction false} RepFrame(m: Memory, m': Memory, t: Tree, parent: Ptr)
    requires Rep(m, t, parent)
    requires forall p :: p in Ids(t) && p in m ==> p in m' && m'[p] == m[p]
    ensures Rep(m', t, parent)
  {
    if t.T? {
      RepFrame(m, m', t.l, t.id);
      RepFrame(m, m', t.r, t.id);
    }
  }

  lemma {:induction false} CtxFrame(m: Memory, m': Memory, root: Ptr, k: Ctx, hole: Ptr)
    requires CtxRep(m, root, k, hole)
    requires forall p :: p in CtxIds(k) && p in m ==> p in m' && m'[p] == m[p]
    ensures CtxRep(m', root, k, hole)
  {
    if !k.Top? {
      RepFrame(m, m', k.sib, k.id);
      CtxFrame(m, m', root, k.up, k.id);
    }
  }

  /** A subtree moves below another parent when only its root's parent field changes. */
  lemma Reparent(m: Memory, m': Memory, t: Tree, parent: Ptr, parent': Ptr)
    requires Rep(m, t, parent) && Distinct(t)
    requires forall p :: p in Ids(t) && p != Root(t) && p in m ==> p in m' && m'[p] == m[p]
    requires t.T? ==> t.id in m' && m'[t.id] == m[t.id].(parent := parent')
    ensures Rep(m', t, parent')
  {
    if t.T? {
      RepFrame(m, m', t.l, t.id);
      RepFrame(m, m', t.r, t.id);
    }
  }

  /** The slot that holds the pointer to the subtree in focus. */
  ghost predicate Refilled(m: Memory, m': Memory, root: Ptr, root': Ptr, k: Ctx, hole': Ptr) {
    match k
    case Top => root' == hole'
    case Lf(up, id, c, sib) => root' == root && id in m && id in m' && m'[id] == m[id].(left := hole')
    case Rt(up, id, c, sib) => root' == root && id in m && id in m' && m'[id] == m[id].(right := hole')
  }

  lemma Refill(m: Memory, m': Memory, root: Ptr, root': Ptr, k: Ctx, hole: Ptr, hole': Ptr)
    requires CtxRep(m, root, k, hole) && CtxDistinct(k)
    requires Refilled(m, m', root, root', k, hole')
    requires forall p :: p in CtxIds(k) && p != Parent(k) && p in m ==> p in m' && m'[p] == m[p]
    ensures CtxRep(m', root', k, hole')
  {
    if !k.Top? {
      RepFrame(m, m', k.sib, k.id);
      CtxFrame(m, m', root, k.up, k.id);
    }
  }

  // ---- moving the focus

  /** The subtree one level up. */
  function Fill(k: Ctx, t: Tree): Tree
    requires !k.Top?
  {
    if k.Lf? then T(t, k.id, k.c, k.sib) else T(k.sib, k.id, k.c, t)
  }

  lemma UpSame(k: Ctx, t: Tree)
    requires !k.Top?
    ensures Whole(k, t) == Whole(k.up, Fill(k, t))
    ensures CtxIds(k) + Ids(t) == CtxIds(k.up) + Ids(Fill(k, t))
  {
  }

  lemma Up(m: Memory, root: Ptr, k: Ctx, t: Tree)
    requires !k.Top?
    ensures Linked(m, root, k, t) <==> Linked(m, root, k.up, Fill(k, t))
    ensures Whole(k, t) == Whole(k.up, Fill(k, t))
    ensures CtxIds(k) + Ids(t) == CtxIds(k.up) + Ids(Fill(k, t))
  {
    UpSame(k, t);
    UpDisjoint(k, t);
  }

  lemma UpDisjoint(k: Ctx, t: Tree)
    requires !k.Top?
    ensures Disjoint(k, t) <==> Disjoint(k.up, Fill(k, t))
  {
  }

  lemma {:induction false} UpAll(m: Memory, root: Ptr, k: Ctx, t: Tree)
    requires Linked(m, root, k, t)
    ensures Linked(m, root, Top, Plug(k, t))
    ensures Whole(k, t) == Inorder(Plug(k, t))
    ensures CtxIds(k) + Ids(t) == Ids(Plug(k, t))
  {
    if !k.Top? {
      Up(m, root, k, t);
      UpAll(m, root, k.up, Fill(k, t));
    }
  }

  lemma WholeEmpty(k: Ctx)
    ensures Whole(k, E) == Before(k) + After(k)
  {
  }

  /** Brings the node at address p into focus. */
  ghost function Locate(k: Ctx, t: Tree, p: Ptr): (r: (Ctx, Tree))
    requires p in Ids(t)
    ensures r.1.T? && r.1.id == p
    decreases t
  {
    if t.id == p then (k, t)
    else if p in Ids(t.l) then Locate(Lf(k, t.id, t.c, t.r), t.l, p)
    else Locate(Rt(k, t.id, t.c, t.l), t.r, p)
  }

  lemma {:induction false} LocateLinked(m: Memory, root: Ptr, k: Ctx, t: Tree, p: Ptr)
    requires p in Ids(t)
    requires Linked(m, root, k, t)
    ensures var (k', t') := Locate(k, t, p);
      && Linked(m, root, k', t') && Whole(k', t') == Whole(k, t)
      && Plug(k', t') == Plug(k, t)
      && CtxIds(k') + Ids(t') == CtxIds(k) + Ids(t)
    decreases t
  {
    if t.id == p {
    } else if p in Ids(t.l) {
      var kl := Lf(k, t.id, t.c, t.r);
      Up(m, root, kl, t.l);
      LocateLinked(m, root, kl, t.l, p);
    } else {
      var kr := Rt(k, t.id, t.c, t.l);
      Up(m, root, kr, t.r);
      LocateLinked(m, root, kr, t.r, p);
    }
  }
}
