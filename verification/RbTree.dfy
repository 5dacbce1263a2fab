/** base/rbtree.c: rotations, and insertion and removal with their fixups, on linked nodes. */
module RbTree {

  import opened Basics
  import opened RbShape
  import opened RbColor
  import opened RbLink

  /** The target of a struct rb_node** : the root, or a child field of a node. */
  datatype Slot = RootSlot | LeftOf(p: Ptr) | RightOf(p: Ptr)

  function SlotOf(k: Ctx): Slot {
    match k
    case Top => RootSlot
    case Lf(up, id, c, sib) => LeftOf(id)
    case Rt(up, id, c, sib) => RightOf(id)
  }

  class RbRoot {
    var mem: Memory
    var root: Ptr

    constructor ()
      ensures mem == map[] && root == 0
    {
      mem, root := map[], 0;
    }

    /** The pointer to node held by its parent, or by the root, becomes a pointer to another node. */
    method ReplaceChild(parent: Ptr, node: Ptr, to: Ptr)
      requires parent == 0 || parent in mem
      modifies this
      ensures root == if parent == 0 then to else old(root)
      ensures mem == ChildReplaced(old(mem), parent, node, to)
    {
      if parent != 0 {
        if mem[parent].left == node {
          mem := mem[parent := mem[parent].(left := to)];
        } else {
          mem := mem[parent := mem[parent].(right := to)];
        }
      } else {
        root := to;
      }
    }

    method SetParent(p: Ptr, parent: Ptr)
      requires p == 0 || p in mem
      modifies this
      ensures root == old(root)
      ensures mem == ParentSet(old(mem), p, parent)
    {
      if p != 0 {
        mem := mem[p := mem[p].(parent := parent)];
      }
    }

    /** __rb_rotate_left */
    method RotateLeft(node: Ptr, ghost k: Ctx, ghost t: Tree)
      requires Linked(mem, root, k, t) && t.T? && t.id == node && t.r.T?
      modifies this
      ensures Linked(mem, root, k, RotatedLeft(t))
      ensures OnlyWithin(old(mem), mem, CtxIds(k) + Ids(t))
    {
      NearRight(mem, root, k, t.l, t.id, t.c, t.r.l, t.r.id, t.r.c, t.r.r);
      var right := mem[node].right;
      mem := mem[node := mem[node].(right := mem[right].left)];
      SetParent(mem[node].right, node);
      mem := mem[right := mem[right].(left := node)];
      mem := mem[right := mem[right].(parent := mem[node].parent)];
      ReplaceChild(mem[node].parent, node, right);
      mem := mem[node := mem[node].(parent := right)];
      LeftRotated(old(mem), mem, old(root), root, k, t.l, t.id, t.c, t.r.l, t.r.id, t.r.c, t.r.r);
    }

    /** __rb_rotate_right */
    method RotateRight(node: Ptr, ghost k: Ctx, ghost t: Tree)
      requires Linked(mem, root, k, t) && t.T? && t.id == node && t.l.T?
      modifies this
      ensures Linked(mem, root, k, RotatedRight(t))
      ensures OnlyWithin(old(mem), mem, CtxIds(k) + Ids(t))
    {
      NearLeft(mem, root, k, t.l.l, t.l.id, t.l.c, t.l.r, t.id, t.c, t.r);
      var left := mem[node].left;
      mem := mem[node := mem[node].(left := mem[left].right)];
      SetParent(mem[node].left, node);
      mem := mem[left := mem[left].(right := node)];
      mem := mem[left := mem[left].(parent := mem[node].parent)];
      ReplaceChild(mem[node].parent, node, left);
      mem := mem[node := mem[node].(parent := left)];
      RightRotated(old(mem), mem, old(root), root, k, t.l.l, t.l.id, t.l.c, t.l.r, t.id, t.c, t.r);
    }

    method SetColor(p: Ptr, color: Color, ghost k: Ctx, ghost t: Tree)
      requires Linked(mem, root, k, t) && t.T? && t.id == p
      modifies this
      ensures Linked(mem, root, k, t.(c := color)) && root == old(root)
      ensures OnlyWithin(old(mem), mem, CtxIds(k) + Ids(t))
    {
      mem := mem[p := mem[p].(color := color)];
      RepFrame(old(mem), mem, t.l, p);
      RepFrame(old(mem), mem, t.r, p);
      CtxFrame(old(mem), mem, root, k, p);
    }

    /** The assignments of the red-uncle case. */
    method FlipColors(uncle: Ptr, parent: Ptr, gparent: Ptr, ghost k: Ctx, ghost t: Tree)
      requires Linked(mem, root, k, t) && t.T? && t.id == gparent && t.l.T? && t.r.T?
      requires (uncle == t.l.id && parent == t.r.id) || (uncle == t.r.id && parent == t.l.id)
      modifies this
      ensures Linked(mem, root, k, Flipped(t))
      ensures OnlyWithin(old(mem), mem, CtxIds(k) + Ids(t))
    {
      assert Rep(mem, t.l, t.id) && Rep(mem, t.r, t.id);
      mem := mem[uncle := mem[uncle].(color := Black)];
      mem := mem[parent := mem[parent].(color := Black)];
      mem := mem[gparent := mem[gparent].(color := Red)];
      ColorsFlipped(old(mem), mem, root, k, t);
    }

    /** rb_insert_color, black uncle, parent is the left child of gparent. */
    method InsertRotateLeft(node0: Ptr, parent0: Ptr, gparent: Ptr, ghost k: Ctx, ghost t: Tree)
      returns (node: Ptr, ghost k': Ctx, ghost t': Tree)
      requires Linked(mem, root, k, t) && t.T? && t.id == node0
      requires !k.Top? && k.id == parent0 && k.up.Lf? && k.up.id == gparent
      modifies this
      ensures Linked(mem, root, k', t') && t'.T? && t'.id == node
      ensures var pt := if k.Rt? then RotatedLeft(Fill(k, t)) else Fill(k, t);
              k' == Lf(k.up.up, pt.id, Black, T(pt.r, gparent, Red, k.up.sib)) && t' == pt.l
      ensures OnlyWithin(old(mem), mem, CtxIds(k) + Ids(t))
    {
      var parent := parent0;
      node := node0;
      ghost var pt := Fill(k, t);
      Up(mem, root, k, t);
      if mem[parent].right == node {
        RotateLeft(parent, k.up, pt);
        RotatedLeftSame(pt);
        pt := RotatedLeft(pt);
        parent, node := node, parent;
      }
      SetColor(parent, Black, k.up, pt);
      pt := pt.(c := Black);
      ghost var gt := Fill(k.up, pt);
      Up(mem, root, k.up, pt);
      SetColor(gparent, Red, k.up.up, gt);
      gt := gt.(c := Red);
      RotateRight(gparent, k.up.up, gt);
      k', t' := Lf(k.up.up, parent, Black, T(pt.r, gparent, Red, k.up.sib)), pt.l;
      Up(mem, root, k', t');
    }

    /** rb_insert_color, black uncle, parent is the right child of gparent. */
    method InsertRotateRight(node0: Ptr, parent0: Ptr, gparent: Ptr, ghost k: Ctx, ghost t: Tree)
      returns (node: Ptr, ghost k': Ctx, ghost t': Tree)
      requires Linked(mem, root, k, t) && t.T? && t.id == node0
      requires !k.Top? && k.id == parent0 && k.up.Rt? && k.up.id == gparent
      modifies this
      ensures Linked(mem, root, k', t') && t'.T? && t'.id == node
      ensures var pt := if k.Lf? then RotatedRight(Fill(k, t)) else Fill(k, t);
              k' == Rt(k.up.up, pt.id, Black, T(k.up.sib, gparent, Red, pt.l)) && t' == pt.r
      ensures OnlyWithin(old(mem), mem, CtxIds(k) + Ids(t))
    {
      var parent := parent0;
      node := node0;
      ghost var pt := Fill(k, t);
      Up(mem, root, k, t);
      if mem[parent].left == node {
        RotateRight(parent, k.up, pt);
        RotatedRightSame(pt);
        pt := RotatedRight(pt);
        parent, node := node, parent;
      }
      SetColor(parent, Black, k.up, pt);
      pt := pt.(c := Black);
      ghost var gt := Fill(k.up, pt);
      Up(mem, root, k.up, pt);
      SetColor(gparent, Red, k.up.up, gt);
      gt := gt.(c := Red);
      RotateLeft(gparent, k.up.up, gt);
      k', t' := Rt(k.up.up, parent, Black, T(k.up.sib, gparent, Red, pt.l)), pt.r;
      Up(mem, root, k', t');
    }

    /** One turn of the loop of rb_insert_color, parent is the left child of gparent. */
    method InsertStepLeft(node0: Ptr, parent: Ptr, gparent: Ptr, ghost k: Ctx, ghost t: Tree, ghost n: nat)
      returns (node: Ptr, ghost k': Ctx, ghost t': Tree, ghost n': nat)
      requires Linked(mem, root, k, t) && InsertPending(k, t, n) && t.id == node0
      requires !k.Top? && k.c == Red && k.id == parent && k.up.Lf? && k.up.id == gparent
      modifies this
      ensures Linked(mem, root, k', t') && InsertPending(k', t', n') && t'.id == node
      ensures Depth(k') < Depth(k)
      ensures Whole(k', t') == Whole(k, t) && CtxIds(k') + Ids(t') == CtxIds(k) + Ids(t)
      ensures OnlyWithin(old(mem), mem, CtxIds(k) + Ids(t))
    {
      ghost var gt := Fill(k.up, Fill(k, t));
      Up(mem, root, k, t);
      Up(mem, root, k.up, Fill(k, t));
      var uncle := mem[gparent].right;
      if uncle != 0 && mem[uncle].color == Red {
        InsertFlipped(k, t, n);
        FlipColors(uncle, parent, gparent, k.up.up, gt);
        node, k', t', n' := gparent, k.up.up, Flipped(gt), n + 1;
      } else {
        InsertRotatedLeft(k, t, n);
        node, k', t' := InsertRotateLeft(node0, parent, gparent, k, t);
        n' := n;
      }
    }

    /** One turn of the loop of rb_insert_color, parent is the right child of gparent. */
    method InsertStepRight(node0: Ptr, parent: Ptr, gparent: Ptr, ghost k: Ctx, ghost t: Tree, ghost n: nat)
      returns (node: Ptr, ghost k': Ctx, ghost t': Tree, ghost n': nat)
      requires Linked(mem, root, k, t) && InsertPending(k, t, n) && t.id == node0
      requires !k.Top? && k.c == Red && k.id == parent && k.up.Rt? && k.up.id == gparent
      modifies this
      ensures Linked(mem, root, k', t') && InsertPending(k', t', n') && t'.id == node
      ensures Depth(k') < Depth(k)
      ensures Whole(k', t') == Whole(k, t) && CtxIds(k') + Ids(t') == CtxIds(k) + Ids(t)
      ensures OnlyWithin(old(mem), mem, CtxIds(k) + Ids(t))
    {
      ghost var gt := Fill(k.up, Fill(k, t));
      Up(mem, root, k, t);
      Up(mem, root, k.up, Fill(k, t));
      var uncle := mem[gparent].left;
      if uncle != 0 && mem[uncle].color == Red {
        InsertFlipped(k, t, n);
        FlipColors(uncle, parent, gparent, k.up.up, gt);
        node, k', t', n' := gparent, k.up.up, Flipped(gt), n + 1;
      } else {
        InsertRotatedRight(k, t, n);
        node, k', t' := InsertRotateRight(node0, parent, gparent, k, t);
        n' := n;
      }
    }

    /** rb_insert_color */
    method InsertColor(node0: Ptr, ghost k0: Ctx) returns (ghost tree: Tree)
      requires Linked(mem, root, k0, T(E, node0, Red, E)) && CtxBalanced(k0, 0)
      modifies this
      ensures Linked(mem, root, Top, tree) && RedBlack(tree)
      ensures Inorder(tree) == Before(k0) + [node0] + After(k0)
      ensures OnlyWithin(old(mem), mem, CtxIds(k0) + {node0})
    {
      var node := node0;
      ghost var k, t, n: nat := k0, T(E, node0, Red, E), 0;
      ghost var all, inorder := CtxIds(k) + Ids(t), Whole(k, t);
      assert Inorder(t) == [node0];
      assert all == CtxIds(k0) + {node0} && inorder == Before(k0) + [node0] + After(k0);
      while mem[node].parent != 0 && mem[mem[node].parent].color == Red
        invariant Linked(mem, root, k, t) && InsertPending(k, t, n) && t.id == node
        invariant Whole(k, t) == inorder && CtxIds(k) + Ids(t) == all
        invariant OnlyWithin(old(mem), mem, all)
        decreases Depth(k)
      {
        var parent := mem[node].parent;
        var gparent := mem[parent].parent;
        InsertSite(mem, root, k, t, n);
        if parent == mem[gparent].left {
          node, k, t, n := InsertStepLeft(node, parent, gparent, k, t, n);
        } else {
          node, k, t, n := InsertStepRight(node, parent, gparent, k, t, n);
        }
      }
      InsertDone(k, t, n);
      UpAll(mem, root, k, t);
      SetColor(root, Black, Top, Plug(k, t));
      tree := Plug(k, t).(c := Black);
    }

    /** __rb_erase_color, red sibling: the sibling becomes the new grandparent. */
    method EraseRedSiblingLeft(parent: Ptr, other0: Ptr, ghost k: Ctx, ghost t: Tree) returns (other: Ptr, ghost k': Ctx)
      requires Linked(mem, root, k, t) && k.Lf? && k.id == parent && k.sib.T? && k.sib.id == other0
      modifies this
      ensures k' == Lf(Lf(k.up, other0, Black, k.sib.r), parent, Red, k.sib.l)
      ensures Linked(mem, root, k', t) && other == Root(k.sib.l)
      ensures OnlyWithin(old(mem), mem, CtxIds(k) + Ids(t))
    {
      ghost var ko, o := Rt(k.up, parent, k.c, t), k.sib;
      Up(mem, root, k, t);
      Up(mem, root, ko, o);
      SetColor(other0, Black, ko, o);
      o := o.(c := Black);
      Up(mem, root, ko, o);
      ghost var p := Fill(ko, o);
      SetColor(parent, Red, k.up, p);
      p := p.(c := Red);
      RotateLeft(parent, k.up, p);
      k' := Lf(Lf(k.up, other0, Black, k.sib.r), parent, Red, k.sib.l);
      Up(mem, root, k', t);
      Up(mem, root, k'.up, Fill(k', t));
      other := mem[parent].right;
    }

    /** __rb_erase_color, red nephew on the near side only: it replaces the sibling. */
    method EraseNearNephewLeft(parent: Ptr, other0: Ptr, ghost k: Ctx, ghost t: Tree) returns (other: Ptr, ghost k': Ctx)
      requires Linked(mem, root, k, t) && k.Lf? && k.id == parent && k.sib.T? && k.sib.id == other0 && k.sib.l.T?
      modifies this
      ensures k' == Lf(k.up, k.id, k.c, RotatedRight(T(k.sib.l.(c := Black), other0, Red, k.sib.r)))
      ensures Linked(mem, root, k', t) && other == k.sib.l.id
      ensures OnlyWithin(old(mem), mem, CtxIds(k) + Ids(t))
    {
      ghost var ko, o := Rt(k.up, parent, k.c, t), k.sib;
      ghost var kn, near := Lf(ko, other0, o.c, o.r), o.l;
      Up(mem, root, k, t);
      Up(mem, root, ko, o);
      Up(mem, root, kn, near);
      var near' := mem[other0].left;
      if near' != 0 {
        SetColor(near', Black, kn, near);
      }
      near := near.(c := Black);
      Up(mem, root, kn, near);
      o := Fill(kn, near);
      SetColor(other0, Red, ko, o);
      o := o.(c := Red);
      RotateRight(other0, ko, o);
      Up(mem, root, ko, RotatedRight(o));
      k' := Lf(k.up, k.id, k.c, RotatedRight(o));
      Up(mem, root, k', t);
      other := mem[parent].right;
    }

    /** __rb_erase_color, red nephew on the far side: the last recolouring and rotation. */
    method EraseFarNephewLeft(parent: Ptr, other: Ptr, ghost k: Ctx, ghost t: Tree)
      requires Linked(mem, root, k, t) && k.Lf? && k.id == parent && k.sib.T? && k.sib.id == other && k.sib.r.T?
      modifies this
      ensures Linked(mem, root, k.up, T(T(t, parent, Black, k.sib.l), other, k.c, k.sib.r.(c := Black)))
      ensures OnlyWithin(old(mem), mem, CtxIds(k) + Ids(t))
    {
      ghost var ko, o := Rt(k.up, parent, k.c, t), k.sib;
      Up(mem, root, k, t);
      Up(mem, root, ko, o);
      SetColor(other, mem[parent].color, ko, o);
      o := o.(c := k.c);
      Up(mem, root, ko, o);
      ghost var p := Fill(ko, o);
      SetColor(parent, Black, k.up, p);
      p := p.(c := Black);
      ko := Rt(k.up, parent, Black, t);
      ghost var kf, far := Rt(ko, other, o.c, o.l), o.r;
      Up(mem, root, ko, o);
      Up(mem, root, kf, far);
      if mem[other].right != 0 {
        SetColor(mem[other].right, Black, kf, far);
      }
      far := far.(c := Black);
      Up(mem, root, kf, far);
      Up(mem, root, ko, Fill(kf, far));
      RotateLeft(parent, k.up, Fill(ko, Fill(kf, far)));
    }

    /** __rb_erase_color, red sibling: the sibling becomes the new grandparent. */
    method EraseRedSiblingRight(parent: Ptr, other0: Ptr, ghost k: Ctx, ghost t: Tree) returns (other: Ptr, ghost k': Ctx)
      requires Linked(mem, root, k, t) && k.Rt? && k.id == parent && k.sib.T? && k.sib.id == other0
      modifies this
      ensures k' == Rt(Rt(k.up, other0, Black, k.sib.l), parent, Red, k.sib.r)
      ensures Linked(mem, root, k', t) && other == Root(k.sib.r)
      ensures OnlyWithin(old(mem), mem, CtxIds(k) + Ids(t))
    {
      ghost var ko, o := Lf(k.up, parent, k.c, t), k.sib;
      Up(mem, root, k, t);
      Up(mem, root, ko, o);
      SetColor(other0, Black, ko, o);
      o := o.(c := Black);
      Up(mem, root, ko, o);
      ghost var p := Fill(ko, o);
      SetColor(parent, Red, k.up, p);
      p := p.(c := Red);
      RotateRight(parent, k.up, p);
      k' := Rt(Rt(k.up, other0, Black, k.sib.l), parent, Red, k.sib.r);
      Up(mem, root, k', t);
      Up(mem, root, k'.up, Fill(k', t));
      other := mem[parent].left;
    }

    /** __rb_erase_color, red nephew on the near side only: it replaces the sibling. */
    method EraseNearNephewRight(parent: Ptr, other0: Ptr, ghost k: Ctx, ghost t: Tree) returns (other: Ptr, ghost k': Ctx)
      requires Linked(mem, root, k, t) && k.Rt? && k.id == parent && k.sib.T? && k.sib.id == other0 && k.sib.r.T?
      modifies this
      ensures k' == Rt(k.up, k.id, k.c, RotatedLeft(T(k.sib.l, other0, Red, k.sib.r.(c := Black))))
      ensures Linked(mem, root, k', t) && other == k.sib.r.id
      ensures OnlyWithin(old(mem), mem, CtxIds(k) + Ids(t))
    {
      ghost var ko, o := Lf(k.up, parent, k.c, t), k.sib;
      ghost var kn, near := Rt(ko, other0, o.c, o.l), o.r;
      Up(mem, root, k, t);
      Up(mem, root, ko, o);
      Up(mem, root, kn, near);
      var near' := mem[other0].right;
      if near' != 0 {
        SetColor(near', Black, kn, near);
      }
      near := near.(c := Black);
      Up(mem, root, kn, near);
      o := Fill(kn, near);
      SetColor(other0, Red, ko, o);
      o := o.(c := Red);
      RotateLeft(other0, ko, o);
      Up(mem, root, ko, RotatedLeft(o));
      k' := Rt(k.up, k.id, k.c, RotatedLeft(o));
      Up(mem, root, k', t);
      other := mem[parent].left;
    }

    /** __rb_erase_color, red nephew on the far side: the last recolouring and rotation. */
    method EraseFarNephewRight(parent: Ptr, other: Ptr, ghost k: Ctx, ghost t: Tree)
      requires Linked(mem, root, k, t) && k.Rt? && k.id == parent && k.sib.T? && k.sib.id == other && k.sib.l.T?
      modifies this
      ensures Linked(mem, root, k.up, T(k.sib.l.(c := Black), other, k.c, T(k.sib.r, parent, Black, t)))
      ensures OnlyWithin(old(mem), mem, CtxIds(k) + Ids(t))
    {
      ghost var ko, o := Lf(k.up, parent, k.c, t), k.sib;
      Up(mem, root, k, t);
      Up(mem, root, ko, o);
      SetColor(other, mem[parent].color, ko, o);
      o := o.(c := k.c);
      Up(mem, root, ko, o);
      ghost var p := Fill(ko, o);
      SetColor(parent, Black, k.up, p);
      p := p.(c := Black);
      ko := Lf(k.up, parent, Black, t);
      ghost var kf, far := Lf(ko, other, o.c, o.r), o.l;
      Up(mem, root, ko, o);
      Up(mem, root, kf, far);
      if mem[other].left != 0 {
        SetColor(mem[other].left, Black, kf, far);
      }
      far := far.(c := Black);
      Up(mem, root, kf, far);
      Up(mem, root, ko, Fill(kf, far));
      RotateRight(parent, k.up, Fill(ko, Fill(kf, far)));
    }

    /** __rb_erase_color, no red nephew: the sibling turns red and the problem moves up. */
    method EraseBlackNephews(parent: Ptr, other: Ptr, ghost k: Ctx, ghost t: Tree) returns (ghost k': Ctx, ghost t': Tree)
      requires Linked(mem, root, k, t) && !k.Top? && k.id == parent && k.sib.T? && k.sib.id == other
      modifies this
      ensures k' == k.up && t' == Fill(WithSibling(k, k.sib.(c := Red)), t)
      ensures Linked(mem, root, k', t')
      ensures OnlyWithin(old(mem), mem, CtxIds(k) + Ids(t))
    {
      ghost var ko := if k.Lf? then Rt(k.up, parent, k.c, t) else Lf(k.up, parent, k.c, t);
      Up(mem, root, k, t);
      Up(mem, root, ko, k.sib);
      SetColor(other, Red, ko, k.sib);
      Up(mem, root, ko, k.sib.(c := Red));
      k', t' := k.up, Fill(WithSibling(k, k.sib.(c := Red)), t);
    }

    /** __rb_erase_color, some nephew is red: the loop ends with a red-black tree. */
    method EraseFinishLeft(parent: Ptr, other0: Ptr, ghost k0: Ctx, ghost t: Tree, ghost n: nat) returns (ghost tree: Tree)
      requires Linked(mem, root, k0, t) && ErasePending(k0, t, n) && BlackRoot(t) && k0.Lf? && k0.id == parent
      requires k0.sib.T? && BlackRoot(k0.sib) && k0.sib.id == other0 && !(BlackRoot(k0.sib.l) && BlackRoot(k0.sib.r))
      modifies this
      ensures Linked(mem, root, Top, tree) && RedBlack(tree)
      ensures Inorder(tree) == Whole(k0, t) && Ids(tree) == CtxIds(k0) + Ids(t)
      ensures OnlyWithin(old(mem), mem, CtxIds(k0) + Ids(t))
    {
      var other := other0;
      ghost var k := k0;
      NephewColors(mem, root, k, t);
      if mem[other].right == 0 || mem[mem[other].right].color == Black {
        ErasedNearNephewLeft(k, t, n);
        other, k := EraseNearNephewLeft(parent, other, k, t);
      }
      ErasedFarNephewLeft(k, t, n);
      ghost var u := T(T(t, k.id, Black, k.sib.l), k.sib.id, k.c, k.sib.r.(c := Black));
      EraseFarNephewLeft(parent, other, k, t);
      UpAll(mem, root, k.up, u);
      tree := Plug(k.up, u);
    }

    /** The rest of a turn of __rb_erase_color once the sibling is black. */
    method EraseBlackSiblingLeft(parent0: Ptr, other: Ptr, ghost k: Ctx, ghost t: Tree, ghost n: nat)
      returns (node: Ptr, parent: Ptr, done: bool, ghost k': Ctx, ghost t': Tree, ghost n': nat)
      requires Linked(mem, root, k, t) && ErasePending(k, t, n) && BlackRoot(t) && k.Lf? && k.id == parent0
      requires k.sib.T? && BlackRoot(k.sib) && k.sib.id == other
      modifies this
      ensures Linked(mem, root, k', t') && ErasePending(k', t', n') && Root(t') == node
      ensures Whole(k', t') == Whole(k, t) && CtxIds(k') + Ids(t') == CtxIds(k) + Ids(t)
      ensures !done ==> Parent(k') == parent && k' == k.up && (BlackRoot(t') <==> k.c == Black)
      ensures done ==> k'.Top? && RedBlack(t')
      ensures OnlyWithin(old(mem), mem, CtxIds(k) + Ids(t))
    {
      hide Whole, OnlyWithin, RedBlack, Linked, ErasePending, CtxIds;
      NephewColors(mem, root, k, t);
      if (mem[other].left == 0 || mem[mem[other].left].color == Black)
        && (mem[other].right == 0 || mem[mem[other].right].color == Black)
      {
        ErasedBlackNephews(k, t, n);
        k', t' := EraseBlackNephews(parent0, other, k, t);
        node := parent0;
        RootParent(mem, root, k', t');
        parent, done, n' := mem[node].parent, false, if k.c == Black then n + 1 else n;
      } else {
        t' := EraseFinishLeft(parent0, other, k, t, n);
        node, parent, done, k', n' := root, parent0, true, Top, BlackHeight(t');
        TopSite(mem, root, t');
      }
    }

    /** One turn of the loop of __rb_erase_color, node is the left child of parent. */
    method EraseStepLeft(parent0: Ptr, ghost k0: Ctx, ghost t: Tree, ghost n: nat)
      returns (node: Ptr, parent: Ptr, done: bool, ghost k': Ctx, ghost t': Tree, ghost n': nat)
      requires Linked(mem, root, k0, t) && ErasePending(k0, t, n) && BlackRoot(t) && k0.Lf? && k0.id == parent0
      modifies this
      ensures Linked(mem, root, k', t') && ErasePending(k', t', n') && Root(t') == node
      ensures Whole(k', t') == Whole(k0, t) && CtxIds(k') + Ids(t') == CtxIds(k0) + Ids(t)
      ensures !done ==> Parent(k') == parent && EraseMeasure(k', t') < EraseMeasure(k0, t)
      ensures done ==> k'.Top? && RedBlack(t')
      ensures OnlyWithin(old(mem), mem, CtxIds(k0) + Ids(t))
    {
      var other := mem[parent0].right;
      ghost var k := k0;
      EraseSite(mem, root, k, t, n);
      NephewColors(mem, root, k, t);
      if mem[other].color == Red {
        ErasedRedSiblingLeft(k, t, n);
        other, k := EraseRedSiblingLeft(parent0, other, k, t);
      }
      node, parent, done, k', t', n' := EraseBlackSiblingLeft(parent0, other, k, t, n);
    }

    /** __rb_erase_color, some nephew is red: the loop ends with a red-black tree. */
    method EraseFinishRight(parent: Ptr, other0: Ptr, ghost k0: Ctx, ghost t: Tree, ghost n: nat) returns (ghost tree: Tree)
      requires Linked(mem, root, k0, t) && ErasePending(k0, t, n) && BlackRoot(t) && k0.Rt? && k0.id == parent
      requires k0.sib.T? && BlackRoot(k0.sib) && k0.sib.id == other0 && !(BlackRoot(k0.sib.r) && BlackRoot(k0.sib.l))
      modifies this
      ensures Linked(mem, root, Top, tree) && RedBlack(tree)
      ensures Inorder(tree) == Whole(k0, t) && Ids(tree) == CtxIds(k0) + Ids(t)
      ensures OnlyWithin(old(mem), mem, CtxIds(k0) + Ids(t))
    {
      var other := other0;
      ghost var k := k0;
      NephewColors(mem, root, k, t);
      if mem[other].left == 0 || mem[mem[other].left].color == Black {
        ErasedNearNephewRight(k, t, n);
        other, k := EraseNearNephewRight(parent, other, k, t);
      }
      ErasedFarNephewRight(k, t, n);
      ghost var u := T(k.sib.l.(c := Black), k.sib.id, k.c, T(k.sib.r, k.id, Black, t));
      EraseFarNephewRight(parent, other, k, t);
      UpAll(mem, root, k.up, u);
      tree := Plug(k.up, u);
    }

    /** The rest of a turn of __rb_erase_color once the sibling is black. */
    method EraseBlackSiblingRight(parent0: Ptr, other: Ptr, ghost k: Ctx, ghost t: Tree, ghost n: nat)
      returns (node: Ptr, parent: Ptr, done: bool, ghost k': Ctx, ghost t': Tree, ghost n': nat)
      requires Linked(mem, root, k, t) && ErasePending(k, t, n) && BlackRoot(t) && k.Rt? && k.id == parent0
      requires k.sib.T? && BlackRoot(k.sib) && k.sib.id == other
      modifies this
      ensures Linked(mem, root, k', t') && ErasePending(k', t', n') && Root(t') == node
      ensures Whole(k', t') == Whole(k, t) && CtxIds(k') + Ids(t') == CtxIds(k) + Ids(t)
      ensures !done ==> Parent(k') == parent && k' == k.up && (BlackRoot(t') <==> k.c == Black)
      ensures done ==> k'.Top? && RedBlack(t')
      ensures OnlyWithin(old(mem), mem, CtxIds(k) + Ids(t))
    {
      hide Whole, OnlyWithin, RedBlack, Linked, ErasePending, CtxIds;
      NephewColors(mem, root, k, t);
      if (mem[other].left == 0 || mem[mem[other].left].color == Black)
        && (mem[other].right == 0 || mem[mem[other].right].color == Black)
      {
        ErasedBlackNephews(k, t, n);
        k', t' := EraseBlackNephews(parent0, other, k, t);
        node := parent0;
        RootParent(mem, root, k', t');
        parent, done, n' := mem[node].parent, false, if k.c == Black then n + 1 else n;
      } else {
        t' := EraseFinishRight(parent0, other, k, t, n);
        node, parent, done, k', n' := root, parent0, true, Top, BlackHeight(t');
        TopSite(mem, root, t');
      }
    }

    /** One turn of the loop of __rb_erase_color, node is the right child of parent. */
    method EraseStepRight(parent0: Ptr, ghost k0: Ctx, ghost t: Tree, ghost n: nat)
      returns (node: Ptr, parent: Ptr, done: bool, ghost k': Ctx, ghost t': Tree, ghost n': nat)
      requires Linked(mem, root, k0, t) && ErasePending(k0, t, n) && BlackRoot(t) && k0.Rt? && k0.id == parent0
      modifies this
      ensures Linked(mem, root, k', t') && ErasePending(k', t', n') && Root(t') == node
      ensures Whole(k', t') == Whole(k0, t) && CtxIds(k') + Ids(t') == CtxIds(k0) + Ids(t)
      ensures !done ==> Parent(k') == parent && EraseMeasure(k', t') < EraseMeasure(k0, t)
      ensures done ==> k'.Top? && RedBlack(t')
      ensures OnlyWithin(old(mem), mem, CtxIds(k0) + Ids(t))
    {
      var other := mem[parent0].left;
      ghost var k := k0;
      EraseSite(mem, root, k, t, n);
      NephewColors(mem, root, k, t);
      if mem[other].color == Red {
        ErasedRedSiblingRight(k, t, n);
        other, k := EraseRedSiblingRight(parent0, other, k, t);
      }
      node, parent, done, k', t', n' := EraseBlackSiblingRight(parent0, other, k, t, n);
    }

    /** __rb_erase_color */
    method EraseColor(node0: Ptr, parent0: Ptr, ghost k0: Ctx, ghost t0: Tree, ghost n0: nat) returns (ghost tree: Tree)
      requires Linked(mem, root, k0, t0) && ErasePending(k0, t0, n0)
      requires Root(t0) == node0 && Parent(k0) == parent0
      modifies this
      ensures Linked(mem, root, Top, tree) && RedBlack(tree)
      ensures Inorder(tree) == Whole(k0, t0)
      ensures OnlyWithin(old(mem), mem, CtxIds(k0) + Ids(t0))
    {
      var node, parent := node0, parent0;
      ghost var k, t, n := k0, t0, n0;
      EraseSite(mem, root, k, t, n);
      while (node == 0 || mem[node].color == Black) && node != root
        invariant Linked(mem, root, k, t) && ErasePending(k, t, n)
        invariant Root(t) == node && Parent(k) == parent && (k.Top? <==> node == root)
        invariant Whole(k, t) == Whole(k0, t0) && CtxIds(k) + Ids(t) == CtxIds(k0) + Ids(t0)
        invariant OnlyWithin(old(mem), mem, CtxIds(k0) + Ids(t0))
        decreases EraseMeasure(k, t)
      {
        EraseSite(mem, root, k, t, n);
        var done;
        if mem[parent].left == node {
          node, parent, done, k, t, n := EraseStepLeft(parent, k, t, n);
        } else {
          node, parent, done, k, t, n := EraseStepRight(parent, k, t, n);
        }
        if done {
          break;
        }
        EraseSite(mem, root, k, t, n);
      }
      EraseDone(k, t, n);
      if node != 0 {
        SetColor(node, Black, k, t);
        t := t.(c := Black);
      }
      UpAll(mem, root, k, t);
      tree := Plug(k, t);
    }

    /** A node with at most one child gives its place to that child. */
    method SpliceOut(node: Ptr, child: Ptr, parent: Ptr, ghost k: Ctx, ghost t: Tree, ghost ct: Tree)
      requires Linked(mem, root, k, t) && t.T? && t.id == node && Parent(k) == parent
      requires (t.l.E? && ct == t.r) || (t.r.E? && ct == t.l)
      requires Root(ct) == child
      modifies this
      ensures Linked(mem, root, k, ct)
      ensures OnlyWithin(old(mem), mem, CtxIds(k) + Ids(ct))
    {
      assert Rep(mem, t.l, t.id) && Rep(mem, t.r, t.id);
      assert ct.T? ==> ct.id in Ids(ct);
      assert !k.Top? ==> k.id in CtxIds(k);
      SetParent(child, parent);
      ReplaceChild(parent, node, child);
      Spliced(old(mem), mem, old(root), root, k, t, ct);
    }

    /** The node at address id takes the place, the colour and the children of old_. */
    method Substitute(old_: Ptr, id: Ptr, ghost k: Ctx, ghost t: Tree)
      requires Linked(mem, root, k, t) && t.T? && t.id == old_
      requires id != 0 && id in mem && id !in CtxIds(k) + Ids(t)
      modifies this
      ensures Linked(mem, root, k, T(t.l, id, t.c, t.r))
      ensures OnlyWithin(old(mem), mem, CtxIds(k) + Ids(t) + {id})
    {
      assert Rep(mem, t.l, t.id) && Rep(mem, t.r, t.id);
      assert t.l.T? ==> t.l.id in Ids(t.l);
      assert t.r.T? ==> t.r.id in Ids(t.r);
      assert !k.Top? ==> k.id in CtxIds(k);
      mem := mem[id := mem[old_]];
      ReplaceChild(mem[old_].parent, old_, id);
      SetParent(mem[old_].left, id);
      SetParent(mem[old_].right, id);
      Substituted(old(mem), mem, old(root), root, k, t, id);
    }

    /** The label color of rb_erase: a black node is gone from the hole of k. */
    method Recolor(child: Ptr, parent: Ptr, color: Color, ghost k: Ctx, ghost ct: Tree, ghost n: nat) returns (ghost tree: Tree)
      requires Linked(mem, root, k, ct) && Root(ct) == child && Parent(k) == parent
      requires CtxBalanced(k, n) && Removed(ct, color, n)
      modifies this
      ensures Linked(mem, root, Top, tree) && RedBlack(tree) && Inorder(tree) == Whole(k, ct)
      ensures OnlyWithin(old(mem), mem, CtxIds(k) + Ids(ct))
    {
      if color == Black {
        tree := EraseColor(child, parent, k, ct, n - 1);
      } else {
        SoundPlug(k, ct, n);
        UpAll(mem, root, k, ct);
        tree := Plug(k, ct);
      }
    }

    /** rb_erase, node has at most one child. */
    method EraseOuter(node: Ptr, child: Ptr, ghost k: Ctx, ghost t: Tree, ghost ct: Tree, ghost n: nat) returns (ghost tree: Tree)
      requires Linked(mem, root, k, t) && Sound(k, t, n) && t.T? && t.id == node
      requires (t.l.E? && ct == t.r) || (t.r.E? && ct == t.l)
      requires Root(ct) == child
      modifies this
      ensures Linked(mem, root, Top, tree) && RedBlack(tree) && Inorder(tree) == Whole(k, ct)
      ensures OnlyWithin(old(mem), mem, CtxIds(k) + Ids(t))
    {
      var parent := mem[node].parent;
      var color := mem[node].color;
      SpliceOut(node, child, parent, k, t, ct);
      tree := Recolor(child, parent, color, k, ct, n);
    }

    /** The successor of a node with two children: the leftmost node of its right subtree. */
    method Successor(node0: Ptr, ghost k: Ctx, ghost t: Tree, ghost n: nat) returns (node: Ptr, ghost rel: Ctx, ghost st: Tree, ghost n': nat)
      requires Linked(mem, root, k, t) && Sound(k, t, n) && t.T? && t.id == node0 && t.r.T?
      ensures IsSuccessor(k, t, rel, st, n') && st.l.E? && st.id == node
      ensures Linked(mem, root, Compose(rel, Rt(k, t.id, t.c, t.l)), st)
    {
      ghost var base := Rt(k, t.id, t.c, t.l);
      node := mem[node0].right;
      rel, st, n' := Top, t.r, if t.c == Black then n - 1 else n;
      Up(mem, root, base, st);
      while mem[node].left != 0
        invariant Linked(mem, root, Compose(rel, base), st) && st.T? && st.id == node
        invariant IsSuccessor(k, t, rel, st, n')
        decreases st
      {
        node := mem[node].left;
        ghost var rel' := Lf(rel, st.id, st.c, st.r);
        Up(mem, root, Compose(rel', base), st.l);
        DescendLeft(k, t, rel, st, n');
        n' := if st.c == Black then n' - 1 else n';
        rel, st := rel', st.l;
      }
      assert Rep(mem, st.l, st.id);
    }

    /** rb_erase, the first half of the two-children case: the successor leaves its place for its child. */
    method DetachSuccessor(node: Ptr, child: Ptr, parent: Ptr, ghost k: Ctx, ghost t: Tree, ghost rel: Ctx, ghost st: Tree)
      requires t.T? && Linked(mem, root, Compose(rel, Rt(k, t.id, t.c, t.l)), st)
      requires st.T? && st.l.E? && st.id == node && Root(st.r) == child && Plug(rel, st) == t.r
      requires parent == Parent(Compose(rel, Rt(k, t.id, t.c, t.l)))
      modifies this
      ensures Linked(mem, root, k, T(t.l, t.id, t.c, Plug(rel, st.r)))
      ensures node !in CtxIds(k) + Ids(T(t.l, t.id, t.c, Plug(rel, st.r)))
      ensures CtxIds(k) + Ids(T(t.l, t.id, t.c, Plug(rel, st.r))) + {node} <= CtxIds(k) + Ids(t)
      ensures OnlyWithin(old(mem), mem, CtxIds(k) + Ids(t))
    {
      ghost var base := Rt(k, t.id, t.c, t.l);
      UpSame(base, t.r);
      ComposeLinked(mem, root, rel, base, st);
      SpliceOut(node, child, parent, Compose(rel, base), st, st.r);
      ComposeLinked(mem, root, rel, base, st.r);
      Up(mem, root, base, Plug(rel, st.r));
      assert node in Ids(st) && node !in CtxIds(Compose(rel, base)) && node !in Ids(st.r);
    }

    /** rb_erase, the two-children case up to the label color. */
    method ReplaceBySuccessor(old_: Ptr, node: Ptr, child: Ptr, parent: Ptr, ghost k: Ctx, ghost t: Tree, ghost rel: Ctx, ghost st: Tree)
      requires t.T? && t.id == old_ && Linked(mem, root, Compose(rel, Rt(k, t.id, t.c, t.l)), st)
      requires st.T? && st.l.E? && st.id == node && Root(st.r) == child && Plug(rel, st) == t.r
      requires parent == Parent(Compose(rel, Rt(k, t.id, t.c, t.l)))
      modifies this
      ensures Linked(mem, root, Compose(rel, Rt(k, node, t.c, t.l)), st.r)
      ensures CtxIds(Compose(rel, Rt(k, node, t.c, t.l))) + Ids(st.r) <= CtxIds(k) + Ids(t)
      ensures OnlyWithin(old(mem), mem, CtxIds(k) + Ids(t))
    {
      DetachSuccessor(node, child, parent, k, t, rel, st);
      Substitute(old_, node, k, T(t.l, old_, t.c, Plug(rel, st.r)));
      ghost var base := Rt(k, node, t.c, t.l);
      Up(mem, root, base, Plug(rel, st.r));
      ComposeLinked(mem, root, rel, base, st.r);
    }

    /** rb_erase, node has two children: its successor takes its place. */
    method EraseInner(old_: Ptr, ghost k: Ctx, ghost t: Tree, ghost n: nat) returns (ghost tree: Tree)
      requires Linked(mem, root, k, t) && Sound(k, t, n) && t.T? && t.id == old_ && t.l.T? && t.r.T?
      modifies this
      ensures Linked(mem, root, Top, tree) && RedBlack(tree)
      ensures Inorder(tree) == Before(k) + Inorder(t.l) + Inorder(t.r) + After(k)
      ensures OnlyWithin(old(mem), mem, CtxIds(k) + Ids(t))
    {
      ghost var rel, st, m;
      var node;
      node, rel, st, m := Successor(old_, k, t, n);
      SuccessorReplaced(k, t, rel, st, m);
      if !rel.Top? { ComposeBase(rel.up, Rt(k, old_, t.c, t.l)); }
      var child := mem[node].right;
      var parent := mem[node].parent;
      var color := mem[node].color;
      ReplaceBySuccessor(old_, node, child, parent, k, t, rel, st);
      if parent == old_ {
        parent := node;
      }
      tree := Recolor(child, parent, color, Compose(rel, Rt(k, node, t.c, t.l)), st.r, m);
    }

    /** rb_erase */
    method Erase(node: Ptr, ghost t0: Tree) returns (ghost tree: Tree)
      requires Linked(mem, root, Top, t0) && RedBlack(t0) && node in Ids(t0)
      modifies this
      ensures Linked(mem, root, Top, tree) && RedBlack(tree)
      ensures Inorder(tree) == Without(Inorder(t0), node)
      ensures OnlyWithin(old(mem), mem, Ids(t0))
    {
      ghost var (k, t) := Locate(Top, t0, node);
      LocateLinked(mem, root, Top, t0, node);
      ghost var n := SoundLocate(Top, t0, BlackHeight(t0), node);
      ErasedInorder(k, t);
      assert Whole(Top, t0) == Inorder(t0);
      assert Rep(mem, t.l, node) && Rep(mem, t.r, node);
      if mem[node].left == 0 {
        tree := EraseOuter(node, mem[node].right, k, t, t.r, n);
      } else if mem[node].right == 0 {
        tree := EraseOuter(node, mem[node].left, k, t, t.l, n);
      } else {
        tree := EraseInner(node, k, t, n);
      }
    }

    /** Reads through a struct rb_node** . */
    function Load(slot: Slot): Ptr
      reads this
      requires slot.RootSlot? || slot.p in mem
    {
      match slot
      case RootSlot => root
      case LeftOf(p) => mem[p].left
      case RightOf(p) => mem[p].right
    }

    /** rb_link_node */
    method LinkNode(node: Ptr, parent: Ptr, link: Slot, ghost k: Ctx)
      requires Linked(mem, root, k, E) && parent == Parent(k) && link == SlotOf(k)
      requires node != 0 && node in mem && node !in CtxIds(k)
      modifies this
      ensures Linked(mem, root, k, T(E, node, Red, E))
      ensures OnlyWithin(old(mem), mem, CtxIds(k) + {node})
    {
      assert !k.Top? ==> k.id in CtxIds(k);
      mem := mem[node := RbNode(parent, 0, 0, Red)];
      match link {
        case RootSlot => root := node;
        case LeftOf(p) => mem := mem[p := mem[p].(left := node)];
        case RightOf(p) => mem := mem[p := mem[p].(right := node)];
      }
      Refill(old(mem), mem, old(root), root, k, 0, node);
    }

    /** The insertion of rbtree.h: rb_link_node at the end of a descent, then rb_insert_color. */
    method Insert(node: Ptr, parent: Ptr, link: Slot, ghost k: Ctx) returns (ghost tree: Tree)
      requires Linked(mem, root, k, E) && CtxBalanced(k, 0) && parent == Parent(k) && link == SlotOf(k)
      requires node != 0 && node in mem && node !in CtxIds(k)
      modifies this
      ensures Linked(mem, root, Top, tree) && RedBlack(tree)
      ensures Inorder(tree) == Before(k) + [node] + After(k)
      ensures OnlyWithin(old(mem), mem, CtxIds(k) + {node})
    {
      LinkNode(node, parent, link, k);
      tree := InsertColor(node, k);
    }
  }
}
