/**
 NetRbTree: the red-black tree with in-place rotations and recolouring. `cells` mirrors the
 fields of the nodes in the tree, so that what the methods do to the heap is a function of values.
 */
module NetRbTree {
  import opened RbTree

  class NetRbTree {
    var ref: RbNode?
    ghost var cells: map<RbNode, Cell>
    ghost var tree: Tree

    constructor ()
      ensures ref == null && cells == map[] && tree == Leaf
    {
      ref, cells, tree := null, map[], Leaf;
    }

    lemma Empty()
      requires ref == null && cells == map[] && tree == Leaf
      ensures Valid()
    {
      assert Fine(tree, 0);
    }

    ghost function L(): Links
      reads this
    {
      Links(cells, ref)
    }

    /** The mirror is right. */
    ghost predicate Synced()
      reads this`cells, cells.Keys`left, cells.Keys`right, cells.Keys`parent, cells.Keys`color
    {
      forall n {:trigger cells[n]} :: n in cells ==> Cell(n.left, n.right, n.parent, n.color) == cells[n]
    }

    method SetKid(n: RbNode, side: bool, x: RbNode?)
      requires Synced() && n in cells
      modifies this`cells, n`left, n`right
      ensures Synced() && L() == PutKid(old(L()), n, side, x)
    {
      if side { n.left := x; } else { n.right := x; }
      cells := cells[n := Cell(n.left, n.right, n.parent, n.color)];
    }

    method SetParent(n: RbNode, p: RbNode?)
      requires Synced() && n in cells
      modifies this`cells, n`parent
      ensures Synced() && L() == PutParent(old(L()), n, p)
    {
      n.parent := p;
      cells := cells[n := cells[n].(parent := p)];
    }

    method SetColor(n: RbNode, c: Color)
      requires Synced() && n in cells
      modifies this`cells, n`color
      ensures Synced() && L() == PutColor(old(L()), n, c)
    {
      n.color := c;
      cells := cells[n := cells[n].(color := c)];
    }

    /** The pointer in parent, or the root pointer, that leads to n now leads to x. */
    method RelinkFrom(parent: RbNode?, n: RbNode, x: RbNode?)
      requires Synced() && (parent != null ==>
                 parent in cells && (cells[parent].left == n) != (cells[parent].right == n))
      modifies this`cells, this`ref, (cells.Keys * {parent})`left, (cells.Keys * {parent})`right
      ensures Synced() && L() == Relink(old(L()), parent, n, x)
    {
      if parent != null {
        if parent.left == n {
          SetKid(parent, true, x);
        } else {
          SetKid(parent, false, x);
        }
      } else {
        ref := x;
      }
    }

    method RotateLeft(node: RbNode)
      requires Synced() && node in cells && cells[node].right != null && cells[node].right in cells
      requires Rotatable(L(), true, node, cells[node].right, cells[cells[node].right].left, cells[node].parent)
      requires cells[node].parent != null ==>
                 (cells[cells[node].parent].left == node) != (cells[cells[node].parent].right == node)
      modifies this, cells.Keys`left, cells.Keys`right, cells.Keys`parent
      ensures Synced() && L() == Rotated(old(L()), true, node)
    {
      var right, parent := node.right, node.parent;
      assert node.right == cells[node].right && node.parent == cells[node].parent;
      SetKid(node, false, right.left);
      if right.left != null {
        SetParent(right.left, node);
      }
      SetKid(right, true, node);
      SetParent(right, parent);
      if parent != null {
        if node == parent.left {
          SetKid(parent, true, right);
        } else {
          SetKid(parent, false, right);
        }
      } else {
        ref := right;
      }
      SetParent(node, right);
    }

    method RotateRight(node: RbNode)
      requires Synced() && node in cells && cells[node].left != null && cells[node].left in cells
      requires Rotatable(L(), false, node, cells[node].left, cells[cells[node].left].right, cells[node].parent)
      requires cells[node].parent != null ==>
                 (cells[cells[node].parent].left == node) != (cells[cells[node].parent].right == node)
      modifies this, cells.Keys`left, cells.Keys`right, cells.Keys`parent
      ensures Synced() && L() == Rotated(old(L()), false, node)
    {
      var left, parent := node.left, node.parent;
      assert node.left == cells[node].left && node.parent == cells[node].parent;
      SetKid(node, true, left.right);
      if left.right != null {
        SetParent(left.right, node);
      }
      SetKid(left, false, node);
      SetParent(left, parent);
      if parent != null {
        if node == parent.right {
          SetKid(parent, false, left);
        } else {
          SetKid(parent, true, left);
        }
      } else {
        ref := left;
      }
      SetParent(node, left);
    }

    /** Rotation of a part of the tree that has its place in the rest. */
    method TurnLeft(node: RbNode, ghost path: Path, ghost a: Tree, ghost c1: Color, ghost b: Tree,
                    ghost top: RbNode, ghost c2: Color, ghost d: Tree)
      requires Synced() && At(L(), path, Make(true, a, node, c1, Make(true, b, top, c2, d)))
      modifies this, cells.Keys`left, cells.Keys`right, cells.Keys`parent
      ensures Synced() && cells.Keys == old(cells.Keys)
      ensures At(L(), path, Make(true, Make(true, a, node, c1, b), top, c2, d))
    {
      hide At, Make, Rotated;
      RotateAt(L(), path, true, a, node, c1, b, top, c2, d);
      if path.Under? { RotateHolder(L(), path, true, a, node, c1, Make(true, b, top, c2, d)); }
      RotateLeft(node);
    }

    /** Rotation of a part of the tree that has its place in the rest. */
    method TurnRight(node: RbNode, ghost path: Path, ghost a: Tree, ghost c1: Color, ghost b: Tree,
                    ghost top: RbNode, ghost c2: Color, ghost d: Tree)
      requires Synced() && At(L(), path, Make(false, a, node, c1, Make(false, b, top, c2, d)))
      modifies this, cells.Keys`left, cells.Keys`right, cells.Keys`parent
      ensures Synced() && cells.Keys == old(cells.Keys)
      ensures At(L(), path, Make(false, Make(false, a, node, c1, b), top, c2, d))
    {
      hide At, Make, Rotated;
      RotateAt(L(), path, false, a, node, c1, b, top, c2, d);
      if path.Under? { RotateHolder(L(), path, false, a, node, c1, Make(false, b, top, c2, d)); }
      RotateRight(node);
    }

    /** Recolouring and the last rotation, with node and parent both on the left. */
    method FinishLeft(parent: RbNode, gparent: RbNode, ghost path: Path, ghost t: Tree, ghost bh: nat)
      returns (ghost path': Path)
      requires Synced() && Inserting(L(), path, t, bh) && path.Under? && path.color == RED && path.node == parent
      requires path.side == true && path.rest.Under? && path.rest.side == true && path.rest.node == gparent
                 && !IsRed(path.rest.other)
      modifies this, cells.Keys`left, cells.Keys`right, cells.Keys`parent, cells.Keys`color
      ensures Synced() && cells.Keys == old(cells.Keys)
      ensures Inserting(L(), path', t, bh) && Order(path', t) == Order(path, t)
      ensures path'.Under? && path'.color == BLACK && path'.rest == path.rest.rest
    {
      hide At, Order, Fine, Around, Make;
      FinishReady(L(), path, t, bh);
      SetColor(parent, BLACK);
      SetColor(gparent, RED);
      TurnRight(gparent, path.rest.rest, path.rest.other, RED, path.other, parent, BLACK, t);
      FinishDone(L(), path, t, bh);
      path' := Under(true, parent, BLACK, Make(false, path.rest.other, gparent, RED, path.other), path.rest.rest);
    }

    /** One turn of Insert with the parent on the left of the grandparent. */
    method InsertLeft(node: RbNode, parent: RbNode, gparent: RbNode, ghost path: Path, ghost t: Tree, ghost bh: nat)
      returns (node': RbNode, goOn: bool, ghost path': Path, ghost t': Tree, ghost bh': nat)
      requires Synced() && Inserting(L(), path, t, bh) && t.node == node
      requires path.Under? && path.color == RED && path.node == parent && path.rest.node == gparent
                 && path.rest.side == true
      modifies this, cells.Keys`left, cells.Keys`right, cells.Keys`parent, cells.Keys`color
      ensures Synced() && cells.Keys == old(cells.Keys)
      ensures Inserting(L(), path', t', bh') && t'.node == node' && Order(path', t') == Order(path, t)
      ensures if goOn then path' == path.rest.rest
              else path'.Under? && path'.color == BLACK && path'.rest == path.rest.rest
    {
      hide At, Order, Fine, Around, Make;
      InsertShape(L(), path, t, bh);
      var uncle := gparent.right;
      if uncle != null && uncle.color == RED {
        PushUp(L(), path, t, bh);
        SetColor(uncle, BLACK);
        SetColor(parent, BLACK);
        SetColor(gparent, RED);
        path', bh', t' := path.rest.rest, bh + 1,
          Make(true, Make(path.side, t, parent, BLACK, path.other), gparent, RED, path.rest.other.(color := BLACK));
        return gparent, true, path', t', bh';
      }
      ghost var p, u := path, t;
      var top, low := parent, node;
      if parent.right == node {
        StraightenReady(L(), path, t, bh);
        TurnLeft(parent, path.rest, path.other, RED, Branch(t, true), node, RED, Branch(t, false));
        StraightenDone(L(), path, t, bh);
        u := Make(true, path.other, parent, RED, Branch(t, true));
        p := Under(true, node, RED, Branch(t, false), path.rest);
        top, low := node, parent;
      }
      path' := FinishLeft(top, gparent, p, u, bh);
      node', goOn, t', bh' := low, false, u, bh;
    }

    /** Recolouring and the last rotation, with node and parent both on the right. */
    method FinishRight(parent: RbNode, gparent: RbNode, ghost path: Path, ghost t: Tree, ghost bh: nat)
      returns (ghost path': Path)
      requires Synced() && Inserting(L(), path, t, bh) && path.Under? && path.color == RED && path.node == parent
      requires path.side == false && path.rest.Under? && path.rest.side == false && path.rest.node == gparent
                 && !IsRed(path.rest.other)
      modifies this, cells.Keys`left, cells.Keys`right, cells.Keys`parent, cells.Keys`color
      ensures Synced() && cells.Keys == old(cells.Keys)
      ensures Inserting(L(), path', t, bh) && Order(path', t) == Order(path, t)
      ensures path'.Under? && path'.color == BLACK && path'.rest == path.rest.rest
    {
      hide At, Order, Fine, Around, Make;
      FinishReady(L(), path, t, bh);
      SetColor(parent, BLACK);
      SetColor(gparent, RED);
      TurnLeft(gparent, path.rest.rest, path.rest.other, RED, path.other, parent, BLACK, t);
      FinishDone(L(), path, t, bh);
      path' := Under(false, parent, BLACK, Make(true, path.rest.other, gparent, RED, path.other), path.rest.rest);
    }

    /** One turn of Insert with the parent on the right of the grandparent. */
    method InsertRight(node: RbNode, parent: RbNode, gparent: RbNode, ghost path: Path, ghost t: Tree, ghost bh: nat)
      returns (node': RbNode, goOn: bool, ghost path': Path, ghost t': Tree, ghost bh': nat)
      requires Synced() && Inserting(L(), path, t, bh) && t.node == node
      requires path.Under? && path.color == RED && path.node == parent && path.rest.node == gparent
                 && path.rest.side == false
      modifies this, cells.Keys`left, cells.Keys`right, cells.Keys`parent, cells.Keys`color
      ensures Synced() && cells.Keys == old(cells.Keys)
      ensures Inserting(L(), path', t', bh') && t'.node == node' && Order(path', t') == Order(path, t)
      ensures if goOn then path' == path.rest.rest
              else path'.Under? && path'.color == BLACK && path'.rest == path.rest.rest
    {
      hide At, Order, Fine, Around, Make;
      InsertShape(L(), path, t, bh);
      var uncle := gparent.left;
      if uncle != null && uncle.color == RED {
        PushUp(L(), path, t, bh);
        SetColor(uncle, BLACK);
        SetColor(parent, BLACK);
        SetColor(gparent, RED);
        path', bh', t' := path.rest.rest, bh + 1,
          Make(false, Make(path.side, t, parent, BLACK, path.other), gparent, RED, path.rest.other.(color := BLACK));
        return gparent, true, path', t', bh';
      }
      ghost var p, u := path, t;
      var top, low := parent, node;
      if parent.left == node {
        StraightenReady(L(), path, t, bh);
        TurnRight(parent, path.rest, path.other, RED, Branch(t, false), node, RED, Branch(t, true));
        StraightenDone(L(), path, t, bh);
        u := Make(false, path.other, parent, RED, Branch(t, false));
        p := Under(false, node, RED, Branch(t, true), path.rest);
        top, low := node, parent;
      }
      path' := FinishRight(top, gparent, p, u, bh);
      node', goOn, t', bh' := low, false, u, bh;
    }

    /** The mirror is right, the links hold `tree`, and the tree keeps the red-black rules. */
    ghost predicate Valid()
      reads this, cells.Keys`left, cells.Keys`right, cells.Keys`parent, cells.Keys`color
    {
      && Synced() && cells.Keys == Nodes(tree) && At(L(), Top, tree)
      && !IsRed(tree) && exists bh :: Fine(tree, bh)
    }

    /** One turn of the upward pass. */
    method InsertTurn(node: RbNode, ghost path: Path, ghost t: Tree, ghost bh: nat)
      returns (node': RbNode, ghost path': Path, ghost t': Tree, ghost bh': nat)
      requires Synced() && Inserting(L(), path, t, bh) && t.node == node && path.Under? && path.color == RED
      modifies this, cells.Keys`left, cells.Keys`right, cells.Keys`parent, cells.Keys`color
      ensures Synced() && cells.Keys == old(cells.Keys)
      ensures Inserting(L(), path', t', bh') && t'.node == node' && Order(path', t') == Order(path, t)
      ensures Depth(path') < Depth(path)
    {
      hide At, Order, Fine, Around, Make;
      InsertShape(L(), path, t, bh);
      RedBlackHolder(L(), path, t);
      var parent := node.parent;
      var gparent := parent.parent;
      var goOn;
      if parent == gparent.left {
        node', goOn, path', t', bh' := InsertLeft(node, parent, gparent, path, t, bh);
      } else {
        node', goOn, path', t', bh' := InsertRight(node, parent, gparent, path, t, bh);
      }
    }

    /** The upward pass after a node was linked red into the hole of path. */
    method Insert(inserted: RbNode, ghost path: Path)
      requires Synced() && Inserting(L(), path, Node(Leaf, inserted, RED, Leaf), 0)
      requires cells.Keys == set n | n in Order(path, Node(Leaf, inserted, RED, Leaf))
      modifies this, cells.Keys`left, cells.Keys`right, cells.Keys`parent, cells.Keys`color
      ensures Valid() && InOrder(tree) == Order(path, Node(Leaf, inserted, RED, Leaf)) && cells.Keys == old(cells.Keys)
      ensures path.Under? && path.color == BLACK ==> tree == Plug(path, Node(Leaf, inserted, RED, Leaf))
    {
      hide At, Order, Fine, Around, Make, Settled;
      var node := inserted;
      ghost var p, t, bh := path, Node(Leaf, inserted, RED, Leaf), 0;
      RedBlackHolder(L(), p, t);
      while node.parent != null && node.parent.color == RED
        invariant Synced() && Inserting(L(), p, t, bh) && t.node == node && cells.Keys == old(cells.Keys)
        invariant Order(p, t) == Order(path, Node(Leaf, inserted, RED, Leaf))
        invariant node.parent == Holder(p) && (p.Under? ==> p.node.color == p.color)
        invariant path.Under? && path.color == BLACK ==> p == path && t == Node(Leaf, inserted, RED, Leaf)
        decreases Depth(p)
      {
        node, p, t, bh := InsertTurn(node, p, t, bh);
        RedBlackHolder(L(), p, t);
      }
      ghost var done, bh' := InsertEnds(L(), p, t, bh);
      SetColor(ref, BLACK);
      Adopt(Top, done, bh');
    }

    /** Hole on the left, red sibling: black sibling, red parent, and the parent turned. */
    method RedSiblingLeft(parent: RbNode, other: RbNode, ghost path: Path, ghost t: Tree, ghost bh: nat)
      returns (ghost path': Path)
      requires Synced() && Erasing(L(), path, t, bh) && path.Under? && path.side == true && path.node == parent
      requires IsRed(path.other) && path.other.node == other
      modifies this, cells.Keys`left, cells.Keys`right, cells.Keys`parent, cells.Keys`color
      ensures Synced() && cells.Keys == old(cells.Keys)
      ensures Erasing(L(), path', t, bh) && Order(path', t) == Order(path, t)
      ensures path'.Under? && path'.side == true && path'.node == parent && path'.color == RED && !IsRed(path'.other)
      ensures path'.rest.Under? && path'.rest.rest == path.rest
    {
      hide At, Order, Soft, Around, Make;
      RedSiblingReady(L(), path, t, bh);
      ghost var o := path.other;
      SetColor(other, BLACK);
      SetColor(parent, RED);
      TurnLeft(parent, path.rest, t, RED, Branch(o, true), other, BLACK, Branch(o, false));
      RedSiblingDone(L(), path, t, bh);
      path' := Under(true, parent, RED, Branch(o, true), Under(true, other, BLACK, Branch(o, false), path.rest));
    }

    /** Hole on the left, red left nephew only: the sibling turned, so that the right nephew is red. */
    method NearNephewLeft(other: RbNode, ghost path: Path, ghost t: Tree, ghost bh: nat) returns (ghost path': Path)
      requires Synced() && Erasing(L(), path, t, bh) && path.Under? && path.side == true
      requires path.other.Node? && path.other.color == BLACK && path.other.node == other
      requires IsRed(path.other.left) && !IsRed(path.other.right) && NodeShape(L(), path.other)
      modifies this, cells.Keys`left, cells.Keys`right, cells.Keys`parent, cells.Keys`color
      ensures Synced() && cells.Keys == old(cells.Keys)
      ensures Erasing(L(), path', t, bh) && Order(path', t) == Order(path, t)
      ensures path'.Under? && path' == path.(other := path'.other) && path'.other.Node? && path'.other.color == BLACK
      ensures IsRed(path'.other.right)
    {
      hide At, Order, Soft, Around, Make;
      NearNephewReady(L(), path, t, bh);
      ghost var o := path.other;
      ghost var x := o.left;
      SetColor(other.left, BLACK);
      SetColor(other, RED);
      TurnRight(other, Under(false, path.node, path.color, t, path.rest), o.right, RED, Branch(x, false), x.node, BLACK,
          Branch(x, true));
      NearNephewDone(L(), path, t, bh);
      path' := path.(other := NearTurned(o, true));
    }

    /** Hole on the left, red right nephew: the last recolouring and rotation. */
    method FarNephewLeft(parent: RbNode, other: RbNode, ghost path: Path, ghost t: Tree, ghost bh: nat)
      returns (ghost t': Tree)
      requires Synced() && Erasing(L(), path, t, bh) && path.Under? && path.side == true && path.node == parent
                 && !IsRed(t)
      requires path.other.Node? && path.other.color == BLACK && path.other.node == other && IsRed(path.other.right)
      requires NodeShape(L(), path.other) && parent in cells && cells[parent].color == path.color
      modifies this, cells.Keys`left, cells.Keys`right, cells.Keys`parent, cells.Keys`color
      ensures Synced() && cells.Keys == old(cells.Keys)
      ensures Settled(L(), path.rest, t', bh + 1 + Weight(path.color)) && Order(path.rest, t') == Order(path, t)
    {
      hide At, Order, Around, Make;
      FarNephewReady(L(), path, t, bh);
      FarNephewDone(L(), path, t, bh);
      ghost var o := path.other;
      ghost var y := o.right;
      SetColor(other, parent.color);
      SetColor(parent, BLACK);
      SetColor(other.right, BLACK);
      TurnLeft(parent, path.rest, t, BLACK, Branch(o, true), other, path.color, y.(color := BLACK));
      t' := Make(true, Make(true, t, parent, BLACK, o.left), other, path.color, y.(color := BLACK));
    }

    /** Hole on the right, red sibling: black sibling, red parent, and the parent turned. */
    method RedSiblingRight(parent: RbNode, other: RbNode, ghost path: Path, ghost t: Tree, ghost bh: nat)
      returns (ghost path': Path)
      requires Synced() && Erasing(L(), path, t, bh) && path.Under? && path.side == false && path.node == parent
      requires IsRed(path.other) && path.other.node == other
      modifies this, cells.Keys`left, cells.Keys`right, cells.Keys`parent, cells.Keys`color
      ensures Synced() && cells.Keys == old(cells.Keys)
      ensures Erasing(L(), path', t, bh) && Order(path', t) == Order(path, t)
      ensures path'.Under? && path'.side == false && path'.node == parent && path'.color == RED && !IsRed(path'.other)
      ensures path'.rest.Under? && path'.rest.rest == path.rest
    {
      hide At, Order, Soft, Around, Make;
      RedSiblingReady(L(), path, t, bh);
      ghost var o := path.other;
      SetColor(other, BLACK);
      SetColor(parent, RED);
      TurnRight(parent, path.rest, t, RED, Branch(o, false), other, BLACK, Branch(o, true));
      RedSiblingDone(L(), path, t, bh);
      path' := Under(false, parent, RED, Branch(o, false), Under(false, other, BLACK, Branch(o, true), path.rest));
    }

    /** Hole on the right, red right nephew only: the sibling turned, so that the left nephew is red. */
    method NearNephewRight(other: RbNode, ghost path: Path, ghost t: Tree, ghost bh: nat) returns (ghost path': Path)
      requires Synced() && Erasing(L(), path, t, bh) && path.Under? && path.side == false
      requires path.other.Node? && path.other.color == BLACK && path.other.node == other
      requires IsRed(path.other.right) && !IsRed(path.other.left) && NodeShape(L(), path.other)
      modifies this, cells.Keys`left, cells.Keys`right, cells.Keys`parent, cells.Keys`color
      ensures Synced() && cells.Keys == old(cells.Keys)
      ensures Erasing(L(), path', t, bh) && Order(path', t) == Order(path, t)
      ensures path'.Under? && path' == path.(other := path'.other) && path'.other.Node? && path'.other.color == BLACK
      ensures IsRed(path'.other.left)
    {
      hide At, Order, Soft, Around, Make;
      NearNephewReady(L(), path, t, bh);
      ghost var o := path.other;
      ghost var x := o.right;
      SetColor(other.right, BLACK);
      SetColor(other, RED);
      TurnLeft(other, Under(true, path.node, path.color, t, path.rest), o.left, RED, Branch(x, true), x.node, BLACK,
          Branch(x, false));
      NearNephewDone(L(), path, t, bh);
      path' := path.(other := NearTurned(o, false));
    }

    /** Hole on the right, red left nephew: the last recolouring and rotation. */
    method FarNephewRight(parent: RbNode, other: RbNode, ghost path: Path, ghost t: Tree, ghost bh: nat)
      returns (ghost t': Tree)
      requires Synced() && Erasing(L(), path, t, bh) && path.Under? && path.side == false && path.node == parent
                 && !IsRed(t)
      requires path.other.Node? && path.other.color == BLACK && path.other.node == other && IsRed(path.other.left)
      requires NodeShape(L(), path.other) && parent in cells && cells[parent].color == path.color
      modifies this, cells.Keys`left, cells.Keys`right, cells.Keys`parent, cells.Keys`color
      ensures Synced() && cells.Keys == old(cells.Keys)
      ensures Settled(L(), path.rest, t', bh + 1 + Weight(path.color)) && Order(path.rest, t') == Order(path, t)
    {
      hide At, Order, Around, Make;
      FarNephewReady(L(), path, t, bh);
      FarNephewDone(L(), path, t, bh);
      ghost var o := path.other;
      ghost var y := o.left;
      SetColor(other, parent.color);
      SetColor(parent, BLACK);
      SetColor(other.left, BLACK);
      TurnRight(parent, path.rest, t, BLACK, Branch(o, false), other, path.color, y.(color := BLACK));
      t' := Make(false, Make(false, t, parent, BLACK, o.right), other, path.color, y.(color := BLACK));
    }

    /** The rest of the turn, once the sibling is black. */
    method BlackSiblingLeft(parent: RbNode, sibling: RbNode, ghost path: Path, ghost t: Tree, ghost bh: nat)
      returns (node': RbNode?, parent': RbNode?, stop: bool, ghost path': Path, ghost t': Tree, ghost bh': nat)
      requires Synced() && Erasing(L(), path, t, bh) && !IsRed(t) && path.Under? && path.side == true
                 && path.node == parent
      requires path.other.Node? && path.other.node == sibling && path.other.color == BLACK
      modifies this, cells.Keys`left, cells.Keys`right, cells.Keys`parent, cells.Keys`color
      ensures Synced() && cells.Keys == old(cells.Keys)
      ensures Order(path', t') == Order(path, t)
      ensures if stop then Settled(L(), path', t', bh') && node' == ref
              else && Erasing(L(), path', t', bh') && RootOf(t') == node' && Holder(path') == parent'
                   && path' == path.rest && (IsRed(t') <==> path.color == RED)
    {
      hide At, Order, Soft, Around, Make;
      EraseShape(L(), path, t);
      if (sibling.left == null || sibling.left.color == BLACK)
          && (sibling.right == null || sibling.right.color == BLACK) {
        PushDown(L(), path, t, bh);
        SetColor(sibling, RED);
        path', bh', t' := path.rest, bh + Weight(path.color),
            Make(true, t, parent, path.color, path.other.(color := RED));
        return parent, parent.parent, false, path', t', bh';
      }
      var other := sibling;
      path' := path;
      if other.right == null || other.right.color == BLACK {
        path' := NearNephewLeft(other, path, t, bh);
        EraseShape(L(), path', t);
        other := parent.right;
      }
      t' := FarNephewLeft(parent, other, path', t, bh);
      bh' := bh + 1 + Weight(path'.color);
      path' := path'.rest;
      return ref, parent, true, path', t', bh';
    }

    /** One turn of EraseColor with the hole on the left; stop says that the tree is right again. */
    method EraseColorLeft(node: RbNode?, parent: RbNode, ghost path: Path, ghost t: Tree, ghost bh: nat)
      returns (node': RbNode?, parent': RbNode?, stop: bool, ghost path': Path, ghost t': Tree, ghost bh': nat)
      requires Synced() && Erasing(L(), path, t, bh) && RootOf(t) == node && !IsRed(t)
      requires path.Under? && path.side == true && path.node == parent
      modifies this, cells.Keys`left, cells.Keys`right, cells.Keys`parent, cells.Keys`color
      ensures Synced() && cells.Keys == old(cells.Keys)
      ensures Order(path', t') == Order(path, t)
      ensures if stop then Settled(L(), path', t', bh') && node' == ref
              else
                && Erasing(L(), path', t', bh') && RootOf(t') == node' && Holder(path') == parent'
                && Shrinks(path, path', t')
    {
      hide At, Order, Soft, Around, Make;
      SiblingThere(path, bh);
      EraseShape(L(), path, t);
      var other := parent.right;
      if other == null {
        return node, parent, false, path, t, bh;
      }
      path' := path;
      if other.color == RED {
        path' := RedSiblingLeft(parent, other, path, t, bh);
        SiblingThere(path', bh);
        EraseShape(L(), path', t);
        other := parent.right;
      }
      node', parent', stop, path', t', bh' := BlackSiblingLeft(parent, other, path', t, bh);
    }

    /** The rest of the turn, once the sibling is black. */
    method BlackSiblingRight(parent: RbNode, sibling: RbNode, ghost path: Path, ghost t: Tree, ghost bh: nat)
      returns (node': RbNode?, parent': RbNode?, stop: bool, ghost path': Path, ghost t': Tree, ghost bh': nat)
      requires Synced() && Erasing(L(), path, t, bh) && !IsRed(t) && path.Under? && path.side == false
                 && path.node == parent
      requires path.other.Node? && path.other.node == sibling && path.other.color == BLACK
      modifies this, cells.Keys`left, cells.Keys`right, cells.Keys`parent, cells.Keys`color
      ensures Synced() && cells.Keys == old(cells.Keys)
      ensures Order(path', t') == Order(path, t)
      ensures if stop then Settled(L(), path', t', bh') && node' == ref
              else && Erasing(L(), path', t', bh') && RootOf(t') == node' && Holder(path') == parent'
                   && path' == path.rest && (IsRed(t') <==> path.color == RED)
    {
      hide At, Order, Soft, Around, Make;
      EraseShape(L(), path, t);
      if (sibling.left == null || sibling.left.color == BLACK)
          && (sibling.right == null || sibling.right.color == BLACK) {
        PushDown(L(), path, t, bh);
        SetColor(sibling, RED);
        path', bh', t' := path.rest, bh + Weight(path.color),
            Make(false, t, parent, path.color, path.other.(color := RED));
        return parent, parent.parent, false, path', t', bh';
      }
      var other := sibling;
      path' := path;
      if other.left == null || other.left.color == BLACK {
        path' := NearNephewRight(other, path, t, bh);
        EraseShape(L(), path', t);
        other := parent.left;
      }
      t' := FarNephewRight(parent, other, path', t, bh);
      bh' := bh + 1 + Weight(path'.color);
      path' := path'.rest;
      return ref, parent, true, path', t', bh';
    }

    /** One turn of EraseColor with the hole on the right; stop says that the tree is right again. */
    method EraseColorRight(node: RbNode?, parent: RbNode, ghost path: Path, ghost t: Tree, ghost bh: nat)
      returns (node': RbNode?, parent': RbNode?, stop: bool, ghost path': Path, ghost t': Tree, ghost bh': nat)
      requires Synced() && Erasing(L(), path, t, bh) && RootOf(t) == node && !IsRed(t)
      requires path.Under? && path.side == false && path.node == parent
      modifies this, cells.Keys`left, cells.Keys`right, cells.Keys`parent, cells.Keys`color
      ensures Synced() && cells.Keys == old(cells.Keys)
      ensures Order(path', t') == Order(path, t)
      ensures if stop then Settled(L(), path', t', bh') && node' == ref
              else
                && Erasing(L(), path', t', bh') && RootOf(t') == node' && Holder(path') == parent'
                && Shrinks(path, path', t')
    {
      hide At, Order, Soft, Around, Make;
      SiblingThere(path, bh);
      EraseShape(L(), path, t);
      var other := parent.left;
      if other == null {
        return node, parent, false, path, t, bh;
      }
      path' := path;
      if other.color == RED {
        path' := RedSiblingRight(parent, other, path, t, bh);
        SiblingThere(path', bh);
        EraseShape(L(), path', t);
        other := parent.left;
      }
      node', parent', stop, path', t', bh' := BlackSiblingRight(parent, other, path', t, bh);
    }

    /** The upward pass of EraseColor, up to the point where the tree or a red node takes the missing black. */
    method EraseClimb(start: RbNode?, startParent: RbNode?, ghost path: Path, ghost t: Tree, ghost bh: nat)
      returns (node: RbNode?, ghost path': Path, ghost t': Tree, ghost bh': nat, ghost stop: bool)
      requires Synced() && Erasing(L(), path, t, bh) && RootOf(t) == start && Holder(path) == startParent
      modifies this, cells.Keys`left, cells.Keys`right, cells.Keys`parent, cells.Keys`color
      ensures Synced() && cells.Keys == old(cells.Keys) && Order(path', t') == Order(path, t)
      ensures if stop then Settled(L(), path', t', bh') && node == ref
              else Erasing(L(), path', t', bh') && RootOf(t') == node && (IsRed(t') || path'.Top?)
    {
      hide At, Order, Soft, Around, Make;
      node, path', t', bh', stop := start, path, t, bh, false;
      var parent := startParent;
      RefIsTop(L(), path', t');
      if path'.Under? { EraseShape(L(), path', t'); }
      RootShape(L(), path', t');
      while (node == null || node.color == BLACK) && node != ref
        invariant Synced() && cells.Keys == old(cells.Keys) && Order(path', t') == Order(path, t) && !stop
        invariant Erasing(L(), path', t', bh') && RootOf(t') == node && Holder(path') == parent
        invariant ref == node <==> path'.Top?
        invariant t'.Node? ==> node in cells && node.color == t'.color
        decreases if IsRed(t') then 0 else 1 + Depth(path')
      {
        if parent == null {
          return;
        }
        HoleSide(L(), path', t', bh');
        var done;
        if parent.left == node {
          node, parent, done, path', t', bh' := EraseColorLeft(node, parent, path', t', bh');
        } else {
          node, parent, done, path', t', bh' := EraseColorRight(node, parent, path', t', bh');
        }
        if done {
          stop := true;
          return;
        }
        RefIsTop(L(), path', t');
        RootShape(L(), path', t');
      }
    }

    /** Rebalancing after a black node above `node` and below `parent` went away. */
    method EraseColor(start: RbNode?, parent: RbNode?, ghost path: Path, ghost t: Tree, ghost bh: nat)
      requires Synced() && Erasing(L(), path, t, bh) && RootOf(t) == start && Holder(path) == parent
      requires cells.Keys == set n | n in Order(path, t)
      modifies this, cells.Keys`left, cells.Keys`right, cells.Keys`parent, cells.Keys`color
      ensures Valid() && InOrder(tree) == Order(path, t) && cells.Keys == old(cells.Keys)
    {
      hide At, Order, Soft, Around, Make, Balanced, NoRedRed, Settled, Erasing;
      var node;
      ghost var p, u, k, stop;
      node, p, u, k, stop := EraseClimb(start, parent, path, t, bh);
      ghost var u', k' := EraseEnds(L(), p, u, k, node, stop);
      if node != null {
        SetColor(node, BLACK);
      }
      Adopt(p, u', k');
    }

    /** The tree of a settled hole becomes the tree. */
    ghost method Adopt(path: Path, t: Tree, bh: nat)
      requires Synced() && Settled(L(), path, t, bh) && cells.Keys == set n | n in Order(path, t)
      modifies this`tree
      ensures Valid() && InOrder(tree) == Order(path, t) && tree == Plug(path, t)
    {
      hide At, Order, Fine, Around;
      SettledEnds(L(), path, t, bh);
      tree := Plug(path, t);
      NodesInOrder(tree);
    }

    /** NetRbNode::Link: node becomes a red leaf in the empty place of path. */
    method Link(node: RbNode, parent: RbNode?, side: bool, ghost path: Path)
      requires Valid() && node !in cells && Plug(path, Leaf) == tree && Holder(path) == parent
                 && (path.Under? ==> path.side == side)
      modifies this, node`left, node`right, node`parent, node`color, cells.Keys`left, cells.Keys`right
      ensures Synced() && Inserting(L(), path, Node(Leaf, node, RED, Leaf), 0)
      ensures cells.Keys == set n | n in Order(path, Node(Leaf, node, RED, Leaf))
      ensures Order(path, Node(Leaf, node, RED, Leaf)) == Before(path) + [node] + After(path)
      ensures cells.Keys == old(cells.Keys) + {node}
    {
      hide At, Fine, Around, Order, Nodes, InOrder, After;
      LinkReady(L(), path, tree, node);
      node.parent, node.color, node.left, node.right := parent, RED, null, null;
      cells := cells[node := Cell(null, null, parent, RED)];
      if parent == null {
        ref := node;
      } else {
        SetKid(parent, side, node);
      }
      LinkKeys(tree, path, node);
    }

    /** Link, then Insert: a node joins the tree in the empty place of path. */
    method Add(node: RbNode, parent: RbNode?, side: bool, ghost path: Path)
      requires Valid() && node !in cells && Plug(path, Leaf) == tree && Holder(path) == parent
                 && (path.Under? ==> path.side == side)
      modifies this, cells.Keys`left, cells.Keys`right, cells.Keys`parent, cells.Keys`color
      modifies node`left, node`right, node`parent, node`color
      ensures Valid() && InOrder(tree) == Before(path) + [node] + After(path) && cells.Keys == old(cells.Keys) + {node}
      ensures path.Under? && path.color == BLACK ==> tree == Plug(path, Node(Leaf, node, RED, Leaf))
    {
      hide Valid, Inserting, Order, InOrder, Before, After, Plug;
      Link(node, parent, side, path);
      Insert(node, path);
    }

    /** Everything around victim now points to newNode. */
    method RehangLinks(victim: RbNode, newNode: RbNode)
      requires Synced() && Replaceable(L(), victim)
      modifies this`cells, this`ref, cells.Keys`left, cells.Keys`right, cells.Keys`parent
      ensures Synced() && L() == Rehung(old(L()), victim, newNode) && cells[victim] == old(cells)[victim]
      ensures cells.Keys == old(cells.Keys)
    {
      assert Cell(victim.left, victim.right, victim.parent, victim.color) == cells[victim];
      RelinkFrom(victim.parent, victim, newNode);
      if victim.left != null {
        SetParent(victim.left, newNode);
      }
      if victim.right != null {
        SetParent(victim.right, newNode);
      }
    }

    /** The relinking of Replace. */
    method ReplaceLinks(victim: RbNode, newNode: RbNode)
      requires Synced() && Replaceable(L(), victim) && newNode !in cells
      modifies this`cells, this`ref, cells.Keys`left, cells.Keys`right, cells.Keys`parent
      modifies newNode`left, newNode`right, newNode`parent, newNode`color
      ensures Synced() && L() == Replaced(old(L()), victim, newNode)
    {
      hide Rehung;
      RehangLinks(victim, newNode);
      assert Cell(victim.left, victim.right, victim.parent, victim.color) == cells[victim];
      newNode.parent, newNode.color, newNode.left, newNode.right := victim.parent, victim.color, victim.left,
          victim.right;
      cells := (cells - {victim})[newNode := Cell(newNode.left, newNode.right, newNode.parent, newNode.color)];
    }

    /** Replace: newNode takes the place of victim. */
    method Replace(victim: RbNode, newNode: RbNode, ghost pre: seq<RbNode>, ghost post: seq<RbNode>)
      requires Valid() && newNode !in cells && InOrder(tree) == pre + [victim] + post
      modifies this, cells.Keys`left, cells.Keys`right, cells.Keys`parent, cells.Keys`color, newNode`left,
               newNode`right, newNode`parent, newNode`color
      ensures Valid() && InOrder(tree) == pre + [newNode] + post && cells.Keys == old(cells.Keys) - {victim} + {newNode}
    {
      hide At, Order, Settled, Fine, Replaced, Replaceable, Nodes;
      ghost var path, t, bh := ReplacePlace(L(), tree, victim, newNode, pre, post);
      ReplaceLinks(victim, newNode);
      Adopt(path, t, bh);
    }

    /** Cutting out a node with at most one child. */
    method SpliceLinks(node: RbNode, child: RbNode?)
      requires Synced() && Replaceable(L(), node) && (child == cells[node].left || child == cells[node].right)
      modifies this`cells, this`ref, cells.Keys`left, cells.Keys`right, cells.Keys`parent
      ensures Synced() && L() == Spliced(old(L()), node, child)
    {
      assert Cell(node.left, node.right, node.parent, node.color) == cells[node];
      var parent := node.parent;
      if child != null {
        SetParent(child, parent);
      }
      RelinkFrom(parent, node, child);
      cells := cells - {node};
    }

    /** Erase of a node with at most one child. */
    method EraseSimple(node: RbNode, child: RbNode?, ghost path: Path, ghost t: Tree, ghost bh: nat)
      requires Synced() && Settled(L(), path, t, bh) && t.Node? && t.node == node && (t.left.Leaf? || t.right.Leaf?)
      requires child == RootOf(OnlyChild(t)) && cells.Keys - {node} == set n | n in Order(path, OnlyChild(t))
      modifies this, cells.Keys`left, cells.Keys`right, cells.Keys`parent, cells.Keys`color
      ensures Valid() && InOrder(tree) == Order(path, OnlyChild(t)) && cells.Keys == old(cells.Keys) - {node}
    {
      hide At, Order, Fine, Around, Replaceable, Spliced;
      SpliceReady(L(), path, t, bh);
      var parent, color := node.parent, node.color;
      assert color == t.color && parent == Holder(path);
      SpliceLinks(node, child);
      assert cells.Keys == old(cells.Keys) - {node};
      if color == BLACK {
        assert Erasing(L(), path, OnlyChild(t), bh - 1);
        EraseColor(child, parent, path, OnlyChild(t), bh - 1);
      } else {
        Adopt(path, OnlyChild(t), bh);
      }
    }

    /** The first node on the right of a node with two children. */
    method FirstOnRight(old': RbNode, ghost path: Path, ghost t: Tree)
      returns (node: RbNode, ghost low: Path, ghost u: Tree)
      requires Synced() && At(L(), path, t) && t.Node? && t.node == old' && t.left.Node? && t.right.Node?
      ensures Walked(path, t, low, u) && u.Node? && u.left.Leaf? && u.node == node
    {
      hide At;
      RootCell(L(), path, t);
      node, low, u := old'.right, Top, t.right;
      WalkOn(L(), path, t, low, u);
      while node.left != null
        invariant Walked(path, t, low, u) && u.node == node && node in cells && node.left == RootOf(u.left)
        decreases u
      {
        low, u := Under(true, u.node, u.color, u.right, low), u.left;
        node := node.left;
        WalkOn(L(), path, t, low, u);
      }
    }

    /** The node gets the parent, colour and left child of another. */
    method TakeOver(node: RbNode, up: RbNode?, paint: Color, left: RbNode)
      requires Synced() && node in cells && left in cells && left != node
      modifies this`cells, node`left, node`right, node`parent, node`color, left`parent
      ensures Synced()
      ensures L() == PutParent(PutKid(PutColor(PutParent(old(L()), node, up), node, paint), node, true, left), left,
                node)
    {
      SetParent(node, up);
      SetColor(node, paint);
      SetKid(node, true, left);
      SetParent(left, node);
    }

    /** The relinking of EraseWithTwoChildren. */
    method MoveLinks(old': RbNode, node: RbNode) returns (parent: RbNode?, child: RbNode?, color: Color)
      requires Synced() && Movable(L(), old', node)
      requires cells[old'].parent != null ==>
                 (cells[cells[old'].parent].left == old') != (cells[cells[old'].parent].right == old')
      modifies this`cells, this`ref, cells.Keys`left, cells.Keys`right, cells.Keys`parent, cells.Keys`color
      ensures Synced() && L() == Moved(old(L()), old', node)
      ensures child == old(cells)[node].right && color == old(cells)[node].color
      ensures parent == if old(cells)[node].parent == old' then node else old(cells)[node].parent
    {
      assert Cell(old'.left, old'.right, old'.parent, old'.color) == cells[old'];
      assert Cell(node.left, node.right, node.parent, node.color) == cells[node];
      var left, right, up, paint := old'.left, old'.right, old'.parent, old'.color;
      RelinkFrom(up, old', node);
      child, parent, color := node.right, node.parent, node.color;
      if parent == old' {
        parent := node;
      } else {
        if child != null {
          SetParent(child, parent);
        }
        SetKid(parent, true, child);
        SetKid(node, false, right);
        SetParent(right, node);
      }
      TakeOver(node, up, paint, left);
      cells := cells - {old'};
    }

    /** Erase of a node with two children: its successor takes its place and colour. */
    method EraseTwoChildren(node: RbNode, ghost path: Path, ghost t: Tree, ghost bh: nat, ghost order: seq<RbNode>)
      requires Synced() && Settled(L(), path, t, bh) && t.Node? && t.node == node && t.left.Node? && t.right.Node?
      requires order == Before(path) + InOrder(t.left) + InOrder(t.right) + After(path)
      requires cells.Keys - {node} == set n | n in order
      modifies this, cells.Keys`left, cells.Keys`right, cells.Keys`parent, cells.Keys`color
      ensures Valid() && InOrder(tree) == order && cells.Keys == old(cells.Keys) - {node}
    {
      hide At, Order, Fine, Around, Movable, Moved, Walked, Before, After, InOrder, Join;
      var next;
      ghost var low, u;
      next, low, u := FirstOnRight(node, path, t);
      ghost var bh' := MoveEnds(L(), path, t, bh, low, u);
      MoveHolder(L(), path, t, low, u);
      var parent, child, color := MoveLinks(node, next);
      ghost var q := Join(low, Below(path, t, next));
      if color == BLACK {
        EraseColor(child, parent, q, u.right, bh');
      } else {
        Adopt(q, u.right, bh');
      }
    }

    /** Erase takes the node out and changes nothing else about the order. */
    method Erase(node: RbNode, ghost pre: seq<RbNode>, ghost post: seq<RbNode>)
      requires Valid() && InOrder(tree) == pre + [node] + post
      modifies this, cells.Keys`left, cells.Keys`right, cells.Keys`parent, cells.Keys`color
      ensures Valid() && InOrder(tree) == pre + post && cells.Keys == old(cells.Keys) - {node}
    {
      hide At, Fine, Around, Before, After, InOrder, Settled;
      ghost var path, t, bh := ErasePlace(L(), tree, node, pre, post);
      if node.left != null && node.right != null {
        EraseTwoChildren(node, path, t, bh, pre + post);
        return;
      }
      SpliceOrder(path, t);
      if node.left == null {
        EraseSimple(node, node.right, path, t, bh);
      } else {
        EraseSimple(node, node.left, path, t, bh);
      }
    }

    /** The node is its own parent, as a node is that is in no tree. */
    predicate Orphan(n: RbNode)
      reads n`parent
    {
      n.parent == n
    }

    lemma InTree(n: RbNode, path: Path, t: Tree)
      requires Synced() && At(L(), path, t) && t.Node? && t.node == n
      ensures !Orphan(n)
    {
      hide SepPath, RepPath, InOrder;
      IsReplaceable(L(), path, t);
    }

    /** Prev looks into the left subtree only: without one it gives back the node itself. */
    method Prev(start: RbNode, ghost path: Path, ghost t: Tree) returns (node: RbNode?)
      requires Orphan(start) || (Synced() && At(L(), path, t) && t.Node? && t.node == start)
      ensures Orphan(start) ==> node == null
      ensures !Orphan(start) && t.left.Leaf? ==> node == start
      ensures !Orphan(start) && t.left.Node? ==> InOrder(t.left) != [] && node == Last(InOrder(t.left))
    {
      hide SepPath, RepPath, InOrder;
      if start.parent == start {
        return null;
      }
      IsReplaceable(L(), path, t);
      GoLeft(L(), t, Holder(path));
      node := start;
      if node.left != null {
        ghost var u, p := t.left, start;
        node := node.left;
        GoRight(L(), u, p);
        while node.right != null
          invariant u.Node? && Rep(L(), u, p) && u.node == node && node in cells && node.right == RootOf(u.right)
          invariant InOrder(u) != [] && InOrder(t.left) != [] && Last(InOrder(u)) == Last(InOrder(t.left))
          invariant u.right.Leaf? ==> Last(InOrder(u)) == node
          decreases u
        {
          GoRight(L(), u, p);
          u, p := u.right, node;
          node := node.right;
          GoRight(L(), u, p);
        }
      }
    }

    /** Next gives the successor in order, or null after the last node. */
    method Next(start: RbNode, ghost path: Path, ghost t: Tree) returns (node: RbNode?)
      requires Orphan(start) || (Synced() && At(L(), path, t) && t.Node? && t.node == start)
      ensures Orphan(start) ==> node == null
      ensures !Orphan(start) ==> var post := InOrder(t.right) + After(path);
              node == if post == [] then null else post[0]
    {
      hide SepPath, RepPath, InOrder, After;
      if start.parent == start {
        return null;
      }
      IsReplaceable(L(), path, t);
      GoRight(L(), t, Holder(path));
      var low := start;
      if low.right != null {
        low := FirstOf(low.right, t.right, low);
        return low;
      }
      node := ClimbRight(start, path, t);
      assert InOrder(t.right) == [] by { EmptyOrder(); }
    }

    /** The first node in order of a subtree. */
    method FirstOf(root: RbNode, ghost t: Tree, ghost p: RbNode?) returns (node: RbNode)
      requires Synced() && t.Node? && t.node == root && Rep(L(), t, p)
      ensures InOrder(t) != [] && node == InOrder(t)[0]
    {
      hide InOrder;
      node := root;
      ghost var u, q := t, p;
      GoLeft(L(), u, q);
      while node.left != null
        invariant u.Node? && Rep(L(), u, q) && u.node == node && node in cells && node.left == RootOf(u.left)
        invariant InOrder(u) != [] && InOrder(t) != [] && InOrder(u)[0] == InOrder(t)[0]
        invariant u.left.Leaf? ==> InOrder(u)[0] == node
        decreases u
      {
        GoLeft(L(), u, q);
        u, q := u.left, node;
        node := node.left;
        GoLeft(L(), u, q);
      }
    }

    /** The first ancestor that has the node on its left. */
    method ClimbRight(start: RbNode, ghost path: Path, ghost t: Tree) returns (parent: RbNode?)
      requires Synced() && At(L(), path, t) && t.Node? && t.node == start
      ensures parent == if After(path) == [] then null else After(path)[0]
    {
      hide SepPath, RepPath, After, At, Make;
      var node := start;
      ghost var p, u := path, t;
      parent := node.parent;
      GoUp(L(), p, u);
      while parent != null && node == parent.right
        invariant At(L(), p, u) && u.Node? && u.node == node && parent == Holder(p) && After(p) == After(path)
        invariant p.Top? ==> After(p) == []
        invariant p.Under? ==> p.node in cells && (p.node.right == u.node <==> !p.side)
        invariant p.Under? && p.side ==> After(p) != [] && After(p)[0] == p.node
        decreases Depth(p)
      {
        GoUp(L(), p, u);
        MakeRoot(p.side, u, p.node, p.color, p.other);
        p, u := p.rest, Make(p.side, u, p.node, p.color, p.other);
        node := parent;
        GoUp(L(), p, u);
        parent := node.parent;
      }
    }
  }
}
