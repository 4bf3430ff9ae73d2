/**
 Red-black trees with parent links. The heap of nodes is described by a value, `Links`: what every
 node stores and what the root pointer holds. A tree with a hole is a `Path` from the hole to the
 root; `At` says that the links hold a given tree in a given surrounding. `side` is true for left.
 */
module RbTree {

  datatype Color = RED | BLACK

  /** A free memory area and its tree node. The fields of the tree node are changed by NetRbTree only. */
  class RbNode {
    var startAddress: nat
    var endAddress: nat
    var length: nat
    var index: nat
    var left: RbNode?
    var right: RbNode?
    var parent: RbNode?
    var color: Color

    constructor (startAddress: nat, endAddress: nat, length: nat)
      ensures this.startAddress == startAddress && this.endAddress == endAddress && this.length == length
      ensures index == 0 && left == null && right == null && parent == null && color == RED
    {
      this.startAddress, this.endAddress, this.length, this.index := startAddress, endAddress, length, 0;
      left, right, parent, color := null, null, null, RED;
    }
  }

  // ---- trees and trees with a hole ----

  datatype Tree = Leaf | Node(left: Tree, node: RbNode, color: Color, right: Tree)

  /** Seen from the hole: on which side of `node` it is, what hangs on the other side, and the rest. */
  datatype Path = Top | Under(side: bool, node: RbNode, color: Color, other: Tree, rest: Path)

  /** The node with `near` on the given side and `far` on the other. */
  function Make(side: bool, near: Tree, node: RbNode, color: Color, far: Tree): Tree
  {
    if side then Node(near, node, color, far) else Node(far, node, color, near)
  }

  function RootOf(t: Tree): RbNode?
  {
    if t.Leaf? then null else t.node
  }

  function Depth(path: Path): nat
  {
    if path.Top? then 0 else 1 + Depth(path.rest)
  }

  function Holder(path: Path): RbNode?
  {
    if path.Top? then null else path.node
  }

  ghost function Nodes(t: Tree): set<RbNode>
  {
    if t.Leaf? then {} else Nodes(t.left) + {t.node} + Nodes(t.right)
  }

  ghost function PathNodes(path: Path): set<RbNode>
  {
    if path.Top? then {} else {path.node} + Nodes(path.other) + PathNodes(path.rest)
  }

  /** The tree with the hole filled. */
  function Plug(path: Path, t: Tree): Tree
    decreases path
  {
    if path.Top? then t else Plug(path.rest, Make(path.side, t, path.node, path.color, path.other))
  }

  function InOrder(t: Tree): seq<RbNode>
  {
    if t.Leaf? then [] else InOrder(t.left) + [t.node] + InOrder(t.right)
  }

  /** What comes before and after the hole in order. */
  function Before(path: Path): seq<RbNode>
  {
    if path.Top? then []
    else if path.side then Before(path.rest)
    else Before(path.rest) + InOrder(path.other) + [path.node]
  }

  function After(path: Path): seq<RbNode>
  {
    if path.Top? then []
    else if path.side then [path.node] + InOrder(path.other) + After(path.rest)
    else After(path.rest)
  }

  lemma {:induction false} PlugInOrder(path: Path, t: Tree)
    ensures InOrder(Plug(path, t)) == Order(path, t)
    decreases path
  {
    if path.Under? {
      ZoomOrder(path, t);
      PlugInOrder(path.rest, Make(path.side, t, path.node, path.color, path.other));
    }
  }

  /** The nodes of the tree with the hole filled, in order. */
  function Order(path: Path, t: Tree): seq<RbNode>
  {
    Before(path) + InOrder(t) + After(path)
  }

  lemma ZoomOrder(path: Path, t: Tree)
    requires path.Under?
    ensures Order(path.rest, Make(path.side, t, path.node, path.color, path.other)) == Order(path, t)
  {
  }

  /** A path to an empty place in a tree of one node leads through that node. */
  lemma OneNode(path: Path)
    requires |InOrder(Plug(path, Leaf))| == 1
    ensures path.Under? && path.rest.Top? && path.other.Leaf?
    ensures Plug(path, Leaf) == Node(Leaf, path.node, path.color, Leaf)
  {
    PlugInOrder(path, Leaf);
    assert InOrder(Leaf) == [];
    if path.Under? {
      var rest := path.rest;
      assert |Before(path)| + |After(path)| == 1 + |InOrder(path.other)| + |Before(rest)| + |After(rest)|;
      assert rest.Under? ==> |Before(rest)| + |After(rest)| >= 1;
    }
  }

  // ---- no node occurs twice ----

  ghost predicate Sep(t: Tree)
  {
    t.Node? ==>
      && t.node !in Nodes(t.left) && t.node !in Nodes(t.right) && Nodes(t.left) !! Nodes(t.right)
      && Sep(t.left) && Sep(t.right)
  }

  /** The nodes around the hole are distinct from one another and from those in the hole. */
  ghost predicate SepPath(path: Path, hole: set<RbNode>)
    decreases path
  {
    path.Under? ==>
      && path.node !in hole && path.node !in Nodes(path.other) && Nodes(path.other) !! hole
      && Sep(path.other) && SepPath(path.rest, hole + {path.node} + Nodes(path.other))
  }

  lemma {:induction false} SepPathApart(path: Path, hole: set<RbNode>)
    requires SepPath(path, hole)
    ensures PathNodes(path) !! hole
    decreases path
  {
    if path.Under? {
      SepPathApart(path.rest, hole + {path.node} + Nodes(path.other));
    }
  }

  lemma {:induction false} SepPathSmaller(path: Path, hole: set<RbNode>, less: set<RbNode>)
    requires SepPath(path, hole) && less <= hole
    ensures SepPath(path, less)
    decreases path
  {
    if path.Under? {
      SepPathSmaller(path.rest, hole + {path.node} + Nodes(path.other), less + {path.node} + Nodes(path.other));
    }
  }

  // ---- what the nodes store ----

  datatype Cell = Cell(left: RbNode?, right: RbNode?, parent: RbNode?, color: Color)

  datatype Links = Links(cells: map<RbNode, Cell>, ref: RbNode?)

  function Kid(c: Cell, side: bool): RbNode?
  {
    if side then c.left else c.right
  }

  function PutKid(h: Links, n: RbNode, side: bool, x: RbNode?): Links
    requires n in h.cells
  {
    h.(cells := h.cells[n := if side then h.cells[n].(left := x) else h.cells[n].(right := x)])
  }

  function PutParent(h: Links, n: RbNode, p: RbNode?): Links
    requires n in h.cells
  {
    h.(cells := h.cells[n := h.cells[n].(parent := p)])
  }

  function PutColor(h: Links, n: RbNode, c: Color): Links
    requires n in h.cells
  {
    h.(cells := h.cells[n := h.cells[n].(color := c)])
  }

  /** The pointer from `p`, or from the tree itself, that leads to `n` now leads to `x`. */
  function Relink(h: Links, p: RbNode?, n: RbNode, x: RbNode?): Links
    requires p != null ==> p in h.cells
  {
    if p == null then h.(ref := x) else PutKid(h, p, h.cells[p].left == n, x)
  }

  /** The links hold the tree t, its root below p. */
  ghost predicate Rep(h: Links, t: Tree, p: RbNode?)
    decreases t
  {
    t.Node? ==>
      && t.node in h.cells && h.cells[t.node] == Cell(RootOf(t.left), RootOf(t.right), p, t.color)
      && Rep(h, t.left, t.node) && Rep(h, t.right, t.node)
  }

  /** The links hold the surroundings of the hole, in which x hangs. */
  ghost predicate RepPath(h: Links, path: Path, x: RbNode?)
    decreases path
  {
    if path.Top? then h.ref == x
    else
      && path.node in h.cells
      && Kid(h.cells[path.node], path.side) == x && Kid(h.cells[path.node], !path.side) == RootOf(path.other)
      && h.cells[path.node].parent == Holder(path.rest) && h.cells[path.node].color == path.color
      && Rep(h, path.other, path.node)
      && RepPath(h, path.rest, path.node)
  }

  ghost predicate At(h: Links, path: Path, t: Tree)
  {
    Rep(h, t, Holder(path)) && RepPath(h, path, RootOf(t)) && Sep(t) && SepPath(path, Nodes(t))
  }

  /** Rep and Sep of a node, whichever side is which. */
  lemma UnfoldMake(h: Links, side: bool, near: Tree, node: RbNode, color: Color, far: Tree, p: RbNode?)
    ensures var t := Make(side, near, node, color, far);
            && (Rep(h, t, p) <==>
                  && node in h.cells && h.cells[node].parent == p && h.cells[node].color == color
                  && Kid(h.cells[node], side) == RootOf(near) && Kid(h.cells[node], !side) == RootOf(far)
                  && Rep(h, near, node) && Rep(h, far, node))
            && (Sep(t) <==>
                  && node !in Nodes(near) && node !in Nodes(far) && Nodes(near) !! Nodes(far)
                  && Sep(near) && Sep(far))
            && Nodes(t) == Nodes(near) + {node} + Nodes(far) && t.Node? && t.node == node
  {
  }

  /** Two sets of links say the same about these nodes. */
  ghost predicate Same(h: Links, h': Links, nodes: set<RbNode>)
  {
    forall n :: n in nodes && n in h.cells ==> n in h'.cells && h'.cells[n] == h.cells[n]
  }

  lemma {:induction false} FrameRep(h: Links, h': Links, t: Tree, p: RbNode?)
    requires Rep(h, t, p) && Same(h, h', Nodes(t))
    ensures Rep(h', t, p)
    decreases t
  {
    if t.Node? {
      FrameRep(h, h', t.left, t.node);
      FrameRep(h, h', t.right, t.node);
    }
  }

  lemma {:induction false} FramePath(h: Links, h': Links, path: Path, x: RbNode?)
    requires RepPath(h, path, x) && Same(h, h', PathNodes(path)) && h.ref == h'.ref
    ensures RepPath(h', path, x)
    decreases path
  {
    if path.Under? {
      FrameRep(h, h', path.other, path.node);
      FramePath(h, h', path.rest, path.node);
    }
  }

  /** A tree moved below another node: only the parent of its root changes. */
  lemma Reparent(h: Links, h': Links, t: Tree, p: RbNode?, p': RbNode?)
    requires Rep(h, t, p) && Sep(t) && Same(h, h', Nodes(t) - {RootOf(t)})
    requires t.Node? ==> t.node in h'.cells && h'.cells[t.node] == h.cells[t.node].(parent := p')
    ensures Rep(h', t, p')
  {
    if t.Node? {
      FrameRep(h, h', t.left, t.node);
      FrameRep(h, h', t.right, t.node);
    }
  }

  lemma RepIn(h: Links, t: Tree, p: RbNode?)
    requires Rep(h, t, p)
    ensures Nodes(t) <= h.cells.Keys
  {
  }

  /** Step up from the hole to the node that holds it, and back. */
  lemma ZoomOut(h: Links, path: Path, t: Tree)
    requires path.Under? && At(h, path, t)
    ensures At(h, path.rest, Make(path.side, t, path.node, path.color, path.other))
  {
    assert Nodes(Make(path.side, t, path.node, path.color, path.other)) == Nodes(t) + {path.node} + Nodes(path.other);
  }

  lemma ZoomIn(h: Links, path: Path, side: bool, near: Tree, node: RbNode, color: Color, far: Tree)
    requires At(h, path, Make(side, near, node, color, far))
    ensures At(h, Under(side, node, color, far, path), near)
  {
    assert Nodes(Make(side, near, node, color, far)) == Nodes(near) + {node} + Nodes(far);
  }

  // ---- rotation ----

  /** The links after the rotation of `node` towards `side`; the child on the other side takes its place. */
  function Rotated(h: Links, side: bool, node: RbNode): Links
    requires node in h.cells
    requires var top := Kid(h.cells[node], !side);
             && top != null && top in h.cells
             && (var b := Kid(h.cells[top], side); b != null ==> b in h.cells)
             && (h.cells[node].parent != null ==> h.cells[node].parent in h.cells)
  {
    var top, p := Kid(h.cells[node], !side), h.cells[node].parent;
    var b := Kid(h.cells[top], side);
    var h1 := PutKid(h, node, !side, b);
    var h2 := if b == null then h1 else PutParent(h1, b, node);
    var h3 := PutKid(h2, top, side, node);
    var h4 := PutParent(h3, top, p);
    var h5 := Relink(h4, p, node, top);
    PutParent(h5, node, top)
  }

  /** The four nodes of a rotation exist and are distinct. */
  predicate Rotatable(h: Links, side: bool, node: RbNode, top: RbNode, b: RbNode?, p: RbNode?)
  {
    && node in h.cells && top in h.cells && (b != null ==> b in h.cells) && (p != null ==> p in h.cells)
    && Kid(h.cells[node], !side) == top && Kid(h.cells[top], side) == b && h.cells[node].parent == p
    && node != top && b != node && b != top && p != node && p != top && (b != null ==> b != p)
  }

  /** The pointer that led to t leads to t'. */
  lemma RelinkPath(h: Links, path: Path, t: Tree, t': Tree)
    requires t.Node? && RepPath(h, path, t.node) && SepPath(path, Nodes(t))
    requires Holder(path) != null ==> Holder(path) in h.cells
    ensures RepPath(Relink(h, Holder(path), t.node, RootOf(t')), path, RootOf(t'))
    ensures Relink(h, Holder(path), t.node, RootOf(t')).cells.Keys == h.cells.Keys
    ensures Same(Relink(h, Holder(path), t.node, RootOf(t')), h, h.cells.Keys - {Holder(path)})
  {
    var h' := Relink(h, Holder(path), t.node, RootOf(t'));
    if path.Under? {
      SepPathApart(path.rest, Nodes(t) + {path.node} + Nodes(path.other));
      FrameRep(h, h', path.other, path.node);
      FramePath(h, h', path.rest, path.node);
    }
  }

  lemma RotateReady(h: Links, path: Path, side: bool, a: Tree, node: RbNode, c1: Color, b: Tree, top: RbNode, c2: Color,
                    d: Tree)
    requires At(h, path, Make(side, a, node, c1, Make(side, b, top, c2, d)))
    ensures node in h.cells && top in h.cells && Kid(h.cells[node], !side) == top
              && Kid(h.cells[top], side) == RootOf(b)
    ensures RootOf(b) != null ==> RootOf(b) in h.cells
    ensures h.cells[node].parent == Holder(path) && (Holder(path) != null ==> Holder(path) in h.cells)
  {
    hide Rep;
    UnfoldMake(h, side, a, node, c1, Make(side, b, top, c2, d), Holder(path));
    UnfoldMake(h, side, b, top, c2, d, node);
    RepIn(h, b, top);
  }

  /** What a rotation changes, field by field. */
  lemma RotatedCells(h: Links, side: bool, node: RbNode, top: RbNode, b: RbNode?, p: RbNode?)
    requires Rotatable(h, side, node, top, b, p)
    ensures var h' := Rotated(h, side, node);
            && h'.cells.Keys == h.cells.Keys
            && Kid(h'.cells[node], !side) == b && Kid(h'.cells[node], side) == Kid(h.cells[node], side)
            && h'.cells[node].parent == top && h'.cells[node].color == h.cells[node].color
            && Kid(h'.cells[top], side) == node && Kid(h'.cells[top], !side) == Kid(h.cells[top], !side)
            && h'.cells[top].parent == p && h'.cells[top].color == h.cells[top].color
            && (b != null ==> h'.cells[b] == h.cells[b].(parent := node))
            && (p != null ==> h'.cells[p] == Relink(h, p, node, top).cells[p])
            && h'.ref == Relink(h, p, node, top).ref
            && Same(h, h', h.cells.Keys - {node, top, b, p})
  {
  }

  lemma RotateSep(h: Links, path: Path, side: bool, a: Tree, node: RbNode, c1: Color, b: Tree, top: RbNode, c2: Color,
                  d: Tree)
    requires At(h, path, Make(side, a, node, c1, Make(side, b, top, c2, d)))
    ensures var t, t' := Make(side, a, node, c1, Make(side, b, top, c2, d)),
              Make(side, Make(side, a, node, c1, b), top, c2, d);
            && Nodes(t) == Nodes(t') == Nodes(a) + {node} + Nodes(b) + {top} + Nodes(d) && Sep(t')
            && Nodes(t) !! PathNodes(path)
            && RootOf(t) == node && RootOf(t') == top
    ensures Sep(b) && node !in Nodes(a) && node !in Nodes(b) && node !in Nodes(d) && node != top
    ensures top !in Nodes(a) && top !in Nodes(b) && top !in Nodes(d)
    ensures Nodes(a) !! Nodes(b) && Nodes(b) !! Nodes(d) && Nodes(a) !! Nodes(d)
  {
    hide Rep, Sep, SepPath, RepPath, Nodes, PathNodes, Make;
    var inner, low := Make(side, b, top, c2, d), Make(side, a, node, c1, b);
    UnfoldMake(h, side, a, node, c1, inner, Holder(path));
    UnfoldMake(h, side, b, top, c2, d, node);
    UnfoldMake(h, side, a, node, c1, b, top);
    UnfoldMake(h, side, low, top, c2, d, Holder(path));
    SepPathApart(path, Nodes(Make(side, a, node, c1, inner)));
  }

  lemma RotateRep(h: Links, path: Path, side: bool, a: Tree, node: RbNode, c1: Color, b: Tree, top: RbNode, c2: Color,
                  d: Tree)
    requires At(h, path, Make(side, a, node, c1, Make(side, b, top, c2, d)))
    requires Rotatable(h, side, node, top, RootOf(b), Holder(path))
    ensures Rep(Rotated(h, side, node), Make(side, Make(side, a, node, c1, b), top, c2, d), Holder(path))
  {
    hide Rep, Sep, SepPath, RepPath, Nodes, PathNodes, Make, Rotated, Relink;
    var h' := Rotated(h, side, node);
    UnfoldMake(h, side, a, node, c1, Make(side, b, top, c2, d), Holder(path));
    UnfoldMake(h, side, b, top, c2, d, node);
    RotateSep(h, path, side, a, node, c1, b, top, c2, d);
    HolderIn(path);
    RootIn(b);
    RotatedCells(h, side, node, top, RootOf(b), Holder(path));
    FrameRep(h, h', a, node);
    Reparent(h, h', b, top, node);
    FrameRep(h, h', d, top);
    UnfoldMake(h', side, a, node, c1, b, top);
    UnfoldMake(h', side, Make(side, a, node, c1, b), top, c2, d, Holder(path));
  }

  lemma RotateAround(h: Links, path: Path, side: bool, t: Tree, t': Tree, top: RbNode, b: RbNode?)
    requires t.Node? && RootOf(t') == top && RepPath(h, path, t.node) && SepPath(path, Nodes(t))
    requires Rotatable(h, side, t.node, top, b, Holder(path)) && top in Nodes(t) && (b != null ==> b in Nodes(t))
    ensures RepPath(Rotated(h, side, t.node), path, top)
  {
    hide Rep, Sep, SepPath, RepPath, PathNodes, Rotated, Relink;
    SepPathApart(path, Nodes(t));
    RelinkPath(h, path, t, t');
    RotatedCells(h, side, t.node, top, b, Holder(path));
    var h', h1 := Rotated(h, side, t.node), Relink(h, Holder(path), t.node, top);
    assert Same(h1, h', PathNodes(path));
    FramePath(h1, h', path, top);
  }

  /** A rotation keeps the order of the nodes: it turns a (node) (b (top) d) into (a (node) b) (top) d. */
  lemma RotateAt(h: Links, path: Path, side: bool, a: Tree, node: RbNode, c1: Color, b: Tree, top: RbNode, c2: Color,
                 d: Tree)
    requires At(h, path, Make(side, a, node, c1, Make(side, b, top, c2, d)))
    ensures Rotatable(h, side, node, top, RootOf(b), Holder(path))
    ensures At(Rotated(h, side, node), path, Make(side, Make(side, a, node, c1, b), top, c2, d))
    ensures Rotated(h, side, node).cells.Keys == h.cells.Keys
  {
    hide Rep, Sep, SepPath, RepPath, Nodes, PathNodes, Make, Rotated, Relink;
    RotateReady(h, path, side, a, node, c1, b, top, c2, d);
    RotateSep(h, path, side, a, node, c1, b, top, c2, d);
    HolderIn(path);
    RootIn(b);
    RotatedCells(h, side, node, top, RootOf(b), Holder(path));
    RotateRep(h, path, side, a, node, c1, b, top, c2, d);
    RotateAround(h, path, side, Make(side, a, node, c1, Make(side, b, top, c2, d)),
                 Make(side, Make(side, a, node, c1, b), top, c2, d), top, RootOf(b));
  }

  lemma RootIn(t: Tree)
    ensures RootOf(t) != null ==> RootOf(t) in Nodes(t)
  {
  }

  lemma HolderIn(path: Path)
    ensures Holder(path) != null ==> Holder(path) in PathNodes(path)
  {
  }

  lemma RotateOrder(side: bool, a: Tree, node: RbNode, c1: Color, b: Tree, top: RbNode, c2: Color, d: Tree)
    ensures InOrder(Make(side, Make(side, a, node, c1, b), top, c2, d)) == InOrder(Make(side, a, node, c1,
              Make(side, b, top, c2, d)))
  {
  }

  /** The holder of a hole has the tree in it on one side only. */
  lemma OneSide(h: Links, path: Path, t: Tree)
    requires At(h, path, t) && t.Node? && path.Under?
    ensures path.node in h.cells && Kid(h.cells[path.node], path.side) == t.node != Kid(h.cells[path.node], !path.side)
  {
    RootIn(path.other);
  }

  lemma RotateHolder(h: Links, path: Path, side: bool, a: Tree, node: RbNode, c1: Color, inner: Tree)
    requires At(h, path, Make(side, a, node, c1, inner)) && path.Under?
    ensures path.node in h.cells && Kid(h.cells[path.node], path.side) == node != Kid(h.cells[path.node], !path.side)
  {
    OneSide(h, path, Make(side, a, node, c1, inner));
  }

  // ---- recolouring ----

  /** Colouring the node on top of the hole ... */
  lemma ColorRoot(h: Links, path: Path, t: Tree, c: Color)
    requires At(h, path, t) && t.Node?
    ensures t.node in h.cells && At(PutColor(h, t.node, c), path, t.(color := c))
  {
    var h' := PutColor(h, t.node, c);
    SepPathApart(path, Nodes(t));
    FrameRep(h, h', t.left, t.node);
    FrameRep(h, h', t.right, t.node);
    FramePath(h, h', path, t.node);
  }

  /** ... the one that holds the hole ... */
  lemma ColorHolder(h: Links, path: Path, t: Tree, c: Color)
    requires At(h, path, t) && path.Under?
    ensures path.node in h.cells && At(PutColor(h, path.node, c), path.(color := c), t)
  {
    var h' := PutColor(h, path.node, c);
    SepPathApart(path.rest, Nodes(t) + {path.node} + Nodes(path.other));
    FrameRep(h, h', t, path.node);
    FrameRep(h, h', path.other, path.node);
    FramePath(h, h', path.rest, path.node);
  }

  /** ... or its sibling. */
  lemma ColorOther(h: Links, path: Path, t: Tree, c: Color)
    requires At(h, path, t) && path.Under? && path.other.Node?
    ensures path.other.node in h.cells
    ensures At(PutColor(h, path.other.node, c), path.(other := path.other.(color := c)), t)
  {
    var o := path.other;
    var h' := PutColor(h, o.node, c);
    assert Nodes(o.(color := c)) == Nodes(o);
    SepPathApart(path.rest, Nodes(t) + {path.node} + Nodes(o));
    FrameRep(h, h', t, path.node);
    FrameRep(h, h', o.left, o.node);
    FrameRep(h, h', o.right, o.node);
    FramePath(h, h', path.rest, path.node);
  }

  // ---- the red-black rules ----

  predicate IsRed(t: Tree)
  {
    t.Node? && t.color == RED
  }

  function Weight(c: Color): nat
  {
    if c == BLACK then 1 else 0
  }

  /** Every way down meets h black nodes. */
  predicate Balanced(t: Tree, h: nat)
  {
    if t.Leaf? then h == 0
    else h >= Weight(t.color) && Balanced(t.left, h - Weight(t.color)) && Balanced(t.right, h - Weight(t.color))
  }

  predicate NoRedRed(t: Tree)
  {
    t.Node? ==>
      && (t.color == RED ==> !IsRed(t.left) && !IsRed(t.right))
      && NoRedRed(t.left) && NoRedRed(t.right)
  }

  predicate Fine(t: Tree, h: nat)
  {
    Balanced(t, h) && NoRedRed(t)
  }

  /** The surroundings of the hole are right for a tree of black height h; a red holder needs a black tree. */
  predicate Around(path: Path, h: nat)
    decreases path
  {
    path.Under? ==>
      && Fine(path.other, h)
      && (path.color == RED ==> !IsRed(path.other) && path.rest.Under? && path.rest.color == BLACK)
      && Around(path.rest, h + Weight(path.color))
  }

  function PlugHeight(path: Path, h: nat): nat
  {
    if path.Top? then h else PlugHeight(path.rest, h + Weight(path.color))
  }

  /** A tree that fits its surroundings makes a whole tree that keeps the rules. */
  lemma {:induction false} FinePlug(path: Path, t: Tree, h: nat)
    requires Fine(t, h) && Around(path, h) && (path.Under? && path.color == RED ==> !IsRed(t))
    ensures Fine(Plug(path, t), PlugHeight(path, h))
    ensures path.Under? || !IsRed(t) ==> !IsRed(Plug(path, t))
    decreases path
  {
    if path.Under? {
      FinePlug(path.rest, Make(path.side, t, path.node, path.color, path.other), h + Weight(path.color));
    }
  }

  /** A part of a tree that keeps the rules fits its surroundings. */
  lemma {:induction false} FineUnplug(path: Path, t: Tree, whole: nat) returns (h: nat)
    requires Fine(Plug(path, t), whole) && !IsRed(Plug(path, t))
    ensures Fine(t, h) && Around(path, h) && (path.Under? && path.color == RED ==> !IsRed(t))
              && (path.Top? ==> !IsRed(t))
    decreases path
  {
    if path.Top? {
      h := whole;
    } else {
      var k := FineUnplug(path.rest, Make(path.side, t, path.node, path.color, path.other), whole);
      h := k - Weight(path.color);
    }
  }

  // ---- insertion ----

  /** Between two turns of Insert: the tree in the hole is red and right in itself, its surroundings
      are right, and only its root and the holder may both be red. */
  ghost predicate Inserting(h: Links, path: Path, t: Tree, bh: nat)
  {
    At(h, path, t) && IsRed(t) && Fine(t, bh) && Around(path, bh)
  }

  lemma MakeFine(side: bool, near: Tree, node: RbNode, color: Color, far: Tree, bh: nat)
    requires Fine(near, bh) && Fine(far, bh) && (color == RED ==> !IsRed(near) && !IsRed(far))
    ensures Fine(Make(side, near, node, color, far), bh + Weight(color))
  {
  }

  lemma BlackenFine(t: Tree, bh: nat)
    requires Fine(t, bh) && IsRed(t)
    ensures Fine(t.(color := BLACK), bh + 1)
  {
  }

  lemma ColorOrder(t: Tree, c: Color)
    requires t.Node?
    ensures InOrder(t.(color := c)) == InOrder(t)
  {
  }

  lemma MakeOrder(side: bool, near: Tree, near': Tree, node: RbNode, color: Color, color': Color, far: Tree, far': Tree)
    requires InOrder(near) == InOrder(near') && InOrder(far) == InOrder(far')
    ensures InOrder(Make(side, near, node, color, far)) == InOrder(Make(side, near', node, color', far'))
  {
  }

  /** Red uncle: parent and uncle turn black, the grandparent red, and the problem moves up. */
  lemma PushUp(h: Links, path: Path, t: Tree, bh: nat)
    requires Inserting(h, path, t, bh) && path.Under? && path.color == RED && IsRed(path.rest.other)
    ensures var parent, g, uncle, rest := path.node, path.rest.node, path.rest.other, path.rest.rest;
            && uncle.node in h.cells && parent in h.cells && g in h.cells
            && var h' := PutColor(PutColor(PutColor(h, uncle.node, BLACK), parent, BLACK), g, RED);
               var t' := Make(path.rest.side, Make(path.side, t, parent, BLACK, path.other), g, RED,
                   uncle.(color := BLACK));
               && Inserting(h', rest, t', bh + 1) && RootOf(t') == g && Order(rest, t') == Order(path, t)
               && h'.cells.Keys == h.cells.Keys
  {
    hide At, Rep, Sep, SepPath, RepPath, InOrder, Balanced, NoRedRed, Before, After;
    var parent, g, uncle, rest := path.node, path.rest.node, path.rest.other, path.rest.rest;
    ZoomOut(h, path, t);
    var sub := Make(path.side, t, parent, RED, path.other);
    ColorOther(h, path.rest, sub, BLACK);
    var h1, p1 := PutColor(h, uncle.node, BLACK), path.rest.(other := uncle.(color := BLACK));
    ColorRoot(h1, p1, sub, BLACK);
    var h2, sub2 := PutColor(h1, parent, BLACK), Make(path.side, t, parent, BLACK, path.other);
    assert sub.(color := BLACK) == sub2;
    ColorHolder(h2, p1, sub2, RED);
    ZoomOut(PutColor(h2, g, RED), p1.(color := RED), sub2);
    assert Around(path.rest, bh);
    MakeFine(path.side, t, parent, BLACK, path.other, bh);
    BlackenFine(uncle, bh);
    MakeFine(path.rest.side, sub2, g, RED, uncle.(color := BLACK), bh + 1);
    ZoomOrder(path, t);
    ZoomOrder(path.rest, sub);
    ColorOrder(uncle, BLACK);
    ColorOrder(sub, BLACK);
    MakeOrder(path.rest.side, sub, sub2, g, BLACK, RED, uncle, uncle.(color := BLACK));
  }

  function Branch(t: Tree, side: bool): Tree
    requires t.Node?
  {
    if side then t.left else t.right
  }

  /** The node between parent and grandparent on the inside: one rotation brings it to the outside. */
  lemma StraightenReady(h: Links, path: Path, t: Tree, bh: nat)
    requires Inserting(h, path, t, bh) && path.Under? && path.color == RED && path.side != path.rest.side
    ensures var s := path.rest.side;
            At(h, path.rest, Make(s, path.other, path.node, RED, Make(s, Branch(t, s), t.node, RED, Branch(t, !s))))
  {
    ZoomOut(h, path, t);
  }

  lemma StraightenDone(h: Links, path: Path, t: Tree, bh: nat)
    requires IsRed(t) && Fine(t, bh) && Around(path, bh) && path.Under? && path.color == RED
               && path.side != path.rest.side
    requires var s := path.rest.side;
             At(h, path.rest, Make(s, Make(s, path.other, path.node, RED, Branch(t, s)), t.node, RED, Branch(t, !s)))
    ensures var s := path.rest.side;
            var t', path' := Make(s, path.other, path.node, RED, Branch(t, s)),
                Under(s, t.node, RED, Branch(t, !s), path.rest);
            Inserting(h, path', t', bh) && Order(path', t') == Order(path, t) && t'.Node? && t'.node == path.node
  {
    hide At, InOrder, Before, After;
    var s := path.rest.side;
    var low := Make(s, path.other, path.node, RED, Branch(t, s));
    ZoomIn(h, path.rest, s, low, t.node, RED, Branch(t, !s));
    assert Around(path.rest, bh);
    ZoomOrder(path, t);
    ZoomOrder(Under(s, t.node, RED, Branch(t, !s), path.rest), low);
    RotateOrder(s, path.other, path.node, RED, Branch(t, s), t.node, RED, Branch(t, !s));
  }

  /** The node on the outside and a black uncle: after recolouring one rotation of the grandparent ends it. */
  lemma FinishReady(h: Links, path: Path, t: Tree, bh: nat)
    requires Inserting(h, path, t, bh) && path.Under? && path.color == RED && path.side == path.rest.side
    ensures path.node in h.cells && path.rest.node in h.cells
    ensures var s, g := path.side, path.rest.node;
            var h' := PutColor(PutColor(h, path.node, BLACK), g, RED);
            && h'.cells.Keys == h.cells.Keys
            && At(h', path.rest.rest, Make(!s, path.rest.other, g, RED, Make(!s, path.other, path.node, BLACK, t)))
  {
    hide At;
    var s, g := path.side, path.rest.node;
    ZoomOut(h, path, t);
    var sub := Make(s, t, path.node, RED, path.other);
    ColorRoot(h, path.rest, sub, BLACK);
    var h1, sub1 := PutColor(h, path.node, BLACK), sub.(color := BLACK);
    ColorHolder(h1, path.rest, sub1, RED);
    ZoomOut(PutColor(h1, g, RED), path.rest.(color := RED), sub1);
  }

  lemma FinishDone(h: Links, path: Path, t: Tree, bh: nat)
    requires IsRed(t) && Fine(t, bh) && Around(path, bh) && path.Under? && path.color == RED
               && path.side == path.rest.side
    requires !IsRed(path.rest.other)
    requires var s, g := path.side, path.rest.node;
             At(h, path.rest.rest, Make(!s, Make(!s, path.rest.other, g, RED, path.other), path.node, BLACK, t))
    ensures var s, g := path.side, path.rest.node;
            var path' := Under(s, path.node, BLACK, Make(!s, path.rest.other, g, RED, path.other), path.rest.rest);
            Inserting(h, path', t, bh) && Order(path', t) == Order(path, t)
  {
    hide At, InOrder, Before, After;
    var s, g, rest := path.side, path.rest.node, path.rest.rest;
    var turned := Make(!s, path.rest.other, g, RED, path.other);
    assert Around(path.rest, bh);
    ZoomIn(h, rest, s, t, path.node, BLACK, turned);
    var path' := Under(s, path.node, BLACK, turned, rest);
    MakeFine(!s, path.rest.other, g, RED, path.other, bh);
    ZoomOrder(path, t);
    ZoomOrder(path.rest, Make(s, t, path.node, RED, path.other));
    ZoomOrder(path', t);
    RotateOrder(!s, path.rest.other, g, BLACK, path.other, path.node, RED, t);
    MakeOrder(!s, path.rest.other, path.rest.other, g, BLACK, RED, path.other, path.other);
    MakeOrder(s, t, t, path.node, RED, BLACK, Make(!s, path.rest.other, g, BLACK, path.other), turned);
  }

  lemma {:induction false} PlugAt(h: Links, path: Path, t: Tree)
    requires At(h, path, t)
    ensures At(h, Top, Plug(path, t))
    decreases path
  {
    if path.Under? {
      ZoomOut(h, path, t);
      PlugAt(h, path.rest, Make(path.side, t, path.node, path.color, path.other));
    }
  }

  lemma NodesInOrder(t: Tree)
    ensures Nodes(t) == set n | n in InOrder(t)
  {
  }

  /** Nothing red above red is left: with the root turned black the whole tree keeps the rules. */
  lemma InsertEnds(h: Links, path: Path, t: Tree, bh: nat) returns (done: Tree, bh': nat)
    requires Inserting(h, path, t, bh) && (path.Under? ==> path.color == BLACK)
    ensures h.ref != null && h.ref in h.cells
    ensures Settled(PutColor(h, h.ref, BLACK), Top, done, bh') && Order(Top, done) == Order(path, t)
    ensures path.Under? ==> done == Plug(path, t)
  {
    hide Rep, RepPath, Sep, SepPath, InOrder, Before;
    var whole := Plug(path, t);
    PlugAt(h, path, t);
    PlugInOrder(path, t);
    PlugNode(path, t);
    RootShape(h, Top, whole);
    ColorRoot(h, Top, whole, BLACK);
    ColorOrder(whole, BLACK);
    done := whole.(color := BLACK);
    TopOrder(done);
    if path.Top? {
      BlackenFine(t, bh);
      bh' := bh + 1;
    } else {
      FinePlug(path, t, bh);
      bh' := PlugHeight(path, bh);
      assert done == whole;
    }
  }

  lemma TopOrder(t: Tree)
    ensures Order(Top, t) == InOrder(t)
  {
  }

  lemma {:induction false} PlugNode(path: Path, t: Tree)
    requires t.Node?
    ensures Plug(path, t).Node?
    decreases path
  {
    if path.Under? {
      PlugNode(path.rest, Make(path.side, t, path.node, path.color, path.other));
    }
  }

  /** What Insert reads from the nodes around a red node with a red parent. */
  lemma InsertShape(h: Links, path: Path, t: Tree, bh: nat)
    requires Inserting(h, path, t, bh) && path.Under? && path.color == RED
    ensures path.rest.Under? && path.rest.color == BLACK && t.Node? && t.color == RED
    ensures path.node in h.cells && path.rest.node in h.cells && t.node in h.cells
    ensures Kid(h.cells[path.rest.node], !path.rest.side) == RootOf(path.rest.other)
    ensures path.rest.other.Node? ==>
              path.rest.other.node in h.cells && h.cells[path.rest.other.node].color == path.rest.other.color
    ensures Kid(h.cells[path.node], !path.rest.side) == t.node <==> path.side != path.rest.side
    ensures h.cells[path.node].parent == path.rest.node && Depth(path) == 2 + Depth(path.rest.rest)
    ensures path.rest.side <==> h.cells[path.rest.node].left == path.node
  {
    OneSide(h, path, t);
    ZoomOut(h, path, t);
    OneSide(h, path.rest, Make(path.side, t, path.node, path.color, path.other));
    assert RepPath(h, path.rest, path.node);
    assert Rep(h, path.rest.other, path.rest.node);
  }

  lemma RedBlackHolder(h: Links, path: Path, t: Tree)
    requires At(h, path, t) && t.Node?
    ensures t.node in h.cells && h.cells[t.node].parent == Holder(path)
    ensures path.Under? ==>
              path.node in h.cells && h.cells[path.node].color == path.color
                  && h.cells[path.node].parent == Holder(path.rest)
    ensures path.Under? ==> (path.side <==> h.cells[path.node].left == t.node)
  {
    if path.Under? { OneSide(h, path, t); }
  }

  // ---- finding the place of a node ----

  lemma {:induction false} UnplugAt(h: Links, path: Path, t: Tree)
    requires At(h, Top, Plug(path, t))
    ensures At(h, path, t)
    decreases path
  {
    if path.Under? {
      UnplugAt(h, path.rest, Make(path.side, t, path.node, path.color, path.other));
      ZoomIn(h, path.rest, path.side, t, path.node, path.color, path.other);
    }
  }

  /** Where n sits below the hole of `path`. */
  lemma {:induction false} Locate(path: Path, t: Tree, n: RbNode) returns (path': Path, t': Tree)
    requires n in Nodes(t)
    ensures t'.Node? && t'.node == n && Plug(path', t') == Plug(path, t)
    decreases t
  {
    if t.node == n {
      return path, t;
    } else if n in Nodes(t.left) {
      path', t' := Locate(Under(true, t.node, t.color, t.right, path), t.left, n);
    } else {
      path', t' := Locate(Under(false, t.node, t.color, t.left, path), t.right, n);
    }
  }

  lemma {:induction false} SepPathOther(path: Path, hole: set<RbNode>, hole': set<RbNode>)
    requires SepPath(path, hole) && hole' !! PathNodes(path)
    ensures SepPath(path, hole')
    decreases path
  {
    if path.Under? {
      SepPathApart(path.rest, hole + {path.node} + Nodes(path.other));
      SepPathOther(path.rest, hole + {path.node} + Nodes(path.other), hole' + {path.node} + Nodes(path.other));
    }
  }

  lemma {:induction false} RepPathIn(h: Links, path: Path, x: RbNode?)
    requires RepPath(h, path, x)
    ensures PathNodes(path) <= h.cells.Keys
    decreases path
  {
    if path.Under? {
      RepIn(h, path.other, path.node);
      RepPathIn(h, path.rest, path.node);
    }
  }

  // ---- hanging a tree into a hole ----

  /** The pointer at the hole of path leads to x. */
  function Hang(h: Links, path: Path, x: RbNode?): Links
    requires path.Under? ==> path.node in h.cells
  {
    if path.Top? then h.(ref := x) else PutKid(h, path.node, path.side, x)
  }

  lemma HangPath(h: Links, path: Path, hole: set<RbNode>, y: RbNode?, x: RbNode?)
    requires RepPath(h, path, y) && SepPath(path, hole)
    ensures path.Under? ==> path.node in h.cells
    ensures RepPath(Hang(h, path, x), path, x) && Hang(h, path, x).cells.Keys == h.cells.Keys
    ensures Same(h, Hang(h, path, x), h.cells.Keys - {Holder(path)})
  {
    var h' := Hang(h, path, x);
    if path.Under? {
      SepPathApart(path.rest, hole + {path.node} + Nodes(path.other));
      FrameRep(h, h', path.other, path.node);
      FramePath(h, h', path.rest, path.node);
    }
  }

  /** The links after `node` was hung, red and without children, into the hole. */
  function Linked(h: Links, path: Path, node: RbNode): Links
    requires path.Under? ==> path.node in h.cells
  {
    Hang(h.(cells := h.cells[node := Cell(null, null, Holder(path), RED)]), path, node)
  }

  lemma LinkAt(h: Links, path: Path, node: RbNode)
    requires At(h, path, Leaf) && node !in h.cells
    ensures path.Under? ==> path.node in h.cells
    ensures At(Linked(h, path, node), path, Node(Leaf, node, RED, Leaf))
  {
    RepPathIn(h, path, null);
    var h1 := h.(cells := h.cells[node := Cell(null, null, Holder(path), RED)]);
    FramePath(h, h1, path, null);
    SepPathOther(path, {}, {node});
    HangPath(h1, path, {node}, null, node);
    HolderIn(path);
    assert Nodes(Node(Leaf, node, RED, Leaf)) == {node};
  }

  // ---- taking a node out, and putting one in its place ----

  /** The only child, or none. */
  function OnlyChild(t: Tree): Tree
    requires t.Node?
  {
    if t.left.Leaf? then t.right else t.left
  }

  /** The links after n, with at most the child x, was cut out. */
  function Spliced(h: Links, n: RbNode, x: RbNode?): Links
    requires n in h.cells && (x != null ==> x in h.cells) && (h.cells[n].parent != null ==>
               h.cells[n].parent in h.cells)
  {
    var p := h.cells[n].parent;
    var h1 := if x == null then h else PutParent(h, x, p);
    var h2 := Relink(h1, p, n, x);
    h2.(cells := h2.cells - {n})
  }

  lemma SpliceAt(h: Links, path: Path, t: Tree)
    requires At(h, path, t) && t.Node? && (t.left.Leaf? || t.right.Leaf?)
    ensures var x := RootOf(OnlyChild(t));
            && t.node in h.cells && (x != null ==> x in h.cells)
            && (h.cells[t.node].parent != null ==> h.cells[t.node].parent in h.cells)
            && At(Spliced(h, t.node, x), path, OnlyChild(t))
            && Spliced(h, t.node, x).cells.Keys == h.cells.Keys - {t.node}
  {
    var child, p := OnlyChild(t), Holder(path);
    var x := RootOf(child);
    RootIn(child);
    RepIn(h, child, t.node);
    RepPathIn(h, path, t.node);
    HolderIn(path);
    SepPathApart(path, Nodes(t));
    SepPathSmaller(path, Nodes(t), Nodes(child));
    var h1 := if x == null then h else PutParent(h, x, p);
    FramePath(h, h1, path, t.node);
    RelinkPath(h1, path, t, child);
    var h2, h' := Relink(h1, p, t.node, x), Spliced(h, t.node, x);
    FramePath(h2, h', path, x);
    Reparent(h, h', child, t.node, p);
  }

  /** The links once everything around `victim` points to `heir`. */
  function Rehung(h: Links, victim: RbNode, heir: RbNode): Links
    requires victim in h.cells
    requires var c := h.cells[victim];
             (c.left != null ==> c.left in h.cells) && (c.right != null ==> c.right in h.cells)
                 && (c.parent != null ==> c.parent in h.cells)
  {
    var c := h.cells[victim];
    var h1 := Relink(h, c.parent, victim, heir);
    var h2 := if c.left == null then h1 else PutParent(h1, c.left, heir);
    if c.right == null then h2 else PutParent(h2, c.right, heir)
  }

  /** The links after `heir` took the place of `victim`. */
  function Replaced(h: Links, victim: RbNode, heir: RbNode): Links
    requires victim in h.cells
    requires var c := h.cells[victim];
             (c.left != null ==> c.left in h.cells) && (c.right != null ==> c.right in h.cells)
                 && (c.parent != null ==> c.parent in h.cells)
  {
    var h3 := Rehung(h, victim, heir);
    h3.(cells := (h3.cells - {victim})[heir := h.cells[victim]])
  }

  lemma ReplaceAt(h: Links, path: Path, t: Tree, heir: RbNode)
    requires At(h, path, t) && t.Node? && heir !in h.cells
    ensures var c := Cell(RootOf(t.left), RootOf(t.right), Holder(path), t.color);
            && t.node in h.cells && h.cells[t.node] == c
            && (c.left != null ==> c.left in h.cells) && (c.right != null ==> c.right in h.cells)
            && (c.parent != null ==> c.parent in h.cells)
            && At(Replaced(h, t.node, heir), path, t.(node := heir))
            && Replaced(h, t.node, heir).cells.Keys == h.cells.Keys - {t.node} + {heir}
  {
    hide PathNodes, Same, SepPath, RepPath;
    var p := Holder(path);
    RootIn(t.left);
    RootIn(t.right);
    RepIn(h, t, p);
    RepPathIn(h, path, t.node);
    HolderIn(path);
    SepPathApart(path, Nodes(t));
    var t' := t.(node := heir);
    assert Nodes(t') == Nodes(t.left) + {heir} + Nodes(t.right);
    SepPathOther(path, Nodes(t), Nodes(t'));
    RelinkPath(h, path, t, t');
    var h1, h' := Relink(h, p, t.node, heir), Replaced(h, t.node, heir);
    FramePath(h1, h', path, heir);
    Reparent(h, h', t.left, t.node, heir);
    Reparent(h, h', t.right, t.node, heir);
  }

  // ---- removal ----

  /** Right but for its root, which may be red with a red child. */
  predicate Soft(t: Tree, bh: nat)
  {
    Balanced(t, bh) && (t.Node? ==> NoRedRed(t.left) && NoRedRed(t.right))
  }

  /** Between two turns of EraseColor: the tree in the hole is one black node too low. */
  ghost predicate Erasing(h: Links, path: Path, t: Tree, bh: nat)
  {
    At(h, path, t) && Soft(t, bh) && Around(path, bh + 1)
  }

  /** The sibling of a tree that is too low is never missing. */
  lemma SiblingThere(path: Path, bh: nat)
    requires path.Under? && Around(path, bh + 1)
    ensures path.other.Node?
  {
  }

  /** The hole on the other side of the same node. */
  lemma OtherSide(h: Links, path: Path, t: Tree)
    requires At(h, path, t) && path.Under?
    ensures At(h, Under(!path.side, path.node, path.color, t, path.rest), path.other)
  {
    hide At;
    ZoomOut(h, path, t);
    assert Make(path.side, t, path.node, path.color, path.other) == Make(!path.side, path.other, path.node, path.color,
             t);
    ZoomIn(h, path.rest, !path.side, path.other, path.node, path.color, t);
  }

  lemma SplitMake(side: bool, t: Tree)
    requires t.Node?
    ensures t == Make(side, Branch(t, side), t.node, t.color, Branch(t, !side))
  {
  }

  lemma BranchFine(t: Tree, side: bool, bh: nat)
    requires t.Node? && Fine(t, bh)
    ensures bh >= Weight(t.color) && Fine(Branch(t, side), bh - Weight(t.color))
    ensures t.color == RED ==> !IsRed(Branch(t, side))
  {
  }

  lemma ReddenFine(t: Tree, bh: nat)
    requires t.Node? && t.color == BLACK && Fine(t, bh + 1) && !IsRed(t.left) && !IsRed(t.right)
    ensures Fine(t.(color := RED), bh)
  {
  }

  lemma MakeSoft(side: bool, near: Tree, node: RbNode, color: Color, far: Tree, bh: nat)
    requires Fine(near, bh) && Fine(far, bh)
    ensures Soft(Make(side, near, node, color, far), bh + Weight(color))
  {
  }

  /** Red sibling: after recolouring, a rotation of the parent makes the sibling black. */
  lemma RedSiblingReady(h: Links, path: Path, t: Tree, bh: nat)
    requires Erasing(h, path, t, bh) && path.Under? && IsRed(path.other)
    ensures path.other.node in h.cells && path.node in h.cells
    ensures var s, o := path.side, path.other;
            var h' := PutColor(PutColor(h, o.node, BLACK), path.node, RED);
            && h'.cells.Keys == h.cells.Keys
            && At(h', path.rest, Make(s, t, path.node, RED, Make(s, Branch(o, s), o.node, BLACK, Branch(o, !s))))
  {
    hide At;
    var s, o := path.side, path.other;
    ColorOther(h, path, t, BLACK);
    var h1, p1 := PutColor(h, o.node, BLACK), path.(other := o.(color := BLACK));
    ColorHolder(h1, p1, t, RED);
    ZoomOut(PutColor(h1, path.node, RED), p1.(color := RED), t);
    SplitMake(s, o.(color := BLACK));
  }

  lemma RedSiblingDone(h: Links, path: Path, t: Tree, bh: nat)
    requires Soft(t, bh) && Around(path, bh + 1) && path.Under? && IsRed(path.other)
    requires var s, o := path.side, path.other;
             At(h, path.rest, Make(s, Make(s, t, path.node, RED, Branch(o, s)), o.node, BLACK, Branch(o, !s)))
    ensures var s, o := path.side, path.other;
            var path' := Under(s, path.node, RED, Branch(o, s), Under(s, o.node, BLACK, Branch(o, !s), path.rest));
            Erasing(h, path', t, bh) && Order(path', t) == Order(path, t) && !IsRed(Branch(o, s))
  {
    hide At, InOrder, Before, After;
    var s, o := path.side, path.other;
    var low := Make(s, t, path.node, RED, Branch(o, s));
    var up := Under(s, o.node, BLACK, Branch(o, !s), path.rest);
    ZoomIn(h, path.rest, s, low, o.node, BLACK, Branch(o, !s));
    ZoomIn(h, up, s, t, path.node, RED, Branch(o, s));
    BranchFine(o, s, bh + 1);
    BranchFine(o, !s, bh + 1);
    assert Around(up, bh + 1);
    ZoomOrder(path, t);
    ZoomOrder(up, low);
    ZoomOrder(Under(s, path.node, RED, Branch(o, s), up), t);
    SplitMake(s, o);
    RotateOrder(s, t, path.node, RED, Branch(o, s), o.node, BLACK, Branch(o, !s));
    MakeOrder(s, Branch(o, s), Branch(o, s), o.node, BLACK, RED, Branch(o, !s), Branch(o, !s));
    MakeOrder(s, t, t, path.node, RED, BLACK, Make(s, Branch(o, s), o.node, BLACK, Branch(o, !s)), o);
  }

  /** Black sibling with black children: it turns red and the problem moves up. */
  lemma PushDown(h: Links, path: Path, t: Tree, bh: nat)
    requires Erasing(h, path, t, bh) && path.Under? && !IsRed(t) && path.other.Node? && path.other.color == BLACK
    requires !IsRed(path.other.left) && !IsRed(path.other.right)
    ensures path.other.node in h.cells
    ensures var t' := Make(path.side, t, path.node, path.color, path.other.(color := RED));
            && Erasing(PutColor(h, path.other.node, RED), path.rest, t', bh + Weight(path.color))
            && Order(path.rest, t') == Order(path, t) && RootOf(t') == path.node && (IsRed(t') <==> path.color == RED)
  {
    hide At, InOrder, Before, After;
    ColorOther(h, path, t, RED);
    var p1 := path.(other := path.other.(color := RED));
    ZoomOut(PutColor(h, path.other.node, RED), p1, t);
    ZoomOrder(path, t);
    ColorOrder(path.other, RED);
    MakeOrder(path.side, t, t, path.node, path.color, path.color, path.other, path.other.(color := RED));
    ReddenFine(path.other, bh);
    MakeSoft(path.side, t, path.node, path.color, path.other.(color := RED), bh);
  }

  /** Black sibling with a red child on the near side only: a rotation of the sibling brings it to the far side. */
  lemma NearNephewReady(h: Links, path: Path, t: Tree, bh: nat)
    requires Erasing(h, path, t, bh) && path.Under? && path.other.Node? && path.other.color == BLACK
    requires IsRed(Branch(path.other, path.side))
    ensures var s, o := path.side, path.other;
            var x := Branch(o, s);
            && x.node in h.cells && o.node in h.cells
            && var h' := PutColor(PutColor(h, x.node, BLACK), o.node, RED);
               && h'.cells.Keys == h.cells.Keys
               && At(h', Under(!s, path.node, path.color, t, path.rest),
                     Make(!s, Branch(o, !s), o.node, RED, Make(!s, Branch(x, !s), x.node, BLACK, Branch(x, s))))
  {
    hide At;
    var s, o := path.side, path.other;
    var x, y, q := Branch(o, s), Branch(o, !s), Under(!s, path.node, path.color, t, path.rest);
    OtherSide(h, path, t);
    SplitMake(s, o);
    ZoomIn(h, q, s, x, o.node, BLACK, y);
    ColorRoot(h, Under(s, o.node, BLACK, y, q), x, BLACK);
    var h1 := PutColor(h, x.node, BLACK);
    ColorHolder(h1, Under(s, o.node, BLACK, y, q), x.(color := BLACK), RED);
    ZoomOut(PutColor(h1, o.node, RED), Under(s, o.node, RED, y, q), x.(color := BLACK));
    SplitMake(!s, x.(color := BLACK));
  }

  /** The sibling after that rotation. */
  function NearTurned(o: Tree, s: bool): Tree
    requires o.Node? && Branch(o, s).Node?
  {
    var x := Branch(o, s);
    Make(!s, Make(!s, Branch(o, !s), o.node, RED, Branch(x, !s)), x.node, BLACK, Branch(x, s))
  }

  lemma NearNephewDone(h: Links, path: Path, t: Tree, bh: nat)
    requires Soft(t, bh) && Around(path, bh + 1) && path.Under? && path.other.Node? && path.other.color == BLACK
    requires IsRed(Branch(path.other, path.side)) && !IsRed(Branch(path.other, !path.side))
    requires At(h, Under(!path.side, path.node, path.color, t, path.rest), NearTurned(path.other, path.side))
    ensures var path' := path.(other := NearTurned(path.other, path.side));
            && Erasing(h, path', t, bh) && Order(path', t) == Order(path, t)
            && path'.other.Node? && path'.other.color == BLACK && !IsRed(Branch(path'.other, path.side))
                 && IsRed(Branch(path'.other, !path.side))
  {
    hide At, InOrder, Before, After;
    var s, o := path.side, path.other;
    var x, y := Branch(o, s), Branch(o, !s);
    var o' := NearTurned(o, s);
    OtherSide(h, Under(!s, path.node, path.color, t, path.rest), o');
    BranchFine(o, s, bh + 1);
    BranchFine(o, !s, bh + 1);
    BranchFine(x, s, bh);
    BranchFine(x, !s, bh);
    MakeFine(!s, y, o.node, RED, Branch(x, !s), bh);
    MakeFine(!s, Make(!s, y, o.node, RED, Branch(x, !s)), x.node, BLACK, Branch(x, s), bh);
    SplitMake(!s, o);
    SplitMake(!s, x);
    ZoomOrder(path, t);
    ZoomOrder(path.(other := o'), t);
    MakeOrder(!s, Branch(x, !s), Branch(x, !s), x.node, BLACK, RED, Branch(x, s), Branch(x, s));
    RotateOrder(!s, y, o.node, RED, Branch(x, !s), x.node, BLACK, Branch(x, s));
    MakeOrder(!s, y, y, o.node, RED, BLACK, Make(!s, Branch(x, !s), x.node, BLACK, Branch(x, s)), x);
    MakeOrder(s, t, t, path.node, path.color, path.color, o, o');
  }

  /** Black sibling with a red child on the far side: recolouring and one rotation of the parent end it. */
  lemma FarNephewReady(h: Links, path: Path, t: Tree, bh: nat)
    requires Erasing(h, path, t, bh) && path.Under? && path.other.Node? && path.other.color == BLACK
    requires IsRed(Branch(path.other, !path.side))
    ensures var s, o := path.side, path.other;
            var y := Branch(o, !s);
            && y.node in h.cells && o.node in h.cells && path.node in h.cells
            && var h' := PutColor(PutColor(PutColor(h, o.node, path.color), path.node, BLACK), y.node, BLACK);
               && h'.cells.Keys == h.cells.Keys
               && At(h', path.rest, Make(s, t, path.node, BLACK,
                    Make(s, Branch(o, s), o.node, path.color, y.(color := BLACK))))
  {
    hide At;
    var s, o := path.side, path.other;
    var x, y := Branch(o, s), Branch(o, !s);
    ColorOther(h, path, t, path.color);
    var h1, p1 := PutColor(h, o.node, path.color), path.(other := o.(color := path.color));
    ColorHolder(h1, p1, t, BLACK);
    var h2, p2 := PutColor(h1, path.node, BLACK), p1.(color := BLACK);
    OtherSide(h2, p2, t);
    SplitMake(!s, p2.other);
    var q := Under(!s, path.node, BLACK, t, path.rest);
    ZoomIn(h2, q, !s, y, o.node, path.color, x);
    ColorRoot(h2, Under(!s, o.node, path.color, x, q), y, BLACK);
    var h3 := PutColor(h2, y.node, BLACK);
    ZoomOut(h3, Under(!s, o.node, path.color, x, q), y.(color := BLACK));
    ZoomOut(h3, q, Make(!s, y.(color := BLACK), o.node, path.color, x));
  }

  lemma FarNephewDone(h: Links, path: Path, t: Tree, bh: nat)
    requires Fine(t, bh) && Around(path, bh + 1) && path.Under? && path.other.Node? && path.other.color == BLACK
               && !IsRed(t)
    requires IsRed(Branch(path.other, !path.side))
    ensures var s, o := path.side, path.other;
            var y := Branch(o, !s);
            var t' := Make(s, Make(s, t, path.node, BLACK, Branch(o, s)), o.node, path.color, y.(color := BLACK));
            && Fine(t', bh + 1 + Weight(path.color)) && Around(path.rest, bh + 1 + Weight(path.color))
            && (path.rest.Under? && path.rest.color == RED ==> !IsRed(t')) && (path.rest.Top? ==> !IsRed(t'))
            && Order(path.rest, t') == Order(path, t)
  {
    hide InOrder, Before, After;
    var s, o := path.side, path.other;
    var x, y := Branch(o, s), Branch(o, !s);
    var y' := y.(color := BLACK);
    MakeFine(s, t, path.node, BLACK, x, bh);
    BlackenFine(y, bh);
    MakeFine(s, Make(s, t, path.node, BLACK, x), o.node, path.color, y', bh + 1);
    SplitMake(s, o);
    ZoomOrder(path, t);
    ColorOrder(y, BLACK);
    RotateOrder(s, t, path.node, BLACK, x, o.node, path.color, y');
    MakeOrder(s, x, x, o.node, path.color, BLACK, y', y);
    MakeOrder(s, t, t, path.node, BLACK, path.color, Make(s, x, o.node, path.color, y'), o);
  }

  /** What EraseColor reads around a hole. */
  lemma EraseShape(h: Links, path: Path, t: Tree)
    requires At(h, path, t) && path.Under?
    ensures path.node in h.cells && h.cells[path.node].color == path.color
              && h.cells[path.node].parent == Holder(path.rest)
    ensures Kid(h.cells[path.node], path.side) == RootOf(t) && Kid(h.cells[path.node], !path.side) == RootOf(path.other)
    ensures t.Node? ==> t.node in h.cells && h.cells[t.node].color == t.color
    ensures path.other.Node? ==> NodeShape(h, path.other)
  {
    if path.other.Node? {
      assert Rep(h, path.other.left, path.other.node);
      assert Rep(h, path.other.right, path.other.node);
    }
  }

  /** The node at the root of a tree and the colours of its children, as stored. */
  predicate NodeShape(h: Links, o: Tree)
    requires o.Node?
  {
    && o.node in h.cells && h.cells[o.node].color == o.color
    && h.cells[o.node].left == RootOf(o.left) && h.cells[o.node].right == RootOf(o.right)
    && (o.left.Node? ==> o.left.node in h.cells && h.cells[o.left.node].color == o.left.color)
    && (o.right.Node? ==> o.right.node in h.cells && h.cells[o.right.node].color == o.right.color)
  }

  /** The removal is over: the tree in the hole and its surroundings keep the rules. */
  ghost predicate Settled(h: Links, path: Path, t: Tree, bh: nat)
  {
    && At(h, path, t) && Fine(t, bh) && Around(path, bh)
    && (path.Under? && path.color == RED ==> !IsRed(t)) && (path.Top? ==> !IsRed(t))
  }

  /** The way to the root got shorter, or the tree in the hole has a red root and ends the pass. */
  predicate Shrinks(path: Path, path': Path, t': Tree)
  {
    IsRed(t') || Depth(path') < Depth(path)
  }

  lemma {:induction false} RefInPath(h: Links, path: Path, x: RbNode?)
    requires RepPath(h, path, x) && path.Under?
    ensures h.ref != null && h.ref in PathNodes(path)
    decreases path
  {
    if path.rest.Under? { RefInPath(h, path.rest, path.node); }
  }

  /** The tree in the hole is the whole tree exactly when the hole is at the top. */
  lemma RefIsTop(h: Links, path: Path, t: Tree)
    requires At(h, path, t)
    ensures h.ref == RootOf(t) <==> path.Top?
  {
    if path.Under? {
      RefInPath(h, path, RootOf(t));
      SepPathApart(path, Nodes(t));
      RootIn(t);
    }
  }

  /** Which child the hole is. */
  lemma HoleSide(h: Links, path: Path, t: Tree, bh: nat)
    requires Erasing(h, path, t, bh) && path.Under?
    ensures path.node in h.cells && (path.side <==> h.cells[path.node].left == RootOf(t))
  {
    SiblingThere(path, bh);
    if t.Node? { OneSide(h, path, t); }
  }

  lemma SettledEnds(h: Links, path: Path, t: Tree, bh: nat)
    requires Settled(h, path, t, bh)
    ensures var whole := Plug(path, t);
            && At(h, Top, whole) && InOrder(whole) == Order(path, t) && !IsRed(whole) && (exists k :: Fine(whole, k))
            && h.ref == RootOf(whole) && (whole.Node? ==> whole.node in h.cells && h.cells[whole.node].color == BLACK)
  {
    PlugAt(h, path, t);
    PlugInOrder(path, t);
    FinePlug(path, t, bh);
  }

  /** A red root takes the missing black. */
  lemma RedEnds(h: Links, path: Path, t: Tree, bh: nat)
    requires Erasing(h, path, t, bh) && IsRed(t)
    ensures t.node in h.cells && Settled(PutColor(h, t.node, BLACK), path, t.(color := BLACK), bh + 1)
    ensures Order(path, t.(color := BLACK)) == Order(path, t)
  {
    ColorRoot(h, path, t, BLACK);
    ColorOrder(t, BLACK);
  }

  lemma BlackEnds(h: Links, t: Tree, bh: nat)
    requires Erasing(h, Top, t, bh) && !IsRed(t)
    ensures Settled(h, Top, t, bh)
  {
  }

  lemma RootShape(h: Links, path: Path, t: Tree)
    requires At(h, path, t)
    ensures t.Node? ==> t.node in h.cells && h.cells[t.node].color == t.color
    ensures path.Top? ==> h.ref == RootOf(t)
  {
  }

  lemma ColorAgain(h: Links, n: RbNode)
    requires n in h.cells && h.cells[n].color == BLACK
    ensures PutColor(h, n, BLACK) == h
  {
  }

  /** However EraseColor ends, colouring its node black settles the tree. */
  lemma EraseEnds(h: Links, path: Path, t: Tree, bh: nat, node: RbNode?, stop: bool) returns (t': Tree, bh': nat)
    requires if stop then Settled(h, path, t, bh) && node == h.ref
             else Erasing(h, path, t, bh) && RootOf(t) == node && (IsRed(t) || path.Top?)
    ensures if node == null then Settled(h, path, t', bh')
            else node in h.cells && Settled(PutColor(h, node, BLACK), path, t', bh')
    ensures Order(path, t') == Order(path, t)
  {
    hide At, Order, Soft, Around, Make, Balanced, NoRedRed;
    t', bh' := t, bh;
    if stop {
      SettledEnds(h, path, t, bh);
      if node != null { ColorAgain(h, node); }
    } else if IsRed(t) {
      RedEnds(h, path, t, bh);
      t', bh' := t.(color := BLACK), bh + 1;
    } else {
      BlackEnds(h, t, bh);
      RootShape(h, path, t);
      if node != null { ColorAgain(h, node); }
    }
  }

  // ---- a node with two children ----

  /** The hole of `low` below the hole of `high`. */
  function Join(low: Path, high: Path): Path
  {
    if low.Top? then high else Under(low.side, low.node, low.color, low.other, Join(low.rest, high))
  }

  lemma {:induction false} JoinOut(h: Links, low: Path, high: Path, t: Tree)
    requires At(h, Join(low, high), t)
    ensures At(h, high, Plug(low, t))
    decreases low
  {
    if low.Under? {
      ZoomOut(h, Join(low, high), t);
      JoinOut(h, low.rest, high, Make(low.side, t, low.node, low.color, low.other));
    }
  }

  lemma {:induction false} JoinIn(h: Links, low: Path, high: Path, t: Tree)
    requires At(h, high, Plug(low, t))
    ensures At(h, Join(low, high), t)
    decreases low
  {
    if low.Under? {
      JoinIn(h, low.rest, high, Make(low.side, t, low.node, low.color, low.other));
      ZoomIn(h, Join(low.rest, high), low.side, t, low.node, low.color, low.other);
    }
  }

  /** Every step of the path goes to the left. */
  predicate AllLeft(path: Path)
  {
    path.Under? ==> path.side && AllLeft(path.rest)
  }

  lemma {:induction false} JoinOrder(low: Path, high: Path)
    requires AllLeft(low)
    ensures Before(low) == [] && Before(Join(low, high)) == Before(high)
              && After(Join(low, high)) == After(low) + After(high)
    decreases low
  {
    if low.Under? { JoinOrder(low.rest, high); }
  }

  /** The rules do not depend on which node it is. */
  lemma {:induction false} JoinAround(low: Path, high: Path, heir: RbNode, bh: nat)
    requires high.Under? && Around(Join(low, high), bh)
    ensures Around(Join(low, high.(node := heir)), bh)
    ensures var p, p' := Join(low, high), Join(low, high.(node := heir)); p.Under? && p'.Under? && p.color == p'.color
    decreases low
  {
    if low.Under? { JoinAround(low.rest, high, heir, bh + Weight(low.color)); }
  }

  /** EraseWithTwoChildren, first half: s, the first node on the right of victim, leaves its place. */
  function Detached(h: Links, victim: RbNode, s: RbNode): Links
    requires Movable(h, victim, s)
  {
    var c, child, p := h.cells[victim], h.cells[s].right, h.cells[s].parent;
    var h1 := Relink(h, c.parent, victim, s);
    if p == victim then h1 else
      var h2 := if child == null then h1 else PutParent(h1, child, p);
      var h3 := PutKid(PutKid(h2, p, true, child), s, false, c.right);
      PutParent(h3, c.right, s)
  }

  /** Second half: s takes over what the victim had. */
  function Moved(h: Links, victim: RbNode, s: RbNode): Links
    requires Movable(h, victim, s)
  {
    var c, h4 := h.cells[victim], Detached(h, victim, s);
    var h5 := PutKid(PutColor(PutParent(h4, s, c.parent), s, c.color), s, true, c.left);
    var h6 := PutParent(h5, c.left, s);
    h6.(cells := h6.cells - {victim})
  }

  /** The nodes that are relinked exist, and are distinct but where s is the right child itself. */
  predicate Movable(h: Links, victim: RbNode, s: RbNode)
  {
    && victim in h.cells && s in h.cells && s != victim && h.cells[s].left == null
    && var c, child, p := h.cells[victim], h.cells[s].right, h.cells[s].parent;
       && c.left != null && c.right != null && c.left in h.cells && c.right in h.cells && p != null && p in h.cells
       && (child != null ==> child in h.cells) && (c.parent != null ==> c.parent in h.cells)
       && c.left != c.right && c.left != s && c.left != victim && c.right != victim && c.left != p
       && c.parent != victim && c.parent != s && c.parent != c.left && c.parent != c.right && c.parent != p
       && p != s && (p == victim <==> c.right == s) && (p != victim ==> h.cells[p].left == s)
       && (child != null ==>
            h.cells[child].parent == s && child != s && child != victim && child != c.left && child != c.right
                && child != p && child != c.parent)
  }

  /** What either way of moving s does to each node. */
  ghost predicate IsMoved(h: Links, h': Links, victim: RbNode, s: RbNode)
    requires Movable(h, victim, s)
  {
    var c, child, p := h.cells[victim], h.cells[s].right, h.cells[s].parent;
    var h1 := Relink(h, c.parent, victim, s);
    && h'.cells.Keys == h.cells.Keys - {victim} && h'.ref == h1.ref
    && h'.cells[s] == c.(right := if p == victim then child else c.right)
    && h'.cells[c.left] == h.cells[c.left].(parent := s)
    && (p != victim && p != c.right ==>
         h'.cells[p] == h.cells[p].(left := child) && h'.cells[c.right] == h.cells[c.right].(parent := s))
    && (p != victim && p == c.right ==> h'.cells[p] == h.cells[p].(left := child, parent := s))
    && (child != null ==> h'.cells[child] == h.cells[child].(parent := if p == victim then s else p))
    && (c.parent != null ==> h'.cells[c.parent] == h1.cells[c.parent])
    && (forall n :: n in h'.cells && n !in {s, c.left, c.right, p, child, c.parent} ==> h'.cells[n] == h.cells[n])
  }

  lemma IsMovedUnique(h: Links, a: Links, b: Links, victim: RbNode, s: RbNode)
    requires Movable(h, victim, s) && IsMoved(h, a, victim, s) && IsMoved(h, b, victim, s)
    ensures a == b
  {
    var c, child, p := h.cells[victim], h.cells[s].right, h.cells[s].parent;
    forall n | n in a.cells
      ensures a.cells[n] == b.cells[n]
    {
      if n in {s, c.left, c.right, p, child, c.parent} {
        if n == c.right && n != s { assert p != victim; }
      }
    }
  }

  lemma DetachedDoes(h: Links, victim: RbNode, s: RbNode)
    requires Movable(h, victim, s)
    ensures var c, child, p, h' := h.cells[victim], h.cells[s].right, h.cells[s].parent, Detached(h, victim, s);
            var h1 := Relink(h, c.parent, victim, s);
            && h'.cells.Keys == h.cells.Keys && h'.ref == h1.ref
            && h'.cells[s] == h.cells[s].(right := if p == victim then child else c.right)
            && (p != victim && p != c.right ==>
                 h'.cells[p] == h.cells[p].(left := child) && h'.cells[c.right] == h.cells[c.right].(parent := s))
            && (p != victim && p == c.right ==> h'.cells[p] == h.cells[p].(left := child, parent := s))
            && (child != null ==> h'.cells[child] == h.cells[child].(parent := if p == victim then s else p))
            && (c.parent != null ==> h'.cells[c.parent] == h1.cells[c.parent])
            && (forall n :: n in h'.cells && n !in {s, c.right, p, child, c.parent} ==> h'.cells[n] == h.cells[n])
  {
  }

  lemma MovedDoes(h: Links, victim: RbNode, s: RbNode)
    requires Movable(h, victim, s)
    ensures IsMoved(h, Moved(h, victim, s), victim, s)
  {
    hide Detached, Relink;
    DetachedDoes(h, victim, s);
  }

  lemma ReplacedDoes(h: Links, victim: RbNode, s: RbNode)
    requires Movable(h, victim, s)
    ensures var h1 := Spliced(h, s, h.cells[s].right);
            && victim in h1.cells && s !in h1.cells
            && var c := h1.cells[victim];
               && (c.left != null ==> c.left in h1.cells) && (c.right != null ==> c.right in h1.cells)
               && (c.parent != null ==> c.parent in h1.cells)
               && IsMoved(h, Replaced(h1, victim, s), victim, s)
  {
  }

  /** What the walk to the first node on the right of the victim has found. */
  ghost predicate Walked(path: Path, t: Tree, low: Path, u: Tree)
  {
    t.Node? && t.left.Node? && t.right.Node? && u.Node? && AllLeft(low) && Plug(low, u) == t.right
  }

  /** The hole on the right of the root of t, held by n. */
  function Below(path: Path, t: Tree, n: RbNode): Path
    requires t.Node?
  {
    Under(false, n, t.color, t.left, path)
  }

  lemma WalkedAt(h: Links, path: Path, t: Tree, low: Path, u: Tree)
    requires At(h, path, t) && Walked(path, t, low, u)
    ensures At(h, Join(low, Below(path, t, t.node)), u)
  {
    ZoomIn(h, path, false, t.right, t.node, t.color, t.left);
    JoinIn(h, low, Below(path, t, t.node), u);
  }

  lemma {:induction false} WalkedNodes(low: Path, u: Tree)
    requires AllLeft(low) && u.Node? && Sep(Plug(low, u))
    ensures u.node in Nodes(Plug(low, u)) && Nodes(u) <= Nodes(Plug(low, u))
    ensures low.Under? ==> low.node in Nodes(Plug(low, u)) && low.node !in Nodes(u)
    ensures low.Under? ==> RootOf(Plug(low, u)) != u.node && RootOf(Plug(low, u)) !in Nodes(u)
    ensures low.Top? ==> RootOf(Plug(low, u)) == u.node
    decreases low
  {
    if low.Under? {
      var up := Make(low.side, u, low.node, low.color, low.other);
      WalkedNodes(low.rest, up);
      WalkedSep(low.rest, up);
    }
  }

  lemma {:induction false} WalkedSep(low: Path, u: Tree)
    requires Sep(Plug(low, u))
    ensures Sep(u)
    decreases low
  {
    if low.Under? { WalkedSep(low.rest, Make(low.side, u, low.node, low.color, low.other)); }
  }

  lemma MoveReady(h: Links, path: Path, t: Tree, low: Path, u: Tree)
    requires At(h, path, t) && Walked(path, t, low, u) && u.left.Leaf?
    ensures Movable(h, t.node, u.node)
    ensures h.cells[t.node] == Cell(t.left.node, t.right.node, Holder(path), t.color)
    ensures h.cells[u.node] == Cell(null, RootOf(u.right), Holder(Join(low, Below(path, t, t.node))), u.color)
  {
    WalkedAt(h, path, t, low, u);
    WalkedNodes(low, u);
    SepPathApart(path, Nodes(t));
    HolderIn(path);
    RepPathIn(h, path, t.node);
    RepIn(h, t, Holder(path));
    RootIn(u.right);
    RootIn(t.left);
    WalkedSep(low, u);
    OneSide(h, Join(low, Below(path, t, t.node)), u);
    RepIn(h, u, Holder(Join(low, Below(path, t, t.node))));
    if u.right.Node? { assert Rep(h, u.right, u.node); }
  }

  /** The tree after the move. */
  lemma MoveAt(h: Links, path: Path, t: Tree, low: Path, u: Tree)
    requires At(h, path, t) && Walked(path, t, low, u) && u.left.Leaf?
    ensures Movable(h, t.node, u.node)
    ensures At(Moved(h, t.node, u.node), Join(low, Below(path, t, u.node)), u.right)
    ensures Moved(h, t.node, u.node).cells.Keys == h.cells.Keys - {t.node}
  {
    hide At, Movable, Moved, Spliced, Replaced, Plug;
    var s, x := u.node, RootOf(u.right);
    MoveReady(h, path, t, low, u);
    WalkedAt(h, path, t, low, u);
    SpliceAt(h, Join(low, Below(path, t, t.node)), u);
    var h1, r := Spliced(h, s, x), Plug(low, u.right);
    JoinOut(h1, low, Below(path, t, t.node), u.right);
    ZoomOut(h1, Below(path, t, t.node), r);
    ReplacedDoes(h, t.node, s);
    MovedDoes(h, t.node, s);
    ReplaceAt(h1, path, Node(t.left, t.node, t.color, r), s);
    var h2 := Replaced(h1, t.node, s);
    IsMovedUnique(h, Moved(h, t.node, s), h2, t.node, s);
    ZoomIn(h2, path, false, r, s, t.color, t.left);
    JoinIn(h2, low, Below(path, t, s), u.right);
  }

  /** The order before and after. */
  lemma MoveOrder(path: Path, t: Tree, low: Path, u: Tree)
    requires Walked(path, t, low, u) && u.left.Leaf?
    ensures Order(Join(low, Below(path, t, u.node)),
              u.right) == Before(path) + InOrder(t.left) + InOrder(t.right) + After(path)
  {
    hide Plug, Join;
    var high := Below(path, t, u.node);
    JoinOrder(low, high);
    PlugInOrder(low, u);
    assert InOrder(u) == [u.node] + InOrder(u.right);
    assert InOrder(t.right) == [u.node] + InOrder(u.right) + After(low);
  }

  lemma SpliceOrder(path: Path, t: Tree)
    requires t.Node? && (t.left.Leaf? || t.right.Leaf?)
    ensures Order(path, OnlyChild(t)) == Before(path) + InOrder(t.left) + InOrder(t.right) + After(path)
  {
  }

  /** A black node cut out leaves its child one black node too low; a red one leaves nothing to repair. */
  lemma SpliceFine(t: Tree, bh: nat)
    requires t.Node? && (t.left.Leaf? || t.right.Leaf?) && Fine(t, bh)
    ensures t.color == BLACK ==> bh >= 1 && Soft(OnlyChild(t), bh - 1)
    ensures t.color == RED ==> Fine(OnlyChild(t), bh) && !IsRed(OnlyChild(t))
  {
    BranchFine(t, true, bh);
    BranchFine(t, false, bh);
  }

  /** No node twice in order. */
  predicate Distinct(s: seq<RbNode>)
  {
    forall i, j :: 0 <= i < j < |s| ==> s[i] != s[j]
  }

  lemma {:induction false} SepDistinct(t: Tree)
    requires Sep(t)
    ensures Distinct(InOrder(t))
  {
    if t.Node? {
      SepDistinct(t.left);
      SepDistinct(t.right);
      NodesInOrder(t.left);
      NodesInOrder(t.right);
      var l, r := InOrder(t.left), InOrder(t.right);
      assert forall i :: 0 <= i < |l| ==> l[i] in Nodes(t.left);
      assert forall i :: 0 <= i < |r| ==> r[i] in Nodes(t.right);
    }
  }

  lemma SplitOnce(a: seq<RbNode>, b: seq<RbNode>, x: RbNode, c: seq<RbNode>, d: seq<RbNode>)
    requires a + [x] + b == c + [x] + d && Distinct(a + [x] + b)
    ensures a == c && b == d
  {
    var s := a + [x] + b;
    assert s[|a|] == x && s[|c|] == x;
    assert a == s[..|a|] && c == s[..|c|] && b == s[|a| + 1..] && d == s[|c| + 1..];
  }

  /** Where a node sits, in the tree and in order. */
  lemma Place(h: Links, tree: Tree, n: RbNode, pre: seq<RbNode>, post: seq<RbNode>) returns (path: Path, t: Tree)
    requires At(h, Top, tree) && InOrder(tree) == pre + [n] + post
    ensures At(h, path, t) && t.Node? && t.node == n && Plug(path, t) == tree
    ensures pre == Before(path) + InOrder(t.left) && post == InOrder(t.right) + After(path)
  {
    hide Rep, RepPath, SepPath, Nodes;
    NodesInOrder(tree);
    assert n in InOrder(tree);
    path, t := Locate(Top, tree, n);
    UnplugAt(h, path, t);
    PlugInOrder(path, t);
    SepDistinct(tree);
    assert InOrder(tree) == (Before(path) + InOrder(t.left)) + [n] + (InOrder(t.right) + After(path));
    SplitOnce(pre, post, n, Before(path) + InOrder(t.left), InOrder(t.right) + After(path));
  }

  lemma LinkReady(h: Links, path: Path, tree: Tree, node: RbNode)
    requires At(h, Top, tree) && Plug(path, Leaf) == tree && node !in h.cells && !IsRed(tree)
               && exists bh :: Fine(tree, bh)
    ensures path.Under? ==> path.node in h.cells
    ensures Inserting(Linked(h, path, node), path, Node(Leaf, node, RED, Leaf), 0)
  {
    var whole :| Fine(tree, whole);
    var bh := FineUnplug(path, Leaf, whole);
    UnplugAt(h, path, Leaf);
    LinkAt(h, path, node);
  }

  lemma LinkKeys(tree: Tree, path: Path, node: RbNode)
    requires Plug(path, Leaf) == tree
    ensures Order(path, Node(Leaf, node, RED, Leaf)) == Before(path) + [node] + After(path)
    ensures (set n | n in Order(path, Node(Leaf, node, RED, Leaf))) == Nodes(tree) + {node}
  {
    PlugInOrder(path, Leaf);
    NodesInOrder(tree);
    assert InOrder(tree) == Before(path) + After(path);
  }

  /** A new node in place of the root of a part keeps order and rules. */
  lemma ReplaceKeys(path: Path, t: Tree, heir: RbNode, pre: seq<RbNode>, post: seq<RbNode>)
    requires t.Node? && pre == Before(path) + InOrder(t.left) && post == InOrder(t.right) + After(path)
    ensures Order(path, t.(node := heir)) == pre + [heir] + post
  {
  }

  /** What Replace relinks exists, and the parent has the victim on one side. */
  predicate Replaceable(h: Links, victim: RbNode)
  {
    && victim in h.cells
    && var c := h.cells[victim];
       && (c.left != null ==> c.left in h.cells && c.left != victim && c.left != c.parent)
       && (c.right != null ==> c.right in h.cells && c.right != victim && c.right != c.parent && c.right != c.left)
       && (c.parent != null ==> c.parent in h.cells && c.parent != victim
                                && (h.cells[c.parent].left == victim) != (h.cells[c.parent].right == victim))
  }

  lemma IsReplaceable(h: Links, path: Path, t: Tree)
    requires At(h, path, t) && t.Node?
    ensures Replaceable(h, t.node)
  {
    RootIn(t.left);
    RootIn(t.right);
    HolderIn(path);
    SepPathApart(path, Nodes(t));
    RepIn(h, t, Holder(path));
    RepPathIn(h, path, t.node);
    if path.Under? { OneSide(h, path, t); }
  }

  lemma FineHeir(t: Tree, heir: RbNode, bh: nat)
    requires t.Node? && Fine(t, bh)
    ensures Fine(t.(node := heir), bh)
  {
  }

  lemma KeysOfOrder(tree: Tree, pre: seq<RbNode>, victim: RbNode, heir: RbNode, post: seq<RbNode>)
    requires Sep(tree) && InOrder(tree) == pre + [victim] + post
    ensures (set n | n in pre + post) == Nodes(tree) - {victim}
    ensures (set n | n in pre + [heir] + post) == Nodes(tree) - {victim} + {heir}
  {
    NodesInOrder(tree);
    SepDistinct(tree);
    var s := pre + [victim] + post;
    assert s[|pre|] == victim;
    forall i | 0 <= i < |pre| ensures pre[i] != victim { assert s[i] == pre[i]; }
    forall i | 0 <= i < |post| ensures post[i] != victim { assert s[|pre| + 1 + i] == post[i]; }
  }

  /** Where Replace happens and what it leaves. */
  lemma ReplacePlace(h: Links, tree: Tree, victim: RbNode, heir: RbNode, pre: seq<RbNode>, post: seq<RbNode>)
    returns (path: Path, t: Tree, bh: nat)
    requires At(h, Top, tree) && !IsRed(tree) && (exists k :: Fine(tree, k)) && h.cells.Keys == Nodes(tree)
    requires InOrder(tree) == pre + [victim] + post && heir !in h.cells
    ensures Replaceable(h, victim) && Settled(Replaced(h, victim, heir), path, t, bh)
    ensures Order(path, t) == pre + [heir] + post
    ensures Replaced(h, victim, heir).cells.Keys == h.cells.Keys - {victim} + {heir} == set n | n in Order(path, t)
  {
    hide Rep, RepPath, Sep, SepPath, Balanced, NoRedRed, Before, After, InOrder, Replaced, Replaceable;
    var whole :| Fine(tree, whole);
    var u;
    path, u := Place(h, tree, victim, pre, post);
    bh := FineUnplug(path, u, whole);
    IsReplaceable(h, path, u);
    ReplaceAt(h, path, u, heir);
    t := u.(node := heir);
    FineHeir(u, heir, bh);
    ReplaceKeys(path, u, heir, pre, post);
    KeysOfOrder(tree, pre, victim, heir, post);
  }

  lemma SpliceReady(h: Links, path: Path, t: Tree, bh: nat)
    requires Settled(h, path, t, bh) && t.Node? && (t.left.Leaf? || t.right.Leaf?)
    ensures Replaceable(h, t.node)
    ensures t.node in h.cells && h.cells[t.node] == Cell(RootOf(t.left), RootOf(t.right), Holder(path), t.color)
    ensures var h', child := Spliced(h, t.node, RootOf(OnlyChild(t))), OnlyChild(t);
            && h'.cells.Keys == h.cells.Keys - {t.node}
            && (t.color == BLACK ==> bh >= 1 && Erasing(h', path, child, bh - 1))
            && (t.color == RED ==> Settled(h', path, child, bh))
  {
    hide Rep, RepPath, Sep, SepPath, Balanced, NoRedRed, Replaceable;
    IsReplaceable(h, path, t);
    SpliceAt(h, path, t);
    SpliceFine(t, bh);
    RootCell(h, path, t);
    if t.color == BLACK {
      assert bh - 1 + 1 == bh;
    }
  }

  lemma RootCell(h: Links, path: Path, t: Tree)
    requires At(h, path, t) && t.Node?
    ensures t.node in h.cells && h.cells[t.node] == Cell(RootOf(t.left), RootOf(t.right), Holder(path), t.color)
  {
  }

  /** Going one step further left. */
  lemma WalkOn(h: Links, path: Path, t: Tree, low: Path, u: Tree)
    requires At(h, path, t) && Walked(path, t, low, u)
    ensures u.node in h.cells && h.cells[u.node].left == RootOf(u.left)
    ensures u.left.Node? ==> Walked(path, t, Under(true, u.node, u.color, u.right, low), u.left)
  {
    WalkedAt(h, path, t, low, u);
  }

  /** EraseWithTwoChildren as a whole. */
  lemma MoveEnds(h: Links, path: Path, t: Tree, bh: nat, low: Path, u: Tree) returns (bh': nat)
    requires Settled(h, path, t, bh) && Walked(path, t, low, u) && u.left.Leaf?
    ensures Movable(h, t.node, u.node)
    ensures var h', q := Moved(h, t.node, u.node), Join(low, Below(path, t, u.node));
            && h'.cells.Keys == h.cells.Keys - {t.node}
            && Order(q, u.right) == Before(path) + InOrder(t.left) + InOrder(t.right) + After(path)
            && (u.color == BLACK ==> Erasing(h', q, u.right, bh'))
            && (u.color == RED ==> Settled(h', q, u.right, bh'))
  {
    hide Rep, RepPath, Sep, SepPath, Balanced, NoRedRed, Movable, Moved, InOrder, Before, After, Order;
    MoveAt(h, path, t, low, u);
    MoveOrder(path, t, low, u);
    var q0 := Join(low, Below(path, t, t.node));
    JoinPlug(low, Below(path, t, t.node), u);
    FinePlug(path, t, bh);
    var k := FineUnplug(q0, u, PlugHeight(path, bh));
    JoinAround(low, Below(path, t, t.node), u.node, k);
    SpliceFine(u, k);
    if u.color == BLACK {
      bh' := k - 1;
      assert bh' + 1 == k;
    } else {
      bh' := k;
    }
  }

  lemma {:induction false} JoinPlug(low: Path, high: Path, t: Tree)
    ensures Plug(Join(low, high), t) == Plug(high, Plug(low, t))
    decreases low
  {
    if low.Under? { JoinPlug(low.rest, high, Make(low.side, t, low.node, low.color, low.other)); }
  }

  /** What MoveLinks reads and where the hole is afterwards. */
  lemma MoveHolder(h: Links, path: Path, t: Tree, low: Path, u: Tree)
    requires At(h, path, t) && Walked(path, t, low, u) && u.left.Leaf?
    ensures Movable(h, t.node, u.node)
    ensures h.cells[u.node].right == RootOf(u.right) && h.cells[u.node].color == u.color
    ensures Holder(Join(low, Below(path, t, u.node))) == if h.cells[u.node].parent == t.node then u.node
              else h.cells[u.node].parent
    ensures var p := h.cells[t.node].parent;
            p != null ==> (h.cells[p].left == t.node) != (h.cells[p].right == t.node)
  {
    hide Rep, RepPath, Sep, SepPath, Plug;
    MoveReady(h, path, t, low, u);
    if path.Under? { OneSide(h, path, t); }
    if low.Under? {
      WalkedHolder(h, path, t, low, u);
    }
  }

  lemma WalkedHolder(h: Links, path: Path, t: Tree, low: Path, u: Tree)
    requires At(h, path, t) && Walked(path, t, low, u) && low.Under?
    ensures low.node != t.node
  {
    WalkedNodes(low, u);
  }

  /** The part that Erase works on, with the rules, and the order without its root. */
  lemma ErasePlace(h: Links, tree: Tree, n: RbNode, pre: seq<RbNode>, post: seq<RbNode>)
    returns (path: Path, t: Tree, bh: nat)
    requires At(h, Top, tree) && !IsRed(tree) && (exists k :: Fine(tree, k)) && h.cells.Keys == Nodes(tree)
    requires InOrder(tree) == pre + [n] + post
    ensures Settled(h, path, t, bh) && t.Node? && t.node == n
    ensures Before(path) + InOrder(t.left) + InOrder(t.right) + After(path) == pre + post
    ensures h.cells.Keys - {n} == set m | m in pre + post
    ensures n in h.cells && h.cells[n] == Cell(RootOf(t.left), RootOf(t.right), Holder(path), t.color)
  {
    hide Rep, RepPath, Sep, SepPath, Balanced, NoRedRed, Before, After, InOrder;
    var whole :| Fine(tree, whole);
    path, t := Place(h, tree, n, pre, post);
    bh := FineUnplug(path, t, whole);
    KeysOfOrder(tree, pre, n, n, post);
    RootCell(h, path, t);
    assert Before(path) + InOrder(t.left) + InOrder(t.right) + After(path) == pre + post;
  }

  // ---- neighbours ----

  function Last(s: seq<RbNode>): RbNode
    requires s != []
  {
    s[|s| - 1]
  }

  /** Going right keeps the last node in order. */
  lemma GoRight(h: Links, u: Tree, p: RbNode?)
    requires u.Node? && Rep(h, u, p)
    ensures u.node in h.cells && h.cells[u.node].right == RootOf(u.right) && Rep(h, u.right, u.node)
    ensures InOrder(u) != [] && (u.right.Leaf? ==> Last(InOrder(u)) == u.node)
    ensures u.right.Node? ==> InOrder(u.right) != [] && Last(InOrder(u)) == Last(InOrder(u.right))
  {
  }

  lemma GoLeft(h: Links, u: Tree, p: RbNode?)
    requires u.Node? && Rep(h, u, p)
    ensures u.node in h.cells && h.cells[u.node].left == RootOf(u.left) && Rep(h, u.left, u.node)
    ensures InOrder(u) != [] && (u.left.Leaf? ==> InOrder(u)[0] == u.node)
    ensures u.left.Node? ==> InOrder(u.left) != [] && InOrder(u)[0] == InOrder(u.left)[0]
  {
  }

  /** Going up from a right child keeps what comes after. */
  lemma GoUp(h: Links, path: Path, t: Tree)
    requires At(h, path, t) && t.Node?
    ensures t.node in h.cells && h.cells[t.node].parent == Holder(path)
    ensures path.Top? ==> After(path) == []
    ensures path.Under? ==> path.node in h.cells && (h.cells[path.node].right == t.node <==> !path.side)
    ensures path.Under? && path.side ==> After(path) != [] && After(path)[0] == path.node
    ensures path.Under? && !path.side ==>
              After(path) == After(path.rest) && At(h, path.rest, Make(path.side, t, path.node, path.color, path.other))
  {
    if path.Under? {
      OneSide(h, path, t);
      ZoomOut(h, path, t);
    }
  }

  lemma MakeRoot(side: bool, near: Tree, node: RbNode, color: Color, far: Tree)
    ensures Make(side, near, node, color, far).Node? && Make(side, near, node, color, far).node == node
  {
  }

  lemma EmptyOrder()
    ensures InOrder(Leaf) == []
  {
  }
}
