/**
 MemoryRegion: every free area is a node of the red-black tree, ordered by address, and sits in one
 of 1024 size buckets. `info` and `filed` mirror the area fields and bucket numbers of the nodes.
 */
module MemoryRegion {
  import opened RbTree
  import opened NetRbTree
  import opened FreeSpans
  import opened Results

  class MemoryRegion {
    const mRoot: NetRbTree
    var freeHead: seq<seq<RbNode>>
    var freeCnt: seq<int>
    var freeSize: nat

    ghost var info: Areas
    ghost var filed: map<RbNode, nat>

    constructor ()
      ensures Valid() && freeSize == 0 && Spans() == [] && fresh(mRoot) && mRoot.cells == map[]
    {
      mRoot := new NetRbTree();
      freeHead := seq(FREE_LIST_NUM, _ => []);
      freeCnt := seq(FREE_LIST_NUM, _ => 0);
      freeSize := 0;
      info := map[];
      filed := map[];
      new;
      mRoot.Empty();
    }

    /** The mirrors are right. */
    ghost predicate Mirrored()
      reads this`info, this`filed, info.Keys`startAddress, info.Keys`endAddress, info.Keys`length, filed.Keys`index
    {
      && (forall n {:trigger info[n]} :: n in info ==> Area(n.startAddress, n.endAddress, n.length) == info[n])
      && (forall n {:trigger filed[n]} :: n in filed ==> n.index == filed[n])
    }

    ghost function Order(): seq<RbNode>
      reads mRoot`tree
    {
      InOrder(mRoot.tree)
    }

    /** Tree, areas, buckets and a given total of free bytes agree. */
    ghost predicate Holds(size: int)
      reads this`info, this`filed, this`freeHead, this`freeCnt, mRoot, mRoot.cells.Keys, info.Keys, filed.Keys
    {
      && mRoot.Valid() && Mirrored()
      && RegionOk(Order(), info, filed, size) && Filed(freeHead, freeCnt, filed)
    }

    ghost predicate Valid()
      reads this, mRoot, mRoot.cells.Keys, info.Keys, filed.Keys
    {
      Holds(freeSize)
    }

    ghost function Spans(): seq<Span>
      reads this`info, mRoot`tree
    {
      AllSpans(Order(), info)
    }

    // ---- fields and buckets of one node ----

    method SetArea(n: RbNode, start: nat, end: nat, length: nat)
      requires Mirrored()
      modifies this`info, n`startAddress, n`endAddress, n`length
      ensures Mirrored() && info == old(info)[n := Area(start, end, length)]
      ensures n.startAddress == start && n.endAddress == end && n.length == length
    {
      n.startAddress, n.endAddress, n.length := start, end, length;
      info := info[n := Area(start, end, length)];
    }

    lemma Fields(n: RbNode)
      requires Mirrored() && n in info
      ensures n.startAddress == info[n].start && n.endAddress == info[n].end && n.length == info[n].length
    {
    }

    /** The node no longer stands for an area. */
    ghost method Forget(n: RbNode)
      requires Mirrored()
      modifies this`info
      ensures Mirrored() && info == old(info) - {n}
    {
      info := info - {n};
    }

    /** RemoveSelf on the list node, and the counter of its bucket. */
    method FromBucket(n: RbNode)
      requires Mirrored() && Filed(freeHead, freeCnt, filed) && n in filed
      modifies this`freeHead, this`freeCnt, this`filed
      ensures Mirrored() && Filed(freeHead, freeCnt, filed) && filed == old(filed) - {n}
      ensures freeHead == Without(old(freeHead), n)
    {
      UnfileKeeps(freeHead, freeCnt, filed, n);
      freeHead := Without(freeHead, n);
      freeCnt := freeCnt[n.index := freeCnt[n.index] - 1];
      filed := filed - {n};
    }

    method ToBucket(n: RbNode, index: nat)
      requires Mirrored() && Filed(freeHead, freeCnt, filed) && n !in filed && index < FREE_LIST_NUM
      modifies this`freeHead, this`freeCnt, this`filed, n`index
      ensures Mirrored() && Filed(freeHead, freeCnt, filed) && filed == old(filed)[n := index]
      ensures freeHead == old(freeHead)[index := old(freeHead)[index] + [n]]
    {
      FileKeeps(freeHead, freeCnt, filed, n, index);
      n.index := index;
      freeHead := freeHead[index := freeHead[index] + [n]];
      freeCnt := freeCnt[index := freeCnt[index] + 1];
      filed := filed[n := index];
    }

    /** The nodes of the tree are those with areas. */
    lemma SameNodes(size: int)
      requires Holds(size)
      ensures mRoot.cells.Keys == info.Keys == filed.Keys && info.Keys == set n | n in Order()
    {
      hide Filed;
      NodesInOrder(mRoot.tree);
    }

    // ---- freeing ----

    /** keep gets its new extent and bucket; gone leaves its bucket. */
    method Regrow(keep: RbNode, gone: RbNode, start: nat, end: nat, length: nat, index: nat)
      requires Mirrored() && Filed(freeHead, freeCnt, filed) && keep in filed && gone in filed && keep != gone
      requires index < FREE_LIST_NUM
      modifies this`freeHead, this`freeCnt, this`info, this`filed, keep`startAddress, keep`endAddress, keep`length,
               keep`index
      ensures Mirrored() && Filed(freeHead, freeCnt, filed)
      ensures info == old(info)[keep := Area(start, end, length)] && filed == (old(filed) - {gone})[keep := index]
    {
      hide Filed, Mirrored;
      SetArea(keep, start, end, length);
      FromBucket(gone);
      FromBucket(keep);
      ToBucket(keep, index);
      Refiled(old(filed), keep, gone, index);
    }

    /** keep takes over the freed block after it and the area `gone` after that. */
    method MergeInto(keep: RbNode, gone: RbNode, a: nat, length: nat, index: nat,
                     ghost pre: seq<RbNode>, ghost post: seq<RbNode>, ghost size: int)
      requires Holds(size) && Order() == pre + [keep, gone] + post && keep in info && gone in info && keep != gone
      requires info[keep].end == a && a + length == info[gone].start && length > 0
      requires index == FreedIndex(info[keep].length + length + info[gone].length) < FREE_LIST_NUM
      modifies this`freeHead, this`freeCnt, this`info, this`filed, mRoot, mRoot.cells.Keys
      ensures Holds(size + length) && Gained(old(Spans()), Spans(), a, a + length)
      ensures info.Keys <= old(info.Keys)
      ensures FilesKept(old(Spans()), old(Filings()), Spans(), Filings(), old(info)[keep].start, index)
    {
      hide RegionOk, Filed, Gained, FreedIndex, IndexFits, NetRbTree.Valid, Mirrored, AllSpans, AllFilings, FilesKept;
      SameNodes(size);
      Fields(keep);
      Fields(gone);
      ghost var was, areas := info, (info - {gone})[keep := Area(info[keep].start, info[gone].end,
          info[keep].length + length + info[gone].length)];
      Regrow(keep, gone, keep.startAddress, gone.endAddress, keep.length + length + gone.length, index);
      FreedFits(areas[keep].length);
      AddBetween(pre, keep, gone, post, was, old(filed), size, a, length, index);
      SwapFiles(Order(), pre + [keep] + post, was, old(filed), size, size + length, gone, keep, areas[keep], index);
      assert pre + [keep, gone] + post == (pre + [keep]) + [gone] + post;
      mRoot.Erase(gone, pre + [keep], post);
      Forget(gone);
      assert info == areas;
    }

    /** newMa gets an extent and a bucket; ma leaves its bucket. */
    method Succeed(newMa: RbNode, ma: RbNode, start: nat, end: nat, length: nat, index: nat)
      requires Mirrored() && Filed(freeHead, freeCnt, filed) && newMa !in filed && ma in filed && index < FREE_LIST_NUM
      modifies this`freeHead, this`freeCnt, this`info, this`filed, newMa`startAddress, newMa`endAddress, newMa`length,
               newMa`index
      ensures Mirrored() && Filed(freeHead, freeCnt, filed)
      ensures info == old(info)[newMa := Area(start, end, length)] && filed == (old(filed) - {ma})[newMa := index]
    {
      hide Filed, Mirrored;
      SetArea(newMa, start, end, length);
      FromBucket(ma);
      ToBucket(newMa, index);
    }

    /** newMa stands in tree and buckets where ma stood, with the given extent. */
    method TakePlace(newMa: RbNode, ma: RbNode, start: nat, end: nat, length: nat, index: nat,
                     ghost pre: seq<RbNode>, ghost post: seq<RbNode>, ghost size: int)
      requires Holds(size) && Order() == pre + [ma] + post && newMa !in info && ma in info && index < FREE_LIST_NUM
      modifies this`freeHead, this`freeCnt, this`info, this`filed, mRoot, mRoot.cells.Keys, newMa
      ensures mRoot.Valid() && Mirrored() && Filed(freeHead, freeCnt, filed) && Order() == pre + [newMa] + post
      ensures info == (old(info) - {ma})[newMa := Area(start, end, length)]
                && filed == (old(filed) - {ma})[newMa := index]
      ensures mRoot.cells.Keys == old(mRoot.cells.Keys) - {ma} + {newMa}
    {
      hide RegionOk, Filed, NetRbTree.Valid, Mirrored;
      SameNodes(size);
      Succeed(newMa, ma, start, end, length, index);
      mRoot.Replace(ma, newMa, pre, post);
      Forget(ma);
      SwapKeys(old(info), ma, newMa, Area(start, end, length));
    }

    /** newMa takes the place of ma, with the freed block in front. */
    method ExtendFront(newMa: RbNode, ma: RbNode, a: nat, length: nat, index: nat,
                       ghost pre: seq<RbNode>, ghost post: seq<RbNode>, ghost size: int)
      requires Holds(size) && Order() == pre + [ma] + post && newMa !in info && ma in info
      requires a + length == info[ma].start && length > 0
                 && index == FreedIndex(length + info[ma].length) < FREE_LIST_NUM
      requires forall m :: m in pre ==> m in info && info[m].end < a
      modifies this`freeHead, this`freeCnt, this`info, this`filed, mRoot, mRoot.cells.Keys, newMa
      ensures Holds(size + length) && Gained(old(Spans()), Spans(), a, a + length)
      ensures info.Keys <= old(info.Keys) + {newMa}
      ensures FilesKept(old(Spans()), old(Filings()), Spans(), Filings(), a, index)
    {
      hide RegionOk, Filed, Gained, FreedIndex, IndexFits, NetRbTree.Valid, Mirrored, AllSpans, AllFilings, FilesKept;
      Fields(ma);
      FreedFits(length + ma.length);
      AddBefore(pre, ma, post, info, filed, size, newMa, a, length, index);
      SwapFiles(Order(), pre + [newMa] + post, info, filed, size, size + length, ma, newMa,
                Area(a, ma.endAddress, length + ma.length), index);
      TakePlace(newMa, ma, a, ma.endAddress, length + ma.length, index, pre, post, size);
    }

    /** ma gets a new extent and bucket. */
    method Resize(ma: RbNode, start: nat, end: nat, length: nat, index: nat)
      requires Mirrored() && Filed(freeHead, freeCnt, filed) && ma in filed && index < FREE_LIST_NUM
      modifies this`freeHead, this`freeCnt, this`info, this`filed, ma`startAddress, ma`endAddress, ma`length, ma`index
      ensures Mirrored() && Filed(freeHead, freeCnt, filed)
      ensures info == old(info)[ma := Area(start, end, length)] && filed == old(filed)[ma := index]
    {
      hide Filed, Mirrored;
      SetArea(ma, start, end, length);
      FromBucket(ma);
      ToBucket(ma, index);
      assert (old(filed) - {ma})[ma := index] == old(filed)[ma := index];
    }

    /** ma grows over the freed block behind it. */
    method ExtendBack(ma: RbNode, a: nat, length: nat, index: nat, ghost pre: seq<RbNode>, ghost post: seq<RbNode>,
                      ghost size: int)
      requires Holds(size) && Order() == pre + [ma] + post && ma in info
      requires a == info[ma].end && index == FreedIndex(info[ma].length + length) < FREE_LIST_NUM
      requires forall m :: m in post ==> m in info && a + length < info[m].start
      modifies this`freeHead, this`freeCnt, this`info, this`filed, ma`startAddress, ma`endAddress, ma`length, ma`index
      ensures Holds(size + length) && Gained(old(Spans()), Spans(), a, a + length)
      ensures info.Keys == old(info.Keys)
      ensures FilesKept(old(Spans()), old(Filings()), Spans(), Filings(), old(info)[ma].start, index)
    {
      hide RegionOk, Filed, Gained, FreedIndex, IndexFits, NetRbTree.Valid, Mirrored, AllSpans, AllFilings, FilesKept;
      SameNodes(size);
      Fields(ma);
      FreedFits(ma.length + length);
      AddAfter(pre, ma, post, info, filed, size, a, length, index);
      NewFiles(Order(), Order(), info, filed, size, size + length, ma,
          Area(ma.startAddress, a + length, ma.length + length),
               index);
      Resize(ma, ma.startAddress, a + length, ma.length + length, index);
    }

    /** A block that touches no free area becomes a leaf of the tree. */
    method AddNew(newMa: RbNode, a: nat, length: nat, index: nat, parent: RbNode?, side: bool, ghost path: Path,
                  ghost size: int)
      requires Holds(size) && newMa !in info && length > 0 && index == FreedIndex(length) < FREE_LIST_NUM
      requires Plug(path, Leaf) == mRoot.tree && Holder(path) == parent && (path.Under? ==> path.side == side)
      requires Between(Before(path), After(path), info, a, a + length)
      modifies this`freeHead, this`freeCnt, this`info, this`filed, mRoot, mRoot.cells.Keys, newMa
      ensures Holds(size + length) && Gained(old(Spans()), Spans(), a, a + length)
      ensures info.Keys == old(info.Keys) + {newMa}
      ensures Order() == Before(path) + [newMa] + After(path) && filed == old(filed)[newMa := index]
      ensures info == old(info)[newMa := Area(a, a + length, length)]
      ensures FilesKept(old(Spans()), old(Filings()), Spans(), Filings(), a, index)
      ensures path.Under? && path.color == BLACK ==> mRoot.tree == Plug(path, Node(Leaf, newMa, RED, Leaf))
    {
      hide RegionOk, Filed, Gained, FreedIndex, IndexFits, NetRbTree.Valid, Mirrored, AllSpans, AllFilings, FilesKept,
           InOrder, Before, After,
           Plug;
      SameNodes(size);
      FreedFits(length);
      EmptyPlace(path, mRoot.tree);
      AddLone(Before(path), After(path), info, filed, size, newMa, a, length, index);
      NewFiles(Order(), Before(path) + [newMa] + After(path), info, filed, size, size + length, newMa,
               Area(a, a + length, length), index);
      SetArea(newMa, a, a + length, length);
      ToBucket(newMa, index);
      mRoot.Add(newMa, parent, side, path);
    }

    /** The place of t in the tree, as a cut of the order. */
    lemma PlaceOf(path: Path, t: Tree, size: int)
      requires Holds(size) && t.Node? && Plug(path, t) == mRoot.tree
      ensures At(mRoot.L(), path, t) && t.node in info
      ensures Order() == (Before(path) + InOrder(t.left)) + [t.node] + (InOrder(t.right) + After(path))
      ensures Known(Order(), info)
    {
      hide Filed;
      UnplugAt(mRoot.L(), path, t);
      PlugInOrder(path, t);
      InnerOrder(path, t);
      assert t.node in Order();
    }

    /** What a merge that is given up leaves behind: keep has grown, and both areas are in no bucket. */
    method Strand(keep: RbNode, gone: RbNode, a: nat, length: nat, ghost size: int)
      requires Holds(size) && keep in info && gone in info && keep != gone
      requires info[keep].end == a && a + length == info[gone].start
      modifies this`freeHead, this`freeCnt, this`info, this`filed, keep`endAddress, keep`length, keep`startAddress
      ensures Buckets() && Stranded(old(info), old(filed), info, filed, keep, gone, a, length)
    {
      hide Without;
      hide RegionOk, Filed, IndexFits, NetRbTree.Valid, Mirrored;
      SameNodes(size);
      Fields(keep);
      Fields(gone);
      SetArea(keep, keep.startAddress, gone.endAddress, keep.length + length + gone.length);
      FromBucket(gone);
      FromBucket(keep);
    }

    /** What the bucket scan relies on: mirrors and buckets are right, and every area in one is described. */
    ghost predicate Buckets()
      reads this`info, this`filed, this`freeHead, this`freeCnt, info.Keys, filed.Keys
    {
      Mirrored() && Filed(freeHead, freeCnt, filed) && filed.Keys <= info.Keys
    }

    /** The branch of MemoryAreaInsertPre for a block between two free areas. */
    method MergeBoth(neighb: RbNode, ma: RbNode, a: nat, length: nat, ghost pre: seq<RbNode>, ghost post: seq<RbNode>,
                     ghost size: int)
      requires Holds(size) && Order() == pre + [neighb, ma] + post && neighb in info && ma in info && neighb != ma
      requires info[neighb].end == a && a + length == info[ma].start && length > 0
      modifies this`freeHead, this`freeCnt, this`info, this`filed, mRoot, mRoot.cells.Keys
      ensures Pages(old(info)[neighb].length + length + old(info)[ma].length) > 0 ==>
                && Holds(size + length) && Gained(old(Spans()), Spans(), a, a + length) && info.Keys <= old(info.Keys)
                && FilesKept(old(Spans()), old(Filings()), Spans(), Filings(), old(info)[neighb].start,
                     FreedIndex(old(info)[neighb].length + length + old(info)[ma].length))
      ensures Pages(old(info)[neighb].length + length + old(info)[ma].length) == 0 ==>
                && Buckets() && Stranded(old(info), old(filed), info, filed, neighb, ma, a, length)
                && unchanged(mRoot)
    {
      hide AllFilings, FilesKept;
      hide RegionOk, Filed, Gained, FreedIndex, IndexFits, NetRbTree.Valid, Mirrored, AllSpans, Pages, InOrder,
           Stranded;
      SameNodes(size);
      Fields(ma);
      Fields(neighb);
      var index := Pages(neighb.length + length + ma.length);
      if index == 0 {
        Strand(neighb, ma, a, length, size);
        return;
      }
      PagesIndex(neighb.length + length + ma.length);
      index := if index >= FREE_LIST_NUM then FREE_LIST_NUM - 1 else index - 1;
      MergeInto(neighb, ma, a, length, index, pre, post, size);
    }

    /** MemoryAreaInsertPre: the block ends where ma begins. Prev sees the left subtree only; an area
        further up that touches the block would have ended the descent. With an area on both sides and a
        page count of 0 in 32 bits the merge is given up halfway; with ma alone that count makes a bucket
        number outside the array. */
    method MemoryAreaInsertPre(newMa: RbNode, ma: RbNode, a: nat, length: nat, ghost path: Path, ghost t: Tree,
                               ghost size: int)
      returns (ghost p: RbNode)
      requires Holds(size) && newMa !in info && t.Node? && t.node == ma && Plug(path, t) == mRoot.tree && length > 0
      requires ma in info && a + length == info[ma].start && Between(Before(path), After(path), info, a, a + length)
      requires Clear(Spans(), a, a + length)
      requires Pages(Joined(Spans(), a, a + length)) > 0 || RunStart(Spans(), a) < a
      modifies this`freeHead, this`freeCnt, this`info, this`filed, mRoot, mRoot.cells.Keys, newMa
      ensures old(Pages(Joined(Spans(), a, a + length))) > 0 ==>
                && Holds(size + length) && Gained(old(Spans()), Spans(), a, a + length)
                && info.Keys <= old(info.Keys) + {newMa}
                && FilesKept(old(Spans()), old(Filings()), Spans(), Filings(), old(RunStart(Spans(), a)),
                     FreedIndex(old(Joined(Spans(), a, a + length))))
      ensures old(Pages(Joined(Spans(), a, a + length))) == 0 ==>
                && Buckets() && Stranded(old(info), old(filed), info, filed, p, ma, a, length)
                && unchanged(mRoot)
    {
      hide AllFilings, FilesKept;
      hide RegionOk, Filed, Gained, FreedIndex, IndexFits, NetRbTree.Valid, Mirrored, AllSpans, InOrder, Before, After,
           Plug, At, Clear;
      hide Joined, Pages, PreIndex, RunStart, Stranded, Buckets;
      p := ma;
      PlaceOf(path, t, size);
      SameNodes(size);
      Fields(ma);
      ghost var pre, post := Before(path) + InOrder(t.left), InOrder(t.right) + After(path);
      PlainSynced();
      mRoot.InTree(ma, path, t);
      var neighb := mRoot.Prev(ma, path, t);
      PrevLands(path, t, info, filed, size, a, a + length, neighb);
      if neighb != null {
        Fields(neighb);
        if neighb.endAddress == a {
          JoinedBoth(pre, ma, post, info, filed, size, a, a + length);
          p := neighb;
          MergeBoth(neighb, ma, a, length, pre[..|pre| - 1], post, size);
          return;
        }
      }
      JoinedRight(pre, ma, post, info, filed, size, a, a + length);
      PreIndexIs(length + ma.length);
      ExtendFront(newMa, ma, a, length, PreIndex(length + ma.length), pre, post, size);
    }

    lemma PlainSynced()
      requires mRoot.Valid()
      ensures mRoot.Synced()
    {
    }

    /** MemoryAreaInsertNext: the block begins where ma ends. */
    method MemoryAreaInsertNext(ma: RbNode, a: nat, length: nat, ghost path: Path, ghost t: Tree, ghost size: int)
      requires Holds(size) && t.Node? && t.node == ma && Plug(path, t) == mRoot.tree
      requires ma in info && a == info[ma].end && Clear(Spans(), a, a + length)
      modifies this`freeHead, this`freeCnt, this`info, this`filed, mRoot, mRoot.cells.Keys
      ensures Holds(size + length) && Gained(old(Spans()), Spans(), a, a + length)
      ensures info.Keys <= old(info.Keys)
      ensures FilesKept(old(Spans()), old(Filings()), Spans(), Filings(), old(RunStart(Spans(), a)),
                     FreedIndex(old(Joined(Spans(), a, a + length))))
    {
      hide Joined, RunStart, AllFilings, FilesKept;
      hide RegionOk, Filed, Gained, FreedIndex, IndexFits, NetRbTree.Valid, Mirrored, AllSpans, InOrder, Before, After,
           Plug, At, Clear;
      PlaceOf(path, t, size);
      SameNodes(size);
      Fields(ma);
      ghost var pre, post := Before(path) + InOrder(t.left), InOrder(t.right) + After(path);
      PlainSynced();
      mRoot.InTree(ma, path, t);
      var neighb := mRoot.Next(ma, path, t);
      NextLands(pre, ma, post, info, filed, size, a, a + length, neighb);
      if neighb != null {
        Fields(neighb);
        if neighb.startAddress == a + length {
          FreedBelow(ma.length + length + neighb.length);
          NextJoins(pre, ma, neighb, post[1..], info, filed, size, a, a + length);
          MergeInto(ma, neighb, a, length, FreedIndex(ma.length + length + neighb.length), pre, post[1..], size);
          return;
        }
      }
      FreedBelow(ma.length + length);
      JoinedLeft(pre, ma, post, info, filed, size, a, a + length);
      ExtendBack(ma, a, length, FreedIndex(ma.length + length), pre, post, size);
    }

    /** The descent of MemoryAreaInsert: down to the first area the block is not strictly apart from, or
        to the empty place for it. */
    method FindPlace(a: nat, b: nat, ghost size: int)
      returns (stop: RbNode?, parent: RbNode?, side: bool, ghost path: Path, ghost t: Tree)
      requires Holds(size) && a <= b
      ensures Plug(path, t) == mRoot.tree && stop == RootOf(t) && parent == Holder(path)
                && (path.Under? ==> path.side == side)
      ensures Between(Before(path), After(path), info, a, b)
      ensures stop != null ==> stop in info && info[stop].start <= b && a <= info[stop].end
      ensures Land(mRoot.tree, info, a, b) == if stop == null then InGap else
                if b == info[stop].start then InFront(stop) else if a == info[stop].end then Behind(stop)
                    else Clash(stop)
    {
      hide RegionOk, Filed, NetRbTree.Valid, Mirrored, InOrder, Plug, Between;
      path, t := Top, mRoot.tree;
      stop, parent, side := mRoot.ref, null, true;
      PlainSynced();
      BeginBetween(info, a, b);
      TopPlug(t);
      TreeRoot();
      while stop != null
        invariant Plug(path, t) == mRoot.tree && stop == RootOf(t) && parent == Holder(path)
                    && (path.Under? ==> path.side == side)
        invariant Between(Before(path), After(path), info, a, b) && Land(mRoot.tree, info, a, b) == Land(t, info, a, b)
        decreases t
      {
        PlaceOf(path, t, size);
        RootCell(mRoot.L(), path, t);
        Neighbours(Before(path) + InOrder(t.left), t.node, InOrder(t.right) + After(path), info, filed, size);
        Fields(stop);
        if b == stop.startAddress {
          return;
        } else if b < stop.startAddress {
          StepLeft(path, t, info, filed, size, a, b);
          path, t, parent, side, stop := Under(true, t.node, t.color, t.right, path), t.left, stop, true, stop.left;
        } else if a == stop.endAddress {
          return;
        } else if a > stop.endAddress {
          StepRight(path, t, info, filed, size, a, b);
          path, t, parent, side, stop := Under(false, t.node, t.color, t.left, path), t.right, stop, false, stop.right;
        } else {
          return;
        }
      }
    }

    lemma TreeRoot()
      requires mRoot.Valid()
      ensures mRoot.ref == RootOf(mRoot.tree)
    {
    }

    /** The area on top of the tree. */
    ghost function TopSpan(): Span
      reads this`info, mRoot`tree
    {
      if mRoot.tree.Node? && mRoot.tree.node in info then Span(info[mRoot.tree.node].start, info[mRoot.tree.node].end)
          else Span(0, 0)
    }

    /** Under the only node there is room on both sides, and that node is black. */
    lemma BelowOne(path: Path, n: RbNode)
      requires mRoot.Valid() && Plug(path, Leaf) == mRoot.tree && |Order()| == 1
      ensures path.Under? && path.color == BLACK && path.node in Order()
      ensures RootOf(Plug(path, Node(Leaf, n, RED, Leaf))) == RootOf(mRoot.tree) == path.node
    {
      hide Rep, Sep, Before, After;
      PlugInOrder(path, Leaf);
      OneNode(path);
    }

    /** The block touches no free area: it is filed under its page count and joins the tree. */
    method InsertLone(newMa: RbNode, a: nat, length: nat, parent: RbNode?, side: bool, ghost path: Path,
                      ghost size: int) returns (result: NResult)
      requires Holds(size) && newMa !in info
      requires Plug(path, Leaf) == mRoot.tree && Holder(path) == parent && (path.Under? ==> path.side == side)
      requires Between(Before(path), After(path), info, a, a + length)
      modifies this`freeHead, this`freeCnt, this`info, this`filed, mRoot, mRoot.cells.Keys, newMa
      ensures result == if Pages(length) == 0 then NN_ERROR else NN_OK
      ensures result == NN_OK ==> Holds(size + length) && Gained(old(Spans()), Spans(), a, a + length)
      ensures result == NN_OK ==> info.Keys == old(info.Keys) + {newMa}
      ensures result == NN_OK ==> FilesKept(old(Spans()), old(Filings()), Spans(), Filings(), old(RunStart(Spans(), a)),
                     FreedIndex(old(Joined(Spans(), a, a + length))))
      ensures result == NN_OK && old(Order()) == [] ==> AllFilings(Order(), filed) == [FreedIndex(length)]
      ensures result == NN_OK && |old(Order())| == 1 ==> TopSpan() == old(TopSpan())
      ensures result != NN_OK ==> unchanged(this) && unchanged(mRoot) && unchanged(mRoot.cells.Keys)
    {
      hide Joined, RunStart, FilesKept;
      hide RegionOk, Filed, Gained, FreedIndex, NetRbTree.Valid, Mirrored, AllSpans, InOrder, Before, After, Plug,
           Between, Pages;
      var index := Pages(length);
      if index == 0 {
        return NN_ERROR;
      }
      PagesIndex(length);
      index := if index >= FREE_LIST_NUM then FREE_LIST_NUM - 1 else index - 1;
      EmptyPlace(path, mRoot.tree);
      LoneRun(Before(path), After(path), info, filed, size, a, a + length);
      SameNodes(size);
      if |Order()| == 1 { BelowOne(path, newMa); }
      AddNew(newMa, a, length, index, parent, side, path, size);
      result := NN_OK;
    }

    /** Where a block of the given extent lands in the tree. */
    ghost function Lands(a: nat, length: nat): Landing
      reads this`info, mRoot`tree
    {
      Land(mRoot.tree, info, a, a + length)
    }

    /** Buckets of the areas, in address order. */
    ghost function Filings(): seq<nat>
      reads this`filed, mRoot`tree
    {
      AllFilings(Order(), filed)
    }

    lemma SpanOf(n: RbNode)
      requires Valid() && n in info
      ensures exists i :: 0 <= i < |Spans()| && Spans()[i] == Span(info[n].start, info[n].end)
    {
      hide Filed, NetRbTree.Valid, IndexFits;
      var i :| 0 <= i < |Order()| && Order()[i] == n;
      assert Spans()[i] == Span(info[n].start, info[n].end);
    }

    /** The block fills the gap between two free areas, and the run they make has page count 0 in 32 bits. */
    ghost predicate Strands(a: nat, length: nat)
      reads this`info, mRoot`tree
    {
      Lands(a, length).InFront? && RunStart(Spans(), a) < a && Pages(Joined(Spans(), a, a + length)) == 0
    }

    /** The block is in front of one free area alone, and the run they make has page count 0 in 32 bits: the
        bucket number computed for it lies outside the array. */
    ghost predicate OutOfBuckets(a: nat, length: nat)
      reads this`info, mRoot`tree
    {
      Lands(a, length).InFront? && RunStart(Spans(), a) >= a && Pages(Joined(Spans(), a, a + length)) == 0
    }

    /** The descent ended at an area the block is not strictly apart from. */
    method Merge(newMa: RbNode, ma: RbNode, a: nat, length: nat, ghost path: Path, ghost t: Tree)
      returns (result: NResult, ghost p: RbNode)
      requires Valid() && newMa !in info && t.Node? && t.node == ma && Plug(path, t) == mRoot.tree && ma in info
      requires Between(Before(path), After(path), info, a, a + length)
      requires Lands(a, length) ==
                 if a + length == info[ma].start then InFront(ma) else if a == info[ma].end then Behind(ma)
                     else Clash(ma)
      requires Clear(Spans(), a, a + length) || Lands(a, length).Clash?
      requires (forall i :: 0 <= i < |Spans()| ==> Spans()[i].start != a) && !OutOfBuckets(a, length)
      modifies this`freeHead, this`freeCnt, this`info, this`filed, mRoot, mRoot.cells.Keys, newMa
      ensures result == if old(Lands(a, length)).Clash? then NN_ERROR else NN_OK
      ensures result == NN_OK && !old(Strands(a, length)) ==>
                && Holds(freeSize + length) && Gained(old(Spans()), Spans(), a, a + length)
                && info.Keys <= old(info.Keys) + {newMa}
                && FilesKept(old(Spans()), old(Filings()), Spans(), Filings(), old(RunStart(Spans(), a)),
                     FreedIndex(old(Joined(Spans(), a, a + length))))
      ensures result == NN_OK && old(Strands(a, length)) ==>
                Buckets() && Stranded(old(info), old(filed), info, filed, p, ma, a, length) && unchanged(mRoot)
      ensures result != NN_OK ==> unchanged(this) && unchanged(mRoot) && unchanged(mRoot.cells.Keys)
    {
      hide AllFilings, FilesKept;
      hide RegionOk, Filed, Gained, FreedIndex, IndexFits, NetRbTree.Valid, Mirrored, AllSpans, InOrder, Before, After,
           Plug, At, Clear;
      hide Joined, Pages, Land, Between, RunStart, Stranded, Buckets;
      result, p := NN_OK, newMa;
      Fields(ma);
      if a + length == ma.startAddress {
        SpanOf(ma);
        p := MemoryAreaInsertPre(newMa, ma, a, length, path, t, freeSize);
      } else if a == ma.endAddress {
        MemoryAreaInsertNext(ma, a, length, path, t, freeSize);
      } else {
        result := NN_ERROR;
      }
    }

    /** Finds the place of the block and puts it there; the caller counts its bytes. */
    method Put(newMa: RbNode, a: nat, length: nat) returns (result: NResult, ghost p: RbNode, ghost m: RbNode)
      requires Valid() && newMa !in info
      requires Clear(Spans(), a, a + length) || Lands(a, length).Clash?
      requires (forall i :: 0 <= i < |Spans()| ==> Spans()[i].start != a) && !OutOfBuckets(a, length)
      modifies this`freeHead, this`freeCnt, this`info, this`filed, mRoot, mRoot.cells.Keys, newMa
      ensures result == if old(Lands(a, length)).Clash? || (old(Lands(a, length)).InGap?
                && Pages(length) == 0) then NN_ERROR else NN_OK
      ensures result == NN_OK && !old(Strands(a, length)) ==>
                && Holds(freeSize + length) && Gained(old(Spans()), Spans(), a, a + length)
                && info.Keys <= old(info.Keys) + {newMa}
                && FilesKept(old(Spans()), old(Filings()), Spans(), Filings(), old(RunStart(Spans(), a)),
                     FreedIndex(old(Joined(Spans(), a, a + length))))
      ensures result == NN_OK && old(Strands(a, length)) ==>
                Buckets() && Stranded(old(info), old(filed), info, filed, p, m, a, length) && unchanged(mRoot)
      ensures result != NN_OK ==> unchanged(this) && unchanged(mRoot) && unchanged(mRoot.cells.Keys)
      ensures result == NN_OK && old(Order()) == [] ==> Filings() == [FreedIndex(length)]
      ensures result == NN_OK && |old(Order())| == 1 && old(Lands(a, length)).InGap? ==> TopSpan() == old(TopSpan())
    {
      hide FilesKept;
      hide RegionOk, Filed, Gained, FreedIndex, IndexFits, NetRbTree.Valid, Mirrored, AllSpans, InOrder, Before, After,
           Plug, At, Clear;
      hide Joined, Pages, Land, Between, RunStart, Stranded, Buckets, TopSpan, Holder;
      SameNodes(freeSize);
      p, m := newMa, newMa;
      var stop, parent, side;
      ghost var path, t;
      stop, parent, side, path, t := FindPlace(a, a + length, freeSize);
      if stop != null {
        m := stop;
        result, p := Merge(newMa, stop, a, length, path, t);
      } else {
        result := InsertLone(newMa, a, length, parent, side, path, freeSize);
      }
    }

    /** Puts a block back: it becomes free and nothing else changes, or the call fails and nothing changes
        at all. It fails for address 0, for a block the descent finds to overlap a free area, and for a
        block that touches no free area and whose page count is 0 in 32 bits. A block that strands reports
        success and leaves both its neighbours in the tree, one grown over the other, and in no bucket.
        A block must be apart from all free areas or found to overlap one that begins elsewhere (its node
        is written over its first bytes), and must not make a bucket number outside the array. */
    method MemoryAreaInsert(startAddress: nat, length: nat) returns (result: NResult, ghost p: RbNode, ghost m: RbNode)
      requires Valid()
      requires Clear(Spans(), startAddress, startAddress + length) || Lands(startAddress, length).Clash?
      requires forall i :: 0 <= i < |Spans()| ==> Spans()[i].start != startAddress
      requires !OutOfBuckets(startAddress, length)
      modifies this, mRoot, mRoot.cells.Keys
      ensures !old(Strands(startAddress, length)) || startAddress == 0 ==> Valid()
      ensures fresh(mRoot.cells.Keys - old(mRoot.cells.Keys))
      ensures result == NN_ERROR <==>
                || startAddress == 0 || old(Lands(startAddress, length)).Clash?
                || (old(Lands(startAddress, length)).InGap? && Pages(length) == 0)
      ensures result == NN_OK <==> result != NN_ERROR
      ensures result == NN_OK ==> freeSize == old(freeSize) + length
      ensures result == NN_OK && !old(Strands(startAddress, length)) ==>
                && Gained(old(Spans()), Spans(), startAddress, startAddress + length)
                && FilesKept(old(Spans()), old(Filings()), Spans(), Filings(), old(RunStart(Spans(), startAddress)),
                     FreedIndex(old(Joined(Spans(), startAddress, startAddress + length))))
      ensures result == NN_OK && old(Strands(startAddress, length)) ==>
                && Buckets() && Stranded(old(info), old(filed), info, filed, p, m, startAddress, length)
                && Order() == old(Order())
      ensures result == NN_ERROR ==> Spans() == old(Spans()) && Filings() == old(Filings()) && freeSize == old(freeSize)
      ensures result == NN_OK && old(Order()) == [] ==> Filings() == [FreedIndex(length)]
      ensures result == NN_OK && |old(Order())| == 1 && old(Lands(startAddress, length)).InGap? ==>
                TopSpan() == old(TopSpan())
    {
      hide FilesKept;
      hide RegionOk, Filed, Gained, FreedIndex, IndexFits, NetRbTree.Valid, Mirrored, AllSpans, InOrder, Clear, Joined,
           Pages, Land;
      hide RunStart, Stranded, Buckets, TopSpan;
      SameNodes(freeSize);
      var newMa := new RbNode(startAddress, startAddress + length, length);
      p, m := newMa, newMa;
      if startAddress == 0 {
        return NN_ERROR, p, m;
      }
      result, p, m := Put(newMa, startAddress, length);
      if result != NN_OK {
        return;
      }
      freeSize := freeSize + length;
      if !old(Strands(startAddress, length)) { SameNodes(freeSize); }
    }

    // ---- allocating ----

    /** The node is in the list, and no node before it is long enough. */
    ghost predicate FirstLong(list: seq<RbNode>, ma: RbNode, length: nat)
      reads list
    {
      exists j :: 0 <= j < |list| && list[j] == ma && forall i :: 0 <= i < j ==> list[i].length < length
    }

    /** The bucket scan: the first area from the bucket of the request on that is long enough. */
    method FindArea(length: nat) returns (ma: RbNode?)
      requires Buckets()
      ensures ma != null ==> ma in info && ma in filed && length <= info[ma].length && FreedIndex(length) <= filed[ma]
      ensures ma != null ==>
                && (forall n :: n in filed && FreedIndex(length) <= filed[n] < filed[ma] ==>
                     n in info && info[n].length < length)
                && FirstLong(freeHead[filed[ma]], ma, length)
      ensures ma == null ==> forall n :: n in info && n in filed ==>
                info[n].length < length || filed[n] < FreedIndex(length)
    {
      hide FreedIndex;
      FreedBelow(length);
      var areaIndex := FreedIndex(length);
      while areaIndex < FREE_LIST_NUM
        invariant FreedIndex(length) <= areaIndex <= FREE_LIST_NUM
        invariant forall n :: n in filed && FreedIndex(length) <= filed[n] < areaIndex ==> info[n].length < length
      {
        var list, j := freeHead[areaIndex], 0;
        while j < |list|
          invariant 0 <= j <= |list|
          invariant forall i :: 0 <= i < j ==>
                      list[i] in info && info[list[i]].length < length && list[i].length < length
        {
          assert list[j] in freeHead[areaIndex];
          Fields(list[j]);
          if list[j].length >= length {
            assert FirstLong(list, list[j], length);
            return list[j];
          }
          j := j + 1;
        }
        areaIndex := areaIndex + 1;
      }
      ma := null;
    }

    /** Takes a block of the given length: the front of the first area found, or all of it. A request of
        length 0 gets the address of an area that stays free. */
    method MemoryAreaRemove(length: nat) returns (result: NResult, startAddress: nat)
      requires Valid()
      modifies this, mRoot, mRoot.cells.Keys
      ensures Valid() && fresh(mRoot.cells.Keys - old(mRoot.cells.Keys))
      ensures result == NN_OK <==> Servable(old(Spans()), old(Filings()), length)
      ensures result == NN_OK || result == NN_ERROR
      ensures result == NN_OK ==> FreeRun(old(Spans()), startAddress, length) && freeSize == old(freeSize) - length
      ensures result == NN_OK ==>
                && LowestFit(old(Spans()), old(Filings()), startAddress, length)
                && startAddress + length <= old(RunEnd(Spans(), startAddress))
                && FilesKept(old(Spans()), old(Filings()), Spans(), Filings(), startAddress + length,
                     SplitIndex(old(RunEnd(Spans(), startAddress)) - startAddress - length))
      ensures result == NN_OK && length > 0 ==> Lost(old(Spans()), Spans(), startAddress, startAddress + length)
      ensures result != NN_OK || length == 0 ==> Spans() == old(Spans()) && freeSize == old(freeSize)
      ensures result != NN_OK ==> Filings() == old(Filings())
    {
      hide FilesKept, LowestFit, RunEnd, FirstLong;
      hide RegionOk, Filed, FreedIndex, IndexFits, NetRbTree.Valid, Mirrored, AllSpans, AllFilings, InOrder, Servable,
           FreeRun, Lost, SplitIndex;
      SameNodes(freeSize);
      var ma := FindArea(length);
      if ma == null {
        NotServable(Order(), info, filed, freeSize, length);
        return NN_ERROR, 0;
      }
      Fields(ma);
      ghost var pre, post := CutAt(Order(), ma);
      IsServable(pre, ma, post, info, filed, freeSize, length);
      IsLowest(pre, ma, post, info, filed, freeSize, length);
      AreaWithin(pre, ma, post, info, filed, freeSize);
      startAddress := ma.startAddress;
      Take(ma, length, pre, post);
      freeSize := freeSize - length;
      result := NN_OK;
    }

    /** All of the area, its front, or nothing of it; the caller counts the bytes. */
    method Take(ma: RbNode, length: nat, ghost pre: seq<RbNode>, ghost post: seq<RbNode>)
      requires Valid() && Order() == pre + [ma] + post && ma in info && length <= info[ma].length
      requires 0 < info[ma].length
      requires info[ma].end == info[ma].start + info[ma].length
      modifies this`freeHead, this`freeCnt, this`info, this`filed, mRoot, mRoot.cells.Keys
      ensures Holds(freeSize - length) && fresh(mRoot.cells.Keys - old(mRoot.cells.Keys))
      ensures length > 0 ==> Lost(old(Spans()), Spans(), old(info)[ma].start, old(info)[ma].start + length)
      ensures length == 0 ==> Spans() == old(Spans())
      ensures FilesKept(old(Spans()), old(Filings()), Spans(), Filings(), old(info)[ma].start + length,
                SplitIndex(old(info)[ma].length - length))
    {
      hide RegionOk, Filed, IndexFits, NetRbTree.Valid, Mirrored, AllSpans, AllFilings, InOrder, Lost, SplitIndex,
           FilesKept;
      SameNodes(freeSize);
      Fields(ma);
      if ma.length == length {
        TakeAll(ma, pre, post, freeSize, SplitIndex(0));
      } else if length == 0 {
        Refile(ma, pre, post, freeSize);
      } else {
        var newMa := new RbNode(ma.startAddress + length, ma.endAddress, ma.length - length);
        Split(ma, newMa, length, pre, post, freeSize);
      }
    }

    /** The whole area goes. */
    method TakeAll(ma: RbNode, ghost pre: seq<RbNode>, ghost post: seq<RbNode>, ghost size: int, ghost index: nat)
      requires Holds(size) && Order() == pre + [ma] + post && ma in info
      modifies this`freeHead, this`freeCnt, this`info, this`filed, mRoot, mRoot.cells.Keys
      ensures Holds(size - old(info)[ma].length)
      ensures Lost(old(Spans()), Spans(), old(info)[ma].start, old(info)[ma].start + old(info)[ma].length)
      ensures mRoot.cells.Keys == old(mRoot.cells.Keys) - {ma}
      ensures FilesKept(old(Spans()), old(Filings()), Spans(), Filings(), old(info)[ma].end, index)
    {
      hide RegionOk, Filed, Lost, IndexFits, NetRbTree.Valid, Mirrored, AllSpans, AllFilings, FilesKept;
      SameNodes(size);
      TakeWhole(pre, ma, post, info, filed, size);
      WholeFiles(pre, ma, post, info, filed, size, size - info[ma].length, index);
      FromBucket(ma);
      mRoot.Erase(ma, pre, post);
      Forget(ma);
    }

    /** The front of the area goes, newMa stands for the rest. */
    method Split(ma: RbNode, newMa: RbNode, length: nat, ghost pre: seq<RbNode>, ghost post: seq<RbNode>,
                 ghost size: int)
      requires Holds(size) && Order() == pre + [ma] + post && ma in info && newMa !in info
                 && 0 < length < info[ma].length
      modifies this`freeHead, this`freeCnt, this`info, this`filed, mRoot, mRoot.cells.Keys, newMa
      ensures Holds(size - length)
      ensures Lost(old(Spans()), Spans(), old(info)[ma].start, old(info)[ma].start + length)
      ensures mRoot.cells.Keys == old(mRoot.cells.Keys) - {ma} + {newMa}
      ensures FilesKept(old(Spans()), old(Filings()), Spans(), Filings(), old(info)[ma].start + length,
                SplitIndex(old(info)[ma].length - length))
    {
      hide RegionOk, Filed, Lost, IndexFits, NetRbTree.Valid, Mirrored, AllSpans, AllFilings, FilesKept, SplitIndex;
      Fields(ma);
      SplitFits(ma.length - length);
      TakeFront(pre, ma, post, info, filed, size, newMa, length, SplitIndex(ma.length - length));
      SwapFiles(Order(), pre + [newMa] + post, info, filed, size, size - length, ma, newMa,
                Area(ma.startAddress + length, ma.endAddress, ma.length - length), SplitIndex(ma.length - length));
      TakePlace(newMa, ma, ma.startAddress + length, ma.endAddress, ma.length - length, SplitIndex(ma.length - length),
          pre, post, size);
    }

    /** A split of nothing: the rest begins where the area does, so its node is the node of the area. It
        moves to the bucket of a rest, and Replace writes every link as it is. */
    method Refile(ma: RbNode, ghost pre: seq<RbNode>, ghost post: seq<RbNode>, ghost size: int)
      requires Holds(size) && Order() == pre + [ma] + post && ma in info
      modifies this`freeHead, this`freeCnt, this`info, this`filed, ma`startAddress, ma`endAddress, ma`length, ma`index
      ensures Holds(size) && Spans() == old(Spans())
      ensures FilesKept(old(Spans()), old(Filings()), Spans(), Filings(), old(info)[ma].start,
                SplitIndex(old(info)[ma].length))
    {
      hide Filed, IndexFits, NetRbTree.Valid, Mirrored, SplitIndex;
      SameNodes(size);
      Fields(ma);
      SplitFits(ma.length);
      Resize(ma, ma.startAddress, ma.endAddress, ma.length, SplitIndex(ma.length));
      assert info == old(info);
      FilesKeptBy(Order(), old(info), old(filed), size, Order(), info, filed, size, ma, info[ma].start,
          SplitIndex(info[ma].length));
    }

    // ---- the region as spans ----

    lemma SpansAreSeparated()
      requires Valid()
      ensures Separated(Spans()) && |Filings()| == |Spans()| == |Order()|
      ensures forall i :: 0 <= i < |Spans()| ==> IndexFits(Spans()[i].end - Spans()[i].start, Filings()[i])
    {
      hide IndexFits, Filed, NetRbTree.Valid;
      forall i | 0 <= i < |Order()|
        ensures IndexFits(Spans()[i].end - Spans()[i].start, Filings()[i])
      {
        assert Order()[i] in Order();
      }
    }

    /** The only area is on top. */
    lemma OnlyTop()
      requires Valid() && |Spans()| == 1
      ensures TopSpan() == Spans()[0]
    {
      hide Filed, IndexFits, Rep, Sep;
      assert Order() == InOrder(mRoot.tree.left) + [mRoot.tree.node] + InOrder(mRoot.tree.right);
      assert Order()[0] == mRoot.tree.node && Order()[0] in Order();
    }

    lemma TwoNodes()
      requires Valid() && |Spans()| == 2
      ensures |filed| == 2 && filed.Keys == info.Keys
      ensures freeSize == Spans()[0].end - Spans()[0].start + Spans()[1].end - Spans()[1].start
    {
      hide Filed, IndexFits, NetRbTree.Valid;
      var s := SpansOf(Order(), info);
      assert Order() == [Order()[0], Order()[1]];
      assert filed.Keys == {Order()[0], Order()[1]} && Order()[0] != Order()[1];
      assert |filed| == |filed.Keys|;
      assert s == Spans();
      assert s[1..][1..] == [] && s[1..][0] == s[1];
      assert Total(s) == s[0].end - s[0].start + Total(s[1..]) && Total(s[1..]) == s[1].end - s[1].start + Total([]);
    }

    /** Where a block apart from all free areas lands, told from the spans. */
    lemma LandsApart(a: nat, length: nat)
      requires Valid() && Clear(Spans(), a, a + length)
      ensures !Lands(a, length).Clash?
      ensures Lands(a, length).InGap? <==> forall i :: 0 <= i < |Spans()| ==>
                Spans()[i].end != a && Spans()[i].start != a + length
      ensures Lands(a, length).Behind? ==> exists i :: 0 <= i < |Spans()| && Spans()[i].end == a
      ensures Lands(a, length).InFront? ==> exists i :: 0 <= i < |Spans()| && Spans()[i].start == a + length
    {
      hide RegionOk, Filed, NetRbTree.Valid, Mirrored, InOrder, Plug, Land, Clear;
      SameNodes(freeSize);
      assert Known(Order(), info);
      ClearNodes(Order(), info, a, a + length);
      PositiveAreas(Order(), info, filed, freeSize);
      LandGap(mRoot.tree, info, filed, freeSize, a, a + length);
      forall i | 0 <= i < |Order()| ensures Order()[i] in Order()
          && Spans()[i] == Span(info[Order()[i]].start, info[Order()[i]].end) {}
    }

    /** A block that no free area ends or begins at is found to overlap one exactly when it does. */
    lemma LandsNoticed(a: nat, length: nat)
      requires Valid()
      requires forall i :: 0 <= i < |Spans()| ==> Spans()[i].end != a && Spans()[i].start != a + length
      ensures Lands(a, length).Clash? <==> !Clear(Spans(), a, a + length)
    {
      hide RegionOk, Filed, NetRbTree.Valid, Mirrored, InOrder, Plug, Land;
      SameNodes(freeSize);
      assert Known(Order(), info);
      forall i | 0 <= i < |Order()| ensures Order()[i] in Order()
          && Spans()[i] == Span(info[Order()[i]].start, info[Order()[i]].end) {}
      forall m | m in Order()
        ensures m in info && info[m].end != a && info[m].start != a + length
        ensures Overlapping(info, m, a, a + length) ==> !Clear(Spans(), a, a + length)
      {
        var i :| 0 <= i < |Order()| && Order()[i] == m;
        assert Spans()[i] == Span(info[m].start, info[m].end);
      }
      OverlapNoticed(mRoot.tree, info, filed, freeSize, a, a + length);
    }

    /** A block of no bytes at an address where no free area begins. */
    lemma LandsEmpty(a: nat)
      requires Valid() && forall i :: 0 <= i < |Spans()| ==> Spans()[i].start != a
      ensures Clear(Spans(), a, a) || Lands(a, 0).Clash?
      ensures Lands(a, 0).Behind? <==> exists i :: 0 <= i < |Spans()| && Spans()[i].end == a
      ensures !Lands(a, 0).InFront?
    {
      hide RegionOk, Filed, NetRbTree.Valid, Mirrored, InOrder, Plug, Land, AllSpans, NetRbTree.Valid;
      SpansAreSeparated();
      if exists i :: 0 <= i < |Spans()| && Spans()[i].end == a {
        assert Clear(Spans(), a, a);
        LandsApart(a, 0);
      } else {
        LandsNoticed(a, 0);
        if Clear(Spans(), a, a) { LandsApart(a, 0); }
      }
    }

    lemma EmptyLands(a: nat, length: nat)
      requires Valid() && Order() == [] && length > 0
      ensures Spans() == [] && freeSize == 0 && Clear(Spans(), a, a + length) && Lands(a, length).InGap?
    {
      hide Filed;
      assert Clear(Spans(), a, a + length);
      hide NetRbTree.Valid;
      LandsApart(a, length);
    }
  }
}
