/**
 NetPgTable: the 16-way radix tree that maps addresses to registered regions.
 Directories are heap objects updated in place. Two ghost maps say where everything sits:
 dirAt gives the directory on a block, pages the region stored on a block.
 */
module PgTable {
  import opened Bits
  import opened PageBlocks
  import opened PgTree
  import opened PgSearch
  import opened Results

  datatype PgtEntry = Empty | RegionEntry(region: PgtRegion) | DirEntry(dir: PgtDir)
  {
    predicate IsPresent() { !Empty? }
  }

  class PgtDir {
    var entries: seq<PgtEntry>
    var count: nat
    ghost const at: Block  // the block it was made for

    constructor (ghost at: Block)
      ensures entries == seq(16, _ => Empty) && count == 0 && this.at == at
    {
      entries := seq(16, _ => Empty);
      count := 0;
      this.at := at;
    }
  }

  type DirMap = map<Block, PgtDir>

  /** What the entry on block b must hold. */
  ghost function EntryOf(dirAt: DirMap, pages: PageMap, b: Block): PgtEntry
  {
    if b in dirAt then DirEntry(dirAt[b]) else if b in pages then RegionEntry(pages[b]) else Empty
  }

  /** The entries of the directory on b are what its sixteen child blocks must hold. */
  ghost predicate EntriesMatch(dirAt: DirMap, pages: PageMap, b: Block, es: seq<PgtEntry>)
  {
    && b.shift >= 4
    && |es| == 16
    && forall i: nat :: i < 16 ==> es[i] == EntryOf(dirAt, pages, Child(b, i))
  }

  /** Between two states only the block y may hold something else. */
  ghost predicate OnlyAt(d0: DirMap, p0: PageMap, d1: DirMap, p1: PageMap, y: Block)
  {
    forall c {:trigger EntryOf(d1, p1, c)} :: c != y ==> EntryOf(d1, p1, c) == EntryOf(d0, p0, c)
  }

  /** A directory that does not hold the entry of y stays right ... */
  lemma KeepMatch(d0: DirMap, p0: PageMap, d1: DirMap, p1: PageMap, y: Block, b: Block, es: seq<PgtEntry>)
    requires OnlyAt(d0, p0, d1, p1, y) && EntriesMatch(d0, p0, b, es) && b != Parent(y)
    ensures EntriesMatch(d1, p1, b, es)
  {
    forall i: nat | i < 16
      ensures es[i] == EntryOf(d1, p1, Child(b, i))
    {
      ChildParent(b, i);
    }
  }

  /** ... and the one that holds it does when the entry is set to what y must hold now. */
  lemma ChangeMatch(d0: DirMap, p0: PageMap, d1: DirMap, p1: PageMap, y: Block, es: seq<PgtEntry>)
    requires OnlyAt(d0, p0, d1, p1, y) && EntriesMatch(d0, p0, Parent(y), es)
    ensures EntriesMatch(d1, p1, Parent(y), es[y.num % 16 := EntryOf(d1, p1, y)])
  {
    ParentChild(y);
    forall i: nat | i < 16 && i != y.num % 16
      ensures es[i] == EntryOf(d1, p1, Child(Parent(y), i))
    {
      ChildParent(Parent(y), i);
    }
  }

  /** A new root directory that holds just the old root entry. */
  lemma SunkRootMatches(d0: DirMap, pages: PageMap, root: Block, d1: DirMap, pgd: PgtDir)
    requires AllPlaced(root, d0.Keys, pages) && d1 == d0[Parent(root) := pgd]
    ensures EntriesMatch(d1, pages, Parent(root),
                         seq(16, _ => Empty)[root.num % 16 := EntryOf(d0, pages, root)])
  {
    var es := seq(16, _ => Empty)[root.num % 16 := EntryOf(d0, pages, root)];
    ParentChild(root);
    forall i: nat | i < 16
      ensures es[i] == EntryOf(d1, pages, Child(Parent(root), i))
    {
      if i != root.num % 16 { NoSiblingOfRoot(root, d0.Keys, pages, i); }
    }
  }

  lemma SunkOthersMatch(d0: DirMap, pages: PageMap, root: Block, d1: DirMap, pgd: PgtDir, b: Block, es: seq<PgtEntry>)
    requires AllPlaced(root, d0.Keys, pages) && d1 == d0[Parent(root) := pgd]
    requires b in d0 && EntriesMatch(d0, pages, b, es)
    ensures EntriesMatch(d1, pages, b, es)
  {
    assert Placed(root, d0.Keys, b);
    KeepMatch(d0, pages, d1, pages, Parent(root), b, es);
  }

  ghost function PresentAt(es: seq<PgtEntry>): set<nat>
  {
    set i: nat | i < |es| && es[i].IsPresent()
  }

  lemma PresentAfterSet(es: seq<PgtEntry>, i: nat, e: PgtEntry)
    requires i < |es| && es[i].Empty? && e.IsPresent()
    ensures |PresentAt(es[i := e])| == |PresentAt(es)| + 1
  {
    assert PresentAt(es[i := e]) == PresentAt(es) + {i};
  }

  lemma PresentAfterClear(es: seq<PgtEntry>, i: nat)
    requires i < |es| && es[i].IsPresent()
    ensures |PresentAt(es[i := Empty])| == |PresentAt(es)| - 1
  {
    assert PresentAt(es[i := Empty]) == PresentAt(es) - {i};
  }

  lemma ValuesAfterAdd(m: DirMap, k: Block, d: PgtDir)
    requires k !in m
    ensures m[k := d].Values == m.Values + {d}
  {
    var n := m[k := d];
    forall v | v in m.Values + {d}
      ensures v in n.Values
    {
      if v == d {
        assert n[k] == v;
      } else {
        var j :| j in m && m[j] == v;
        assert n[j] == v;
      }
    }
  }

  lemma TwoPresent(es: seq<PgtEntry>) returns (i: nat, j: nat)
    requires |PresentAt(es)| >= 2
    ensures i < j < |es| && es[i].IsPresent() && es[j].IsPresent()
  {
    var present := PresentAt(es);
    var x :| x in present;
    assert |present - {x}| > 0;
    var y :| y in present - {x};
    i, j := if x < y then x else y, if x < y then y else x;
  }

  lemma OnlyOne(s: set<nat>, x: nat)
    requires |s| == 1 && x in s
    ensures s == {x}
  {
    assert |s - {x}| == 0;
    assert s == (s - {x}) + {x};
  }

  /** address & mask, for the masks 2^64 - 2^k the table uses. */
  function AndMask(address: nat, mask: nat): nat
    requires mask < TWO64
  {
    address - Rem(address, TWO64 - mask)
  }

  /** The tree below an entry, read back from the heap as a value. */
  ghost function Shape(dirs: set<PgtDir>, e: PgtEntry, shift: nat): Tree
    reads dirs
    decreases shift
  {
    match e
    case Empty => Absent
    case RegionEntry(r) => Page(r)
    case DirEntry(d) =>
      if d in dirs && |d.entries| == 16 && shift >= 4 then
        Directory(seq(16, i requires 0 <= i < 16 && |d.entries| == 16 reads dirs
                          => Shape(dirs, d.entries[i], shift - 4)), d.count)
      else
        Absent
  }

  lemma ShapeOfDir(dirs: set<PgtDir>, d: PgtDir, shift: nat, kids: seq<Tree>)
    requires d in dirs && |d.entries| == 16 && shift >= 4
    requires |kids| == 16 && forall i: nat :: i < 16 ==> kids[i] == Shape(dirs, d.entries[i], shift - 4)
    ensures Shape(dirs, DirEntry(d), shift) == Directory(kids, d.count)
  {
    assert kids == seq(16, i requires 0 <= i < 16 && |d.entries| == 16 reads dirs
                           => Shape(dirs, d.entries[i], shift - 4));
  }

  class NetPgTable {
    var rootEntry: PgtEntry
    var virBaseAddr: nat
    var spaceMask: nat
    var indexShift: nat
    var regionCount: nat

    ghost var root: Block
    ghost var dirAt: map<Block, PgtDir>
    ghost var pages: PageMap
    ghost var regions: set<PgtRegion>

    ghost function EntryAt(b: Block): PgtEntry
      reads this`dirAt, this`pages
    {
      EntryOf(dirAt, pages, b)
    }

    /** base, mask and shift all describe the block `root`. */
    ghost predicate Header()
      reads this`indexShift, this`spaceMask, this`virBaseAddr, this`root
    {
      && ValidShift(indexShift) && indexShift == root.shift
      && virBaseAddr == Lo(root) && Hi(root) <= TWO64
      && spaceMask == TWO64 - Pow2(indexShift)
    }

    ghost predicate DirOk(b: Block)
      requires b in dirAt
      reads this`dirAt, this`pages, dirAt[b]
    {
      EntriesMatch(dirAt, pages, b, dirAt[b].entries) && dirAt[b].count == |PresentAt(dirAt[b].entries)|
    }

    /** The tree is linked as the ghost maps say; only directories on blocks of `loose` may be empty. */
    ghost predicate Linked(loose: set<Block>)
      reads this`rootEntry, this`indexShift, this`spaceMask, this`virBaseAddr, this`root, this`dirAt, this`pages,
            dirAt.Values
    {
      && Header()
      && rootEntry == EntryAt(root)
      && AllPlaced(root, dirAt.Keys, pages)
      && (forall b {:trigger dirAt[b].at} :: b in dirAt ==> dirAt[b].at == b)
      && (forall b {:trigger DirOk(b)} :: b in dirAt ==> DirOk(b))
      && (forall b {:trigger dirAt[b].count} :: b in dirAt && b !in loose ==> dirAt[b].count > 0)
    }

    /** A directory at the root has two or more entries, and an empty table is back to its initial span. */
    ghost predicate Tight()
      reads this`rootEntry, this`indexShift, this`spaceMask, this`virBaseAddr, this`root, this`dirAt, this`pages,
            dirAt.Values
    {
      && (rootEntry.Empty? ==> virBaseAddr == 0 && indexShift == PAGE_SHIFT_MIN)
      && (rootEntry.DirEntry? && rootEntry.dir in dirAt.Values ==> rootEntry.dir.count >= 2)
    }

    ghost predicate TreeOk()
      reads this`rootEntry, this`indexShift, this`spaceMask, this`virBaseAddr, this`root, this`dirAt, this`pages,
            dirAt.Values
    {
      Linked({}) && Tight()
    }

    constructor ()
      ensures Valid() && regions == {} && dirAt == map[] && root == Block(PAGE_SHIFT_MIN, 0)
    {
      rootEntry, virBaseAddr, spaceMask, indexShift, regionCount := Empty, 0, TWO64 - 16, PAGE_SHIFT_MIN, 0;
      root, dirAt, pages, regions := Block(PAGE_SHIFT_MIN, 0), map[], map[], {};
      new;
      Pow2Of4();
    }

    /** The address lies in the block the table spans. */
    ghost predicate InSpan(address: nat)
      reads this
    {
      BlockOf(address, indexShift) == root
    }

    lemma MaskMatches(address: nat)
      requires Header()
      ensures AndMask(address, spaceMask) == virBaseAddr <==> InSpan(address)
    {
      AndMaskIsLo(address, spaceMask, indexShift);
      BlockOfLo(root);
      BlockOfLo(BlockOf(address, indexShift));
    }

    // ---- growing and shrinking at the root ----

    method PgTableReset()
      requires rootEntry.Empty? && Linked({})
      modifies this`virBaseAddr, this`spaceMask, this`indexShift, this`root
      ensures TreeOk()
    {
      EmptyRoot(root, dirAt.Keys, pages);
      virBaseAddr := 0;
      spaceMask := TWO64 - 16;
      indexShift := PAGE_SHIFT_MIN;
      root := Block(PAGE_SHIFT_MIN, 0);
      Pow2Of4();
    }

    /** The span fields move up one level: shift and mask by four bits, base cut to the new mask. */
    method RaiseSpan()
      requires Header() && indexShift <= 60
      modifies this`indexShift, this`spaceMask, this`virBaseAddr, this`root
      ensures Header() && indexShift == old(indexShift) + 4 && root == Parent(old(root))
    {
      ExpandSpan(root, spaceMask);
      root := Parent(root);
      indexShift := indexShift + PTE_SHIFT_PER_DIR;
      spaceMask := (spaceMask * 16) % TWO64;
      virBaseAddr := AndMask(virBaseAddr, spaceMask);
    }

    method PgtExpand() returns (ok: bool)
      requires Linked({})
      modifies this`rootEntry, this`indexShift, this`spaceMask, this`virBaseAddr, this`root, this`dirAt
      ensures Linked({}) && fresh(dirAt.Values - old(dirAt.Values))
      ensures ok <==> old(indexShift) <= PGT_ADDR_ORDER_MAX - PTE_SHIFT_PER_DIR
      ensures ok ==> indexShift == old(indexShift) + 4 && root == Parent(old(root))
      ensures old(rootEntry).Empty? ==> rootEntry.Empty?
      ensures ok && old(rootEntry).IsPresent() ==>
                && rootEntry.DirEntry? && fresh(rootEntry.dir) && root in dirAt
                && |rootEntry.dir.entries| == 16 && rootEntry.dir.count == 1
                && forall i: nat :: i < 16 && i != old(root).num % 16 ==> rootEntry.dir.entries[i].Empty?
    {
      if indexShift > PGT_ADDR_ORDER_MAX - PTE_SHIFT_PER_DIR {
        return false;
      }
      ghost var was := root;
      var index := IndexAt(virBaseAddr, indexShift);
      BlockOfLo(root);
      if rootEntry.IsPresent() {
        SinkRootPlaced(was, dirAt.Keys, pages);
        var pgd := new PgtDir(Parent(was));
        pgd.entries := pgd.entries[index := rootEntry];
        pgd.count := 1;
        rootEntry := DirEntry(pgd);
        assert dirAt[Parent(was) := pgd].Keys == dirAt.Keys + {Parent(was)};
        dirAt := dirAt[Parent(was) := pgd];
        assert PresentAt(pgd.entries) == {index};
      } else {
        EmptyRoot(was, dirAt.Keys, pages);
      }
      RaiseSpan();
      forall b {:trigger DirOk(b)} | b in dirAt
        ensures DirOk(b)
      {
        if b == root {
          SunkRootMatches(old(dirAt), pages, was, dirAt, rootEntry.dir);
        } else {
          assert old(DirOk(b));
          SunkOthersMatch(old(dirAt), pages, was, dirAt, rootEntry.dir, b, dirAt[b].entries);
        }
      }
      ok := true;
    }

    /** The span fields move down one level, to the child block with the given index. */
    method LowerSpan(index: nat)
      requires Header() && indexShift >= 8 && index < 16
      modifies this`indexShift, this`spaceMask, this`virBaseAddr, this`root
      ensures Header() && indexShift == old(indexShift) - 4 && root == Child(old(root), index)
    {
      ShrinkSpan(root, index);
      root := Child(root, index);
      indexShift := indexShift - PTE_SHIFT_PER_DIR;
      virBaseAddr := virBaseAddr + Times(index, Pow2(indexShift));
      spaceMask := spaceMask + 15 * Pow2(indexShift);
    }

    /** First present entry of the directory. */
    method FirstPresent(pgd: PgtDir) returns (index: nat)
      requires |pgd.entries| == 16 && PresentAt(pgd.entries) != {}
      ensures index < 16 && pgd.entries[index].IsPresent()
    {
      ghost var some :| some in PresentAt(pgd.entries);
      index := 0;
      while !pgd.entries[index].IsPresent()
        invariant index < 16
        invariant forall j: nat :: j < index ==> !pgd.entries[j].IsPresent()
        decreases 16 - index
      {
        assert index < some;
        index := index + 1;
      }
    }

    /** One step of collapsing the root; false when nothing is left to collapse. */
    method PgtShrink() returns (more: bool)
      requires Linked({})
      modifies this`rootEntry, this`indexShift, this`spaceMask, this`virBaseAddr, this`root, this`dirAt
      ensures Linked({}) && dirAt.Values <= old(dirAt.Values)
      ensures more ==> indexShift < old(indexShift)
      ensures !more ==> Tight()
    {
      hide Pow2;
      if !rootEntry.IsPresent() {
        PgTableReset();
        return false;
      }
      if !rootEntry.DirEntry? {
        return false;
      }
      var pgd := rootEntry.dir;
      ghost var was := root;
      assert DirOk(was) && Placed(was, dirAt.Keys, was);
      if pgd.count != 1 {
        assert dirAt[was].count > 0;
        return false;
      }
      var index := FirstPresent(pgd);
      OnlyOne(PresentAt(pgd.entries), index);
      forall j: nat | j < 16 && j != index
        ensures Child(was, j) !in dirAt && Child(was, j) !in pages
      {
        assert j !in PresentAt(pgd.entries);
        assert pgd.entries[j] == EntryAt(Child(was, j));
      }
      LiftChildPlaced(was, dirAt.Keys, pages, index);
      LowerSpan(index);
      rootEntry := pgd.entries[index];
      assert (dirAt - {was}).Keys == dirAt.Keys - {was};
      dirAt := dirAt - {was};
      forall b {:trigger DirOk(b)} | b in dirAt
        ensures DirOk(b)
      {
        assert old(DirOk(b));
        assert Placed(was, old(dirAt.Keys), b);
      }
      forall b {:trigger dirAt[b].count} | b in dirAt
        ensures dirAt[b].count > 0
      {
        assert old(dirAt)[b].count > 0;
      }
      more := true;
    }

    /** The loop `while (PgtShrink()) {}`. */
    method ShrinkAll()
      requires Linked({})
      modifies this`rootEntry, this`indexShift, this`spaceMask, this`virBaseAddr, this`root, this`dirAt
      ensures TreeOk() && dirAt.Values <= old(dirAt.Values)
    {
      var more := true;
      while more
        invariant Linked({}) && dirAt.Values <= old(dirAt.Values)
        invariant !more ==> Tight()
        decreases more, indexShift
      {
        more := PgtShrink();
      }
    }

    /** An empty table may be moved to any block of its size. */
    method MoveEmptySpan(address: nat)
      requires Linked({}) && rootEntry.Empty? && address < TWO64
      modifies this`virBaseAddr, this`root
      ensures Linked({}) && InSpan(address)
    {
      EmptyRoot(root, dirAt.Keys, pages);
      AndMaskIsLo(address, spaceMask, indexShift);
      BlockOfLo(BlockOf(address, indexShift));
      BlockOfHolds(address, indexShift);
      BlockFits(BlockOf(address, indexShift));
      root := BlockOf(address, indexShift);
      virBaseAddr := AndMask(address, spaceMask);
    }

    /** A root directory with a single entry is there only to make room for `address`. */
    ghost predicate Roomy(order: nat, address: nat)
      reads this, dirAt.Values
    {
      && (rootEntry.Empty? ==> indexShift <= order)
      && (root in dirAt && dirAt[root].count < 2 && order + 4 <= indexShift && InSpan(address) ==>
            EntryAt(BlockOf(address, indexShift - 4)).Empty?)
    }

    method ExpandTowards(order: nat, address: nat)
      requires Linked({}) && rootEntry.IsPresent() && indexShift <= 60 && !InSpan(address)
      modifies this`rootEntry, this`indexShift, this`spaceMask, this`virBaseAddr, this`root, this`dirAt
      ensures Linked({}) && fresh(dirAt.Values - old(dirAt.Values)) && rootEntry.IsPresent()
      ensures indexShift == old(indexShift) + 4 && Roomy(order, address)
    {
      hide Quot;
      ghost var was := root;
      var ok := PgtExpand();
      if InSpan(address) {
        var i := IndexAt(address, indexShift - 4);
        ParentOf(address, indexShift - 4);
        ParentChild(BlockOf(address, indexShift - 4));
        assert BlockOf(address, indexShift - 4) == Child(root, i);
        ParentChild(was);
        assert DirOk(root);
        assert rootEntry.dir.entries[i] == EntryAt(Child(root, i));
      }
    }

    /** A root with fewer than two entries is no deeper than `order`. */
    ghost predicate ShallowRoot(order: nat)
      reads this, dirAt.Values
    {
      && (rootEntry.Empty? ==> indexShift <= order)
      && (root in dirAt && dirAt[root].count < 2 ==> indexShift <= order)
    }

    /** First loop of PgtEnsureCapacity. */
    method ExpandToOrder(order: nat)
      requires TreeOk() && ValidShift(order) && order <= 60
      modifies this`rootEntry, this`indexShift, this`spaceMask, this`virBaseAddr, this`root, this`dirAt
      ensures Linked({}) && fresh(dirAt.Values - old(dirAt.Values))
      ensures order <= indexShift && ShallowRoot(order)
    {
      ghost var slack := if indexShift < order then order else indexShift;
      assert slack > order ==> ShallowRoot(order);
      while indexShift < order
        invariant Linked({}) && fresh(dirAt.Values - old(dirAt.Values))
        invariant indexShift <= slack
        invariant slack > order ==> ShallowRoot(order)
        decreases order - indexShift
      {
        ShiftGap(indexShift, order);
        var ok := PgtExpand();
      }
    }

    static lemma ShiftGap(s: nat, t: nat)
      requires s % 4 == 0 && t % 4 == 0 && s < t
      ensures s + 4 <= t
    {
    }

    /** Second loop of PgtEnsureCapacity. */
    method ExpandToAddress(order: nat, address: nat)
      requires Linked({}) && rootEntry.IsPresent() && order <= indexShift && ShallowRoot(order) && address < TWO64
      modifies this`rootEntry, this`indexShift, this`spaceMask, this`virBaseAddr, this`root, this`dirAt
      ensures Linked({}) && fresh(dirAt.Values - old(dirAt.Values)) && rootEntry.IsPresent()
      ensures order <= indexShift && InSpan(address) && Roomy(order, address)
    {
      MaskMatches(address);
      while AndMask(address, spaceMask) != virBaseAddr
        invariant Linked({}) && fresh(dirAt.Values - old(dirAt.Values)) && rootEntry.IsPresent()
        invariant order <= indexShift && Roomy(order, address)
        invariant AndMask(address, spaceMask) == virBaseAddr <==> InSpan(address)
        decreases 64 - indexShift
      {
        WholeSpaceContains(address);
        ExpandTowards(order, address);
        MaskMatches(address);
      }
    }

    method PgtEnsureCapacity(order: nat, address: nat)
      requires TreeOk() && ValidShift(order) && order <= 60 && address < TWO64
      modifies this`rootEntry, this`indexShift, this`spaceMask, this`virBaseAddr, this`root, this`dirAt
      ensures Linked({}) && fresh(dirAt.Values - old(dirAt.Values))
      ensures order <= indexShift && InSpan(address) && Roomy(order, address)
    {
      ExpandToOrder(order);
      if !rootEntry.IsPresent() {
        MoveEmptySpan(address);
      } else {
        ExpandToAddress(order, address);
      }
    }

    lemma WholeSpaceContains(address: nat)
      requires Header() && address < TWO64 && !InSpan(address)
      ensures indexShift <= 60
    {
      if indexShift == 64 {
        Pow2Of64();
        ContainsIff(root, address);
      }
    }

    // ---- filling and clearing one entry ----

    /** The entry on block y is the root entry (dir == null) or entry `index` of the directory above y. */
    ghost predicate IsSlot(dir: PgtDir?, index: nat, y: Block)
      reads this
    {
      && ValidShift(y.shift)
      && (if dir == null then y == root else
            Parent(y) in dirAt && dirAt[Parent(y)] == dir && index == y.num % 16)
    }

    /** The block of the directory that may still be empty while the walk stands at y. */
    static ghost function Above(dir: PgtDir?, y: Block): set<Block>
    {
      if dir == null then {} else {Parent(y)}
    }

    function Slot(dir: PgtDir?, index: nat): PgtEntry
      requires dir != null ==> index < |dir.entries|
      reads this, dir
    {
      if dir == null then rootEntry else dir.entries[index]
    }

    lemma SlotHolds(dir: PgtDir?, index: nat, y: Block, loose: set<Block>)
      requires Linked(loose) && IsSlot(dir, index, y)
      ensures dir != null ==> index < 16 == |dir.entries|
      ensures Slot(dir, index) == EntryAt(y)
      ensures Placed(root, dirAt.Keys, y)
      ensures dir != null ==> y != root
    {
      if dir != null {
        assert DirOk(Parent(y)) && Placed(root, dirAt.Keys, Parent(y));
        ParentChild(y);
      }
    }

    /** Store e in an empty entry and count it. */
    method FillSlot(dir: PgtDir?, index: nat, e: PgtEntry)
      requires dir != null ==> index < 16 == |dir.entries| && dir.count == |PresentAt(dir.entries)|
      requires Slot(dir, index).Empty? && e.IsPresent()
      modifies this`rootEntry, dir
      ensures dir == null ==> rootEntry == e
      ensures dir != null ==>
                && rootEntry == old(rootEntry)
                && dir.entries == old(dir.entries)[index := e]
                && dir.count == |PresentAt(dir.entries)| == old(dir.count) + 1
    {
      if dir == null {
        rootEntry := e;
      } else {
        PresentAfterSet(dir.entries, index, e);
        dir.entries := dir.entries[index := e];
        dir.count := dir.count + 1;
      }
    }

    method FillWithRegion(dir: PgtDir?, index: nat, region: PgtRegion, ghost y: Block)
      requires IsSlot(dir, index, y) && Linked(Above(dir, y))
      requires y !in dirAt && y !in pages
      modifies this`rootEntry, this`pages, dir
      ensures Linked({}) && pages == old(pages)[y := region]
      ensures dir != null ==> dir.count == old(dir.count) + 1
      ensures forall d :: d in dirAt.Values && d != dir ==> d.count == old(d.count)
    {
      SlotHolds(dir, index, y, Above(dir, y));
      AddPagePlaced(root, dirAt.Keys, pages, y, region);
      assert dir != null ==> DirOk(Parent(y)) && dirAt[Parent(y)].at == Parent(y);
      FillSlot(dir, index, RegionEntry(region));
      pages := pages[y := region];
      forall b {:trigger DirOk(b)} | b in dirAt
        ensures DirOk(b)
      {
        assert old(DirOk(b)) && dirAt[b].at == b;
        if b != Parent(y) {
            KeepMatch(old(dirAt), old(pages), dirAt, pages, y, b, dirAt[b].entries);
          } else {
            ParentOfSlot(dir, index, y);
            ChangeMatch(old(dirAt), old(pages), dirAt, pages, y, old(dir.entries));
          }
      }
    }

    lemma ParentOfSlot(dir: PgtDir?, index: nat, y: Block)
      requires IsSlot(dir, index, y) && AllPlaced(root, dirAt.Keys, pages) && Parent(y) in dirAt
      ensures dir != null
    {
      assert Placed(root, dirAt.Keys, Parent(y));
    }

    method FillWithDir(dir: PgtDir?, index: nat, ghost y: Block) returns (made: PgtDir)
      requires IsSlot(dir, index, y) && Linked(Above(dir, y))
      requires y !in dirAt && y !in pages && y.shift >= 8
      modifies this`rootEntry, this`dirAt, dir
      ensures Linked({y}) && dirAt == old(dirAt)[y := made] && fresh(made) && made.count == 0
      ensures dirAt.Values == old(dirAt.Values) + {made}
      ensures forall i: nat :: i < 16 ==> Child(y, i) !in dirAt && Child(y, i) !in pages
      ensures dir != null ==> dir.count == old(dir.count) + 1
      ensures forall d :: d in old(dirAt.Values) && d != dir ==> d.count == old(d.count)
    {
      SlotHolds(dir, index, y, Above(dir, y));
      AddDirPlaced(root, dirAt.Keys, pages, y);
      assert dir != null ==> DirOk(Parent(y)) && dirAt[Parent(y)].at == Parent(y);
      made := new PgtDir(y);
      FillSlot(dir, index, DirEntry(made));
      assert dirAt[y := made].Keys == dirAt.Keys + {y};
      ValuesAfterAdd(dirAt, y, made);
      dirAt := dirAt[y := made];
      assert PresentAt(made.entries) == {};
      forall b {:trigger DirOk(b)} | b in dirAt
        ensures DirOk(b)
      {
        if b != y {
          assert old(DirOk(b)) && dirAt[b].at == b;
          if b != Parent(y) {
            KeepMatch(old(dirAt), old(pages), dirAt, pages, y, b, dirAt[b].entries);
          } else {
            ParentOfSlot(dir, index, y);
            ChangeMatch(old(dirAt), old(pages), dirAt, pages, y, old(dir.entries));
          }
        }
      }
      forall b {:trigger dirAt[b].count} | b in dirAt && b != y
        ensures dirAt[b].count > 0
      {
        assert old(dirAt[b].count) >= 0 && dirAt[b].at == b;
      }
    }

    // ---- inserting one page ----

    /** While the walk of InsertPage stands at y, a root with one entry still waits for the new page. */
    ghost predicate RootSettled(dir: PgtDir?, y: Block, order: nat, address: nat)
      reads this, dirAt.Values
    {
      if dir == null then
        Roomy(order, address)
      else
        && rootEntry.IsPresent()
        && root in dirAt && dirAt[root].count > 0
        && (dirAt[root].count < 2 ==> dir == dirAt[root] && EntryAt(y).Empty?)
    }

    ghost predicate Walking(dir: PgtDir?, index: nat, shift: nat, order: nat, address: nat)
      reads this, dirAt.Values
    {
      && ValidShift(shift) && order <= shift <= indexShift
      && IsSlot(dir, index, BlockOf(address, shift))
      && Linked(Above(dir, BlockOf(address, shift)))
      && RootSettled(dir, BlockOf(address, shift), order, address)
    }

    /** From a directory on y down to the entry for the address. */
    lemma StepDown(y: Block, address: nat)
      requires y in dirAt && y == BlockOf(address, y.shift) && ValidShift(y.shift) && y.shift >= 8
      ensures Parent(BlockOf(address, y.shift - 4)) == y
      ensures IsSlot(dirAt[y], IndexAt(address, y.shift - 4), BlockOf(address, y.shift - 4))
    {
      ParentOf(address, y.shift - 4);
    }

    /** One step of the walk: make the directory if the entry is empty, then go into it. */
    method Descend(dir: PgtDir?, index: nat, shift: nat, order: nat, address: nat)
      returns (next: PgtDir, nextIndex: nat)
      requires Walking(dir, index, shift, order, address) && ValidShift(order) && order < shift
      requires !EntryAt(BlockOf(address, shift)).RegionEntry?
      modifies this`rootEntry, this`dirAt, dir
      ensures dirAt.Values >= old(dirAt.Values) && fresh(dirAt.Values - old(dirAt.Values))
      ensures Walking(next, nextIndex, shift - 4, order, address) && next in dirAt.Values
    {
      ghost var y := BlockOf(address, shift);
      SlotHolds(dir, index, y, Above(dir, y));
      if !Slot(dir, index).IsPresent() {
        next := FillWithDir(dir, index, y);
      } else {
        next := Slot(dir, index).dir;
        assert dir != null ==> DirOk(Parent(y)) && dirAt[Parent(y)].at == Parent(y);
        assert dir != null ==> index in PresentAt(dir.entries);
      }
      nextIndex := IndexAt(address, shift - 4);
      StepDown(y, address);
    }

    /** A directory that is not empty has a page somewhere below it. */
    lemma {:induction false} DirPopulated(b: Block)
      requires Linked({}) && b in dirAt
      ensures Populated(pages, b)
      decreases b.shift
    {
      assert DirOk(b) && dirAt[b].count > 0;
      var i :| i in PresentAt(dirAt[b].entries);
      var c := Child(b, i);
      assert dirAt[b].entries[i] == EntryAt(c);
      ChildUnder(b, i);
      if c in dirAt {
        DirPopulated(c);
        var x :| x in pages && Under(x, c);
        UnderTransitive(x, c, b);
      }
    }

    /** An entry in use on the way to, or at, block b stands for a page that overlaps b. */
    lemma BlockedMeansConflict(y: Block, b: Block)
      requires Linked({}) && Under(b, y) && (y in pages || (y == b && y in dirAt))
      ensures Conflict(pages, b)
    {
      if y in dirAt {
        DirPopulated(y);
        var x :| x in pages && Under(x, y);
        assert Collide(x, b);
      } else {
        assert Collide(y, b);
      }
    }

    lemma FreeMeansNoConflict(b: Block, loose: set<Block>)
      requires Linked(loose) && Placed(root, dirAt.Keys, b) && b !in dirAt && b !in pages
      ensures !Conflict(pages, b)
    {
      forall x | x in pages
        ensures !Collide(x, b)
      {
        AbsentMeansNothingBelow(root, dirAt.Keys, pages, b, x);
        assert Placed(root, dirAt.Keys, x);
        if Under(b, x) {
          AncestorIsDir(root, dirAt.Keys, b, x);
        }
      }
    }

    /** A present entry keeps the directory it sits in from being empty. */
    lemma PresentSlotTightens(dir: PgtDir?, index: nat, y: Block)
      requires IsSlot(dir, index, y) && Linked(Above(dir, y)) && EntryAt(y).IsPresent()
      ensures Linked({})
    {
      SlotHolds(dir, index, y, Above(dir, y));
      if dir != null {
        assert DirOk(Parent(y));
        assert index in PresentAt(dir.entries);
      }
    }

    /** The end of the walk: store the region unless the entry is taken. */
    method StorePage(dir: PgtDir?, index: nat, address: nat, order: nat, region: PgtRegion) returns (ok: bool)
      requires Walking(dir, index, order, order, address)
      modifies this`rootEntry, this`pages, dir
      ensures !ok ==> Linked({}) && pages == old(pages) && Conflict(old(pages), BlockOf(address, order))
      ensures ok ==> TreeOk() && pages == old(pages)[BlockOf(address, order) := region]
      ensures ok ==> !Conflict(old(pages), BlockOf(address, order))
    {
      ghost var b := BlockOf(address, order);
      SlotHolds(dir, index, b, Above(dir, b));
      if Slot(dir, index).IsPresent() {
        PresentSlotTightens(dir, index, b);
        BlockedMeansConflict(b, b);
        return false;
      }
      FreeMeansNoConflict(b, Above(dir, b));
      FillWithRegion(dir, index, region, b);
      ok := true;
    }

    lemma WalkFacts(dir: PgtDir?, index: nat, shift: nat, order: nat, address: nat)
      requires Walking(dir, index, shift, order, address)
      ensures dir != null ==> index < |dir.entries|
      ensures Slot(dir, index) == EntryAt(BlockOf(address, shift))
      ensures Slot(dir, index).RegionEntry? ==> Linked({}) && Conflict(pages, BlockOf(address, order))
    {
      var y := BlockOf(address, shift);
      SlotHolds(dir, index, y, Above(dir, y));
      if Slot(dir, index).RegionEntry? {
        PresentSlotTightens(dir, index, y);
        NestedAt(address, order, shift);
        BlockedMeansConflict(y, BlockOf(address, order));
      }
    }

    /** The descending walk of InsertPage; `blocked` when it meets a region on the way. */
    method WalkDown(address: nat, order: nat) returns (blocked: bool, dir: PgtDir?, index: nat)
      requires Linked({}) && ValidShift(order)
      requires order <= indexShift && InSpan(address) && Roomy(order, address)
      modifies this`rootEntry, this`dirAt, dirAt.Values
      ensures fresh(dirAt.Values - old(dirAt.Values))
      ensures blocked ==> Linked({}) && Conflict(pages, BlockOf(address, order))
      ensures !blocked ==> Walking(dir, index, order, order, address) && (dir != null ==> dir in dirAt.Values)
    {
      hide AllPlaced, Under, Pow2, PresentAt;
      dir, index, blocked := null, 0, false;
      var shift: nat := indexShift;
      assert Walking(dir, index, shift, order, address);
      hide Walking, Linked;
      while order != shift
        invariant Walking(dir, index, shift, order, address)
        invariant fresh(dirAt.Values - old(dirAt.Values))
        invariant dir != null ==> dir in dirAt.Values
        decreases shift
      {
        WalkFacts(dir, index, shift, order, address);
        if Slot(dir, index).RegionEntry? {
          blocked := true;
          return;
        }
        var next, nextIndex := Descend(dir, index, shift, order, address);
        dir, index, shift := next, nextIndex, shift - PTE_SHIFT_PER_DIR;
      }
    }

    method InsertPage(address: nat, order: nat, region: PgtRegion) returns (result: NResult)
      requires TreeOk() && 4 <= order <= 60 && address < TWO64
      modifies this`rootEntry, this`indexShift, this`spaceMask, this`virBaseAddr, this`root, this`dirAt, this`pages,
               dirAt.Values
      ensures TreeOk() && fresh(dirAt.Values - old(dirAt.Values))
      ensures result == NN_INVALID_PARAM <==> !ValidatePage(address, order)
      ensures result != NN_INVALID_PARAM ==>
                (result == NN_OK <==> !Conflict(old(pages), BlockOf(address, order)))
      ensures pages == if result == NN_OK then old(pages)[BlockOf(address, order) := region] else old(pages)
    {
      hide Linked;
      if !ValidatePage(address, order) {
        return NN_INVALID_PARAM;
      }
      PgtEnsureCapacity(order, address);
      var blocked, dir, index := WalkDown(address, order);
      if !blocked {
        var ok := StorePage(dir, index, address, order, region);
        if ok {
          return NN_OK;
        }
      }
      ShrinkAll();
      result := NN_ERROR;
    }

    // ---- removing one page ----

    /** Clear a present entry and uncount it. */
    method ClearSlot(dir: PgtDir?, index: nat)
      requires dir != null ==> index < 16 == |dir.entries| && dir.count == |PresentAt(dir.entries)|
      requires Slot(dir, index).IsPresent()
      modifies this`rootEntry, dir
      ensures dir == null ==> rootEntry == Empty
      ensures dir != null ==>
                && rootEntry == old(rootEntry)
                && dir.entries == old(dir.entries)[index := Empty]
                && dir.count == |PresentAt(dir.entries)|
    {
      if dir == null {
        rootEntry := Empty;
      } else {
        PresentAfterClear(dir.entries, index);
        dir.count := dir.count - 1;
        dir.entries := dir.entries[index := Empty];
      }
    }

    method ClearRegion(dir: PgtDir?, index: nat, ghost y: Block)
      requires Linked({}) && IsSlot(dir, index, y) && y in pages
      modifies this`rootEntry, this`pages, dir
      ensures Linked(Above(dir, y)) && pages == old(pages) - {y}
    {
      SlotHolds(dir, index, y, {});
      RemovePagePlaced(root, dirAt.Keys, pages, y);
      assert dir != null ==> DirOk(Parent(y)) && dirAt[Parent(y)].at == Parent(y);
      ClearSlot(dir, index);
      pages := pages - {y};
      forall b {:trigger DirOk(b)} | b in dirAt
        ensures DirOk(b)
      {
        assert old(DirOk(b)) && dirAt[b].at == b;
        if b != Parent(y) {
          KeepMatch(old(dirAt), old(pages), dirAt, pages, y, b, dirAt[b].entries);
        } else {
          ParentOfSlot(dir, index, y);
          ChangeMatch(old(dirAt), old(pages), dirAt, pages, y, old(dir.entries));
        }
      }
      forall b {:trigger dirAt[b].count} | b in dirAt && b !in Above(dir, y)
        ensures dirAt[b].count > 0
      {
        assert old(dirAt[b].count) > 0 && dirAt[b].at == b;
      }
    }

    method ClearDir(dir: PgtDir?, index: nat, ghost y: Block)
      requires Linked({y}) && IsSlot(dir, index, y) && y in dirAt && dirAt[y].count == 0
      modifies this`rootEntry, this`dirAt, dir
      ensures Linked(Above(dir, y)) && dirAt == old(dirAt) - {y}
    {
      SlotHolds(dir, index, y, {y});
      assert dir != null ==> DirOk(Parent(y)) && dirAt[Parent(y)].at == Parent(y);
      assert DirOk(y);
      forall i: nat | i < 16
        ensures Child(y, i) !in dirAt && Child(y, i) !in pages
      {
        assert i !in PresentAt(dirAt[y].entries);
        assert dirAt[y].entries[i] == EntryAt(Child(y, i));
      }
      RemoveDirPlaced(root, dirAt.Keys, pages, y);
      assert (dirAt - {y}).Keys == dirAt.Keys - {y};
      ClearSlot(dir, index);
      dirAt := dirAt - {y};
      forall b {:trigger DirOk(b)} | b in dirAt
        ensures DirOk(b)
      {
        assert old(DirOk(b)) && dirAt[b].at == b;
        if b != Parent(y) {
          KeepMatch(old(dirAt), pages, dirAt, pages, y, b, dirAt[b].entries);
        } else {
          ParentOfSlot(dir, index, y);
          ChangeMatch(old(dirAt), pages, dirAt, pages, y, old(dir.entries));
        }
      }
      forall b {:trigger dirAt[b].count} | b in dirAt && b !in Above(dir, y)
        ensures dirAt[b].count > 0
      {
        assert old(dirAt[b].count) > 0 && dirAt[b].at == b;
      }
    }

    /** On the way back up, a directory that lost its last entry goes. */
    method DropIfEmpty(dir: PgtDir?, index: nat, nextDir: PgtDir, ghost y: Block)
      requires Linked({y}) && IsSlot(dir, index, y) && y in dirAt && dirAt[y] == nextDir
      modifies this`rootEntry, this`dirAt, dir
      ensures Linked(Above(dir, y)) && (dirAt == old(dirAt) || dirAt == old(dirAt) - {y})
    {
      if nextDir.count == 0 {
        ClearDir(dir, index, y);
      }
    }

    /** Two blocks around one address never both hold a page, and below an absent entry none does. */
    lemma NoPageBelow(address: nat, shift: nat, order: nat)
      requires Linked({}) && ValidShift(shift) && shift <= indexShift && order <= shift
      requires BlockOf(address, shift) !in dirAt
      ensures BlockOf(address, order) in pages ==> order == shift
    {
      var y, b := BlockOf(address, shift), BlockOf(address, order);
      if b in pages && order != shift {
        NestedAt(address, order, shift);
        assert Placed(root, dirAt.Keys, b);
        AncestorIsDir(root, dirAt.Keys, b, y);
      }
    }

    lemma PageBelowDir(address: nat, shift: nat, order: nat)
      requires Linked({}) && ValidShift(shift) && BlockOf(address, shift) in dirAt
      ensures order <= shift && BlockOf(address, order) in pages ==> order <= shift - 4
    {
      var b := BlockOf(address, order);
      if b in pages && order < shift {
        assert Placed(root, dirAt.Keys, b);
        ShiftGap(order, shift);
      }
    }

    method UnlinkRegion(dir: PgtDir?, index: nat, shift: nat, address: nat, order: nat, region: PgtRegion)
      returns (result: NResult)
      requires Linked({}) && ValidShift(shift) && IsSlot(dir, index, BlockOf(address, shift))
      requires dir != null ==> dir in dirAt.Values
      modifies this`rootEntry, this`dirAt, this`pages, dirAt.Values
      ensures dirAt.Values <= old(dirAt.Values)
      ensures forall c :: c in dirAt ==> c in old(dirAt) && dirAt[c] == old(dirAt)[c]
      ensures forall c: Block :: c.shift > shift && c in old(dirAt) ==> c in dirAt
      ensures result == NN_OK <==>
                order <= shift && BlockOf(address, order) in old(pages) && old(pages)[BlockOf(address, order)] == region
      ensures result == NN_OK ==>
                pages == old(pages) - {BlockOf(address, order)} && Linked(Above(dir, BlockOf(address, shift)))
      ensures result != NN_OK ==> unchanged(this) && unchanged(dirAt.Values)
      decreases shift
    {
      hide DirOk, Pow2;
      ghost var y := BlockOf(address, shift);
      ghost var b := BlockOf(address, order);
      SlotHolds(dir, index, y, {});
      var entry := Slot(dir, index);
      if entry.RegionEntry? {
        if shift != order {
          if order <= shift { NoPageBelow(address, shift, order); }
          return NN_ERROR;
        }
        if entry.region != region {
          return NN_ERROR;
        }
        ClearRegion(dir, index, y);
        return NN_OK;
      } else if entry.DirEntry? {
        var nextDir := entry.dir;
        assert DirOk(y) && Placed(root, dirAt.Keys, y);
        PageBelowDir(address, shift, order);
        StepDown(y, address);
        result := UnlinkRegion(nextDir, IndexAt(address, shift - 4), shift - 4, address, order, region);
        if result != NN_OK {
          return;
        }
        DropIfEmpty(dir, index, nextDir, y);
        return NN_OK;
      }
      if order <= shift { NoPageBelow(address, shift, order); }
      return NN_ERROR;
    }

    /** Every page lies in the span. */
    lemma PageInSpan(address: nat, order: nat)
      requires Linked({}) && BlockOf(address, order) in pages
      ensures InSpan(address) && order <= indexShift
    {
      var b := BlockOf(address, order);
      assert Placed(root, dirAt.Keys, b);
      PlacedUnderRoot(root, dirAt.Keys, b);
      BlockOfHolds(address, order);
      UnderContains(b, root, address);
      ContainsIff(root, address);
    }

    method RemovePage(address: nat, order: nat, region: PgtRegion) returns (result: NResult)
      requires TreeOk() && 4 <= order <= 60 && address < TWO64
      modifies this`rootEntry, this`indexShift, this`spaceMask, this`virBaseAddr, this`root, this`dirAt, this`pages,
               dirAt.Values
      ensures TreeOk() && dirAt.Values <= old(dirAt.Values)
      ensures result == NN_INVALID_PARAM <==> !ValidatePage(address, order)
      ensures result != NN_INVALID_PARAM ==>
                (result == NN_OK <==>
                 BlockOf(address, order) in old(pages) && old(pages)[BlockOf(address, order)] == region)
      ensures pages == if result == NN_OK then old(pages) - {BlockOf(address, order)} else old(pages)
    {
      if !ValidatePage(address, order) {
        return NN_INVALID_PARAM;
      }
      ghost var b := BlockOf(address, order);
      if b in pages { PageInSpan(address, order); }
      MaskMatches(address);
      if AndMask(address, spaceMask) != virBaseAddr {
        return NN_ERROR;
      }
      result := UnlinkRegion(null, 0, indexShift, address, order, region);
      if result != NN_OK {
        return NN_ERROR;
      }
      ShrinkAll();
    }

    // ---- the table as a set of regions ----

    ghost predicate Valid()
      reads this, dirAt.Values
    {
      TreeOk() && PagesAre(regions, pages) && regionCount == |regions|
    }

    lemma PagesNeverNest()
      requires Linked({})
      ensures NoNesting(pages)
    {
      forall x, y {:trigger Under(x, y)} | x in pages && y in pages && Under(x, y)
        ensures x == y
      {
        assert Placed(root, dirAt.Keys, x) && Placed(root, dirAt.Keys, y);
        if x != y {
          AncestorIsDir(root, dirAt.Keys, x, y);
        }
      }
    }

    /** The pages `done` of the region went in without a collision. */
    ghost predicate PartlyIn(region: PgtRegion, done: seq<Block>, before: PageMap)
      reads this`pages
    {
      FreshPages(before, done) && pages == before + TileMap(done, region)
    }

    /** One turn of the insert loop. */
    method InsertNext(region: PgtRegion, address: nat, ghost done: seq<Block>, ghost rest: seq<Block>,
                      ghost before: PageMap)
      returns (result: NResult, next: nat)
      requires TreeOk() && Plan(done + rest) && rest != []
      requires Remaining(rest, address, region.end) && PartlyIn(region, done, before)
      modifies this`rootEntry, this`indexShift, this`spaceMask, this`virBaseAddr, this`root, this`dirAt, this`pages,
               dirAt.Values
      ensures TreeOk() && fresh(dirAt.Values - old(dirAt.Values))
      ensures result == NN_OK ==>
                Remaining(rest[1..], next, region.end) && PartlyIn(region, done + [rest[0]], before)
      ensures result != NN_OK ==> PartlyIn(region, done, before) && Conflict(before, rest[0])
    {
      hide TreeOk;
      RemainingStep(rest, address, region.end);
      var order := GetNextPageOrder(address, region.end);
      result := InsertPage(address, order, region);
      next := address + Pow2(order);
      if result != NN_OK {
        NextConflict(done, rest, region, before);
      } else {
        NextFresh(done, rest[0], region, before);
      }
    }

    /** The insert loop; stops at the first page that collides. */
    method InsertPages(region: PgtRegion, ghost plan: seq<Block>)
      returns (address: nat, complete: bool, ghost done: seq<Block>, ghost rest: seq<Block>)
      requires TreeOk() && PlanFor(region.start, region.end, plan)
      modifies this`rootEntry, this`indexShift, this`spaceMask, this`virBaseAddr, this`root, this`dirAt, this`pages,
               dirAt.Values
      ensures TreeOk() && fresh(dirAt.Values - old(dirAt.Values))
      ensures done + rest == plan && Remaining(rest, address, region.end) && PartlyIn(region, done, old(pages))
      ensures complete ==> rest == []
      ensures !complete ==> rest != [] && Conflict(old(pages), rest[0])
    {
      hide TreeOk, Conflict, Pow2, GetNextPageOrder, LegalPage, Lo;
      address, done, rest := region.start, [], plan;
      assert pages == old(pages) + TileMap([], region);
      while address < region.end
        invariant TreeOk() && fresh(dirAt.Values - old(dirAt.Values))
        invariant done + rest == plan && Remaining(rest, address, region.end)
        invariant PartlyIn(region, done, old(pages))
        decreases |rest|
      {
        var result, next := InsertNext(region, address, done, rest, old(pages));
        if result != NN_OK {
          complete := false;
          return;
        }
        address, done, rest := next, done + [rest[0]], rest[1..];
      }
      if rest != [] { RemainingStep(rest, address, region.end); }
      complete := true;
    }

    /** On top of `before`, just the pages `rest` of the region are left in the table. */
    ghost predicate PartlyOut(region: PgtRegion, rest: seq<Block>, before: PageMap)
      reads this`pages
    {
      NotIn(rest, before) && pages == before + TileMap(rest, region)
    }

    /** One turn of the loops that take pages out again. */
    method RemoveNext(region: PgtRegion, address: nat, end: nat, ghost rest: seq<Block>, ghost before: PageMap)
      returns (result: NResult, next: nat)
      requires TreeOk() && rest != [] && Remaining(rest, address, end) && PartlyOut(region, rest, before)
      modifies this`rootEntry, this`indexShift, this`spaceMask, this`virBaseAddr, this`root, this`dirAt, this`pages,
               dirAt.Values
      ensures TreeOk() && dirAt.Values <= old(dirAt.Values)
      ensures result == NN_OK && Remaining(rest[1..], next, end) && PartlyOut(region, rest[1..], before)
    {
      hide TreeOk;
      RemainingStep(rest, address, end);
      TakeFirst(rest, region, before);
      var order := GetNextPageOrder(address, end);
      result := RemovePage(address, order, region);
      next := address + Pow2(order);
    }

    /** The rollback loop of Insert, from `start` up to `end`. */
    method RollbackPages(region: PgtRegion, start: nat, end: nat, ghost pagesIn: seq<Block>, ghost before: PageMap)
      requires TreeOk() && Remaining(pagesIn, start, end) && PartlyOut(region, pagesIn, before)
      modifies this`rootEntry, this`indexShift, this`spaceMask, this`virBaseAddr, this`root, this`dirAt, this`pages,
               dirAt.Values
      ensures TreeOk() && dirAt.Values <= old(dirAt.Values) && pages == before
    {
      hide TreeOk;
      var address: nat := start;
      ghost var rest := pagesIn;
      while address < end
        invariant TreeOk() && dirAt.Values <= old(dirAt.Values)
        invariant Remaining(rest, address, end) && PartlyOut(region, rest, before)
        decreases |rest|
      {
        var result, next := RemoveNext(region, address, end, rest, before);
        address, rest := next, rest[1..];
      }
      if rest != [] { RemainingStep(rest, address, end); }
      assert pages == before + TileMap([], region);
    }

    /** The region shares no address with a stored one. */
    ghost predicate Fits(region: PgtRegion)
      reads this`regions
    {
      forall q {:trigger Overlap(q, region)} :: q in regions ==> !Overlap(q, region)
    }

    /** All pages of the plan, or none of them. */
    method InsertPlan(region: PgtRegion, ghost plan: seq<Block>) returns (ok: bool)
      requires TreeOk() && PlanFor(region.start, region.end, plan)
      modifies this`rootEntry, this`indexShift, this`spaceMask, this`virBaseAddr, this`root, this`dirAt, this`pages,
               dirAt.Values
      ensures TreeOk() && fresh(dirAt.Values - old(dirAt.Values))
      ensures ok ==> FreshPages(old(pages), plan) && pages == old(pages) + TileMap(plan, region)
      ensures !ok ==>
                && pages == old(pages)
                && exists b {:trigger Conflict(old(pages), b)} :: b in plan && Conflict(old(pages), b)
    {
      hide TreeOk;
      var address, complete, done, rest := InsertPages(region, plan);
      if complete {
        assert done == plan;
        return true;
      }
      assert rest[0] in plan;
      WalkedPages(done, rest, region.start, address, region.end);
      FreshNotIn(old(pages), done);
      RollbackPages(region, region.start, address, done, old(pages));
      ok := false;
    }

    /** Insert succeeds exactly for a well-formed region that overlaps no stored one; otherwise nothing changes. */
    method Insert(region: PgtRegion) returns (result: NResult)
      requires Valid() && region.start < TWO64 && region.end < TWO64
      modifies this, dirAt.Values
      ensures Valid() && fresh(dirAt.Values - old(dirAt.Values))
      ensures result == NN_INVALID_PARAM <==> !GoodRegion(region)
      ensures result == NN_OK <==> GoodRegion(region) && old(Fits(region))
      ensures result != NN_OK ==> View() == old(View())
      ensures regions == if result == NN_OK then old(regions) + {region} else old(regions)
    {
      hide TreeOk, TightRoot, View, ViewOf, Lo, Overlap, PlanFor, PagesAre;
      ViewIs();
      if region.start >= region.end || region.start % 16 != 0 || region.end % 16 != 0 {
        return NN_INVALID_PARAM;
      }
      ghost var plan := PlanExists(region.start, region.end);
      PagesOfIs(region, plan);
      var ok := InsertPlan(region, plan);
      if ok {
        PagesAfterInsert(regions, old(pages), region);
        forall q {:trigger Overlap(q, region)} | q in regions
          ensures !Overlap(q, region)
        {
          FreshMeansFits(regions, old(pages), region, q);
        }
        assert region !in regions by {
          if region in regions { FreshMeansFits(regions, old(pages), region, region); }
        }
        regionCount := regionCount + 1;
        regions := regions + {region};
        result := NN_OK;
      } else {
        ghost var b :| b in plan && Conflict(old(pages), b);
        ghost var q := ConflictMeansOverlap(regions, old(pages), region, b);
        SameView(old(pages), old(root));
        result := NN_ERROR;
      }
    }

    /** At the start of Remove: the pages of a stored region are in, the first page of another one is not. */
    ghost predicate Removable(stored: bool, region: PgtRegion, rest: seq<Block>, before: PageMap)
      reads this`pages
    {
      if stored then
        PartlyOut(region, rest, before)
      else
        rest != [] && (rest[0] in pages ==> pages[rest[0]] != region)
    }

    /** One turn of the loop of Remove. */
    method RemoveStep(region: PgtRegion, address: nat, ghost stored: bool, ghost rest: seq<Block>,
                      ghost before: PageMap)
      returns (result: NResult, next: nat)
      requires TreeOk() && rest != [] && Remaining(rest, address, region.end) && Removable(stored, region, rest, before)
      modifies this`rootEntry, this`indexShift, this`spaceMask, this`virBaseAddr, this`root, this`dirAt, this`pages,
               dirAt.Values
      ensures TreeOk() && dirAt.Values <= old(dirAt.Values)
      ensures result == NN_OK <==> stored
      ensures stored ==> Remaining(rest[1..], next, region.end) && PartlyOut(region, rest[1..], before)
      ensures !stored ==> pages == old(pages)
    {
      hide TreeOk, GetNextPageOrder, Lo, Pow2, EntriesMatch;
      RemainingStep(rest, address, region.end);
      if stored { TakeFirst(rest, region, before); }
      var order := GetNextPageOrder(address, region.end);
      result := RemovePage(address, order, region);
      next := address + Pow2(order);
    }

    /** The loop of Remove. */
    method RemovePages(region: PgtRegion, ghost stored: bool, ghost plan: seq<Block>, ghost before: PageMap)
      returns (result: NResult)
      requires TreeOk() && PlanFor(region.start, region.end, plan) && Removable(stored, region, plan, before)
      modifies this`rootEntry, this`indexShift, this`spaceMask, this`virBaseAddr, this`root, this`dirAt, this`pages,
               dirAt.Values
      ensures TreeOk() && dirAt.Values <= old(dirAt.Values)
      ensures result == if stored then NN_OK else NN_ERROR
      ensures pages == if stored then before else old(pages)
    {
      hide TreeOk;
      var address: nat := region.start;
      ghost var rest := plan;
      assert address < region.end by { RemainingStep(plan, region.start, region.end); }
      while address < region.end
        invariant TreeOk() && dirAt.Values <= old(dirAt.Values)
        invariant Remaining(rest, address, region.end) && Removable(stored, region, rest, before)
        invariant !stored ==> pages == old(pages) && address < region.end
        decreases |rest|
      {
        var ret, next := RemoveStep(region, address, stored, rest, before);
        if ret != NN_OK {
          return NN_ERROR;
        }
        address, rest := next, rest[1..];
      }
      if rest != [] { RemainingStep(rest, address, region.end); }
      assert pages == before + TileMap([], region);
      result := NN_OK;
    }

    lemma RemovalStart(region: PgtRegion, before: PageMap)
      requires PagesAre(regions, pages) && before == map x | x in pages && pages[x] != region :: pages[x]
      ensures region in regions ==> GoodRegion(region) && PagesAre(regions - {region}, before)
      ensures GoodRegion(region) ==>
                && PlanFor(region.start, region.end, PagesOf(region))
                && Removable(region in regions, region, PagesOf(region), before)
    {
      hide PagesAre;
      RemovalPlan(regions, pages, region, before);
      if GoodRegion(region) {
        var plan := PagesOf(region);
        RemainingStep(plan, region.start, region.end);
      }
    }

    /** Remove succeeds exactly for a stored region and forgets that one alone; otherwise nothing changes. */
    method Remove(region: PgtRegion) returns (result: NResult)
      requires Valid() && region.start < TWO64 && region.end < TWO64
      modifies this, dirAt.Values
      ensures Valid() && dirAt.Values <= old(dirAt.Values)
      ensures result == if region in old(regions) then NN_OK else NN_ERROR
      ensures result != NN_OK ==> View() == old(View())
      ensures regions == old(regions) - {region}
    {
      hide TreeOk, PagesAre, TightRoot, View, ViewOf, PlanFor, Removable;
      ViewIs();
      ghost var stored := region in regions;
      ghost var before := map x | x in pages && pages[x] != region :: pages[x];
      RemovalStart(region, before);
      if region.start >= region.end || region.start % 16 != 0 || region.end % 16 != 0 {
        return NN_ERROR;
      }
      result := RemovePages(region, stored, PagesOf(region), before);
      if result != NN_OK {
        SameView(old(pages), old(root));
        return;
      }
      if regionCount > 0 {
        regionCount := regionCount - 1;
      }
      regions := regions - {region};
    }

    // ---- lookup ----

    /** No stored region holds the address. */
    ghost predicate Unmapped(address: nat)
      reads this`regions
    {
      forall q {:trigger q in regions} :: q in regions ==> !(q.start <= address < q.end)
    }

    /** Where no page lies around the address, no region holds it. */
    lemma NoPageUnmapped(address: nat)
      requires PagesAre(regions, pages) && forall x {:trigger Contains(x, address)} :: x in pages ==>
                 !Contains(x, address)
      ensures Unmapped(address)
    {
      forall q | q in regions && q.start <= address < q.end
        ensures false
      {
        var x := PageAround(regions, pages, q, address);
      }
    }

    lemma OutsideUnmapped(address: nat)
      requires Valid() && (!InSpan(address) || rootEntry.Empty?)
      ensures Unmapped(address)
    {
      if rootEntry.Empty? {
        EmptyRoot(root, dirAt.Keys, pages);
      }
      forall x {:trigger Contains(x, address)} | x in pages
        ensures !Contains(x, address)
      {
        if Contains(x, address) {
          ContainsIff(x, address);
          PageInSpan(address, x.shift);
        }
      }
      NoPageUnmapped(address);
    }

    /** An absent entry on the way down means that no region holds the address. */
    lemma AbsentUnmapped(address: nat, shift: nat)
      requires Valid() && Placed(root, dirAt.Keys, BlockOf(address, shift)) && EntryAt(BlockOf(address, shift)).Empty?
      ensures Unmapped(address)
    {
      var y := BlockOf(address, shift);
      FreeMeansNoConflict(y, {});
      BlockOfHolds(address, shift);
      forall x {:trigger Contains(x, address)} | x in pages
        ensures !Contains(x, address)
      {
        if Contains(x, address) {
          CommonAddressCollides(x, y, address);
        }
      }
      NoPageUnmapped(address);
    }

    /** Lookup finds the stored region that holds the address, and nothing when there is none. */
    method Lookup(address: nat) returns (region: PgtRegion?)
      requires Valid() && address < TWO64
      ensures region != null ==> region in regions && region.start <= address < region.end
      ensures region == null ==> Unmapped(address)
    {
      MaskMatches(address);
      if AndMask(address, spaceMask) != virBaseAddr {
        OutsideUnmapped(address);
        return null;
      }
      if !rootEntry.IsPresent() {
        OutsideUnmapped(address);
        return null;
      }
      var entry, shift: nat := rootEntry, indexShift;
      assert Placed(root, dirAt.Keys, root);
      while !entry.RegionEntry?
        invariant entry == EntryAt(BlockOf(address, shift))
        invariant Placed(root, dirAt.Keys, BlockOf(address, shift))
        decreases shift
      {
        if !entry.DirEntry? {
          AbsentUnmapped(address, shift);
          return null;
        }
        DirBelow(address, shift);
        shift := shift - PTE_SHIFT_PER_DIR;
        entry := entry.dir.entries[IndexAt(address, shift)];
      }
      BlockOfHolds(address, shift);
      PageHoldsAddress(regions, pages, BlockOf(address, shift), address);
      if address < entry.region.start || address >= entry.region.end {
        return null;
      }
      region := entry.region;
    }

    /** Going down one level from a directory around the address. */
    lemma DirBelow(address: nat, shift: nat)
      requires Linked({}) && BlockOf(address, shift) in dirAt
      ensures shift >= 8 && |dirAt[BlockOf(address, shift)].entries| == 16
      ensures dirAt[BlockOf(address, shift)].entries[IndexAt(address, shift - 4)] == EntryAt(BlockOf(address,
                shift - 4))
      ensures Placed(root, dirAt.Keys, BlockOf(address, shift - 4))
    {
      var y := BlockOf(address, shift);
      assert Placed(root, dirAt.Keys, y) && DirOk(y);
      StepDown(y, address);
      SlotHolds(dirAt[y], IndexAt(address, shift - 4), BlockOf(address, shift - 4), {});
    }

    // ---- range search ----

    /** No region has an address on a block without an entry. */
    lemma EmptyScan(y: Block, found: seq<PgtRegion>, low: nat, lo: nat, hi: nat)
      requires Valid() && Placed(root, dirAt.Keys, y) && EntryAt(y).Empty? && Disjoint(regions)
      requires Lo(y) <= lo <= hi <= Hi(y) && low <= lo && Scanned(regions, found, low, lo)
      ensures Scanned(regions, found, low, hi)
    {
      forall q {:trigger Meets(q, lo, hi)} | q in regions
        ensures !Meets(q, lo, hi)
      {
        if Meets(q, lo, hi) {
          var a := if q.start <= lo then lo else q.start;
          ContainsIff(y, a);
          AbsentUnmapped(a, y.shift);
        }
      }
      ScanNothing(regions, found, low, lo, hi);
    }

    /** The page on y belongs to a region that covers all of y. */
    lemma PageScan(y: Block, found: seq<PgtRegion>, low: nat, lo: nat, hi: nat)
      requires PagesAre(regions, pages) && y in pages && Disjoint(regions)
      requires Lo(y) <= lo < hi <= Hi(y) && low <= lo && Scanned(regions, found, low, lo)
      ensures pages[y].start <= lo && hi <= pages[y].end
      ensures found != [] && found[|found| - 1] == pages[y] ==> Scanned(regions, found, low, hi)
      ensures !(found != [] && found[|found| - 1] == pages[y]) ==>
                && Scanned(regions, found + [pages[y]], low, hi)
                && (found != [] ==> found[|found| - 1].end <= pages[y].start)
    {
      PageHoldsAddress(regions, pages, y, lo);
      PageHoldsAddress(regions, pages, y, hi - 1);
      ScanRegion(regions, found, low, lo, hi, pages[y]);
    }

    /** The part of the block y and the tile that is searched: the smaller of the two. */
    ghost function Part(y: Block, tile: Block): Block
    {
      if tile.shift < y.shift then tile else y
    }

    lemma PartInside(y: Block, tile: Block)
      requires Under(y, tile) || Under(tile, y)
      ensures Lo(y) <= Lo(Part(y, tile)) < Hi(Part(y, tile)) <= Hi(y)
      ensures Lo(tile) <= Lo(Part(y, tile)) < Hi(Part(y, tile)) <= Hi(tile)
    {
      if Under(y, tile) {
        UnderInterval(y, tile);
      } else {
        UnderInterval(tile, y);
      }
    }

    /** A directory around the tile: the search goes on in one child, and still covers the tile. */
    lemma NarrowSearch(y: Block, tile: Block, address: nat)
      requires Linked({}) && y in dirAt && Lo(tile) == address && ValidShift(tile.shift)
      requires tile.shift < y.shift && (Under(y, tile) || Under(tile, y))
      ensures y.shift >= 8 && |dirAt[y].entries| == 16
      ensures dirAt[y].entries[IndexAt(address, y.shift - 4)] == EntryAt(BlockOf(address, y.shift - 4))
      ensures Placed(root, dirAt.Keys, BlockOf(address, y.shift - 4))
      ensures Under(tile, BlockOf(address, y.shift - 4)) && Part(BlockOf(address, y.shift - 4),
                tile).shift == tile.shift
      ensures Lo(Part(BlockOf(address, y.shift - 4), tile)) == Lo(tile)
    {
      hide DirOk, Lo;
      assert Placed(root, dirAt.Keys, y);
      ContainsIff(y, address);
      DirBelow(address, y.shift);
      UnderSomeChild(tile, y);
      ChildOf(y, address);
      BlockOfLo(tile);
    }

    /** A directory inside the tile: each child is inside it as well, one after the other. */
    lemma WideSearch(y: Block, tile: Block, i: nat)
      requires Linked({}) && y in dirAt && tile.shift >= y.shift && (Under(y, tile) || Under(tile, y)) && i < 16
      ensures y.shift >= 8 && |dirAt[y].entries| == 16 && dirAt[y].entries[i] == EntryAt(Child(y, i))
      ensures Placed(root, dirAt.Keys, Child(y, i)) && Under(Child(y, i), tile)
      ensures Part(Child(y, i), tile) == Child(y, i) && Lo(y) <= Lo(Child(y, i))
    {
      assert Placed(root, dirAt.Keys, y) && DirOk(y);
      ChildParent(y, i);
      ChildUnder(y, i);
      UnderInterval(Child(y, i), y);
      if !Under(y, tile) { UnderAntisymmetric(tile, y); }
      UnderTransitive(Child(y, i), y, tile);
    }

    /** The call on a region: reported unless it is the region reported last. */
    method SearchRegion(address: nat, order: nat, region: PgtRegion, found: seq<PgtRegion>, lastRegion: PgtRegion?,
                        ghost y: Block, ghost tile: Block, ghost low: nat, ghost again: bool)
      returns (found': seq<PgtRegion>, last': PgtRegion?)
      requires PagesAre(regions, pages) && Disjoint(regions) && y in pages && region == pages[y]
      requires tile.shift == order && Lo(tile) == address && (Under(y, tile) || Under(tile, y))
      requires Sought(regions, found, low, Lo(Part(y, tile)), again) && IsLast(found, lastRegion)
      ensures Sought(regions, found', low, Hi(Part(y, tile)), again) && IsLast(found', last')
                && (again ==> found' == found)
    {
      hide Scanned, PagesAre, Disjoint;
      PartInside(y, tile);
      if again {
        PageHoldsAddress(regions, pages, y, Lo(y));
      } else {
        PageScan(y, found, low, Lo(Part(y, tile)), Hi(Part(y, tile)));
      }
      if lastRegion == region {
        return found, lastRegion;
      }
      if lastRegion != null && region.start < lastRegion.end {
        return found, lastRegion;
      }
      last' := region;
      if Max(region.start, address) > Min(region.end - 1, address + (Pow2(order) - 1)) {
        return found, last';
      }
      found' := found + [region];
    }

    method SearchSubtree(address: nat, order: nat, entry: PgtEntry, currentShift: nat,
                         found: seq<PgtRegion>, lastRegion: PgtRegion?, ghost y: Block, ghost tile: Block,
                             ghost low: nat, ghost again: bool)
      returns (found': seq<PgtRegion>, last': PgtRegion?)
      requires Valid() && Disjoint(regions)
      requires Placed(root, dirAt.Keys, y) && entry == EntryAt(y) && currentShift == y.shift
      requires tile.shift == order && Lo(tile) == address && ValidShift(order) && (Under(y, tile) || Under(tile, y))
      requires Sought(regions, found, low, Lo(Part(y, tile)), again) && IsLast(found, lastRegion)
      ensures Sought(regions, found', low, Hi(Part(y, tile)), again) && IsLast(found', last')
                && (again ==> found' == found)
      decreases currentShift
    {
      hide Scanned, PagesAre, Disjoint, DirOk, Under, Placed, IsLast, Pow2, Lo, PlanFor, AllPlaced, Linked;
      found', last' := found, lastRegion;
      if entry.RegionEntry? {
        found', last' := SearchRegion(address, order, entry.region, found, lastRegion, y, tile, low, again);
      } else if entry.DirEntry? {
        if order < currentShift {
          NarrowSearch(y, tile, address);
          var nextShift := currentShift - PTE_SHIFT_PER_DIR;
          found', last' := SearchSubtree(address, order, entry.dir.entries[IndexAt(address, nextShift)], nextShift,
                                         found, lastRegion, BlockOf(address, nextShift), tile, low, again);
        } else {
          found', last' := SearchAllEntries(address, order, entry.dir, currentShift, found, lastRegion, y, tile, low,
              again);
        }
      } else {
        PartInside(y, tile);
        if !again { EmptyScan(y, found, low, Lo(Part(y, tile)), Hi(Part(y, tile))); }
      }
    }

    /** The loop over all entries of a directory inside the tile. */
    method SearchAllEntries(address: nat, order: nat, dir: PgtDir, currentShift: nat,
                            found: seq<PgtRegion>, lastRegion: PgtRegion?, ghost y: Block, ghost tile: Block,
                                ghost low: nat, ghost again: bool)
      returns (found': seq<PgtRegion>, last': PgtRegion?)
      requires Valid() && Disjoint(regions)
      requires y in dirAt && dir == dirAt[y] && currentShift == y.shift
      requires tile.shift == order && Lo(tile) == address && ValidShift(order) && (Under(y, tile) || Under(tile, y))
      requires order >= currentShift && Sought(regions, found, low, Lo(y), again) && IsLast(found, lastRegion)
      ensures Sought(regions, found', low, Hi(y), again) && IsLast(found', last') && (again ==> found' == found)
      decreases currentShift, 0
    {
      hide Scanned, PagesAre, Disjoint, DirOk, Under, Placed, IsLast;
      WideSearch(y, tile, 0);
      ChildrenFill(y, 0);
      found', last' := found, lastRegion;
      var i: nat := 0;
      while i < 16
        invariant i <= 16
        invariant Sought(regions, found', low, Lo(Child(y, i)), again) && IsLast(found', last')
                    && (again ==> found' == found)
      {
        WideSearch(y, tile, i);
        found', last' := SearchSubtree(address, order, dir.entries[i], currentShift - PTE_SHIFT_PER_DIR,
                                       found', last', Child(y, i), tile, low, again);
        ChildrenFill(y, i);
        i := i + 1;
      }
    }

    lemma RegionInSpan(q: PgtRegion)
      requires Valid() && q in regions
      ensures Lo(root) <= q.start < q.end <= Hi(root)
    {
      hide Pow2, PlanFor;
      assert GoodRegion(q);
      var x := PageAround(regions, pages, q, q.start);
      ContainsIff(x, q.start);
      PageInSpan(q.start, x.shift);
      ContainsIff(root, q.start);
      var y := PageAround(regions, pages, q, q.end - 1);
      ContainsIff(y, q.end - 1);
      PageInSpan(q.end - 1, y.shift);
      ContainsIff(root, q.end - 1);
    }

    lemma AllDisjoint()
      requires Valid()
      ensures Disjoint(regions)
    {
      PagesNeverNest();
      StoredAreDisjoint(regions, pages);
    }

    lemma AboveSpan(found: seq<PgtRegion>, low: nat, p: nat, hi: nat)
      requires Valid() && Disjoint(regions) && Hi(root) <= p <= hi && low <= p && Scanned(regions, found, low, p)
      ensures Scanned(regions, found, low, hi)
    {
      forall q {:trigger Meets(q, p, hi)} | q in regions
        ensures !Meets(q, p, hi)
      {
        RegionInSpan(q);
      }
      ScanNothing(regions, found, low, p, hi);
    }

    /** An aligned tile that starts in the span is inside it or starts with it. */
    lemma TileNests(address: nat, order: nat)
      requires Header() && InSpan(address) && Rem(address, Pow2(order)) == 0
      ensures var tile := BlockOf(address, order);
              && (Under(root, tile) || Under(tile, root)) && Lo(tile) == address
              && Lo(Part(root, tile)) == address && Hi(Part(root, tile)) == Min(address + Pow2(order), Hi(root))
    {
      hide Pow2, Rem, Times, Quot;
      AlignedBlock(address, order);
      var tile := BlockOf(address, order);
      ContainsIff(root, address);
      BlockOfHolds(address, order);
      if order <= indexShift {
        CommonAddressNests(tile, root, address);
        UnderInterval(tile, root);
        if order == indexShift { UnderAntisymmetric(tile, root); }
      } else {
        CommonAddressNests(root, tile, address);
        UnderInterval(root, tile);
      }
    }

    /** One turn of the search loop, without the step to the next stop. */
    method SearchTile(address: nat, order: nat, found: seq<PgtRegion>, lastRegion: PgtRegion?, ghost low: nat,
                      ghost again: bool)
      returns (found': seq<PgtRegion>, last': PgtRegion?)
      requires Valid() && Disjoint(regions) && IsLast(found, lastRegion)
      requires InSpan(address) ==>
                 ValidShift(order) && Rem(address, Pow2(order)) == 0 && Sought(regions, found, low, address, again)
      ensures InSpan(address) ==> Sought(regions, found', low, Min(address + Pow2(order), Hi(root)), again)
      ensures !InSpan(address) || again ==> found' == found
      ensures IsLast(found', last')
    {
      hide Pow2, Rem, PagesAre, Disjoint, Sought, IsLast, InSpan, Lo;
      MaskMatches(address);
      if AndMask(address, spaceMask) == virBaseAddr {
        TileNests(address, order);
        assert Placed(root, dirAt.Keys, root);
        found', last' := SearchSubtree(address, order, rootEntry, indexShift, found, lastRegion,
                                       root, BlockOf(address, order), low, again);
      } else {
        found', last' := found, lastRegion;
      }
    }

    /** The loop between two turns: at a stop everything below it is scanned; once the addresses have run
        out, everything from the start on is. */
    ghost predicate Searching(to: nat, start: nat, end: nat, address: nat, found: seq<PgtRegion>, round: bool)
      reads this
    {
      && Hi(root) <= TWO64 && to < TWO64 && end == SearchEnd(root, to)
      && if round then
           && address == end == 0 < start && Scanned(regions, found, start, TWO64)
           && (to <= TWO64 - 16 ==> start <= to && TileEnd(start, to) == TWO64)
         else
           && Steady(root, to, start, address) && Scanned(regions, found, start, address)
           && (end == 0 && start == 0 ==> address == 0)
    }

    /** One turn of the loop at a stop. */
    method SearchForward(to: nat, address: nat, end: nat, found: seq<PgtRegion>, lastRegion: PgtRegion?,
                         ghost start: nat)
      returns (found': seq<PgtRegion>, last': PgtRegion?, next: nat, ghost round: bool)
      requires Valid() && Disjoint(regions) && IsLast(found, lastRegion) && address <= to
      requires Searching(to, start, end, address, found, false) && (address == 0 ==> end != 0)
      ensures IsLast(found', last') && Searching(to, start, end, next, found', round)
      ensures !round ==> next > address
    {
      hide Pow2, Rem, PagesAre, Disjoint, Scanned, IsLast, TreeOk, GetNextPageOrder, InSpan, LegalStep, Steady,
           SearchEnd;
      ForwardReady(to, start, end, address, found);
      var order := GetNextPageOrder(address, end);
      found', last' := SearchTile(address, order, found, lastRegion, start, false);
      next := Add64(address, Pow2(order));
      round := address + Pow2(order) == TWO64;
      ForwardDone(to, start, end, address, found, found', order);
    }

    lemma ForwardReady(to: nat, start: nat, end: nat, address: nat, found: seq<PgtRegion>)
      requires TreeOk() && Searching(to, start, end, address, found, false) && address <= to
                 && (address == 0 ==> end != 0)
      ensures address < TWO64 && end < TWO64
      ensures var order := GetNextPageOrder(address, end);
              && order < 64 && ValidShift(order) && Rem(address, Pow2(order)) == 0 && 0 < Pow2(order)
                   && address + Pow2(order) <= TWO64
      ensures Sought(regions, found, start, address, false)
      ensures InSpan(address) <==> address < Hi(root)
    {
      hide Pow2, Scanned, Rem, Times, GetNextPageOrder, SearchEnd, TileEnd;
      ContainsIff(root, address);
      EndCases(root, to);
      SteadyStep(root, to, start, address);
    }

    lemma ForwardDone(to: nat, start: nat, end: nat, address: nat, found: seq<PgtRegion>, found': seq<PgtRegion>,
                      order: nat)
      requires Valid() && Disjoint(regions) && Searching(to, start, end, address, found, false) && address <= to
                 && (address == 0 ==> end != 0)
      requires order == GetNextPageOrder(address, end) && address + Pow2(order) <= TWO64
      requires if address < Hi(root) then Sought(regions, found', start, Min(address + Pow2(order), Hi(root)), false)
                 else found' == found
      ensures if address + Pow2(order) == TWO64 then Searching(to, start, end, 0, found', true)
              else Searching(to, start, end, address + Pow2(order), found', false)
    {
      hide Pow2, Scanned, Rem, Times, GetNextPageOrder, SearchEnd, TileEnd, PagesAre, Disjoint, LegalStep;
      SteadyStep(root, to, start, address);
      EndCases(root, to);
      var next := address + Pow2(order);
      if address >= Hi(root) {
        AboveSpan(found, start, address, next);
      } else if next > Hi(root) {
        AboveSpan(found', start, Hi(root), next);
      }
    }

    /** The turn at address 0 with the end cut to 0: one tile of the order of all addresses. */
    method SearchAll(to: nat, end: nat, found: seq<PgtRegion>, lastRegion: PgtRegion?, ghost start: nat,
                     ghost round: bool)
      returns (found': seq<PgtRegion>)
      requires Valid() && Disjoint(regions) && IsLast(found, lastRegion) && end == 0
      requires Searching(to, start, end, 0, found, round)
      ensures if round && !(virBaseAddr == 0 && found == []) then found' == found
                else virBaseAddr == 0 && Scanned(regions, found', 0, Hi(root))
    {
      hide Pow2, Rem, PagesAre, Disjoint, IsLast, InSpan, Steady, SearchEnd, TileEnd, Lo;
      AllReady(to, start, found, round);
      var last', order := lastRegion, GetNextPageOrder(0, end);
      found', last' := SearchTile(0, order, found, lastRegion, 0, found != []);
    }

    lemma AllReady(to: nat, start: nat, found: seq<PgtRegion>, round: bool)
      requires Valid() && Disjoint(regions) && Searching(to, start, 0, 0, found, round)
      ensures GetNextPageOrder(0, 0) == 64 && Rem(0, Pow2(64)) == 0 && Pow2(64) == TWO64
      ensures InSpan(0) <==> virBaseAddr == 0
      ensures !round ==> virBaseAddr == 0 && found == []
      ensures virBaseAddr == 0 ==> Sought(regions, found, 0, 0, found != [])
    {
      hide Pow2, Times, TileEnd;
      Pow2Of64();
      RemIs(0, TWO64);
      ContainsIff(root, 0);
      if found != [] {
        assert found[0] in found;
        forall q | q in regions ensures q.start < TWO64 { RegionInSpan(q); }
        if round { ScannedIsExhausted(regions, found, start, TWO64); }
      }
    }

    // ---- what a search reports ----

    /** The span ends at 2^64 and does not begin at 0, and the range ends below the last granule: the end of
        the range is lost, and the search goes on to the end of the last tile. */
    ghost predicate Overshoots(from: nat, to: nat)
      reads this
    {
      root.shift < 64 && Hi(root) == TWO64 && SearchStart(root, from) <= to <= TWO64 - 16
    }

    /** The range reaches the last granule, begins above the first, and holds no region of a table that begins
        at 0: the search comes back to 0 and goes over the whole span. */
    ghost predicate ComesBack(from: nat, to: nat)
      reads this
    {
      to > TWO64 - 16 && from >= 16 && virBaseAddr == 0 && forall q :: q in regions ==> q.end <= from
    }

    /** The range 0..0 of a table that begins at 0 is taken for all addresses. */
    ghost predicate TakenForAll(to: nat)
      reads this
    {
      to == 0 && virBaseAddr == 0
    }

    /** The first address looked at, and the one after the last. */
    ghost function LookedFrom(from: nat, to: nat): nat
      reads this
    {
      if TakenForAll(to) || ComesBack(from, to) then 0 else from
    }

    ghost function LookedTo(from: nat, to: nat): nat
      reads this
    {
      if TakenForAll(to) || ComesBack(from, to) then Hi(root)
          else if Overshoots(from, to) then TileEnd(SearchStart(root, from), to) else to + 1
    }

    /** Exactly the stored regions with an address looked at, each once and in ascending order. */
    ghost predicate Reported(found: seq<PgtRegion>, from: nat, to: nat)
      reads this
    {
      Scanned(regions, found, LookedFrom(from, to), LookedTo(from, to))
    }

    /** The loop is left because the address passed `to`. */
    lemma StopReports(from: nat, to: nat, end: nat, address: nat, found: seq<PgtRegion>)
      requires Valid() && from <= to && Searching(to, SearchStart(root, from), end, address, found, false)
                 && to < address
      ensures Reported(found, from, to)
    {
      hide Pow2, Times, SearchEnd, SearchStart, GoodRegion, Meets, Scanned, TileEnd;
      EndCases(root, to);
      var start := SearchStart(root, from);
      StartLow(from, to);
      forall q | q in regions
        ensures Meets(q, start, address) <==> Meets(q, LookedFrom(from, to), LookedTo(from, to))
      {
        RegionInSpan(q);
        assert GoodRegion(q);
        if Overshoots(from, to) {
          SameStart(q, root, from, address);
        } else {
          SameGranules(q, root, from, to, address);
        }
      }
      ScannedSame(regions, found, start, address, LookedFrom(from, to), LookedTo(from, to));
    }

    lemma StartLow(from: nat, to: nat)
      requires Header() && from <= to
      ensures SearchStart(root, from) == 0 ==> virBaseAddr == 0
      ensures virBaseAddr == 0 ==> SearchStart(root, from) == AlignDown16(from) <= from
      ensures SearchStart(root, from) > to ==> SearchStart(root, from) == virBaseAddr
    {
      Pow2Of64();
    }

    /** It is left after the tile of all addresses. */
    lemma AllReports(from: nat, to: nat, end: nat, found: seq<PgtRegion>, found': seq<PgtRegion>, round: bool)
      requires Valid() && from <= to && end == 0 && Searching(to, SearchStart(root, from), end, 0, found, round)
      requires if round && !(virBaseAddr == 0 && found == []) then found' == found
                 else virBaseAddr == 0 && Scanned(regions, found', 0, Hi(root))
      ensures Reported(found', from, to)
    {
      hide Pow2, Times, SearchEnd, TileEnd, Tight, Lo, PlanFor;
      EndCases(root, to);
      StartLow(from, to);
      var start := SearchStart(root, from);
      if round && !(virBaseAddr == 0 && found == []) {
        RoundReports(from, to, end, found);
      } else {
        if round {
          forall q | q in regions
            ensures q.end <= from
          {
            RegionInSpan(q);
            assert !Meets(q, start, TWO64);
          }
          assert ComesBack(from, to);
        }
        forall q | q in regions
          ensures Meets(q, 0, Hi(root)) <==> Meets(q, LookedFrom(from, to), LookedTo(from, to))
        {
          RegionInSpan(q);
          assert GoodRegion(q);
        }
      }
    }

    lemma RoundReports(from: nat, to: nat, end: nat, found: seq<PgtRegion>)
      requires Valid() && from <= to && end == 0 && Searching(to, SearchStart(root, from), end, 0, found, true)
      requires !(virBaseAddr == 0 && found == [])
      ensures Reported(found, from, to)
    {
      hide Pow2, Times, SearchEnd, TileEnd, SearchStart;
      EndCases(root, to);
      StartLow(from, to);
      var start := SearchStart(root, from);
      if virBaseAddr == 0 {
        assert found[0] in found;
        RegionInSpan(found[0]);
        assert GoodRegion(found[0]);
        assert found[0].end > from;
      }
      forall q | q in regions
        ensures Meets(q, start, TWO64) <==> Meets(q, LookedFrom(from, to), LookedTo(from, to))
      {
        RegionInSpan(q);
        assert GoodRegion(q);
        SameStart(q, root, from, TWO64);
      }
    }

    lemma NothingReports(from: nat, to: nat)
      requires Valid() && from <= to < SearchStart(root, from)
      ensures Reported([], from, to)
    {
      StartLow(from, to);
      forall q | q in regions
        ensures !Meets(q, from, to + 1)
      {
        RegionInSpan(q);
      }
    }

    /** SearchRange ends for every range that NeverEnds does not hold of, and reports what Reported says. */
    method SearchRange(from: nat, to: nat) returns (found: seq<PgtRegion>)
      requires Valid() && from <= to < TWO64 && !NeverEnds(root, from, to)
      ensures Reported(found, from, to)
    {
      hide Pow2, PagesAre, Scanned, Reported, Steady, NeverEnds, Searching;
      AllDisjoint();
      var address: nat, end: nat := AlignDown16(from), AlignUp16(to);
      if indexShift < 64 {
        address := Max(address, virBaseAddr);
        end := Min(end, Add64(virBaseAddr, Pow2(indexShift)));
      }
      var lastRegion: PgtRegion? := null;
      found := [];
      ghost var start, round := address, false;
      if address <= to { SearchBegins(from, to, end); }
      while address <= to
        invariant IsLast(found, lastRegion)
        invariant start <= to ==> Searching(to, start, end, address, found, round)
        invariant start > to ==> address == start && found == []
        decreases if round then 0 else 1, TWO64 - address
      {
        RoundAtZero(to, start, end, address, found, round);
        if address == 0 && end == 0 {
          var before := found;
          found := SearchAll(to, end, found, lastRegion, start, round);
          AllReports(from, to, end, before, found, round);
          return;
        }
        found, lastRegion, address, round := SearchForward(to, address, end, found, lastRegion, start);
      }
      if start <= to {
        RoundAtZero(to, start, end, address, found, round);
        StopReports(from, to, end, address, found);
      } else {
        NothingReports(from, to);
      }
    }

    lemma RoundAtZero(to: nat, start: nat, end: nat, address: nat, found: seq<PgtRegion>, round: bool)
      requires Searching(to, start, end, address, found, round)
      ensures round ==> address == end == 0
    {
    }

    lemma SearchBegins(from: nat, to: nat, end: nat)
      requires Header() && from <= to < TWO64 && end == SearchEnd(root, to) && SearchStart(root, from) <= to
                 && !NeverEnds(root, from, to)
      ensures Searching(to, SearchStart(root, from), end, SearchStart(root, from), [], false)
    {
      BeginSteady(root, from, to);
    }

    /** When the search is right: of the ranges that end, all but three kinds are, and those exactly when no
        region makes the difference. */
    ghost predicate Exact(from: nat, to: nat)
      reads this
    {
      && (TakenForAll(to) ==> forall q :: q in regions ==> q.start == 0)
      && (Overshoots(from, to) ==> forall q :: q in regions ==> !(to < q.start < TileEnd(SearchStart(root, from), to)))
      && (ComesBack(from, to) ==> regions == {})
    }

    /** The regions reported are those that meet the range exactly when the range is exact for the table. */
    lemma SearchExactness(from: nat, to: nat, found: seq<PgtRegion>)
      requires Valid() && from <= to < TWO64 && Reported(found, from, to)
      ensures Scanned(regions, found, from, to + 1) <==> Exact(from, to)
    {
      hide TreeOk, TileEnd, SearchStart;
      var lo, hi := LookedFrom(from, to), LookedTo(from, to);
      TileEndAbove(SearchStart(root, from), to);
      NotTwoWays(from, to);
      forall q | q in regions
        ensures Meets(q, from, to + 1) ==> Meets(q, lo, hi)
        ensures Meets(q, lo, hi) && !Meets(q, from, to + 1) <==> Extra(q, from, to)
      {
        RegionInSpan(q);
        assert GoodRegion(q);
      }
      assert Exact(from, to) <==> forall q :: q in regions ==> !Extra(q, from, to);
    }

    /** The region is reported though it does not meet the range. */
    ghost predicate Extra(q: PgtRegion, from: nat, to: nat)
      reads this
    {
      || (TakenForAll(to) && q.start != 0)
      || (Overshoots(from, to) && to < q.start < TileEnd(SearchStart(root, from), to))
      || ComesBack(from, to)
    }

    lemma NotTwoWays(from: nat, to: nat)
      requires TreeOk() && from <= to < TWO64
      ensures !(TakenForAll(to) && (Overshoots(from, to) || ComesBack(from, to)))
                && !(Overshoots(from, to) && ComesBack(from, to))
    {
      hide Pow2, Times, TileEnd;
      EndCases(root, to);
    }

    // ---- cleanup ----

    /** Without regions the table is what the constructor made. */
    ghost predicate Initial()
      reads this
    {
      && rootEntry.Empty? && virBaseAddr == 0 && indexShift == PAGE_SHIFT_MIN && spaceMask == TWO64 - 16
      && regionCount == 0 && regions == {} && dirAt == map[]
    }

    lemma NoRegionsInitial()
      requires Valid() && regions == {}
      ensures Initial()
    {
      assert pages == map[];
      if root in dirAt { DirPopulated(root); }
      EmptyRoot(root, dirAt.Keys, pages);
      Pow2Of4();
    }

    /** The search Cleanup makes finds every stored region. */
    lemma AllFound(found: seq<PgtRegion>)
      requires Valid() && Scanned(regions, found, virBaseAddr, Hi(root))
      ensures |found| == regionCount && (set q | q in found) == regions
      ensures forall i, j :: 0 <= i < j < |found| ==> found[i] != found[j]
    {
      hide PagesAre, Scanned, Meets, Disjoint;
      AllDisjoint();
      forall q {:trigger Meets(q, virBaseAddr, Hi(root))} | q in regions
        ensures Meets(q, virBaseAddr, Hi(root))
      {
        SpanMeets(q);
      }
      ScannedAll(regions, found, virBaseAddr, Hi(root));
    }

    lemma SpanMeets(q: PgtRegion)
      requires Valid() && q in regions
      ensures Meets(q, virBaseAddr, Hi(root))
    {
      RegionInSpan(q);
    }

    /** The range of the whole span is searched rightly. */
    lemma WholeSpanSearch()
      requires Header()
      ensures Hi(root) - 1 >= virBaseAddr && !NeverEnds(root, virBaseAddr, Hi(root) - 1)
      ensures LookedFrom(virBaseAddr, Hi(root) - 1) == virBaseAddr && LookedTo(virBaseAddr, Hi(root) - 1) == Hi(root)
    {
      hide Pow2, Times, TileEnd;
      SpanMultiple16(root);
      Pow2Of64();
    }

    method CleanRegions() returns (cleanRegions: seq<PgtRegion>)
      requires Valid()
      ensures |cleanRegions| == regionCount && (set q | q in cleanRegions) == regions
      ensures forall i, j :: 0 <= i < j < |cleanRegions| ==> cleanRegions[i] != cleanRegions[j]
    {
      hide Pow2, PagesAre, Scanned, LookedFrom, LookedTo, NeverEnds;
      Pow2Of64();
      var size := if indexShift >= 64 then 0 else Pow2(indexShift);
      var from, to := virBaseAddr, Add64(Add64(virBaseAddr, size), TWO64 - 1);
      SpanMultiple16(root);
      assert to == Hi(root) - 1;
      WholeSpanSearch();
      cleanRegions := SearchRange(from, to);
      AllFound(cleanRegions);
    }

    /** Cleanup always ends in the initial state. */
    method Cleanup()
      requires Valid()
      modifies this, dirAt.Values
      ensures Valid() && Initial() && dirAt.Values <= old(dirAt.Values)
    {
      hide TreeOk, Initial;
      if regionCount == 0 {
        NoRegionsInitial();
        return;
      }
      var cleanRegions := CleanRegions();
      if |cleanRegions| != regionCount {
        return;
      }
      var i := 0;
      while i < |cleanRegions|
        invariant 0 <= i <= |cleanRegions| && Valid() && dirAt.Values <= old(dirAt.Values)
        invariant regions == set q | q in cleanRegions[i..]
      {
        assert GoodRegion(cleanRegions[i]);
        var ret := Remove(cleanRegions[i]);
        i := i + 1;
      }
      NoRegionsInitial();
    }

    // ---- the heap structure read back as a value ----

    ghost function View(): TableView
      reads this, dirAt.Values
    {
      TableView(Shape(dirAt.Values, rootEntry, indexShift), virBaseAddr, spaceMask, indexShift, regionCount)
    }

    lemma {:induction false} ShapeIsBuild(b: Block)
      requires Linked({}) && Placed(root, dirAt.Keys, b)
      ensures Shape(dirAt.Values, EntryAt(b), b.shift) == Build(pages, b)
      ensures Build(pages, b) == Absent <==> EntryAt(b).Empty?
      decreases b.shift
    {
      if b in dirAt {
        DirIsBuild(b);
      } else if b !in pages {
        forall x {:trigger Under(x, b)} | x in pages
          ensures !Under(x, b)
        {
          AbsentMeansNothingBelow(root, dirAt.Keys, pages, b, x);
        }
      }
    }

    lemma {:induction false} DirIsBuild(b: Block)
      requires Linked({}) && b in dirAt
      ensures Shape(dirAt.Values, DirEntry(dirAt[b]), b.shift) == Build(pages, b)
      ensures Build(pages, b).Directory?
      decreases b.shift, 0
    {
      hide Shape, Build, Pow2, Parent, Populated, Lo;
      DirPopulated(b);
      assert DirOk(b) && Placed(root, dirAt.Keys, b);
      var es, p := dirAt[b].entries, pages;
      var kids := seq(16, i requires 0 <= i < 16 => Build(p, Child(b, i)));
      forall i: nat | i < 16
        ensures kids[i] == Shape(dirAt.Values, es[i], b.shift - 4)
        ensures kids[i] == Absent <==> es[i].Empty?
      {
        ChildParent(b, i);
        ShapeIsBuild(Child(b, i));
      }
      assert PresentKids(kids) == PresentAt(es);
      ShapeOfDir(dirAt.Values, dirAt[b], b.shift, kids);
      BuildOfDir(pages, b, kids);
    }

    /** The root of the tree is the tightest block over the stored pages. */
    lemma RootIsTight()
      requires TreeOk()
      ensures TightRoot(pages, root)
    {
      if root in dirAt {
        TightAtDir();
      } else if root !in pages {
        EmptyRoot(root, dirAt.Keys, pages);
        BlockOfLo(root);
        BlockOfLo(Block(PAGE_SHIFT_MIN, 0));
      } else {
        RootCovers();
      }
    }

    lemma RootCovers()
      requires Linked({})
      ensures Covers(root, pages)
    {
      forall x {:trigger Under(x, root)} | x in pages
        ensures Under(x, root)
      {
        assert Placed(root, dirAt.Keys, x);
        PlacedUnderRoot(root, dirAt.Keys, x);
      }
    }

    lemma TightAtDir()
      requires TreeOk() && root in dirAt
      ensures TightRoot(pages, root)
    {
      var es := dirAt[root].entries;
      assert DirOk(root) && Placed(root, dirAt.Keys, root);
      assert dirAt[root] in dirAt.Values;
      var i, j := TwoPresent(es);
      ChildPopulated(root, i);
      ChildPopulated(root, j);
      RootCovers();
      var x :| x in pages && Under(x, Child(root, i));
    }

    lemma ChildPopulated(b: Block, i: nat)
      requires Linked({}) && b in dirAt && b.shift >= 4
      requires i < 16 && |dirAt[b].entries| == 16 && dirAt[b].entries[i].IsPresent()
      ensures Populated(pages, Child(b, i))
    {
      assert DirOk(b);
      var c := Child(b, i);
      if c in dirAt {
        DirPopulated(c);
      } else {
        assert c in pages && Under(c, c);
      }
    }

    /** Everything a table holds, directories and span included, follows from the pages it stores. */
    lemma ViewIs()
      requires TreeOk()
      ensures TightRoot(pages, root) && ValidShift(root.shift) && View() == ViewOf(pages, root, regionCount)
    {
      hide TightRoot, Build, Shape;
      RootIsTight();
      assert Placed(root, dirAt.Keys, root);
      ShapeIsBuild(root);
    }

    /** Storing the pages a table stored before makes it the table it was. */
    lemma SameView(was: PageMap, oldRoot: Block)
      requires TreeOk() && pages == was && TightRoot(was, oldRoot) && oldRoot.shift % 4 == 0
      ensures View() == ViewOf(was, oldRoot, regionCount)
    {
      ViewIs();
      TightRootUnique(was, root, oldRoot);
    }

    /** Two tables with the same regions are the same tree with the same base, mask, shift and counts. */
    lemma SameRegionsSameTable(other: NetPgTable)
      requires Valid() && other.Valid() && regions == other.regions
      ensures View() == other.View()
    {
      ViewIs();
      other.ViewIs();
      ViewDetermined(regions, pages, other.pages, root, other.root);
    }
  }

  /** An aligned block that starts below 2^64 also ends there. */
  lemma BlockFits(b: Block)
    requires b.shift <= 64 && Lo(b) < TWO64
    ensures Hi(b) <= TWO64
  {
    assert Pow2(64 - b.shift) * Pow2(b.shift) == TWO64 by {
      Pow2Add(64 - b.shift, b.shift);
      Pow2Of64();
    }
    TimesIs(b.num, Pow2(b.shift));
    MulStep(b.num, Pow2(64 - b.shift), Pow2(b.shift));
  }

  /** Masking with 2^64 - 2^shift gives the first address of the block. */
  lemma AndMaskIsLo(address: nat, mask: nat, shift: nat)
    requires shift <= 64 && mask == TWO64 - Pow2(shift)
    ensures mask < TWO64 && AndMask(address, mask) == Lo(BlockOf(address, shift))
  {
    var p := Pow2(shift);
    assert TWO64 - mask == p;
    RemIs(address, p);
    QuotIs(address, p);
    TimesIs(address / p, p);
    assert address == (address / p) * p + address % p;
  }

  lemma MaskShift(mask: nat, p: nat)
    requires mask == TWO64 - p && 0 < 16 * p <= TWO64
    ensures (mask * 16) % TWO64 == TWO64 - 16 * p
  {
    assert mask * 16 == 15 * TWO64 + (TWO64 - 16 * p);
  }

  /** The span after one step up is the parent block of the span before. */
  lemma ExpandSpan(b: Block, mask: nat)
    requires ValidShift(b.shift) && b.shift <= 60 && Lo(b) < TWO64 && mask == TWO64 - Pow2(b.shift)
    ensures (mask * 16) % TWO64 == TWO64 - Pow2(b.shift + 4)
    ensures AndMask(Lo(b), (mask * 16) % TWO64) == Lo(Parent(b))
    ensures Hi(Parent(b)) <= TWO64
  {
    Pow2Step4(b.shift);
    Pow2Monotone(b.shift + 4, 64);
    Pow2Of64();
    MaskShift(mask, Pow2(b.shift));
    AndMaskIsLo(Lo(b), TWO64 - Pow2(b.shift + 4), b.shift + 4);
    BlockOfLo(b);
    ParentOf(Lo(b), b.shift);
    UnderParent(b);
    BlockFits(Parent(b));
  }

  /** The span after one step down is the child block of the span before. */
  lemma ShrinkSpan(b: Block, index: nat)
    requires ValidShift(b.shift) && b.shift >= 8 && index < 16 && Hi(b) <= TWO64
    ensures Lo(b) + Times(index, Pow2(b.shift - 4)) == Lo(Child(b, index))
    ensures Hi(Child(b, index)) <= TWO64
    ensures TWO64 - Pow2(b.shift) + 15 * Pow2(b.shift - 4) == TWO64 - Pow2(b.shift - 4)
  {
    ChildInterval(b, index);
    TimesIs(index, Pow2(b.shift - 4));
    ChildUnder(b, index);
    UnderInterval(Child(b, index), b);
    Pow2Step4(b.shift - 4);
  }
}
