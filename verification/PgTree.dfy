/**
 What the radix tree of the page table must look like for a given set of pages, as a value.
 The heap structure of NetPgTable is proved to read back as exactly this value.
 */
module PgTree {
  import opened Bits
  import opened PageBlocks

  /** A registered memory region; its identity is the object, its bounds never change. */
  class PgtRegion {
    const start: nat
    const end: nat
    const key: nat
    const token: nat

    constructor (start: nat, end: nat, key: nat, token: nat)
      ensures this.start == start && this.end == end && this.key == key && this.token == token
    {
      this.start, this.end, this.key, this.token := start, end, key, token;
    }
  }

  type PageMap = map<Block, PgtRegion>

  datatype Tree = Absent | Page(region: PgtRegion) | Directory(kids: seq<Tree>, count: nat)

  ghost predicate Populated(pages: PageMap, b: Block)
  {
    exists x {:trigger Under(x, b)} :: x in pages && Under(x, b)
  }

  ghost predicate Covers(b: Block, pages: PageMap)
  {
    forall x {:trigger Under(x, b)} :: x in pages ==> Under(x, b)
  }

  ghost predicate Conflict(pages: PageMap, b: Block)
  {
    exists x {:trigger Collide(x, b)} :: x in pages && Collide(x, b)
  }

  /** One block lies inside the other. */
  predicate Collide(x: Block, b: Block)
  {
    Under(x, b) || Under(b, x)
  }

  ghost function PresentKids(kids: seq<Tree>): set<nat>
  {
    set i: nat | i < |kids| && kids[i] != Absent
  }

  /** The only tree over block b that stores these pages and has no empty directory. */
  ghost function Build(pages: PageMap, b: Block): Tree
    decreases b.shift
  {
    if b in pages then
      Page(pages[b])
    else if b.shift < 8 || !Populated(pages, b) then
      Absent
    else
      var kids := seq(16, i requires 0 <= i < 16 => Build(pages, Child(b, i)));
      Directory(kids, |PresentKids(kids)|)
  }

  lemma BuildOfDir(pages: PageMap, b: Block, kids: seq<Tree>)
    requires b !in pages && b.shift >= 8 && Populated(pages, b)
    requires |kids| == 16 && forall i: nat :: i < 16 ==> kids[i] == Build(pages, Child(b, i))
    ensures Build(pages, b) == Directory(kids, |PresentKids(kids)|)
  {
    assert kids == seq(16, i requires 0 <= i < 16 => Build(pages, Child(b, i)));
  }

  // ---- where directories and pages may sit ----

  /** b is the root block or the parent block of b carries a directory. */
  predicate Placed(root: Block, dirs: set<Block>, b: Block)
  {
    ValidShift(b.shift) && b.shift <= root.shift && (b == root || Parent(b) in dirs)
  }

  ghost predicate AllPlaced(root: Block, dirs: set<Block>, pages: PageMap)
  {
    && ValidShift(root.shift)
    && (forall b {:trigger Placed(root, dirs, b)} :: b in dirs ==> Placed(root, dirs, b) && b.shift >= 8)
    && (forall b {:trigger Placed(root, dirs, b)} :: b in pages ==> Placed(root, dirs, b))
    && dirs !! pages.Keys
  }

  /** Below the root, every ancestor of something placed is a directory. */
  lemma {:induction false} AncestorIsDir(root: Block, dirs: set<Block>, x: Block, b: Block)
    requires forall c {:trigger Placed(root, dirs, c)} :: c in dirs ==> Placed(root, dirs, c)
    requires Placed(root, dirs, x) && ValidShift(b.shift) && Under(x, b) && x != b && b.shift <= root.shift
    ensures b in dirs
    decreases b.shift - x.shift
  {
    if x.shift == b.shift { UnderAntisymmetric(x, b); }
    UnderParent(x);
    CommonAddressNests(Parent(x), b, Lo(x));
    if x.shift + 4 == b.shift {
      UnderAntisymmetric(Parent(x), b);
    } else {
      assert Placed(root, dirs, Parent(x));
      AncestorIsDir(root, dirs, Parent(x), b);
    }
  }

  lemma {:induction false} PlacedUnderRoot(root: Block, dirs: set<Block>, x: Block)
    requires forall c {:trigger Placed(root, dirs, c)} :: c in dirs ==> Placed(root, dirs, c)
    requires Placed(root, dirs, x)
    ensures Under(x, root)
    decreases root.shift - x.shift
  {
    if x == root {
      } else {
      assert Placed(root, dirs, Parent(x));
      PlacedUnderRoot(root, dirs, Parent(x));
      UnderParent(x);
      UnderTransitive(x, Parent(x), root);
    }
  }

  /** An absent entry means that nothing lies in its block. */
  lemma AbsentMeansNothingBelow(root: Block, dirs: set<Block>, pages: PageMap, b: Block, x: Block)
    requires AllPlaced(root, dirs, pages)
    requires ValidShift(b.shift) && b.shift <= root.shift && b !in dirs && b !in pages
    requires x in dirs || x in pages
    ensures !Under(x, b)
  {
    assert Placed(root, dirs, x);
    if Under(x, b) {
      AncestorIsDir(root, dirs, x, b);
    }
  }

  lemma EmptyRoot(root: Block, dirs: set<Block>, pages: PageMap)
    requires AllPlaced(root, dirs, pages) && root !in dirs && root !in pages
    ensures dirs == {} && pages == map[]
  {
    forall b | b in dirs || b in pages
      ensures false
    {
      assert Placed(root, dirs, b);
      PlacedUnderRoot(root, dirs, b);
      AbsentMeansNothingBelow(root, dirs, pages, root, b);
    }
  }

  lemma SinkRootPlaced(root: Block, dirs: set<Block>, pages: PageMap)
    requires AllPlaced(root, dirs, pages) && root.shift <= 60
    requires root in dirs || root in pages
    ensures AllPlaced(Parent(root), dirs + {Parent(root)}, pages)
    ensures Parent(root) !in dirs && Parent(root) !in pages
  {
    var up := Parent(root);
    var grown := dirs + {up};
    forall b {:trigger Placed(up, grown, b)} | b in dirs || b in pages
      ensures Placed(up, grown, b) && b != up && (b in dirs ==> b.shift >= 8)
    {
      assert Placed(root, dirs, b);
    }
    assert Placed(up, grown, up);
    assert Placed(root, dirs, up) ==> false;
  }

  /** Beside the root block nothing is placed. */
  lemma NoSiblingOfRoot(root: Block, dirs: set<Block>, pages: PageMap, i: nat)
    requires AllPlaced(root, dirs, pages) && i < 16 && i != root.num % 16
    ensures Child(Parent(root), i) !in dirs && Child(Parent(root), i) !in pages
  {
    var up := Parent(root);
    ChildParent(up, i);
    assert Child(up, i) in dirs || Child(up, i) in pages ==> Placed(root, dirs, Child(up, i));
    assert up in dirs ==> Placed(root, dirs, up);
  }

  /** When the root directory has one entry, that entry can take its place. */
  lemma LiftChildPlaced(root: Block, dirs: set<Block>, pages: PageMap, i: nat)
    requires AllPlaced(root, dirs, pages) && root in dirs && i < 16
    requires Child(root, i) in dirs || Child(root, i) in pages
    requires forall j: nat :: j < 16 && j != i ==> Child(root, j) !in dirs && Child(root, j) !in pages
    ensures AllPlaced(Child(root, i), dirs - {root}, pages)
  {
    var top, left := Child(root, i), dirs - {root};
    assert Placed(root, dirs, root) && Placed(root, dirs, top);
    forall b {:trigger Placed(top, left, b)} | b in left || b in pages
      ensures Placed(top, left, b) && (b in dirs ==> b.shift >= 8)
    {
      assert Placed(root, dirs, b);
      ParentChild(b);
      assert Parent(b) in dirs ==> Placed(root, dirs, Parent(b));
    }
  }

  lemma AddDirPlaced(root: Block, dirs: set<Block>, pages: PageMap, y: Block)
    requires AllPlaced(root, dirs, pages) && y !in dirs && y !in pages && Placed(root, dirs, y) && y.shift >= 8
    ensures AllPlaced(root, dirs + {y}, pages)
    ensures forall i: nat :: i < 16 ==> Child(y, i) !in dirs && Child(y, i) !in pages && Child(y, i) != y
  {
    var grown := dirs + {y};
    forall b {:trigger Placed(root, grown, b)} | b in grown || b in pages
      ensures Placed(root, grown, b) && (b in grown ==> b.shift >= 8)
    {
      assert Placed(root, dirs, b);
    }
    forall i: nat | i < 16
      ensures Child(y, i) !in dirs && Child(y, i) !in pages && Child(y, i) != y
    {
      ChildParent(y, i);
      assert Child(y, i) in dirs || Child(y, i) in pages ==> Placed(root, dirs, Child(y, i));
    }
  }

  lemma AddPagePlaced(root: Block, dirs: set<Block>, pages: PageMap, y: Block, r: PgtRegion)
    requires AllPlaced(root, dirs, pages) && y !in dirs && y !in pages && Placed(root, dirs, y)
    ensures AllPlaced(root, dirs, pages[y := r])
  {
    forall b {:trigger Placed(root, dirs, b)} | b in dirs || b in pages[y := r]
      ensures Placed(root, dirs, b) && (b in dirs ==> b.shift >= 8)
    {
    }
  }

  lemma RemoveDirPlaced(root: Block, dirs: set<Block>, pages: PageMap, y: Block)
    requires AllPlaced(root, dirs, pages) && y in dirs
    requires forall i: nat :: i < 16 ==> y.shift >= 4 && Child(y, i) !in dirs && Child(y, i) !in pages
    ensures AllPlaced(root, dirs - {y}, pages)
  {
    var left := dirs - {y};
    forall b {:trigger Placed(root, left, b)} | b in left || b in pages
      ensures Placed(root, left, b) && (b in dirs ==> b.shift >= 8)
    {
      assert Placed(root, dirs, b);
      ParentChild(b);
    }
  }

  lemma RemovePagePlaced(root: Block, dirs: set<Block>, pages: PageMap, y: Block)
    requires AllPlaced(root, dirs, pages)
    ensures AllPlaced(root, dirs, pages - {y})
  {
    forall b {:trigger Placed(root, dirs, b)} | b in dirs || b in pages - {y}
      ensures Placed(root, dirs, b) && (b in dirs ==> b.shift >= 8)
    {
    }
  }

  /** root is the tightest block over the pages; with no page it is the initial block. */
  ghost predicate TightRoot(pages: PageMap, root: Block)
  {
    if pages == map[] then
      root == Block(PAGE_SHIFT_MIN, 0)
    else
      && Covers(root, pages)
      && (root in pages ||
          (root.shift >= 8 && exists i: nat, j: nat ::
             i < j < 16 && Populated(pages, Child(root, i)) && Populated(pages, Child(root, j))))
  }

  lemma TightRootNotAbove(pages: PageMap, lower: Block, upper: Block)
    requires pages != map[] && Covers(lower, pages)
    requires lower.shift % 4 == 0 && upper.shift % 4 == 0 && lower.shift < upper.shift
    ensures !TightRoot(pages, upper)
  {
    var x :| x in pages;
    assert Under(x, lower);
    assert upper in pages ==> Under(upper, lower);
    if Covers(upper, pages) && upper !in pages {
      assert Under(x, upper);
      CommonAddressNests(lower, upper, Lo(x));
      UnderSomeChild(lower, upper);
      var k := IndexAt(Lo(lower), upper.shift - 4);
      forall i: nat | i < 16 && Populated(pages, Child(upper, i))
        ensures i == k
      {
        var y :| y in pages && Under(y, Child(upper, i));
        UnderTransitive(y, lower, Child(upper, k));
        SiblingsApart(y, upper, i, k);
      }
    }
  }

  /** The tightest root over a set of pages is unique. */
  lemma TightRootUnique(pages: PageMap, r1: Block, r2: Block)
    requires TightRoot(pages, r1) && TightRoot(pages, r2)
    requires r1.shift % 4 == 0 && r2.shift % 4 == 0
    ensures r1 == r2
  {
    if pages != map[] {
      if r1.shift < r2.shift {
        TightRootNotAbove(pages, r1, r2);
      } else if r2.shift < r1.shift {
        TightRootNotAbove(pages, r2, r1);
      } else {
        var x :| x in pages;
        assert Under(x, r1) && Under(x, r2);
        ContainsIff(r1, Lo(x));
        ContainsIff(r2, Lo(x));
      }
    }
  }

  // ---- pages of stored regions ----

  predicate GoodRegion(r: PgtRegion)
  {
    r.start < r.end && Aligned(r.start, r.end)
  }

  predicate Overlap(r: PgtRegion, q: PgtRegion)
  {
    r.start < q.end && q.start < r.end
  }

  /** The pages of a region, in order. */
  ghost function PagesOf(r: PgtRegion): (plan: seq<Block>)
    requires GoodRegion(r)
    ensures PlanFor(r.start, r.end, plan)
  {
    SomePlan(r.start, r.end);
    var plan :| PlanFor(r.start, r.end, plan);
    plan
  }

  /** They are the pages the loop of Insert picks: no other list of pages is a plan for the region. */
  lemma PagesOfIs(r: PgtRegion, plan: seq<Block>)
    requires GoodRegion(r) && PlanFor(r.start, r.end, plan)
    ensures PagesOf(r) == plan
  {
    PlanUnique(r.start, r.end, PagesOf(r), plan);
  }

  lemma SomePlan(start: nat, end: nat)
    requires start < end && Aligned(start, end)
    ensures exists plan :: PlanFor(start, end, plan)
  {
    var plan := PlanExists(start, end);
  }

  /** Every page of a region has a legal order and lies inside it. */
  lemma PageShape(r: PgtRegion, x: Block)
    requires GoodRegion(r) && x in PagesOf(r)
    ensures LegalPage(x) && r.start <= Lo(x) && Hi(x) <= r.end
  {
    var plan := PagesOf(r);
    var i :| 0 <= i < |plan| && plan[i] == x;
    PlanShape(plan, i);
  }

  lemma PageAt(r: PgtRegion, a: nat) returns (x: Block)
    requires GoodRegion(r) && r.start <= a < r.end
    ensures x in PagesOf(r) && Contains(x, a)
  {
    var i := PlanAt(PagesOf(r), a);
    x := PagesOf(r)[i];
  }

  ghost predicate IsPageOf(x: Block, r: PgtRegion)
  {
    GoodRegion(r) && x in PagesOf(r)
  }

  /** The pages are exactly the pages of the stored regions. */
  ghost predicate PagesAre(regions: set<PgtRegion>, pages: PageMap)
  {
    && (forall r {:trigger GoodRegion(r)} :: r in regions ==> GoodRegion(r))
    && (forall x {:trigger pages[x]} :: x in pages ==> pages[x] in regions && IsPageOf(x, pages[x]))
    && (forall r, x {:trigger IsPageOf(x, r)} :: r in regions && IsPageOf(x, r) ==> x in pages && pages[x] == r)
  }

  ghost predicate NoNesting(pages: PageMap)
  {
    forall x, y {:trigger Under(x, y)} :: x in pages && y in pages && Under(x, y) ==> x == y
  }

  ghost function TileMap(tiles: seq<Block>, r: PgtRegion): PageMap
  {
    map x | x in tiles :: r
  }

  lemma TileMapSnoc(p: PageMap, tiles: seq<Block>, b: Block, r: PgtRegion)
    ensures p + TileMap(tiles + [b], r) == (p + TileMap(tiles, r))[b := r]
  {
  }

  lemma TileMapTail(p: PageMap, tiles: seq<Block>, b: Block, r: PgtRegion)
    requires b !in p && b !in tiles
    ensures (p + TileMap([b] + tiles, r)) - {b} == p + TileMap(tiles, r)
  {
  }

  /** An address in a stored page lies in the stored region of that page. */
  lemma PageHoldsAddress(regions: set<PgtRegion>, pages: PageMap, x: Block, a: nat)
    requires PagesAre(regions, pages) && x in pages && Contains(x, a)
    ensures pages[x] in regions && pages[x].start <= a < pages[x].end
  {
    PageShape(pages[x], x);
  }

  /** The page of a stored region around one of its addresses. */
  lemma PageAround(regions: set<PgtRegion>, pages: PageMap, r: PgtRegion, a: nat) returns (x: Block)
    requires PagesAre(regions, pages) && r in regions && r.start <= a < r.end
    ensures x in pages && pages[x] == r && Contains(x, a)
  {
    assert GoodRegion(r);
    x := PageAt(r, a);
    assert IsPageOf(x, r);
  }

  lemma CommonAddressCollides(x: Block, y: Block, a: nat)
    requires Contains(x, a) && Contains(y, a)
    ensures Collide(x, y)
  {
    if x.shift <= y.shift {
      CommonAddressNests(x, y, a);
    } else {
      CommonAddressNests(y, x, a);
    }
  }

  /** Regions whose pages are all in one map without nesting are pairwise disjoint. */
  lemma StoredRegionsDisjoint(regions: set<PgtRegion>, pages: PageMap, r: PgtRegion, q: PgtRegion)
    requires PagesAre(regions, pages) && NoNesting(pages) && r in regions && q in regions && Overlap(r, q)
    ensures r == q
  {
    var a := if r.start <= q.start then q.start else r.start;
    assert GoodRegion(r) && GoodRegion(q);
    var x := PageAround(regions, pages, r, a);
    var y := PageAround(regions, pages, q, a);
    CommonAddressCollides(x, y, a);
  }

  /** A page that collides with a stored one belongs to a region that overlaps a stored region. */
  lemma ConflictMeansOverlap(regions: set<PgtRegion>, pages: PageMap, r: PgtRegion, b: Block) returns (q: PgtRegion)
    requires PagesAre(regions, pages) && GoodRegion(r) && b in PagesOf(r) && Conflict(pages, b)
    ensures q in regions && Overlap(q, r)
  {
    var x :| x in pages && Collide(x, b);
    q := pages[x];
    PageShape(q, x);
    PageShape(r, b);
    if Under(x, b) { UnderInterval(x, b); } else { UnderInterval(b, x); }
  }

  /** And an overlap shows up as a collision of two pages. */
  lemma OverlapMeansConflict(regions: set<PgtRegion>, pages: PageMap, r: PgtRegion, q: PgtRegion) returns (b: Block)
    requires PagesAre(regions, pages) && GoodRegion(r) && q in regions && Overlap(q, r)
    ensures b in PagesOf(r) && Conflict(pages, b)
  {
    var a := if r.start <= q.start then q.start else r.start;
    assert GoodRegion(q);
    b := PageAt(r, a);
    var x := PageAround(regions, pages, q, a);
    CommonAddressCollides(x, b, a);
  }

  // ---- a region that is partly inserted ----

  /** Pages of one plan never collide with each other. */
  lemma PlanApart(plan: seq<Block>, i: nat, k: nat)
    requires Plan(plan) && i < k < |plan|
    ensures !Under(plan[i], plan[k]) && !Under(plan[k], plan[i]) && plan[i] != plan[k]
  {
    var x, b := plan[i], plan[k];
    assert Precedes(x, b);
    if Under(x, b) { UnderInterval(x, b); }
    if Under(b, x) { UnderInterval(b, x); }
  }

  /** A collision of the next page is with a page that was there before the insert began. */
  lemma NextConflict(done: seq<Block>, rest: seq<Block>, r: PgtRegion, before: PageMap)
    requires Plan(done + rest) && rest != [] && Conflict(before + TileMap(done, r), rest[0])
    ensures Conflict(before, rest[0])
  {
    var plan := done + rest;
    var x :| x in before + TileMap(done, r) && Collide(x, rest[0]);
    if x in done {
      var i :| 0 <= i < |done| && done[i] == x;
      PlanApart(plan, i, |done|);
    }
    assert x in before;
  }

  /** Pages that were put in without a collision. */
  ghost predicate FreshPages(before: PageMap, done: seq<Block>)
  {
    forall x {:trigger Conflict(before, x)} :: x in done ==> !Conflict(before, x)
  }

  lemma FreshNotIn(before: PageMap, done: seq<Block>)
    requires FreshPages(before, done)
    ensures NotIn(done, before)
  {
    forall x {:trigger x in done} | x in done
      ensures x !in before
    {
      FreshNotBefore(before, done, x);
    }
  }

  lemma FreshNotBefore(before: PageMap, done: seq<Block>, x: Block)
    requires FreshPages(before, done) && x in done
    ensures x !in before
  {
    assert !Conflict(before, x) && Collide(x, x);
  }

  /** One more page without a collision. */
  lemma NextFresh(done: seq<Block>, b: Block, r: PgtRegion, before: PageMap)
    requires FreshPages(before, done) && !Conflict(before + TileMap(done, r), b)
    ensures FreshPages(before, done + [b])
    ensures before + TileMap(done + [b], r) == (before + TileMap(done, r))[b := r]
  {
    TileMapSnoc(before, done, b, r);
    forall x | x in before
      ensures !Collide(x, b)
    {
      if x in done { FreshNotBefore(before, done, x); }
      assert x in before + TileMap(done, r);
    }
  }

  /** Pages of `rest`, none of which is in `before`. */
  ghost predicate NotIn(rest: seq<Block>, before: PageMap)
  {
    forall x {:trigger x in rest} :: x in rest ==> x !in before
  }

  /** Taking out the first remaining page. */
  lemma TakeFirst(rest: seq<Block>, r: PgtRegion, before: PageMap)
    requires Plan(rest) && rest != [] && NotIn(rest, before)
    ensures rest[0] in before + TileMap(rest, r) && (before + TileMap(rest, r))[rest[0]] == r
    ensures (before + TileMap(rest, r)) - {rest[0]} == before + TileMap(rest[1..], r)
    ensures NotIn(rest[1..], before)
  {
    var b, tail := rest[0], rest[1..];
    assert rest == [b] + tail && b in rest;
    assert b !in tail by {
      if b in tail {
        var i :| 0 <= i < |tail| && tail[i] == b;
        PlanApart(rest, 0, i + 1);
      }
    }
    assert forall x :: x in tail ==> x in rest;
    TileMapTail(before, tail, b, r);
  }

  /** A complete insert met no stored region. */
  lemma FreshMeansFits(regions: set<PgtRegion>, before: PageMap, r: PgtRegion, q: PgtRegion)
    requires PagesAre(regions, before) && GoodRegion(r) && FreshPages(before, PagesOf(r)) && q in regions
    ensures !Overlap(q, r) && q != r
  {
    if Overlap(q, r) {
      var b := OverlapMeansConflict(regions, before, r, q);
    }
  }

  /** The stored pages after a complete insert. */
  lemma PagesAfterInsert(regions: set<PgtRegion>, before: PageMap, r: PgtRegion)
    requires PagesAre(regions, before) && GoodRegion(r) && FreshPages(before, PagesOf(r))
    ensures PagesAre(regions + {r}, before + TileMap(PagesOf(r), r))
  {
    var after := before + TileMap(PagesOf(r), r);
    forall q, x {:trigger IsPageOf(x, q)} | q in regions + {r} && IsPageOf(x, q)
      ensures x in after && after[x] == q
    {
      if q != r && x in PagesOf(r) {
        FreshNotBefore(before, PagesOf(r), x);
      }
    }
    forall x {:trigger after[x]} | x in after
      ensures after[x] in regions + {r} && IsPageOf(x, after[x])
    {
      if x !in PagesOf(r) { assert before[x] == after[x]; }
    }
  }

  /** The stored pages after a complete removal. */
  lemma PagesAfterRemove(regions: set<PgtRegion>, pages: PageMap, r: PgtRegion, rest: PageMap)
    requires PagesAre(regions, pages) && r in regions
    requires rest == map x | x in pages && pages[x] != r :: pages[x]
    ensures GoodRegion(r) && PagesAre(regions - {r}, rest)
    ensures pages == rest + TileMap(PagesOf(r), r)
    ensures NotIn(PagesOf(r), rest)
  {
    assert GoodRegion(r);
    var tiles := PagesOf(r);
    forall x
      ensures x in tiles <==> x in pages && pages[x] == r
    {
      assert x in tiles ==> IsPageOf(x, r);
    }
    forall x {:trigger rest[x]} | x in rest
      ensures rest[x] in regions - {r} && IsPageOf(x, rest[x])
    {
      assert rest[x] == pages[x];
    }
  }

  /** What Remove finds in the table: all pages of a stored region, no page of another one. */
  lemma RemovalPlan(regions: set<PgtRegion>, pages: PageMap, r: PgtRegion, rest: PageMap)
    requires PagesAre(regions, pages)
    requires rest == map x | x in pages && pages[x] != r :: pages[x]
    ensures r in regions ==> GoodRegion(r)
    ensures r in regions ==> PagesAre(regions - {r}, rest)
    ensures r in regions ==> pages == rest + TileMap(PagesOf(r), r) && NotIn(PagesOf(r), rest)
    ensures r !in regions ==> forall x :: x in pages ==> pages[x] != r
  {
    if r in regions {
      PagesAfterRemove(regions, pages, r, rest);
    }
  }

  // ---- the whole table as a value ----

  datatype TableView = TableView(tree: Tree, base: nat, mask: int, shift: nat, count: nat)

  /** The only state of a table that stores these pages. */
  ghost function ViewOf(pages: PageMap, root: Block, count: nat): TableView
  {
    TableView(Build(pages, root), Lo(root), TWO64 - Pow2(root.shift), root.shift, count)
  }

  /** The stored regions determine the pages. */
  lemma PagesDetermined(regions: set<PgtRegion>, p: PageMap, q: PageMap)
    requires PagesAre(regions, p) && PagesAre(regions, q)
    ensures p == q
  {
    forall x | x in p || x in q
      ensures x in p && x in q && p[x] == q[x]
    {
      assert x in p ==> IsPageOf(x, p[x]);
      assert x in q ==> IsPageOf(x, q[x]);
    }
  }

  /** Equal stored regions give equal tables. */
  lemma ViewDetermined(regions: set<PgtRegion>, p: PageMap, q: PageMap, rp: Block, rq: Block)
    requires PagesAre(regions, p) && PagesAre(regions, q)
    requires TightRoot(p, rp) && TightRoot(q, rq) && rp.shift % 4 == 0 && rq.shift % 4 == 0
    ensures ViewOf(p, rp, |regions|) == ViewOf(q, rq, |regions|)
  {
    PagesDetermined(regions, p, q);
    TightRootUnique(p, rp, rq);
  }
}
