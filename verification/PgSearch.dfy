/**
 What a range search has found so far, and the addresses its loop stops at.
 */
module PgSearch {
  import opened Bits
  import opened PageBlocks
  import opened PgTree

  /** The region has an address in [lo, hi). */
  predicate Meets(q: PgtRegion, lo: nat, hi: nat)
  {
    lo < hi && q.start < hi && lo < q.end
  }

  /** Stored regions are not empty and do not overlap. */
  ghost predicate Disjoint(regions: set<PgtRegion>)
  {
    && (forall q :: q in regions ==> q.start < q.end)
    && (forall q, r {:trigger Overlap(q, r)} :: q in regions && r in regions && Overlap(q, r) ==> q == r)
  }

  predicate Ascending(found: seq<PgtRegion>)
  {
    forall i, j :: 0 <= i < j < |found| ==> found[i].end <= found[j].start
  }

  /** found lists the regions with an address in [low, p), each once and in ascending order. */
  ghost predicate Scanned(regions: set<PgtRegion>, found: seq<PgtRegion>, low: nat, p: nat)
  {
    && (forall q :: q in found ==> q in regions && Meets(q, low, p))
    && (forall q :: q in regions && Meets(q, low, p) ==> q in found)
    && Ascending(found)
  }

  /** No region comes after the last one found. */
  ghost predicate Exhausted(regions: set<PgtRegion>, found: seq<PgtRegion>)
  {
    found != [] && forall q :: q in regions ==> q == found[|found| - 1] || q.start < found[|found| - 1].end
  }

  /** How far a search is: all of [low, p) scanned, or, when it goes over the span again, nothing left to find. */
  ghost predicate Sought(regions: set<PgtRegion>, found: seq<PgtRegion>, low: nat, p: nat, again: bool)
  {
    if again then Exhausted(regions, found) else low <= p && Scanned(regions, found, low, p)
  }

  /** Everything above low scanned: nothing is left to find. */
  lemma ScannedIsExhausted(regions: set<PgtRegion>, found: seq<PgtRegion>, low: nat, p: nat)
    requires Disjoint(regions) && Scanned(regions, found, low, p) && found != [] && forall q :: q in regions ==>
               q.start < p
    ensures Exhausted(regions, found)
  {
    var last := found[|found| - 1];
    forall q | q in regions && q != last
      ensures q.start < last.end
    {
      assert last in found && !Overlap(q, last);
      if q in found {
        var i :| 0 <= i < |found| && found[i] == q;
        assert i < |found| - 1;
      } else {
        assert !Meets(q, low, p);
      }
    }
  }

  predicate IsLast(found: seq<PgtRegion>, last: PgtRegion?)
  {
    if found == [] then last == null else last == found[|found| - 1]
  }

  lemma StoredAreDisjoint(regions: set<PgtRegion>, pages: PageMap)
    requires PagesAre(regions, pages) && NoNesting(pages)
    ensures Disjoint(regions)
  {
    forall q, r {:trigger Overlap(q, r)} | q in regions && r in regions && Overlap(q, r)
      ensures q == r
    {
      StoredRegionsDisjoint(regions, pages, q, r);
    }
    assert forall q :: q in regions ==> GoodRegion(q);
  }

  /** A region around [p, hi) is already the last one found, or comes after all found so far. */
  lemma ScanRegion(regions: set<PgtRegion>, found: seq<PgtRegion>, low: nat, p: nat, hi: nat, r: PgtRegion)
    requires Disjoint(regions) && Scanned(regions, found, low, p) && low <= p < hi
    requires r in regions && r.start <= p && hi <= r.end
    ensures found != [] && found[|found| - 1] == r ==> Scanned(regions, found, low, hi)
    ensures !(found != [] && found[|found| - 1] == r) ==>
              Scanned(regions, found + [r], low, hi) && (found != [] ==> found[|found| - 1].end <= r.start)
  {
    forall q | q in regions && q != r
      ensures Meets(q, low, hi) == Meets(q, low, p)
    {
      assert !Overlap(q, r);
    }
    if found != [] {
      var last := found[|found| - 1];
      assert last in found;
      assert !(last != r && Overlap(last, r));
      if last != r {
        forall i | 0 <= i < |found|
          ensures found[i].end <= r.start
        {
          assert found[i] in found;
          assert found[i] != r ==> !Overlap(found[i], r);
        }
      }
    }
  }

  /** Nothing is added where no region has an address. */
  lemma ScanNothing(regions: set<PgtRegion>, found: seq<PgtRegion>, low: nat, p: nat, hi: nat)
    requires Disjoint(regions) && Scanned(regions, found, low, p) && low <= p <= hi
    requires forall q {:trigger Meets(q, p, hi)} :: q in regions ==> !Meets(q, p, hi)
    ensures Scanned(regions, found, low, hi)
  {
    forall q | q in regions
      ensures Meets(q, low, hi) == Meets(q, low, p)
    {
      assert !Meets(q, p, hi);
    }
  }

  /** Distinct regions are as many as the set of them. */
  lemma {:induction false} AscendingCounts(found: seq<PgtRegion>)
    requires Ascending(found) && forall q :: q in found ==> q.start < q.end
    ensures |found| == |set q | q in found|
  {
    if found != [] {
      var last, front := found[|found| - 1], found[..|found| - 1];
      AscendingCounts(front);
      assert (set q | q in found) == (set q | q in front) + {last};
      assert last !in front;
    }
  }

  /** A scan that every region meets lists them all, each once. */
  lemma ScannedAll(regions: set<PgtRegion>, found: seq<PgtRegion>, low: nat, p: nat)
    requires Disjoint(regions) && Scanned(regions, found, low, p)
    requires forall q {:trigger Meets(q, low, p)} :: q in regions ==> Meets(q, low, p)
    ensures |found| == |regions| && (set q | q in found) == regions
    ensures forall i, j :: 0 <= i < j < |found| ==> found[i] != found[j]
  {
    forall q | q in regions
      ensures q in found
    {
      assert Meets(q, low, p);
    }
    AscendingCounts(found);
    assert (set q | q in found) == regions;
    forall i, j | 0 <= i < j < |found|
      ensures found[i] != found[j]
    {
      assert found[i] in found;
    }
  }

  // ---- where the search loop stops ----

  function AlignDown16(n: nat): nat { n - n % 16 }

  /** 64-bit addition. */
  function Add64(a: nat, b: nat): nat
    requires a < TWO64 && b <= TWO64
  {
    if a + b < TWO64 then a + b else a + b - TWO64
  }

  /** Rounding up in 64 bits: the last addresses round up to 0. */
  function AlignUp16(n: nat): nat
    requires n < TWO64
  {
    AlignDown16(Add64(n, 15))
  }

  /** The first stop for a table that spans `root`, and the end its tiles are cut to. */
  function SearchStart(root: Block, from: nat): nat
  {
    if root.shift < 64 then Max(AlignDown16(from), Lo(root)) else AlignDown16(from)
  }

  function SearchEnd(root: Block, to: nat): nat
    requires to < TWO64 && Hi(root) <= TWO64
  {
    if root.shift < 64 then Min(AlignUp16(to), Add64(Lo(root), Pow2(root.shift))) else AlignUp16(to)
  }

  lemma Pow2Of60()
    ensures Pow2(60) == 0x1000_0000_0000_0000
  {
    Pow2Values();
  }

  lemma SpanMultiple16(root: Block)
    requires root.shift >= 4
    ensures Lo(root) % 16 == 0 && Hi(root) % 16 == 0 && Hi(root) >= Lo(root) + 16
  {
    hide Pow2, Times;
    Pow2Step4(root.shift - 4);
    var p := Pow2(root.shift - 4);
    TimesIs(root.num, 16 * p);
    LoMultiple16(root.num, p, Lo(root));
    Multiple16(Lo(root), p);
  }

  lemma LoMultiple16(n: nat, p: nat, lo: nat)
    requires lo == n * (16 * p)
    ensures lo % 16 == 0
  {
    Regroup(n, p);
    Multiple16(0, n * p);
  }

  lemma Regroup(n: nat, p: nat)
    ensures n * (16 * p) == 16 * (n * p)
  {
  }

  // ---- one stop to the next ----

  /** A step of the loop: a legal order, an aligned tile and an aligned next stop. */
  predicate LegalStep(a: nat, o: nat)
  {
    ValidShift(o) && o <= 60 && Rem(a, Pow2(o)) == 0 && (a + Pow2(o)) % 16 == 0
  }

  lemma BeforeEnd(a: nat, end: nat)
    requires a < end && Aligned(a, end)
    ensures LegalStep(a, GetNextPageOrder(a, end)) && a + Pow2(GetNextPageOrder(a, end)) <= end
  {
    hide Pow2, Rem, GetNextPageOrder;
    NextPageOrderFits(a, end);
    NextAligned(a, GetNextPageOrder(a, end));
  }

  lemma AtEnd(a: nat)
    requires 0 < a < TWO64 && a % 16 == 0
    ensures LegalStep(a, GetNextPageOrder(a, a)) && Pow2(GetNextPageOrder(a, a)) == 16
  {
    hide Pow2, Rem;
    Pow2Of4();
    RemIs(a, 16);
  }

  lemma LowestRange(a: nat)
    requires 0 < a < TWO64 && a % 16 == 0
    ensures 4 <= LowestBitPosition(a) <= 63
  {
    hide Pow2, LowestBitPosition;
    Pow2Of4();
    Pow2Of64();
    LowestBitAtLeast(a, 4);
    LowestBitAtLeast(a, 64);
    if a % TWO64 == 0 { DivModUnique(a, TWO64, 0, a); }
  }

  /** The largest legal order of a tile at a. */
  function Natural(a: nat): (o: nat)
    requires 0 < a < TWO64 && a % 16 == 0
    ensures ValidShift(o) && o <= 60
  {
    LowestRange(a);
    RoundOrder(LowestBitPosition(a))
  }

  lemma NaturalAligned(a: nat)
    requires 0 < a < TWO64 && a % 16 == 0
    ensures Rem(a, Pow2(Natural(a))) == 0 && LegalStep(a, Natural(a)) && a + Pow2(Natural(a)) <= TWO64
  {
    hide Pow2, Rem, LowestBitPosition;
    LowestRange(a);
    var o := Natural(a);
    LowestBitAtLeast(a, o);
    RemIs(a, Pow2(o));
    NextAligned(a, o);
    RoomBelow(a, o);
  }

  lemma NaturalLargest(a: nat, k: nat)
    requires 0 < a < TWO64 && a % 16 == 0 && ValidShift(k) && a % Pow2(k) == 0
    ensures k <= Natural(a)
  {
    hide Pow2, LowestBitPosition;
    LowestRange(a);
    LowestBitAtLeast(a, k);
    RoundOrderIsLargest(LowestBitPosition(a), k);
  }

  /** A multiple of a power of two below 2^64 has room for one more. */
  lemma RoomBelow(a: nat, o: nat)
    requires o <= 64 && a < TWO64 && a % Pow2(o) == 0
    ensures a + Pow2(o) <= TWO64
  {
    hide Pow2;
    Pow2Of64();
    Pow2Add(64 - o, o);
    var p := Pow2(o);
    DivModUnique(a, p, a / p, 0);
    MulStep(a / p, Pow2(64 - o), p);
  }

  /** Past the end, and with the end cut to 0, every tile has the largest order its address allows. */
  lemma NaturalOrder(a: nat, end: nat)
    requires 0 < a < TWO64 && a % 16 == 0 && end % 16 == 0 && end < a
    ensures GetNextPageOrder(a, end) == Natural(a)
  {
    hide Pow2, LowestBitPosition, HighestBitPosition;
    LowestRange(a);
    var low, length := LowestBitPosition(a), Sub64(end, a);
    LowestBitAtLeast(a, low);
    RoomBelow(a, low);
    HighestBitAtLeast(length, low);
  }

  // ---- the tile that holds the last address ----

  /** The largest legal shift, from k down, of a block around `to` that begins at or above a. */
  function TileShift(a: nat, to: nat, k: nat): nat
  {
    if k <= 4 || Lo(BlockOf(to, k)) >= a then k else TileShift(a, to, k - 4)
  }

  /** Where the largest aligned block around `to` ends that begins at or above a. */
  function TileEnd(a: nat, to: nat): nat
  {
    Hi(BlockOf(to, TileShift(a, to, 60)))
  }

  /** While the stops walk from a towards `to` that block stays the same, and it is the last tile. */
  lemma TileStep(a: nat, to: nat)
    requires 0 < a <= to < TWO64 && a % 16 == 0
    ensures a + Pow2(Natural(a)) > to ==> TileEnd(a, to) == a + Pow2(Natural(a))
    ensures a + Pow2(Natural(a)) <= to ==> TileEnd(a + Pow2(Natural(a)), to) == TileEnd(a, to)
  {
    hide Pow2, Lo;
    var o := Natural(a);
    NaturalAligned(a);
    AlignedBlock(a, o);
    if a + Pow2(o) > to {
      ContainsIff(BlockOf(a, o), to);
      LastTileShift(a, to, 60);
    } else {
      SameTileShift(a, to, 60);
    }
  }

  lemma {:induction false} LastTileShift(a: nat, to: nat, k: nat)
    requires 0 < a <= to < TWO64 && a % 16 == 0 && ValidShift(k) && Natural(a) <= k <= 60
    requires BlockOf(to, Natural(a)) == BlockOf(a, Natural(a)) && Lo(BlockOf(a, Natural(a))) == a
    ensures TileShift(a, to, k) == Natural(a)
    decreases k
  {
    hide Pow2, Lo;
    if k > Natural(a) {
      NestedAt(to, Natural(a), k);
      UnderInterval(BlockOf(to, Natural(a)), BlockOf(to, k));
      NotHigher(a, k, BlockOf(to, k));
      LastTileShift(a, to, k - 4);
    }
  }

  /** No larger block begins at a. */
  lemma NotHigher(a: nat, k: nat, y: Block)
    requires 0 < a < TWO64 && a % 16 == 0 && ValidShift(k) && k > Natural(a) && y.shift == k
    ensures Lo(y) != a
  {
    RootAligned(y);
    if Lo(y) == a { NaturalLargest(a, k); }
  }

  lemma {:induction false} SameTileShift(a: nat, to: nat, k: nat)
    requires 0 < a <= to < TWO64 && a % 16 == 0 && ValidShift(k) && k <= 60
    requires a + Pow2(Natural(a)) <= to && Lo(BlockOf(a, Natural(a))) == a
    ensures TileShift(a + Pow2(Natural(a)), to, k) == TileShift(a, to, k)
    decreases k
  {
    hide Pow2, Lo;
    SameBegin(a, to, k);
    if k > 4 { SameTileShift(a, to, k - 4); }
  }

  lemma SameBegin(a: nat, to: nat, k: nat)
    requires 0 < a <= to < TWO64 && a % 16 == 0 && ValidShift(k)
    requires a + Pow2(Natural(a)) <= to && Lo(BlockOf(a, Natural(a))) == a
    ensures Lo(BlockOf(to, k)) >= a <==> Lo(BlockOf(to, k)) >= a + Pow2(Natural(a))
  {
    hide Pow2;
    var b, y := BlockOf(a, Natural(a)), BlockOf(to, k);
    BlockOfHolds(to, k);
    if Contains(b, Lo(y)) {
      if k <= Natural(a) {
        CommonAddressNests(y, b, Lo(y));
        UnderInterval(y, b);
      } else {
        CommonAddressNests(b, y, Lo(y));
        UnderInterval(b, y);
        NotHigher(a, k, y);
      }
    }
  }

  /** A search that starts lower has the larger last tile. */
  lemma TileEndMonotone(p: nat, a: nat, to: nat)
    requires p <= a
    ensures TileEnd(a, to) <= TileEnd(p, to)
  {
    hide Pow2, Lo;
    ShiftMonotone(p, a, to, 60);
    NestedAt(to, TileShift(a, to, 60), TileShift(p, to, 60));
    UnderInterval(BlockOf(to, TileShift(a, to, 60)), BlockOf(to, TileShift(p, to, 60)));
  }

  lemma {:induction false} ShiftMonotone(p: nat, a: nat, to: nat, k: nat)
    requires p <= a
    ensures TileShift(a, to, k) <= TileShift(p, to, k) <= k
    decreases k
  {
    if k > 4 { ShiftMonotone(p, a, to, k - 4); }
  }

  lemma TileEndAbove(a: nat, to: nat)
    ensures to < TileEnd(a, to)
  {
    BlockOfHolds(to, TileShift(a, to, 60));
  }

  lemma RootAligned(b: Block)
    ensures Lo(b) % Pow2(b.shift) == 0
  {
    TimesIs(b.num, Pow2(b.shift));
    DivModUnique(Lo(b), Pow2(b.shift), b.num, 0);
  }

  // ---- all stops of a search ----

  /** What the end comes to. */
  lemma EndCases(root: Block, to: nat)
    requires ValidShift(root.shift) && Hi(root) <= TWO64 && to < TWO64
    ensures SearchEnd(root, to) % 16 == 0 && SearchEnd(root, to) < TWO64
    ensures SearchEnd(root, to) == 0 <==> to == 0 || to > TWO64 - 16 || (root.shift < 64 && Hi(root) == TWO64)
    ensures SearchEnd(root, to) != 0 && to < Hi(root) ==> SearchEnd(root, to) == AlignDown16(to + 15)
    ensures SearchEnd(root, to) != 0 && Hi(root) <= to ==> SearchEnd(root, to) == Hi(root)
    ensures root.shift == 64 ==> Lo(root) == 0 && Hi(root) == TWO64
    ensures root.shift < 64 && Hi(root) == TWO64 ==> Lo(root) > 0
  {
    hide Pow2, Times;
    SpanMultiple16(root);
    Pow2Of64();
    if root.shift < 64 { Pow2Monotone(root.shift, 64); }
  }

  /** The stops from H on never pass 2^64: the next stop exists, and the last tile ends below 2^64. */
  predicate Ahead(root: Block, to: nat, a: nat)
  {
    && (a <= Hi(root) ==> Hi(root) + 16 < TWO64 && (Hi(root) + 16 <= to ==> TileEnd(Hi(root) + 16, to) < TWO64))
    && (Hi(root) < a <= to ==> TileEnd(a, to) < TWO64)
  }

  /** What holds at every stop before the addresses run out. */
  predicate Steady(root: Block, to: nat, start: nat, a: nat)
    requires Hi(root) <= TWO64 && to < TWO64
  {
    && a % 16 == 0 && Lo(root) <= start <= a < TWO64 && start <= to
    && if SearchEnd(root, to) == 0 then
         (0 < start && to <= TWO64 - 16 ==>
            if a <= to then TileEnd(a, to) == TileEnd(start, to) else a == TileEnd(start, to))
       else if to < Hi(root) then
         a <= AlignDown16(to) + 16 < TWO64
       else
         Ahead(root, to, a)
  }

  /** The searches whose stops go round for ever: `to` is the last granule of the whole address space, or
      it lies above a span that ends below 2^64, and the largest block around it that begins behind the
      span, and not before the start of the search, ends at 2^64. */
  predicate NeverEnds(root: Block, from: nat, to: nat)
  {
    var start, past := SearchStart(root, from), Hi(root) + 16;
    && 0 < to <= TWO64 - 16 && start <= to
    && if root.shift == 64 then to == TWO64 - 16
       else
         && Hi(root) <= to
         && if start <= Hi(root) then past == TWO64 || (past <= to && TileEnd(past, to) == TWO64)
            else TileEnd(start, to) == TWO64
  }

  lemma TileEndBelow(a: nat, to: nat)
    requires to < TWO64
    ensures TileEnd(a, to) <= TWO64
  {
    hide Pow2, Lo;
    ShiftMonotone(a, a, to, 60);
    var b := BlockOf(to, TileShift(a, to, 60));
    BlockOfHolds(to, b.shift);
    RootAligned(b);
    RoomBelow(Lo(b), b.shift);
  }

  lemma BeginSteady(root: Block, from: nat, to: nat)
    requires ValidShift(root.shift) && Hi(root) <= TWO64 && from <= to < TWO64
    requires SearchStart(root, from) <= to && !NeverEnds(root, from, to)
    ensures Steady(root, to, SearchStart(root, from), SearchStart(root, from))
  {
    hide Pow2, Times, SearchEnd, TileEnd;
    SpanMultiple16(root);
    EndCases(root, to);
    TileEndBelow(SearchStart(root, from), to);
    TileEndBelow(Hi(root) + 16, to);
  }

  /** From one stop to the next. When the sum reaches 2^64 the tiles are cut to end 0. */
  lemma SteadyStep(root: Block, to: nat, start: nat, a: nat)
    requires ValidShift(root.shift) && Hi(root) <= TWO64 && to < TWO64 && Steady(root, to, start, a) && a <= to
    requires a == 0 ==> SearchEnd(root, to) != 0
    ensures var o := GetNextPageOrder(a, SearchEnd(root, to));
            && LegalStep(a, o) && a + Pow2(o) <= TWO64
            && (a + Pow2(o) < TWO64 ==> Steady(root, to, start, a + Pow2(o)))
            && (a + Pow2(o) == TWO64 ==>
                  SearchEnd(root, to) == 0 && (0 < start && to <= TWO64 - 16 ==> TileEnd(start, to) == TWO64))
  {
    hide Pow2, Times, SearchEnd, TileEnd, GetNextPageOrder, LegalStep, Steady, Ahead;
    EndCases(root, to);
    SpanMultiple16(root);
    if SearchEnd(root, to) == 0 {
      StepCutToZero(root, to, start, a);
    } else if to < Hi(root) {
      StepInside(root, to, start, a);
    } else {
      StepBeyond(root, to, start, a);
    }
  }

  lemma StepForward(a: nat, o: nat)
    requires LegalStep(a, o)
    ensures (a + Pow2(o)) % 16 == 0
  {
  }

  /** The end is cut to 0. */
  lemma StepCutToZero(root: Block, to: nat, start: nat, a: nat)
    requires ValidShift(root.shift) && Hi(root) <= TWO64 && to < TWO64 && Steady(root, to, start, a) && 0 < a <= to
    requires SearchEnd(root, to) == 0
    ensures var o := GetNextPageOrder(a, 0);
            && LegalStep(a, o) && a + Pow2(o) <= TWO64 && (a + Pow2(o) < TWO64 ==> Steady(root, to, start, a + Pow2(o)))
            && (a + Pow2(o) == TWO64 && 0 < start && to <= TWO64 - 16 ==> TileEnd(start, to) == TWO64)
  {
    hide Pow2, Times, SearchEnd, TileEnd, GetNextPageOrder, LegalStep;
    NaturalOrder(a, 0);
    NaturalAligned(a);
    TileStep(a, to);
    StepForward(a, Natural(a));
  }

  /** The range ends inside the span. */
  lemma StepInside(root: Block, to: nat, start: nat, a: nat)
    requires ValidShift(root.shift) && Hi(root) <= TWO64 && to < TWO64 && Steady(root, to, start, a)
               && a <= to < Hi(root)
    requires SearchEnd(root, to) == AlignDown16(to + 15) > 0
    ensures var o := GetNextPageOrder(a, SearchEnd(root, to));
            LegalStep(a, o) && a + Pow2(o) < TWO64 && Steady(root, to, start, a + Pow2(o))
  {
    hide Pow2, Times, SearchEnd, TileEnd, GetNextPageOrder, LegalStep;
    var end := SearchEnd(root, to);
    if a < end {
      BeforeEnd(a, end);
    } else {
      AtEnd(a);
    }
    StepForward(a, GetNextPageOrder(a, end));
  }

  /** The range ends above the span. */
  lemma StepBeyond(root: Block, to: nat, start: nat, a: nat)
    requires ValidShift(root.shift) && Hi(root) <= TWO64 && to < TWO64 && Steady(root, to, start, a) && a <= to
    requires Hi(root) <= to && SearchEnd(root, to) == Hi(root) && Hi(root) % 16 == 0
    ensures var o := GetNextPageOrder(a, SearchEnd(root, to));
            LegalStep(a, o) && a + Pow2(o) < TWO64 && Steady(root, to, start, a + Pow2(o))
  {
    hide Pow2, Times, SearchEnd, TileEnd, GetNextPageOrder, LegalStep;
    var end := Hi(root);
    if a < end {
      BeforeEnd(a, end);
    } else if a == end {
      AtEnd(a);
    } else {
      NaturalOrder(a, end);
      NaturalAligned(a);
      TileStep(a, to);
    }
    StepForward(a, GetNextPageOrder(a, end));
  }

  // ---- the loop as a run of stops ----

  datatype SearchState = Stopped(address: nat) | Left

  /** One turn: the loop is left when the address passes `to` or the tile has the order of all addresses. */
  function Turn(end: nat, to: nat, s: SearchState): (r: SearchState)
    requires end < TWO64 && to < TWO64 && (s.Stopped? ==> s.address < TWO64)
    ensures r.Stopped? ==> r.address < TWO64
  {
    if s.Left? || s.address > to then Left
    else
      var o := GetNextPageOrder(s.address, end);
      if o >= PGT_ADDR_ORDER_MAX then Left else Pow2Below(o); Stopped(Add64(s.address, Pow2(o)))
  }

  lemma Pow2Below(o: nat)
    requires o < 64
    ensures Pow2(o) <= TWO64
  {
    Pow2Monotone(o, 64);
    Pow2Of64();
  }

  function AfterTurns(end: nat, to: nat, start: nat, n: nat): (s: SearchState)
    requires end < TWO64 && to < TWO64 && start < TWO64
    ensures s.Stopped? ==> s.address < TWO64
  {
    if n == 0 then Stopped(start) else Turn(end, to, AfterTurns(end, to, start, n - 1))
  }

  /** A stop from which the loop goes on for ever. */
  predicate Endless(root: Block, to: nat, a: nat)
  {
    && a % 16 == 0 && a <= to < TWO64
    && if root.shift == 64 then to == TWO64 - 16
       else
         && Hi(root) <= to <= TWO64 - 16
         && (Hi(root) + 16 == TWO64 || (Hi(root) + 16 <= to && TileEnd(Hi(root) + 16, to) == TWO64))
         && (a > Hi(root) ==> TileEnd(a, to) == TWO64)
  }

  lemma EndlessTurn(root: Block, to: nat, a: nat)
    requires ValidShift(root.shift) && Hi(root) <= TWO64 && Endless(root, to, a) && a < TWO64
    ensures SearchEnd(root, to) < TWO64
    ensures var s := Turn(SearchEnd(root, to), to, Stopped(a)); s.Stopped? && Endless(root, to, s.address)
  {
    hide Pow2, Times, SearchEnd, TileEnd, GetNextPageOrder;
    EndCases(root, to);
    SpanMultiple16(root);
    var end := SearchEnd(root, to);
    if a < end {
      BeforeEnd(a, end);
    } else if a == end {
      AtEnd(a);
    } else {
      NaturalOrder(a, end);
      NaturalAligned(a);
      TileStep(a, to);
    }
  }

  /** No number of turns leaves the loop. */
  lemma {:induction false} RunsForEver(root: Block, from: nat, to: nat, n: nat)
    requires ValidShift(root.shift) && Hi(root) <= TWO64 && from <= to < TWO64 && NeverEnds(root, from, to)
    ensures SearchStart(root, from) < TWO64 && SearchEnd(root, to) < TWO64
    ensures var s := AfterTurns(SearchEnd(root, to), to, SearchStart(root, from), n); s.Stopped? && s.address <= to
  {
    EndlessAfter(root, from, to, n);
  }

  lemma {:induction false} EndlessAfter(root: Block, from: nat, to: nat, n: nat)
    requires ValidShift(root.shift) && Hi(root) <= TWO64 && from <= to < TWO64 && NeverEnds(root, from, to)
    ensures SearchStart(root, from) < TWO64 && SearchEnd(root, to) < TWO64
    ensures var s := AfterTurns(SearchEnd(root, to), to, SearchStart(root, from), n);
            s.Stopped? && Endless(root, to, s.address)
  {
    hide Pow2, Times, SearchEnd, TileEnd, GetNextPageOrder, Turn;
    EndCases(root, to);
    SpanMultiple16(root);
    if n == 0 {
      EndlessStart(root, from, to);
    } else {
      EndlessAfter(root, from, to, n - 1);
      EndlessTurn(root, to, AfterTurns(SearchEnd(root, to), to, SearchStart(root, from), n - 1).address);
    }
  }

  lemma EndlessStart(root: Block, from: nat, to: nat)
    requires ValidShift(root.shift) && Hi(root) <= TWO64 && from <= to < TWO64 && NeverEnds(root, from, to)
    ensures Endless(root, to, SearchStart(root, from))
  {
    hide Pow2, Times, SearchEnd, TileEnd;
    EndCases(root, to);
    SpanMultiple16(root);
    var start, past := SearchStart(root, from), Hi(root) + 16;
    if root.shift < 64 && start > Hi(root) {
      TileEndMonotone(past, start, to);
      TileEndBelow(past, to);
    }
  }

  /** Regions start and end on multiples of 16, so whole granules at both ends make no difference. */
  lemma SameGranules(q: PgtRegion, root: Block, from: nat, to: nat, address: nat)
    requires GoodRegion(q) && Lo(root) <= q.start && q.end <= Hi(root) <= TWO64 && from <= to < address
    requires root.shift < 64 || Lo(root) == 0
    requires SearchStart(root, from) <= to && (Hi(root) <= to || address <= AlignDown16(to) + 16)
    ensures Meets(q, SearchStart(root, from), address) <==> Meets(q, from, to + 1)
  {
    hide Pow2, Times;
  }

  /** Starting on a whole granule, or with the span, makes no difference. */
  lemma SameStart(q: PgtRegion, root: Block, from: nat, hi: nat)
    requires GoodRegion(q) && Lo(root) <= q.start && SearchStart(root, from) < hi && from < hi
    ensures Meets(q, SearchStart(root, from), hi) <==> Meets(q, from, hi)
  {
    hide Pow2, Times;
  }

  lemma ScannedSame(regions: set<PgtRegion>, found: seq<PgtRegion>, lo: nat, hi: nat, lo': nat, hi': nat)
    requires Scanned(regions, found, lo, hi) && forall q :: q in regions ==> (Meets(q, lo, hi) <==> Meets(q, lo', hi'))
    ensures Scanned(regions, found, lo', hi')
  {
  }
}
