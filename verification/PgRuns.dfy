/**
 Whole runs of the page table, and searches that go wrong on concrete tables.
 */
module PgRuns {
  import opened Bits
  import opened PageBlocks
  import opened PgSearch
  import opened PgTable
  import opened PgTree
  import opened Results

  datatype Call = InsertCall(region: PgtRegion) | RemoveCall(region: PgtRegion)

  /** What a call does to a plain set of regions. */
  ghost function Apply(regions: set<PgtRegion>, c: Call): set<PgtRegion>
  {
    match c
    case InsertCall(r) => if GoodRegion(r) && (forall q :: q in regions ==> !Overlap(q, r)) then regions + {r}
        else regions
    case RemoveCall(r) => regions - {r}
  }

  ghost function ApplyAll(calls: seq<Call>): set<PgtRegion>
  {
    if calls == [] then {} else Apply(ApplyAll(calls[..|calls| - 1]), calls[|calls| - 1])
  }

  ghost predicate InRange(calls: seq<Call>)
  {
    forall i :: 0 <= i < |calls| ==> calls[i].region.start < TWO64 && calls[i].region.end < TWO64
  }

  /** After any calls the table stores what the plain set holds. */
  method Run(calls: seq<Call>) returns (table: NetPgTable)
    requires InRange(calls)
    ensures table.Valid() && table.regions == ApplyAll(calls) && fresh(table)
  {
    hide NetPgTable.Valid, Apply;
    table := new NetPgTable();
    var i := 0;
    while i < |calls|
      invariant 0 <= i <= |calls| && table.Valid() && table.regions == ApplyAll(calls[..i]) && fresh(table)
                  && fresh(table.dirAt.Values)
    {
      var ret := Perform(table, calls[i]);
      assert calls[..i + 1][..i] == calls[..i];
      i := i + 1;
    }
    assert calls[..i] == calls;
  }

  method Perform(table: NetPgTable, c: Call) returns (result: NResult)
    requires table.Valid() && c.region.start < TWO64 && c.region.end < TWO64
    modifies table, table.dirAt.Values
    ensures table.Valid() && fresh(table.dirAt.Values - old(table.dirAt.Values))
    ensures table.regions == Apply(old(table.regions), c)
  {
    hide NetPgTable.Valid;
    match c
    case InsertCall(r) => result := table.Insert(r);
    case RemoveCall(r) => result := table.Remove(r);
  }

  /** After any calls, looking an address up gives the region of the plain set that holds it, or null. */
  method LookupAfter(calls: seq<Call>, address: nat) returns (region: PgtRegion?)
    requires InRange(calls) && address < TWO64
    ensures region != null ==> region in ApplyAll(calls) && region.start <= address < region.end
    ensures region == null ==> forall q :: q in ApplyAll(calls) ==> !(q.start <= address < q.end)
  {
    var table := Run(calls);
    region := table.Lookup(address);
  }

  /** Two runs that end with the same plain set end with the same tree, span and counts. */
  method SameEnd(first: seq<Call>, second: seq<Call>) returns (a: NetPgTable, b: NetPgTable)
    requires InRange(first) && InRange(second) && ApplyAll(first) == ApplyAll(second)
    ensures a.Valid() && b.Valid() && a.View() == b.View()
  {
    hide NetPgTable.Valid, NetPgTable.View;
    a := Run(first);
    b := Run(second);
    a.SameRegionsSameTable(b);
  }

  // ---- searches that go wrong ----

  /** A table with one region of one granule. */
  method OneGranule(start: nat) returns (table: NetPgTable, only: PgtRegion)
    requires start % 16 == 0 && start + 16 < TWO64
    ensures table.Valid() && table.regions == {only} && only.start == start && only.end == start + 16
    ensures fresh(table) && fresh(table.dirAt.Values)
  {
    hide NetPgTable.Valid;
    table := new NetPgTable();
    only := new PgtRegion(start, start + 16, 0, 0);
    var ret := table.Insert(only);
  }

  /** A table with two regions of one granule each. */
  method TwoGranules(start: nat, later: nat) returns (table: NetPgTable, first: PgtRegion, second: PgtRegion)
    requires start % 16 == 0 && later % 16 == 0 && start + 16 <= later && later + 16 < TWO64
    ensures table.Valid() && table.regions == {first, second}
    ensures first.start == start && first.end == start + 16 && second.start == later && second.end == later + 16
  {
    hide NetPgTable.Valid;
    table, first := OneGranule(start);
    second := new PgtRegion(later, later + 16, 0, 0);
    var ret := table.Insert(second);
  }

  /** With [0, 16) and [16, 32) stored, the search from 0 to 0 reports both. */
  method ZeroRangeReportsBoth() returns (table: NetPgTable, found: seq<PgtRegion>, second: PgtRegion)
    ensures table.Valid() && table.Reported(found, 0, 0) && !table.Exact(0, 0)
    ensures second in found && second.start == 16
  {
    hide NetPgTable.Valid, NetPgTable.Reported, NetPgTable.Exact, NeverEnds;
    var first;
    table, first, second := TwoGranules(0, 16);
    ZeroRangeFacts(table, first, second);
    found := table.SearchRange(0, 0);
    ZeroRangeFinds(table, first, second, found);
  }

  lemma ZeroRangeFacts(table: NetPgTable, first: PgtRegion, second: PgtRegion)
    requires table.Valid() && table.regions == {first, second} && first.start == 0 && second.start == 16
               && second.end == 32
    ensures table.virBaseAddr == 0 && !NeverEnds(table.root, 0, 0) && !table.Exact(0, 0)
  {
    hide PagesAre, Pow2, Times, TileEnd;
    table.RegionInSpan(first);
    assert second in table.regions;
  }

  lemma ZeroRangeFinds(table: NetPgTable, first: PgtRegion, second: PgtRegion, found: seq<PgtRegion>)
    requires table.Valid() && table.regions == {first, second} && table.virBaseAddr == 0 && second.start == 16
    requires table.Reported(found, 0, 0)
    ensures second in found
  {
    hide PagesAre, Pow2, Times, TileEnd;
    table.RegionInSpan(second);
    assert Meets(second, 0, Hi(table.root));
  }

  /** With only [0, 16) stored, the search from 16 to the last address reports it. */
  method TopRangeComesBack() returns (table: NetPgTable, found: seq<PgtRegion>, only: PgtRegion)
    ensures table.Valid() && table.Reported(found, 16, TWO64 - 1) && !table.Exact(16, TWO64 - 1)
    ensures only in found && only.end == 16
  {
    hide NetPgTable.Valid, NetPgTable.Reported, NetPgTable.Exact, NeverEnds;
    table, only := OneGranule(0);
    ComesBackFacts(table, only);
    found := table.SearchRange(16, TWO64 - 1);
    ComesBackFinds(table, only, found);
  }

  lemma ComesBackFacts(table: NetPgTable, only: PgtRegion)
    requires table.Valid() && table.regions == {only} && only.start == 0 && only.end == 16
    ensures table.ComesBack(16, TWO64 - 1) && !NeverEnds(table.root, 16, TWO64 - 1) && !table.Exact(16, TWO64 - 1)
  {
    hide PagesAre, Pow2, Times, TileEnd;
    table.RegionInSpan(only);
  }

  lemma ComesBackFinds(table: NetPgTable, only: PgtRegion, found: seq<PgtRegion>)
    requires table.Valid() && table.regions == {only} && table.ComesBack(16, TWO64 - 1)
               && table.Reported(found, 16, TWO64 - 1)
    ensures only in found
  {
    hide PagesAre, Pow2, Times, TileEnd;
    table.RegionInSpan(only);
    assert Meets(only, 0, Hi(table.root));
  }

  /** On a new table, whose span is [0, 16), the search up to 2^64 - 2^60 never ends: no number of turns
      leaves its loop. */
  lemma NewTableRunsForEver(n: nat)
    ensures Hi(NEW_ROOT) == 16 && NeverEnds(NEW_ROOT, 0, TOP_DIGIT) && SearchEnd(NEW_ROOT, TOP_DIGIT) == 16
    ensures var s := AfterTurns(16, TOP_DIGIT, 0, n); s.Stopped? && s.address <= TOP_DIGIT
  {
    hide Pow2, Times, AfterTurns, SearchEnd;
    Pow2Of60();
    Pow2Of4();
    TimesIs(0, 16);
    TimesIs(15, Pow2(60));
    BlockOfLo(Block(60, 15));
    assert TileEnd(32, TOP_DIGIT) == TWO64;
    EndCases(NEW_ROOT, TOP_DIGIT);
    RunsForEver(NEW_ROOT, 0, TOP_DIGIT, n);
  }

  const NEW_ROOT: Block := Block(PAGE_SHIFT_MIN, 0)
  const TOP_DIGIT: nat := 0xF000_0000_0000_0000

  /** With [2^64 - 64, 2^64 - 48) and [2^64 - 32, 2^64 - 16) stored, the search that ends at 2^64 - 64 reports
      the second as well. */
  method SearchOvershoots() returns (table: NetPgTable, found: seq<PgtRegion>, second: PgtRegion)
    ensures table.Valid() && table.Reported(found, TWO64 - 256, TWO64 - 64) && !table.Exact(TWO64 - 256, TWO64 - 64)
    ensures second in found && second.start == TWO64 - 32
  {
    hide NetPgTable.Valid, NetPgTable.Reported, NetPgTable.Exact, NeverEnds;
    var first;
    table, first, second := TwoGranules(TWO64 - 64, TWO64 - 32);
    OvershootFacts(table, first, second);
    found := table.SearchRange(TWO64 - 256, TWO64 - 64);
    OvershootFinds(table, first, second, found);
  }

  const TOP_ROOT: Block := Block(8, 0xFF_FFFF_FFFF_FFFF)

  lemma TopRootSpan()
    ensures Lo(TOP_ROOT) == TWO64 - 256 && Hi(TOP_ROOT) == TWO64 && Pow2(8) == 256
  {
    Pow2Values();
    TimesIs(0xFF_FFFF_FFFF_FFFF, 256);
  }

  /** The one page of a granule. */
  lemma GranulePage(q: PgtRegion, x: Block, i: nat)
    requires GoodRegion(q) && x in PagesOf(q) && i < 16 && q.start == TWO64 - 256 + 16 * i && q.end == q.start + 16
    ensures x == Child(TOP_ROOT, i)
  {
    hide Pow2, Times, PagesOf, GetNextPageOrder;
    PageShape(q, x);
    Pow2Of4();
    if x.shift > 4 { Pow2Monotone(5, x.shift); Pow2Monotone(4, 5); }
    TopRootSpan();
    ChildInterval(TOP_ROOT, i);
    BlockOfLo(x);
    BlockOfLo(Child(TOP_ROOT, i));
  }

  lemma TopRootIsRoot(table: NetPgTable, first: PgtRegion, second: PgtRegion)
    requires table.Valid() && table.regions == {first, second} && first.start == TWO64 - 64
               && second.start == TWO64 - 32
    requires first.end == TWO64 - 48 && second.end == TWO64 - 16
    ensures table.root == TOP_ROOT
  {
    hide Pow2, Times, PagesOf, NetPgTable.TreeOk, Build;
    var pages := table.pages;
    assert GoodRegion(first) && GoodRegion(second);
    var x := PageAround(table.regions, pages, first, first.start);
    var y := PageAround(table.regions, pages, second, second.start);
    forall z {:trigger Under(z, TOP_ROOT)} | z in pages
      ensures Under(z, TOP_ROOT) && (z == Child(TOP_ROOT, 12) || z == Child(TOP_ROOT, 14))
      ensures z == Child(TOP_ROOT, if pages[z] == first then 12 else 14)
    {
      assert IsPageOf(z, pages[z]);
      GranulePage(pages[z], z, if pages[z] == first then 12 else 14);
      ChildUnder(TOP_ROOT, 12);
      ChildUnder(TOP_ROOT, 14);
    }
    assert Under(x, TOP_ROOT) && Under(y, TOP_ROOT);
    TopRootTight(pages, x, y);
    table.ViewIs();
    TightRootUnique(pages, table.root, TOP_ROOT);
  }

  lemma TopRootTight(pages: PageMap, x: Block, y: Block)
    requires x in pages && y in pages && x == Child(TOP_ROOT, 12) && y == Child(TOP_ROOT, 14) && Covers(TOP_ROOT, pages)
    ensures TightRoot(pages, TOP_ROOT)
  {
    hide Pow2, Times;
    assert Under(x, Child(TOP_ROOT, 12)) && Under(y, Child(TOP_ROOT, 14)) by { BlockOfHolds(Lo(x),
             4); BlockOfHolds(Lo(y), 4); BlockOfLo(x); BlockOfLo(y); }
    assert Populated(pages, Child(TOP_ROOT, 12)) && Populated(pages, Child(TOP_ROOT, 14));
  }

  lemma OvershootTile()
    ensures SearchStart(TOP_ROOT, TWO64 - 256) == TWO64 - 256 && TileEnd(TWO64 - 256, TWO64 - 64) == TWO64
  {
    hide Pow2, Times, TileEnd, Natural;
    var a := TWO64 - 256;
    TopRootSpan();
    RootAligned(TOP_ROOT);
    NaturalLargest(a, 8);
    NaturalAligned(a);
    Pow2Monotone(8, Natural(a));
    TileStep(a, TWO64 - 64);
  }

  lemma OvershootFacts(table: NetPgTable, first: PgtRegion, second: PgtRegion)
    requires table.Valid() && table.regions == {first, second} && first.start == TWO64 - 64
               && second.start == TWO64 - 32
    requires first.end == TWO64 - 48 && second.end == TWO64 - 16
    ensures table.root == TOP_ROOT && !NeverEnds(table.root, TWO64 - 256, TWO64 - 64)
              && !table.Exact(TWO64 - 256, TWO64 - 64)
  {
    hide PagesAre, Pow2, Times, TileEnd, NetPgTable.TreeOk, SearchStart;
    TopRootIsRoot(table, first, second);
    TopRootSpan();
    OvershootTile();
    assert second in table.regions;
  }

  lemma OvershootFinds(table: NetPgTable, first: PgtRegion, second: PgtRegion, found: seq<PgtRegion>)
    requires table.Valid() && table.regions == {first, second} && table.root == TOP_ROOT
    requires second.start == TWO64 - 32 && second.end == TWO64 - 16 && table.Reported(found, TWO64 - 256, TWO64 - 64)
    ensures second in found
  {
    hide PagesAre, Pow2, Times, TileEnd, SearchStart, NetPgTable.TreeOk;
    TopRootSpan();
    OvershootTile();
    assert Meets(second, TWO64 - 256, TWO64);
  }
}
