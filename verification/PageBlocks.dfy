/**
 Naturally aligned address blocks and how a region [start, end) is cut into them.
 Block(s, n) is the 2^s addresses from n * 2^s on; directories and pages of the page table both
 sit on such blocks, with s a multiple of four.
 */
module PageBlocks {
  import opened Bits

  const PAGE_SHIFT_MIN: nat := 4
  const PAGE_ADDR_ALIGN_MIN: nat := 16
  const PGT_ADDR_ORDER_MAX: nat := 64
  const PTE_SHIFT_PER_DIR: nat := 4
  const PTE_ENTRY_NUM_PER_DIR: nat := 16
  /** The 32-bit value of the order -1 that GetNextPageOrder returns for a bad range. */
  const NO_ORDER: nat := 0xFFFF_FFFF

  datatype Block = Block(shift: nat, num: nat)

  function Lo(b: Block): nat { Times(b.num, Pow2(b.shift)) }

  function Hi(b: Block): nat { Lo(b) + Pow2(b.shift) }

  predicate Contains(b: Block, a: nat) { Lo(b) <= a < Hi(b) }

  function BlockOf(a: nat, shift: nat): Block { Block(shift, Quot(a, Pow2(shift))) }

  function Parent(b: Block): Block { Block(b.shift + 4, b.num / 16) }

  function Child(b: Block, i: nat): Block
    requires b.shift >= 4
  {
    Block(b.shift - 4, b.num * 16 + i)
  }

  /** The entry index of an address in a directory whose entries have this shift: (address >> shift) & 15. */
  function IndexAt(a: nat, shift: nat): (i: nat)
    ensures i < 16
  {
    Quot(a, Pow2(shift)) % 16
  }

  predicate ValidShift(s: nat) { 4 <= s <= 64 && s % 4 == 0 }

  /** x lies inside y. */
  predicate Under(x: Block, y: Block) { x.shift <= y.shift && Contains(y, Lo(x)) }

  /** A block holds exactly the addresses whose block it is. */
  lemma ContainsIff(b: Block, a: nat)
    ensures Contains(b, a) <==> BlockOf(a, b.shift) == b
  {
    var p := Pow2(b.shift);
    TimesIs(b.num, p);
    QuotIs(a, p);
    assert a == (a / p) * p + a % p;
    if Contains(b, a) {
      DivModUnique(a, p, b.num, a - Lo(b));
    }
  }

  lemma BlockOfHolds(a: nat, s: nat)
    ensures Contains(BlockOf(a, s), a)
  {
    ContainsIff(BlockOf(a, s), a);
  }

  lemma BlockOfLo(b: Block)
    ensures BlockOf(Lo(b), b.shift) == b
  {
    ContainsIff(b, Lo(b));
  }

  lemma BlockOfCoarser(a: nat, s: nat, t: nat)
    requires s <= t
    ensures BlockOf(a, t).num == BlockOf(a, s).num / Pow2(t - s)
  {
    Pow2Add(t - s, s);
    DivDiv(a, Pow2(s), Pow2(t - s));
    QuotIs(a, Pow2(s));
    QuotIs(a, Pow2(t));
  }

  /** Two blocks with a common address are nested. */
  lemma CommonAddressNests(x: Block, y: Block, a: nat)
    requires Contains(x, a) && Contains(y, a) && x.shift <= y.shift
    ensures Under(x, y)
  {
    ContainsIff(x, a);
    ContainsIff(y, a);
    BlockOfLo(x);
    BlockOfCoarser(a, x.shift, y.shift);
    BlockOfCoarser(Lo(x), x.shift, y.shift);
    ContainsIff(y, Lo(x));
  }

  /** Everything in the smaller block is in the larger one. */
  lemma UnderContains(x: Block, y: Block, a: nat)
    requires Under(x, y) && Contains(x, a)
    ensures Contains(y, a)
  {
    ContainsIff(x, a);
    ContainsIff(y, Lo(x));
    BlockOfLo(x);
    BlockOfCoarser(a, x.shift, y.shift);
    BlockOfCoarser(Lo(x), x.shift, y.shift);
    ContainsIff(y, a);
  }

  lemma UnderTransitive(x: Block, y: Block, z: Block)
    requires Under(x, y) && Under(y, z)
    ensures Under(x, z)
  {
    UnderContains(y, z, Lo(x));
  }

  lemma UnderAntisymmetric(x: Block, y: Block)
    requires Under(x, y) && y.shift <= x.shift
    ensures x == y
  {
    ContainsIff(y, Lo(x));
    BlockOfLo(x);
  }

  lemma NestedAt(a: nat, s: nat, t: nat)
    requires s <= t
    ensures Under(BlockOf(a, s), BlockOf(a, t))
  {
    BlockOfHolds(a, s);
    BlockOfHolds(a, t);
    CommonAddressNests(BlockOf(a, s), BlockOf(a, t), a);
  }

  lemma UnderInterval(x: Block, y: Block)
    requires Under(x, y)
    ensures Lo(y) <= Lo(x) && Hi(x) <= Hi(y)
  {
    UnderContains(x, y, Hi(x) - 1);
  }

  lemma ParentOf(a: nat, s: nat)
    ensures Parent(BlockOf(a, s)) == BlockOf(a, s + 4)
  {
    Pow2Step4(s);
    DivDiv(a, Pow2(s), 16);
    QuotIs(a, Pow2(s));
    QuotIs(a, Pow2(s + 4));
  }

  lemma UnderParent(x: Block)
    ensures Under(x, Parent(x))
  {
    BlockOfLo(x);
    ParentOf(Lo(x), x.shift);
    BlockOfHolds(Lo(x), x.shift + 4);
  }

  lemma ChildParent(x: Block, i: nat)
    requires x.shift >= 4 && i < 16
    ensures Parent(Child(x, i)) == x
  {
  }

  lemma ParentChild(x: Block)
    ensures Child(Parent(x), x.num % 16) == x
  {
  }

  /** The child of b that holds the address a of b. */
  lemma ChildOf(b: Block, a: nat)
    requires b.shift >= 4 && Contains(b, a)
    ensures Child(b, IndexAt(a, b.shift - 4)) == BlockOf(a, b.shift - 4)
  {
    ContainsIff(b, a);
    ParentOf(a, b.shift - 4);
  }

  /** A block strictly inside b is inside the child of b that holds its first address. */
  lemma UnderSomeChild(x: Block, b: Block)
    requires b.shift >= 4 && Under(x, b) && x.shift + 4 <= b.shift
    ensures Under(x, Child(b, IndexAt(Lo(x), b.shift - 4)))
  {
    ChildOf(b, Lo(x));
    BlockOfHolds(Lo(x), b.shift - 4);
  }

  lemma ChildUnder(b: Block, i: nat)
    requires b.shift >= 4 && i < 16
    ensures Under(Child(b, i), b)
  {
    UnderParent(Child(b, i));
  }

  lemma ChildInterval(b: Block, i: nat)
    requires b.shift >= 4 && i < 16
    ensures Lo(Child(b, i)) == Lo(b) + i * Pow2(b.shift - 4)
    ensures Hi(b) == Lo(b) + 16 * Pow2(b.shift - 4)
  {
    Pow2Step4(b.shift - 4);
    var p := Pow2(b.shift - 4);
    TimesIs(b.num, 16 * p);
    TimesIs(b.num * 16 + i, p);
    assert (b.num * 16 + i) * p == b.num * (16 * p) + i * p;
  }

  /** The children of a block follow one another and fill it. */
  lemma ChildrenFill(b: Block, i: nat)
    requires b.shift >= 4
    ensures Hi(Child(b, i)) == Lo(Child(b, i + 1))
    ensures Lo(Child(b, 0)) == Lo(b) && Lo(Child(b, 16)) == Hi(b)
  {
    hide Times, Pow2;
    Pow2Step4(b.shift - 4);
    var p := Pow2(b.shift - 4);
    TimesIs(b.num, 16 * p);
    TimesIs(b.num * 16 + i, p);
    TimesIs(b.num * 16 + i + 1, p);
    TimesIs(b.num * 16, p);
    TimesIs(b.num * 16 + 16, p);
    assert (b.num * 16 + 16) * p == b.num * (16 * p) + 16 * p;
  }

  lemma SiblingsApart(x: Block, b: Block, i: nat, j: nat)
    requires b.shift >= 4 && i < 16 && j < 16
    requires Under(x, Child(b, i)) && Under(x, Child(b, j))
    ensures i == j
  {
    ContainsIff(Child(b, i), Lo(x));
    ContainsIff(Child(b, j), Lo(x));
  }

  // ---- cutting a region into pages ----

  /** end - start in 64-bit arithmetic. */
  function Sub64(end: nat, start: nat): nat
    requires start < TWO64 && end < TWO64
  {
    if end >= start then end - start else end + TWO64 - start
  }

  /** The largest power of two that a page at `start` may have, before rounding to a legal order. */
  function MaxOrder(start: nat, end: nat): nat
    requires start < TWO64 && end < TWO64
  {
    if start == 0 && end == 0 then
      PGT_ADDR_ORDER_MAX
    else if start == end then
      PAGE_SHIFT_MIN
    else
      var high := HighestBitPosition(Sub64(end, start));
      if start != 0 then
        var low := LowestBitPosition(start);
        if low < high then low else high
      else
        high
  }

  function GetNextPageOrder(start: nat, end: nat): nat
    requires start < TWO64 && end < TWO64
  {
    if start % PAGE_ADDR_ALIGN_MIN != 0 || end % PAGE_ADDR_ALIGN_MIN != 0 then
      NO_ORDER
    else
      var maxOrder := MaxOrder(start, end);
      if maxOrder < PAGE_SHIFT_MIN || maxOrder > PGT_ADDR_ORDER_MAX then
        NO_ORDER
      else
        RoundOrder(maxOrder)
  }

  /** The nearest legal order at or below: four plus a multiple of four. */
  function RoundOrder(maxOrder: nat): (o: nat)
    requires PAGE_SHIFT_MIN <= maxOrder <= PGT_ADDR_ORDER_MAX
    ensures ValidShift(o) && o <= maxOrder < o + 4
  {
    ((maxOrder - PAGE_SHIFT_MIN) / PTE_SHIFT_PER_DIR) * PTE_SHIFT_PER_DIR + PAGE_SHIFT_MIN
  }

  /** The page starts on a multiple of its size and has a legal order. */
  predicate ValidatePage(address: nat, order: nat)
    requires order >= PAGE_SHIFT_MIN
  {
    Rem(address, Pow2(order)) == 0 && (order - PAGE_SHIFT_MIN) % PTE_SHIFT_PER_DIR == 0
  }

  predicate Aligned(start: nat, end: nat)
  {
    start % 16 == 0 && end % 16 == 0 && end < TWO64
  }

  /** k is the order of a page that can start at `start` without running past `end`. */
  predicate FitsPage(start: nat, end: nat, k: nat)
  {
    4 <= k && k % 4 == 0 && Rem(start, Pow2(k)) == 0 && start + Pow2(k) <= end
  }

  lemma MaxOrderAtLeast(start: nat, end: nat, k: nat)
    requires start < end < TWO64
    ensures k <= MaxOrder(start, end) <==> Rem(start, Pow2(k)) == 0 && start + Pow2(k) <= end
  {
    RemIs(start, Pow2(k));
    var n := end - start;
    HighestBitAtLeast(n, k);
    if start == 0 {
      DivOfProduct(0, Pow2(k));
    } else {
      LowestBitAtLeast(start, k);
    }
  }

  lemma Pow2Of4()
    ensures Pow2(4) == 16
  {
    Pow2Values();
  }

  lemma Pow2Of64()
    ensures Pow2(64) == TWO64
  {
    Pow2Values();
  }

  /** The order chosen fits ... */
  lemma NextPageOrderFits(start: nat, end: nat)
    requires start < end && Aligned(start, end)
    ensures GetNextPageOrder(start, end) <= 60
    ensures FitsPage(start, end, GetNextPageOrder(start, end))
  {
    MaxOrderRange(start, end);
    MaxOrderAtLeast(start, end, RoundOrder(MaxOrder(start, end)));
  }

  /** ... and is the largest one that does. */
  lemma NextPageOrderIsLargest(start: nat, end: nat, k: nat)
    requires start < end && Aligned(start, end) && FitsPage(start, end, k)
    ensures k <= GetNextPageOrder(start, end)
  {
    MaxOrderRange(start, end);
    var raw := MaxOrder(start, end);
    assert k <= raw by { MaxOrderAtLeast(start, end, k); }
    RoundOrderIsLargest(raw, k);
  }

  lemma RoundOrderIsLargest(maxOrder: nat, k: nat)
    requires 4 <= maxOrder <= 64 && k <= maxOrder && k % 4 == 0
    ensures k <= RoundOrder(maxOrder)
  {
  }

  lemma MaxOrderRange(start: nat, end: nat)
    requires start < end && Aligned(start, end)
    ensures 4 <= MaxOrder(start, end) < 64
  {
    hide MaxOrder, Rem, Pow2;
    MaxOrderAtLeast(start, end, 4);
    Pow2Of4();
    RemIs(start, 16);
    MaxOrderAtLeast(start, end, 64);
    Pow2Of64();
  }

  lemma NextAligned(start: nat, o: nat)
    requires start % 16 == 0 && o >= 4
    ensures (start + Pow2(o)) % 16 == 0
  {
    Pow2Step4(o - 4);
    Multiple16(start, Pow2(o - 4));
  }

  lemma Multiple16(a: nat, q: nat)
    requires a % 16 == 0
    ensures (a + 16 * q) % 16 == 0
  {
  }

  lemma AlignedBlock(a: nat, o: nat)
    requires Rem(a, Pow2(o)) == 0
    ensures Lo(BlockOf(a, o)) == a
  {
    var p := Pow2(o);
    RemIs(a, p);
    QuotIs(a, p);
    TimesIs(a / p, p);
    assert a == (a / p) * p + a % p;
  }

  /** Cutting the end back keeps the choice of a page that still fits. */
  lemma SameOrderWhenCut(start: nat, end: nat, m: nat)
    requires start < end && Aligned(start, end) && Aligned(start, m)
    requires start + Pow2(GetNextPageOrder(start, end)) <= m <= end
    ensures GetNextPageOrder(start, m) == GetNextPageOrder(start, end)
  {
    NextPageOrderFits(start, end);
    NextPageOrderFits(start, m);
    NextPageOrderIsLargest(start, m, GetNextPageOrder(start, end));
    NextPageOrderIsLargest(start, end, GetNextPageOrder(start, m));
  }

  /** A legal page with legal bounds. */
  predicate LegalPage(b: Block)
  {
    4 <= b.shift <= 60 && ValidShift(b.shift) && ValidatePage(Lo(b), b.shift) && Hi(b) < TWO64 && Hi(b) % 16 == 0
  }

  /** GetNextPageOrder picks b as the first page up to end. */
  predicate PicksUpTo(b: Block, end: nat)
  {
    Lo(b) < end < TWO64 && GetNextPageOrder(Lo(b), end) == b.shift
  }

  lemma LegalOrder(o: nat)
    requires o >= 4 && o % 4 == 0
    ensures (o - PAGE_SHIFT_MIN) % PTE_SHIFT_PER_DIR == 0
  {
  }

  lemma HeadLegal(start: nat, o: nat)
    requires start % 16 == 0 && o <= 60 && FitsPage(start, TWO64 - 1, o)
    ensures LegalPage(BlockOf(start, o)) && Lo(BlockOf(start, o)) == start
  {
    AlignedBlock(start, o);
    LegalOrder(o);
    NextAligned(start, o);
  }

  /** The page the loop takes at start. */
  lemma FirstPage(start: nat, end: nat) returns (b: Block)
    requires start < end && Aligned(start, end)
    ensures LegalPage(b) && Lo(b) == start && Hi(b) <= end && PicksUpTo(b, end)
  {
    var o := GetNextPageOrder(start, end);
    NextPageOrderFits(start, end);
    HeadLegal(start, o);
    b := BlockOf(start, o);
  }

  lemma FirstPicked(end: nat, b: Block, m: nat)
    requires LegalPage(b) && PicksUpTo(b, end) && Lo(b) % 16 == 0 && end % 16 == 0
    requires Hi(b) <= m <= end && m % 16 == 0
    ensures PicksUpTo(b, m)
  {
    SameOrderWhenCut(Lo(b), end, m);
  }

  // ---- a plan: the pages of one region laid end to end ----

  /** Page i ends where the cut is, for every later cut, and starts where page i - 1 ends. */
  ghost predicate Plan(plan: seq<Block>)
  {
    AllLegal(plan) && InOrder(plan) && AllPicked(plan)
  }

  ghost predicate AllLegal(plan: seq<Block>)
  {
    forall i {:trigger LegalPage(plan[i])} :: 0 <= i < |plan| ==> LegalPage(plan[i])
  }

  ghost predicate InOrder(plan: seq<Block>)
  {
    && (forall i {:trigger Follows(plan, i)} :: 0 < i < |plan| ==> Follows(plan, i))
    && (forall i, k {:trigger Precedes(plan[i], plan[k])} :: 0 <= i < k < |plan| ==> Precedes(plan[i], plan[k]))
  }

  /** Each page is what GetNextPageOrder picks up to the end of any page from there on. */
  ghost predicate AllPicked(plan: seq<Block>)
  {
    forall i, k {:trigger PicksUpTo(plan[i], Hi(plan[k]))} ::
      0 <= i <= k < |plan| ==> PicksUpTo(plan[i], Hi(plan[k]))
  }

  predicate Follows(plan: seq<Block>, i: int)
    requires 0 < i < |plan|
  {
    Lo(plan[i]) == Hi(plan[i - 1])
  }

  predicate Precedes(x: Block, y: Block)
  {
    Hi(x) <= Lo(y)
  }

  lemma LegalCons(b: Block, rest: seq<Block>)
    requires LegalPage(b) && AllLegal(rest)
    ensures AllLegal([b] + rest)
  {
    var plan := [b] + rest;
    forall i {:trigger LegalPage(plan[i])} | 0 <= i < |plan|
      ensures LegalPage(plan[i])
    {
      if i > 0 { assert LegalPage(rest[i - 1]); }
    }
  }

  lemma OrderCons(b: Block, rest: seq<Block>)
    requires InOrder(rest)
    requires rest != [] ==> Lo(rest[0]) == Hi(b)
    ensures InOrder([b] + rest)
  {
    var plan := [b] + rest;
    forall i {:trigger Follows(plan, i)} | 0 < i < |plan|
      ensures Follows(plan, i)
    {
      if i > 1 { assert Follows(rest, i - 1); }
    }
    forall i, k {:trigger Precedes(plan[i], plan[k])} | 0 <= i < k < |plan|
      ensures Precedes(plan[i], plan[k])
    {
      if i > 0 {
        assert Precedes(rest[i - 1], rest[k - 1]);
      } else if k > 1 {
        assert Precedes(rest[0], rest[k - 1]);
      }
    }
  }

  lemma PickedCons(b: Block, rest: seq<Block>)
    requires AllPicked(rest) && PicksUpTo(b, Hi(b))
    requires forall k {:trigger PicksUpTo(b, Hi(rest[k]))} :: 0 <= k < |rest| ==> PicksUpTo(b, Hi(rest[k]))
    ensures AllPicked([b] + rest)
  {
    var plan := [b] + rest;
    forall i, k {:trigger PicksUpTo(plan[i], Hi(plan[k]))} | 0 <= i <= k < |plan|
      ensures PicksUpTo(plan[i], Hi(plan[k]))
    {
      if i > 0 {
        assert PicksUpTo(rest[i - 1], Hi(rest[k - 1]));
      } else if k > 0 {
        assert PicksUpTo(b, Hi(rest[k - 1]));
      }
    }
  }

  /** The pages of [start, end), laid end to end. */
  ghost predicate PlanFor(start: nat, end: nat, plan: seq<Block>)
  {
    plan != [] && Lo(plan[0]) == start && Hi(plan[|plan| - 1]) == end && Plan(plan)
  }

  /** The page loop terminates and covers [start, end) exactly. */
  lemma {:induction false} PlanExists(start: nat, end: nat) returns (plan: seq<Block>)
    requires start < end && Aligned(start, end)
    ensures PlanFor(start, end, plan)
    decreases end - start
  {
    var b := FirstPage(start, end);
    FirstPicked(end, b, Hi(b));
    var rest := [];
    if Hi(b) < end {
      rest := PlanExists(Hi(b), end);
      forall k {:trigger PicksUpTo(b, Hi(rest[k]))} | 0 <= k < |rest|
        ensures PicksUpTo(b, Hi(rest[k]))
      {
        PlanShape(rest, k);
        FirstPicked(end, b, Hi(rest[k]));
      }
    }
    LegalCons(b, rest);
    OrderCons(b, rest);
    PickedCons(b, rest);
    plan := [b] + rest;
  }

  /** Every page has a legal order and lies inside the region. */
  lemma PlanShape(plan: seq<Block>, i: nat)
    requires Plan(plan) && i < |plan|
    ensures LegalPage(plan[i]) && Lo(plan[0]) <= Lo(plan[i]) && Hi(plan[i]) <= Hi(plan[|plan| - 1])
    ensures Hi(plan[0]) <= Hi(plan[i])
  {
    assert LegalPage(plan[i]);
    if i > 0 { assert Precedes(plan[0], plan[i]); }
    if i < |plan| - 1 { assert Precedes(plan[i], plan[|plan| - 1]); }
  }

  /** The page that holds a given address of the region. */
  lemma {:induction false} PlanAt(plan: seq<Block>, a: nat) returns (i: nat)
    requires Plan(plan) && plan != [] && Lo(plan[0]) <= a < Hi(plan[|plan| - 1])
    ensures i < |plan| && Contains(plan[i], a)
  {
    i := 0;
    while a >= Hi(plan[i])
      invariant i < |plan| && Lo(plan[i]) <= a
      decreases |plan| - i
    {
      assert i + 1 < |plan|;
      assert Follows(plan, i + 1);
      i := i + 1;
    }
  }

  /** Cutting the end back to the end of any page reproduces the same pages up to there. */
  lemma PlanCutBack(plan: seq<Block>, k: nat)
    requires Plan(plan) && k < |plan|
    ensures PlanFor(Lo(plan[0]), Hi(plan[k]), plan[..k + 1])
  {
    var cut := plan[..k + 1];
    forall i {:trigger LegalPage(cut[i])} | 0 <= i < |cut|
      ensures LegalPage(cut[i])
    {
      assert LegalPage(plan[i]);
    }
    forall i {:trigger Follows(cut, i)} | 0 < i < |cut|
      ensures Follows(cut, i)
    {
      assert Follows(plan, i);
    }
    forall i, m {:trigger Precedes(cut[i], cut[m])} | 0 <= i < m < |cut|
      ensures Precedes(cut[i], cut[m])
    {
      assert Precedes(plan[i], plan[m]);
    }
    forall i, m {:trigger PicksUpTo(cut[i], Hi(cut[m]))} | 0 <= i <= m < |cut|
      ensures PicksUpTo(cut[i], Hi(cut[m]))
    {
      assert PicksUpTo(plan[i], Hi(plan[m]));
    }
  }

  lemma LastEndsLast(plan: seq<Block>, i: nat)
    requires Plan(plan) && i < |plan|
    ensures i < |plan| - 1 ==> Hi(plan[i]) < Hi(plan[|plan| - 1])
  {
    assert i < |plan| - 1 ==> Precedes(plan[i], plan[|plan| - 1]);
  }

  /** Two plans that agree so far agree on the next page. */
  lemma SameNextPage(start: nat, end: nat, p: seq<Block>, q: seq<Block>, n: nat)
    requires PlanFor(start, end, p) && PlanFor(start, end, q) && n < |p| && n < |q| && p[..n] == q[..n]
    ensures p[n] == q[n]
  {
    hide Pow2, Times, Quot, GetNextPageOrder;
    if n > 0 {
      assert Follows(p, n) && Follows(q, n);
      assert p[n - 1] == p[..n][n - 1] == q[n - 1];
    }
    assert PicksUpTo(p[n], Hi(p[|p| - 1])) && PicksUpTo(q[n], Hi(q[|q| - 1]));
    BlockOfLo(p[n]);
    BlockOfLo(q[n]);
  }

  lemma {:induction false} SamePages(start: nat, end: nat, p: seq<Block>, q: seq<Block>, n: nat)
    requires PlanFor(start, end, p) && PlanFor(start, end, q) && n <= |p| && n <= |q|
    ensures p[..n] == q[..n]
  {
    hide PlanFor;
    if n > 0 {
      SamePages(start, end, p, q, n - 1);
      SameNextPage(start, end, p, q, n - 1);
      assert p[..n] == p[..n - 1] + [p[n - 1]];
      assert q[..n] == q[..n - 1] + [q[n - 1]];
    }
  }

  /** A region has one plan only: the loop leaves no choice. */
  lemma PlanUnique(start: nat, end: nat, p: seq<Block>, q: seq<Block>)
    requires PlanFor(start, end, p) && PlanFor(start, end, q)
    ensures p == q
  {
    hide Pow2, Times, Quot, GetNextPageOrder;
    var n := if |p| <= |q| then |p| else |q|;
    SamePages(start, end, p, q, n);
    assert p[n - 1] == p[..n][n - 1] == q[..n][n - 1] == q[n - 1];
    LastEndsLast(p, n - 1);
    LastEndsLast(q, n - 1);
  }

  // ---- walking along a plan ----

  /** The pages still to be walked between address and end. */
  ghost predicate Remaining(rest: seq<Block>, address: nat, end: nat)
  {
    if rest == [] then address == end else PlanFor(address, end, rest)
  }

  /** One turn of a loop over the remaining pages. */
  lemma RemainingStep(rest: seq<Block>, address: nat, end: nat)
    requires Remaining(rest, address, end) && rest != []
    ensures address < end < TWO64 && LegalPage(rest[0]) && BlockOf(address, rest[0].shift) == rest[0]
    ensures GetNextPageOrder(address, end) == rest[0].shift
    ensures Remaining(rest[1..], address + Pow2(rest[0].shift), end)
  {
    assert LegalPage(rest[0]) && PicksUpTo(rest[0], Hi(rest[|rest| - 1]));
    BlockOfLo(rest[0]);
    PlanTail(rest);
    if |rest| > 1 { assert Follows(rest, 1); }
  }

  lemma PlanTail(plan: seq<Block>)
    requires Plan(plan) && plan != []
    ensures AllLegal(plan[1..]) && AllPicked(plan[1..])
    ensures InOrder(plan[1..])
  {
    var rest := plan[1..];
    forall i, k {:trigger PicksUpTo(rest[i], Hi(rest[k]))} | 0 <= i <= k < |rest|
      ensures PicksUpTo(rest[i], Hi(rest[k]))
    {
      assert PicksUpTo(plan[i + 1], Hi(plan[k + 1]));
    }
    forall i {:trigger Follows(rest, i)} | 0 < i < |rest|
      ensures Follows(rest, i)
    {
      assert Follows(plan, i + 1);
    }
    forall i, k {:trigger Precedes(rest[i], rest[k])} | 0 <= i < k < |rest|
      ensures Precedes(rest[i], rest[k])
    {
      assert Precedes(plan[i + 1], plan[k + 1]);
    }
    forall i {:trigger LegalPage(rest[i])} | 0 <= i < |rest|
      ensures LegalPage(rest[i])
    {
      assert LegalPage(plan[i + 1]);
    }
  }

  /** The pages already walked, when some are left: they end where the rest starts. */
  lemma WalkedPages(done: seq<Block>, rest: seq<Block>, start: nat, address: nat, end: nat)
    requires PlanFor(start, end, done + rest) && Remaining(rest, address, end)
    ensures Remaining(done, start, address)
  {
    var plan := done + rest;
    if done != [] {
      var k := |done| - 1;
      PlanCutBack(plan, k);
      assert plan[..k + 1] == done;
      if rest != [] {
        assert Follows(plan, k + 1);
      }
    }
  }
}
