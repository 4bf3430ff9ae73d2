/**
 NetMemAllocator in aligned-address mode: blocks are taken from and put back to a memory region, and
 `mAddrLenMap` records the length of each block handed out.
 */
module Allocator {
  import opened Bits
  import opened FreeSpans
  import opened MemoryRegion
  import RbTree
  import opened Results
  import opened Tiling

  /** POWER_OF_2 for positive numbers. */
  predicate PowerOf2(n: nat)
  {
    n == 1 || (n > 1 && n % 2 == 0 && PowerOf2(n / 2))
  }

  class NetMemAllocator {
    const mMemRegionMgr: MemoryRegion
    var mMRAddress: nat
    var mMRSize: nat
    var mMinBlockSize: nat
    var mInited: bool
    var mAddrLenMap: Blocks

    /** The addresses the region was made of; empty until that has worked. */
    ghost var managed: Span

    constructor ()
      ensures Valid() && !mInited && fresh(mMemRegionMgr) && fresh(mMemRegionMgr.mRoot)
                && mMemRegionMgr.mRoot.cells == map[]
    {
      mMemRegionMgr := new MemoryRegion();
      mMRAddress, mMRSize, mMinBlockSize, mInited, mAddrLenMap := 0, 0, PAGE, false, map[];
      managed := Span(0, 0);
    }

    ghost function Spans(): seq<Span>
      reads mMemRegionMgr`info, mMemRegionMgr.mRoot`tree
    {
      mMemRegionMgr.Spans()
    }

    /** Free spans and blocks tile the managed addresses, the free and the outstanding bytes add up to
        them, and all lie on the grid of the minimum block size. */
    ghost predicate Accounted()
      reads this, mMemRegionMgr`info, mMemRegionMgr`freeSize, mMemRegionMgr.mRoot`tree
    {
      && PAGE <= mMinBlockSize <= TWO64
      && Tiles(Spans(), mAddrLenMap, managed.start, managed.end)
      && mMemRegionMgr.freeSize + Outstanding(mAddrLenMap) == managed.end - managed.start
      && OnGrid(Spans(), managed.start, mMinBlockSize) && BlocksOnGrid(mAddrLenMap, managed.start, mMinBlockSize)
    }

    ghost predicate Valid()
      reads this, mMemRegionMgr, mMemRegionMgr.mRoot, mMemRegionMgr.mRoot.cells.Keys, mMemRegionMgr.info.Keys,
            mMemRegionMgr.filed.Keys
    {
      && mMemRegionMgr.Valid() && Accounted() && 0 !in mAddrLenMap
      && (!mInited ==> mMemRegionMgr.Order() == [] && mAddrLenMap == map[] && managed == Span(0, 0))
      && (managed == Span(0, 0) || (managed == Span(mMRAddress, mMRAddress + mMRSize) && 0 < mMRAddress
           && managed.end < TWO64))
    }

    ghost function Filings(): seq<nat>
      reads mMemRegionMgr`filed, mMemRegionMgr.mRoot`tree
    {
      mMemRegionMgr.Filings()
    }

    /** RegionMallocWithMap. */
    method RegionMallocWithMap(length: nat) returns (result: NResult, startAddress: nat)
      requires Valid() && mInited && length % mMinBlockSize == 0
      modifies this`mAddrLenMap, mMemRegionMgr, mMemRegionMgr.mRoot, mMemRegionMgr.mRoot.cells.Keys
      ensures Valid() && fresh(mMemRegionMgr.mRoot.cells.Keys - old(mMemRegionMgr.mRoot.cells.Keys))
      ensures result == if Servable(old(Spans()), old(Filings()), length) then NN_OK else NN_ERROR
      ensures result == NN_OK ==>
                && FreeRun(old(Spans()), startAddress, length)
                     && mAddrLenMap == old(mAddrLenMap)[startAddress := length]
                && (startAddress in old(mAddrLenMap) ==> old(mAddrLenMap)[startAddress] == 0)
                && managed.start <= startAddress && startAddress + length <= managed.end
                && OffsetBy(startAddress, managed.start, mMinBlockSize)
                && LowestFit(old(Spans()), old(Filings()), startAddress, length)
                     && startAddress + length <= old(RunEnd(Spans(), startAddress))
                && FilesKept(old(Spans()), old(Filings()), Spans(), Filings(), startAddress + length,
                     SplitIndex(old(RunEnd(Spans(), startAddress)) - startAddress - length))
                && (length > 0 ==> Lost(old(Spans()), Spans(), startAddress, startAddress + length))
      ensures result == NN_ERROR ==> mAddrLenMap == old(mAddrLenMap) && Filings() == old(Filings())
      ensures result == NN_ERROR || length == 0 ==> Spans() == old(Spans())
    {
      hide FilesKept, LowestFit, RunEnd, SplitIndex;
      hide Servable, FreeRun, Lost, Tiles, OnGrid, BlocksOnGrid, OffsetBy, Outstanding, MemoryRegion.Valid, AllSpans,
           AllFilings;
      mMemRegionMgr.SpansAreSeparated();
      result, startAddress := mMemRegionMgr.MemoryAreaRemove(length);
      if result != NN_OK {
        return NN_ERROR, 0;
      }
      mMemRegionMgr.SpansAreSeparated();
      TakeKeeps(old(Spans()), Spans(), mAddrLenMap, managed.start, managed.end, mMinBlockSize, startAddress, length);
      mAddrLenMap := mAddrLenMap[startAddress := length];
    }

    /** Putting the block at this address back writes where it must not: the node of an entry of length 0 over
        that of a free area which begins there, or a bucket outside the array. */
    ghost predicate Breaks(address: nat)
      reads this`mAddrLenMap, mMemRegionMgr`info, mMemRegionMgr.mRoot`tree
    {
      && address in mAddrLenMap
      && if mAddrLenMap[address] == 0 then exists i :: 0 <= i < |Spans()| && Spans()[i].start == address
         else mMemRegionMgr.OutOfBuckets(address, mAddrLenMap[address])
    }

    /** The block at this address lies between two free areas, and the run they make has page count 0 in 32
        bits. */
    ghost predicate Strands(address: nat)
      reads this`mAddrLenMap, mMemRegionMgr`info, mMemRegionMgr.mRoot`tree
    {
      address in mAddrLenMap && mMemRegionMgr.Strands(address, mAddrLenMap[address])
    }

    /** No free area ends where the block begins or begins where it ends. */
    ghost predicate Lone(address: nat)
      reads this`mAddrLenMap, mMemRegionMgr`info, mMemRegionMgr.mRoot`tree
    {
      address in mAddrLenMap &&
      forall i :: 0 <= i < |Spans()| ==> Spans()[i].end != address && Spans()[i].start != address + mAddrLenMap[address]
    }

    /** Where a recorded block lands: what MemoryAreaInsert asks for, and what it answers. */
    lemma BlockLands(a: nat)
      requires Valid() && a in mAddrLenMap && !Breaks(a)
      ensures var length := mAddrLenMap[a];
              && (Clear(Spans(), a, a + length) || mMemRegionMgr.Lands(a, length).Clash?)
              && (forall i :: 0 <= i < |Spans()| ==> Spans()[i].start != a)
              && !mMemRegionMgr.OutOfBuckets(a, length)
              && (Lone(a) && Pages(length) == 0 <==>
                  || mMemRegionMgr.Lands(a, length).Clash?
                  || (mMemRegionMgr.Lands(a, length).InGap? && Pages(length) == 0))
              && (Strands(a) ==> !Lone(a) && length > 0 && Clear(Spans(), a, a + length))
              && (Lone(a) && Pages(length) > 0 ==> mMemRegionMgr.Lands(a, length).InGap?)
      ensures mAddrLenMap[a] > 0 ==> a > 0
    {
      hide Tiles, OnGrid, BlocksOnGrid, OffsetBy, Outstanding, MemoryRegion.Valid, AllSpans, Separated, Pages, Joined,
           Land;
      var length := mAddrLenMap[a];
      mMemRegionMgr.SpansAreSeparated();
      if length > 0 {
        LiveIsClear(Spans(), mAddrLenMap, managed.start, managed.end, a);
        mMemRegionMgr.LandsApart(a, length);
      } else {
        mMemRegionMgr.LandsEmpty(a);
        if Clear(Spans(), a, a) { mMemRegionMgr.LandsApart(a, 0); }
        PagesOfNothing();
      }
    }

    /** RegionFreeWithMap. */
    method RegionFreeWithMap(startAddress: nat) returns (result: NResult)
      requires Valid() && !Breaks(startAddress)
      modifies this`mAddrLenMap, mMemRegionMgr, mMemRegionMgr.mRoot, mMemRegionMgr.mRoot.cells.Keys
      ensures !old(Strands(startAddress)) ==> Valid()
      ensures fresh(mMemRegionMgr.mRoot.cells.Keys - old(mMemRegionMgr.mRoot.cells.Keys))
      ensures result == NN_OK || result == NN_ERROR
      ensures result == NN_OK <==>
                startAddress in old(mAddrLenMap) && !(old(Lone(startAddress))
                    && Pages(old(mAddrLenMap)[startAddress]) == 0)
      ensures result == NN_OK ==>
                && mAddrLenMap == old(mAddrLenMap) - {startAddress}
                && mMemRegionMgr.freeSize == old(mMemRegionMgr.freeSize) + old(mAddrLenMap)[startAddress]
                && (if old(Strands(startAddress)) then LeftBehind(old(mMemRegionMgr.info), old(mMemRegionMgr.filed),
                     startAddress, old(mAddrLenMap)[startAddress])
                    else Gained(old(Spans()), Spans(), startAddress, startAddress + old(mAddrLenMap)[startAddress]))
                && (old(Strands(startAddress)) ||
                    FilesKept(old(Spans()), old(Filings()), Spans(), Filings(), old(RunStart(Spans(), startAddress)),
                      FreedIndex(old(Joined(Spans(), startAddress, startAddress + mAddrLenMap[startAddress])))))
      ensures result == NN_ERROR ==>
                mAddrLenMap == old(mAddrLenMap) && Spans() == old(Spans()) && Filings() == old(Filings())
      ensures result == NN_OK && old(Lone(startAddress)) && |old(Spans())| == 1 ==>
                mMemRegionMgr.TopSpan() == old(mMemRegionMgr.TopSpan())
    {
      hide FilesKept, RunStart, FreedIndex;
      hide Gained, Tiles, OnGrid, BlocksOnGrid, OffsetBy, Outstanding, MemoryRegion.Valid, AllSpans, AllFilings,
           Separated, Clear, Pages, Joined, Land;
      hide MemoryRegion.Strands, MemoryRegion.OutOfBuckets, MemoryRegion.Buckets, Lone;
      if startAddress !in mAddrLenMap {
        return NN_ERROR;
      }
      var length := mAddrLenMap[startAddress];
      mMemRegionMgr.SpansAreSeparated();
      BlockLands(startAddress);
      ghost var p, m;
      result, p, m := mMemRegionMgr.MemoryAreaInsert(startAddress, length);
      if result == NN_OK {
        if !old(Strands(startAddress)) {
          mMemRegionMgr.SpansAreSeparated();
          GiveKeeps(old(Spans()), Spans(), mAddrLenMap, managed.start, managed.end, mMinBlockSize, startAddress);
        }
        mAddrLenMap := mAddrLenMap - {startAddress};
      }
    }

    /** What is left of a merge that was given up: the region holds everything it held, but the two areas
        around the block are in no bucket, and one has grown over the other. */
    ghost predicate LeftBehind(info: Areas, filed: map<RbTree.RbNode, nat>, a: nat, length: nat)
      reads mMemRegionMgr, mMemRegionMgr.info.Keys, mMemRegionMgr.filed.Keys
    {
      && mMemRegionMgr.Buckets()
      && exists p, m :: p in info && m in info && Stranded(info, filed, mMemRegionMgr.info, mMemRegionMgr.filed, p, m,
           a, length)
    }

    /** Allocate: rounds the request up and hands out a block of that many bytes at the front of a free
        area the bucket scan reaches. A request that rounds to 0 gets an address that stays free. */
    method Allocate(size: nat) returns (result: NResult, mrAddress: nat)
      requires Valid() && size < TWO64
      modifies this`mAddrLenMap, mMemRegionMgr, mMemRegionMgr.mRoot, mMemRegionMgr.mRoot.cells.Keys
      ensures Valid() && fresh(mMemRegionMgr.mRoot.cells.Keys - old(mMemRegionMgr.mRoot.cells.Keys))
      ensures result == if !mInited then NN_NOT_INITIALIZED else
                if Servable(old(Spans()), old(Filings()), RoundUp(size, mMinBlockSize)) then NN_OK else NN_ERROR
      ensures result == NN_OK ==>
                var length := RoundUp(size, mMinBlockSize);
                && FreeRun(old(Spans()), mrAddress, length) && mAddrLenMap == old(mAddrLenMap)[mrAddress := length]
                && (mrAddress in old(mAddrLenMap) ==> old(mAddrLenMap)[mrAddress] == 0)
                && managed.start <= mrAddress && mrAddress + length <= managed.end
                && OffsetBy(mrAddress, managed.start, mMinBlockSize)
                && LowestFit(old(Spans()), old(Filings()), mrAddress, length)
                     && mrAddress + length <= old(RunEnd(Spans(), mrAddress))
                && FilesKept(old(Spans()), old(Filings()), Spans(), Filings(), mrAddress + length,
                     SplitIndex(old(RunEnd(Spans(), mrAddress)) - mrAddress - length))
                && (length > 0 ==> Lost(old(Spans()), Spans(), mrAddress, mrAddress + length))
      ensures result != NN_OK ==> mAddrLenMap == old(mAddrLenMap) && Filings() == old(Filings())
      ensures result != NN_OK || RoundUp(size, mMinBlockSize) == 0 ==> Spans() == old(Spans())
    {
      hide FilesKept, LowestFit, RunEnd, SplitIndex;
      hide Servable, FreeRun, Lost, Tiles, OnGrid, BlocksOnGrid, OffsetBy, Outstanding, MemoryRegion.Valid, AllSpans,
           AllFilings, RoundUp;
      if !mInited {
        return NN_NOT_INITIALIZED, 0;
      }
      RoundUpIs(size, mMinBlockSize);
      var alignedSize := RoundUp(size, mMinBlockSize);
      var ret, address := RegionMallocWithMap(alignedSize);
      if ret != NN_OK {
        return NN_ERROR, 0;
      }
      result, mrAddress := NN_OK, address;
    }

    /** Free: a block that was handed out becomes free again, merged with every free neighbour; or, where it
        strands, the call reports success and the merge is given up halfway. */
    method Free(mrAddress: nat) returns (result: NResult)
      requires Valid() && !Breaks(mrAddress)
      modifies this`mAddrLenMap, mMemRegionMgr, mMemRegionMgr.mRoot, mMemRegionMgr.mRoot.cells.Keys
      ensures !old(Strands(mrAddress)) ==> Valid()
      ensures fresh(mMemRegionMgr.mRoot.cells.Keys - old(mMemRegionMgr.mRoot.cells.Keys))
      ensures result == if !mInited then NN_NOT_INITIALIZED else if mrAddress == 0 then NN_INVALID_PARAM else
                if mrAddress in old(mAddrLenMap) && !(old(Lone(mrAddress))
                    && Pages(old(mAddrLenMap)[mrAddress]) == 0) then NN_OK else NN_ERROR
      ensures result == NN_OK ==>
                && mAddrLenMap == old(mAddrLenMap) - {mrAddress}
                && mMemRegionMgr.freeSize == old(mMemRegionMgr.freeSize) + old(mAddrLenMap)[mrAddress]
                && (if old(Strands(mrAddress)) then LeftBehind(old(mMemRegionMgr.info), old(mMemRegionMgr.filed),
                     mrAddress, old(mAddrLenMap)[mrAddress])
                    else Gained(old(Spans()), Spans(), mrAddress, mrAddress + old(mAddrLenMap)[mrAddress]))
                && (old(Strands(mrAddress)) ||
                    FilesKept(old(Spans()), old(Filings()), Spans(), Filings(), old(RunStart(Spans(), mrAddress)),
                      FreedIndex(old(Joined(Spans(), mrAddress, mrAddress + mAddrLenMap[mrAddress])))))
      ensures result != NN_OK ==>
                mAddrLenMap == old(mAddrLenMap) && Spans() == old(Spans()) && Filings() == old(Filings())
      ensures result == NN_OK && old(Lone(mrAddress)) && |old(Spans())| == 1 ==>
                mMemRegionMgr.TopSpan() == old(mMemRegionMgr.TopSpan())
    {
      hide FilesKept, RunStart, FreedIndex;
      hide Gained, OnGrid, BlocksOnGrid, OffsetBy, Outstanding, MemoryRegion.Valid, AllSpans, AllFilings, Pages, Joined,
           Land, Lone, Tiles;
      hide Breaks, Strands, LeftBehind;
      if mrAddress in mAddrLenMap && mInited && mrAddress != 0 { InsideOrLone(mrAddress); }
      if !mInited {
        return NN_NOT_INITIALIZED;
      }
      if mrAddress == 0 {
        return NN_INVALID_PARAM;
      }
      if mrAddress < mMRAddress || mrAddress > mMRAddress + mMRSize {
        return NN_ERROR;
      }
      result := RegionFreeWithMap(mrAddress);
    }

    /** A recorded address outside the region stands for no bytes and touches no free area. */
    lemma InsideOrLone(a: nat)
      requires Valid() && a in mAddrLenMap && !Breaks(a)
      ensures mMRAddress <= a <= mMRAddress + mMRSize || (Lone(a) && Pages(mAddrLenMap[a]) == 0 && !Strands(a))
    {
      hide MemoryRegion.Valid, OnGrid, BlocksOnGrid, Joined, Land, Pages, AllSpans, Outstanding;
      BlockLands(a);
      if mAddrLenMap[a] > 0 {
        BlocksInside(a);
      } else {
        PagesOfNothing();
        forall i | 0 <= i < |Spans()|
          ensures managed.start <= Spans()[i].start < Spans()[i].end <= managed.end
        {
          mMemRegionMgr.SpansAreSeparated();
          SpansInside(Spans(), mAddrLenMap, managed.start, managed.end, i);
        }
      }
    }

    lemma BlocksInside(a: nat)
      requires Valid() && a in mAddrLenMap && mAddrLenMap[a] > 0
      ensures mMRAddress <= a && a + mAddrLenMap[a] <= mMRAddress + mMRSize && a > 0
    {
      mMemRegionMgr.SpansAreSeparated();
      LiveIsClear(Spans(), mAddrLenMap, managed.start, managed.end, a);
    }

    /** Parameters Initialize turns down without looking further. */
    predicate BadParameters(mrAddress: nat, mrSize: nat, minBlockSize: nat)
    {
      mrAddress == 0 || !PowerOf2(minBlockSize) || minBlockSize < 4096 || minBlockSize > 1024 * 1024 * 1024
          || mrSize < minBlockSize
    }

    /** Initialize: on success the whole region is one free area. It also fails for a region that reaches
        2^64 and for one whose page count is 0 in 32 bits; the allocator then counts as initialized all the
        same, and manages nothing. */
    method Initialize(mrAddress: nat, mrSize: nat, minBlockSize: nat) returns (result: NResult)
      requires Valid() && mrAddress < TWO64 && mrSize < TWO64
      modifies this, mMemRegionMgr, mMemRegionMgr.mRoot, mMemRegionMgr.mRoot.cells.Keys
      ensures Valid() && fresh(mMemRegionMgr.mRoot.cells.Keys - old(mMemRegionMgr.mRoot.cells.Keys))
      ensures old(mInited) ==>
                && unchanged(this)
                && result == if mrAddress == mMRAddress && mrSize == mMRSize && minBlockSize == mMinBlockSize then NN_OK
                     else NN_ERROR
      ensures !old(mInited) && BadParameters(mrAddress, mrSize, minBlockSize) ==>
                result == NN_INVALID_PARAM && unchanged(this)
      ensures !old(mInited) && !BadParameters(mrAddress, mrSize, minBlockSize) ==>
                && mInited && mMRAddress == mrAddress && mMRSize == mrSize && mMinBlockSize == minBlockSize
                     && mAddrLenMap == map[]
                && result == (if mrAddress + mrSize >= TWO64 then NN_INVALID_PARAM
                     else if Pages(mrSize) == 0 then NN_ERROR else NN_OK)
                && (result == NN_OK ==>
                     managed == Span(mrAddress, mrAddress + mrSize) && Spans() == [managed]
                         && Filings() == [FreedIndex(mrSize)])
                && (result != NN_OK ==> managed == Span(0, 0) && Spans() == [])
    {
      hide FilesKept, RunStart, Separated;
      hide Gained, MemoryRegion.Valid, AllFilings, Pages, Joined, Land, FreedIndex, Tiles, OnGrid, BlocksOnGrid,
           Outstanding;
      if mInited {
        if mrAddress == mMRAddress && mrSize == mMRSize && minBlockSize == mMinBlockSize {
          return NN_OK;
        }
        return NN_ERROR;
      }
      if BadParameters(mrAddress, mrSize, minBlockSize) {
        return NN_INVALID_PARAM;
      }
      EmptyAccounts(minBlockSize);
      mInited, mMRAddress, mMRSize, mMinBlockSize := true, mrAddress, mrSize, minBlockSize;
      var endAddress := if mrAddress + mrSize < TWO64 then mrAddress + mrSize else mrAddress + mrSize - TWO64;
      if endAddress <= mrAddress {
        return NN_INVALID_PARAM;
      }
      mMemRegionMgr.EmptyLands(mrAddress, mrSize);
      ghost var p, m;
      result, p, m := mMemRegionMgr.MemoryAreaInsert(mrAddress, mrSize);
      if result == NN_OK {
        mMemRegionMgr.SpansAreSeparated();
        OneSpanGained(Spans(), mrAddress, mrAddress + mrSize);
        managed := Span(mrAddress, mrAddress + mrSize);
        FreshTiles(mrAddress, mrAddress + mrSize, minBlockSize);
      }
    }

    lemma EmptyAccounts(m: nat)
      requires Valid() && !mInited && m > 0
      ensures OnGrid(Spans(), 0, m) && BlocksOnGrid(mAddrLenMap, 0, m) && mMemRegionMgr.freeSize == 0 && Spans() == []
      ensures Outstanding(map[]) == 0
    {
    }

    // ---- what holds at every point ----

    /** What a caller may know of the region inside. */
    lemma Inner()
      requires Valid()
      ensures Separated(Spans()) && |Filings()| == |Spans()|
      ensures forall i :: 0 <= i < |Spans()| ==> IndexFits(Spans()[i].end - Spans()[i].start, Filings()[i])
    {
      hide Separated, IndexFits, MemoryRegion.Valid, AllSpans, AllFilings, Accounted;
      mMemRegionMgr.SpansAreSeparated();
    }

    /** With two free areas two nodes are in buckets, and the free bytes are theirs. */
    lemma TwoFiled()
      requires Valid() && |Spans()| == 2
      ensures |mMemRegionMgr.filed| == 2 && mMemRegionMgr.filed.Keys == mMemRegionMgr.info.Keys
      ensures mMemRegionMgr.freeSize == Spans()[0].end - Spans()[0].start + Spans()[1].end - Spans()[1].start
    {
      mMemRegionMgr.TwoNodes();
    }

    /** When the merge of the only two areas is given up no bucket holds anything. */
    lemma NoneFiled(info: Areas, filed: map<RbTree.RbNode, nat>, a: nat, length: nat)
      requires |filed| == 2 && filed.Keys == info.Keys && LeftBehind(info, filed, a, length)
      ensures mMemRegionMgr.Buckets() && mMemRegionMgr.filed == map[]
    {
      var p, m :| p in info && m in info
          && Stranded(info, filed, mMemRegionMgr.info, mMemRegionMgr.filed, p, m, a, length);
      assert |filed.Keys| == 2;
      assert |filed.Keys - {p} - {m}| == 0;
      assert mMemRegionMgr.filed.Keys == filed.Keys - {p} - {m};
    }

    /** Below 2^44 bytes a block is never refused for its bucket number: Free works for every block. */
    lemma SmallRegionFileable(a: nat)
      requires Valid() && mMRSize < TWO44 && a in mAddrLenMap && mAddrLenMap[a] > 0
      ensures !Breaks(a) && !Strands(a) && Pages(mAddrLenMap[a]) > 0
    {
      hide Pages, Joined, MemoryRegion.Valid, MemoryRegion.Spans;
      mMemRegionMgr.SpansAreSeparated();
      BlocksInside(a);
      forall i | 0 <= i < |Spans()|
        ensures managed.start <= Spans()[i].start < Spans()[i].end <= managed.end
      {
        SpansInside(Spans(), mAddrLenMap, managed.start, managed.end, i);
      }
      LiveIsClear(Spans(), mAddrLenMap, managed.start, managed.end, a);
      JoinedWithin(Spans(), a, a + mAddrLenMap[a], managed.start, managed.end);
      BlockAtLeast(mAddrLenMap[a], mMinBlockSize);
      PagesSmall(mAddrLenMap[a]);
      PagesSmall(Joined(Spans(), a, a + mAddrLenMap[a]));
    }

    /** Below 2^44 bytes Allocate fails only when no run of free addresses is long enough. */
    lemma SmallRegionServed(want: nat)
      requires Valid() && mMRSize < TWO44 && want > 0
      ensures Servable(Spans(), Filings(), want) <==> exists a: nat :: AllFree(Spans(), a, want)
    {
      hide IndexFits, Servable, AllFree, MemoryRegion.Valid, MemoryRegion.Spans, MemoryRegion.Filings;
      mMemRegionMgr.SpansAreSeparated();
      forall i | 0 <= i < |Spans()|
        ensures Spans()[i].end - Spans()[i].start < TWO44
      {
        SpansInside(Spans(), mAddrLenMap, managed.start, managed.end, i);
      }
      ServedIff(Spans(), Filings(), want);
    }

    /** In general Allocate fails although enough free addresses lie in a row exactly when every area that
        is long enough is passed by, told from page counts cut to 32 bits and the bucket numbers. */
    lemma MissedExactly(want: nat)
      requires Valid() && want > 0
      ensures (exists a: nat :: AllFree(Spans(), a, want)) && !Servable(Spans(), Filings(), want) <==>
                && (exists i :: 0 <= i < |Spans()| && want <= Spans()[i].end - Spans()[i].start)
                && (forall i :: 0 <= i < |Spans()| && want <= Spans()[i].end - Spans()[i].start ==>
                      Passed(Spans()[i].end - Spans()[i].start, Filings()[i], want))
    {
      hide IndexFits, Servable, AllFree, Passed, MemoryRegion.Valid, MemoryRegion.Spans, MemoryRegion.Filings;
      mMemRegionMgr.SpansAreSeparated();
      MissedIff(Spans(), Filings(), want);
    }

    /** Once every block is back, the region is one free area again, whatever came before. */
    lemma AllBack()
      requires Valid() && mAddrLenMap == map[] && managed.start < managed.end
      ensures Spans() == [managed] && mMemRegionMgr.freeSize == managed.end - managed.start
    {
      hide MemoryRegion.Valid, MemoryRegion.Spans;
      mMemRegionMgr.SpansAreSeparated();
      AllFreed(Spans(), mAddrLenMap, managed.start, managed.end);
    }

    /** Free works for the block at this address. */
    ghost predicate Returnable(a: nat)
      reads this`mAddrLenMap, mMemRegionMgr`info, mMemRegionMgr.mRoot`tree
    {
      a in mAddrLenMap && !Breaks(a) && !Strands(a) && !(Lone(a) && Pages(mAddrLenMap[a]) == 0)
    }

    /** A block just taken can be put back exactly when the area it was taken from has a page count that is not
        0 in 32 bits. */
    lemma JustTaken(was: seq<Span>, i: nat)
      requires Valid() && Separated(was) && i < |was| && was[i].start in mAddrLenMap
      requires 0 < mAddrLenMap[was[i].start] <= was[i].end - was[i].start
      requires Lost(was, Spans(), was[i].start, was[i].start + mAddrLenMap[was[i].start])
      ensures Returnable(was[i].start) <==> Pages(was[i].end - was[i].start) > 0
    {
      hide MemoryRegion.Valid, Pages, Lost, Separated, Land, AllSpans, Tiles, OnGrid, BlocksOnGrid, Joined, Clear,
           RunStart;
      var a, length := was[i].start, mAddrLenMap[was[i].start];
      mMemRegionMgr.SpansAreSeparated();
      TakenJoined(was, Spans(), i, length);
      LiveIsClear(Spans(), mAddrLenMap, managed.start, managed.end, a);
      mMemRegionMgr.LandsApart(a, length);
      if Lone(a) { LoneJoined(Spans(), a, a + length); }
    }

    /** No area that could serve the request has a page count of 0 in 32 bits. */
    ghost predicate Reusable(size: nat)
      requires 0 < mMinBlockSize <= TWO64 && size < TWO64
      reads this`mMinBlockSize, mMemRegionMgr`info, mMemRegionMgr.mRoot`tree
    {
      forall i :: 0 <= i < |Spans()| && RoundUp(size, mMinBlockSize) <= Spans()[i].end - Spans()[i].start ==>
        Pages(Spans()[i].end - Spans()[i].start) > 0
    }

    /** Below 2^44 bytes that is always so. */
    lemma SmallRegionReusable(size: nat)
      requires Valid() && mMRSize < TWO44 && 0 < size <= TWO64 - mMinBlockSize
      ensures Reusable(size)
    {
      hide MemoryRegion.Valid, AllSpans, Pages, RoundUp;
      mMemRegionMgr.SpansAreSeparated();
      RoundUpIs(size, mMinBlockSize);
      BlockAtLeast(RoundUp(size, mMinBlockSize), mMinBlockSize);
      forall i | 0 <= i < |Spans()| && RoundUp(size, mMinBlockSize) <= Spans()[i].end - Spans()[i].start
        ensures Pages(Spans()[i].end - Spans()[i].start) > 0
      {
        SpansInside(Spans(), mAddrLenMap, managed.start, managed.end, i);
        PagesSmall(Spans()[i].end - Spans()[i].start);
      }
    }

    /** Puts back a block that was just taken from one of the areas `was`. */
    method FreeAgain(address: nat, ghost was: seq<Span>) returns (result: NResult)
      requires Valid() && mInited && Separated(was) && address in mAddrLenMap && mAddrLenMap[address] > 0
      requires FreeRun(was, address, mAddrLenMap[address])
      requires Lost(was, Spans(), address, address + mAddrLenMap[address])
      requires forall i :: 0 <= i < |was| && mAddrLenMap[address] <= was[i].end - was[i].start ==>
                 Pages(was[i].end - was[i].start) > 0
      modifies this`mAddrLenMap, mMemRegionMgr, mMemRegionMgr.mRoot, mMemRegionMgr.mRoot.cells.Keys
      ensures Valid() && result == NN_OK && Spans() == was && mAddrLenMap == old(mAddrLenMap) - {address}
      ensures mMemRegionMgr.freeSize == old(mMemRegionMgr.freeSize) + old(mAddrLenMap)[address]
    {
      hide FilesKept, RunStart, Joined, FreedIndex, FreeRun, Lost, Gained, Separated, Tiles, OnGrid, BlocksOnGrid,
           OffsetBy;
      hide Outstanding, MemoryRegion.Valid, AllSpans, AllFilings, Pages, Breaks, Strands, LeftBehind, Lone;
      ghost var i := AreaAt(was, address, mAddrLenMap[address]);
      JustTaken(was, i);
      assert Returnable(address);
      BlocksInside(address);
      ghost var taken, length := Spans(), mAddrLenMap[address];
      result := Free(address);
      mMemRegionMgr.SpansAreSeparated();
      TakeGive(was, taken, Spans(), address, length);
    }

    /** Taking a block and putting it back leaves the free areas exactly as they were. */
    method AllocateAndFree(size: nat) returns (result: NResult)
      requires Valid() && mInited && 0 < size <= TWO64 - mMinBlockSize && Reusable(size)
      modifies this`mAddrLenMap, mMemRegionMgr, mMemRegionMgr.mRoot, mMemRegionMgr.mRoot.cells.Keys
      ensures Valid() && Spans() == old(Spans()) && Outstanding(mAddrLenMap) == old(Outstanding(mAddrLenMap))
      ensures mMemRegionMgr.freeSize == old(mMemRegionMgr.freeSize)
      ensures result == if Servable(old(Spans()), old(Filings()), RoundUp(size, mMinBlockSize)) then NN_OK else NN_ERROR
      ensures mMRSize < TWO44 ==>
                (result == NN_OK <==> exists a: nat :: AllFree(old(Spans()), a, RoundUp(size, mMinBlockSize)))
    {
      hide FilesKept, LowestFit, RunEnd, SplitIndex, Servable, FreeRun, Lost, Separated, Tiles, OnGrid, BlocksOnGrid;
      hide OffsetBy, Outstanding, MemoryRegion.Valid, AllSpans, AllFilings, RoundUp, Pages, AllFree;
      RoundUpIs(size, mMinBlockSize);
      if mMRSize < TWO44 { SmallRegionServed(RoundUp(size, mMinBlockSize)); }
      mMemRegionMgr.SpansAreSeparated();
      var address;
      result, address := Allocate(size);
      if result != NN_OK {
        return;
      }
      OutstandingBack(old(mAddrLenMap), address, RoundUp(size, mMinBlockSize));
      result := FreeAgain(address, old(Spans()));
    }
  }

  /** A block recorded and forgotten leaves the outstanding bytes as they were. */
  lemma OutstandingBack(live: Blocks, a: nat, length: nat)
    requires a in live ==> live[a] == 0
    ensures Outstanding(live[a := length] - {a}) == Outstanding(live)
    ensures Outstanding(live[a := length]) == Outstanding(live) + length
  {
    hide Outstanding;
    OutstandingPut(live, a, length);
    OutstandingWithout(live[a := length], a);
  }

  lemma AreaAt(s: seq<Span>, a: nat, length: nat) returns (i: nat)
    requires FreeRun(s, a, length)
    ensures i < |s| && s[i].start == a && length <= s[i].end - s[i].start
  {
    i :| 0 <= i < |s| && s[i].start == a && length <= s[i].end - s[i].start;
  }

  lemma LoneJoined(s: seq<Span>, a: nat, b: nat)
    requires a <= b && forall i :: 0 <= i < |s| ==> s[i].end != a && s[i].start != b
    ensures Joined(s, a, b) == b - a
  {
  }

  lemma PagesOfNothing()
    ensures Pages(0) == 0
  {
  }

  lemma BlockAtLeast(length: nat, m: nat)
    requires m >= PAGE && length > 0 && length % m == 0
    ensures length >= PAGE
  {
    if length < m { DivModUnique(length, m, 0, length); }
  }

  // ---- regions of 2^44 bytes and more ----

  const LARGE: nat := TWO44 + 4096

  lemma LargeFacts()
    ensures PowerOf2(4096) && Pages(LARGE) > 0 && RoundUp(4096, 4096) == 4096 && RoundUp(8192, 4096) == 8192
    ensures !Servable([Span(4096, 4096 + LARGE)], [FreedIndex(LARGE)], 8192)
    ensures AllFree([Span(4096, 4096 + LARGE)], 4096, 8192)
  {
    Power4096();
    var s := [Span(4096, 4096 + LARGE)];
    assert s[0].start == 4096 && 8192 <= s[0].end - s[0].start;
    RunIsFree(s, 4096, 8192);
  }

  lemma Power4096()
    ensures PowerOf2(4096)
  {
    assert PowerOf2(1) && PowerOf2(2) && PowerOf2(4) && PowerOf2(8) && PowerOf2(16) && PowerOf2(32) && PowerOf2(64);
    assert PowerOf2(128) && PowerOf2(256) && PowerOf2(512) && PowerOf2(1024) && PowerOf2(2048);
  }

  /** A region of 2^44 + 4096 bytes is filed in bucket 0, so a request for two pages, whose scan starts at
      bucket 1, fails although all of it is free. */
  method LargeRegionMisses() returns (made: NResult, result: NResult, allocator: NetMemAllocator)
    ensures made == NN_OK && result == NN_ERROR
    ensures allocator.Spans() == [Span(4096, 4096 + LARGE)] && AllFree(allocator.Spans(), 4096, 8192)
  {
    hide FilesKept, LowestFit, RunEnd, SplitIndex;
    hide Servable, AllFree, Pages, FreedIndex, RoundUp, PowerOf2, NetMemAllocator.Valid;
    LargeFacts();
    allocator := new NetMemAllocator();
    made := allocator.Initialize(4096, LARGE, 4096);
    var address;
    result, address := allocator.Allocate(8192);
  }

  /** A block taken from the front of a region that is all one span. */
  lemma FrontTaken(s: seq<Span>, s': seq<Span>, lo: nat, hi: nat, a: nat, length: nat)
    requires s == [Span(lo, hi)] && 0 < length && lo + length < hi && Separated(s')
    requires FreeRun(s, a, length) && Lost(s, s', a, a + length)
    ensures a == lo && s' == [Span(lo + length, hi)]
  {
    var rest := [Span(lo + length, hi)];
    OneFree(s[0]);
    OneFree(rest[0]);
    assert s == [s[0]] && rest == [rest[0]];
    SameFreeSameSpans(s', rest);
  }

  lemma FrontServable(lo: nat, hi: nat, filings: seq<nat>)
    requires lo + 4096 <= hi && |filings| == 1
    ensures Servable([Span(lo, hi)], filings, 4096)
  {
    var s := [Span(lo, hi)];
    assert 4096 <= s[0].end - s[0].start && FreedIndex(4096) == 0 <= filings[0];
  }

  // ---- every such region ----

  /** What is left of a region after all but one of the pages its 32-bit count shows are taken. */
  lemma OnePageShows(size: nat)
    requires size >= TWO44 && Pages(size) > 0
    ensures var taken := (Pages(size) - 1) * 4096;
            && taken < size && taken % 4096 == 0 && Pages(taken) == Pages(size) - 1 && Pages(size - taken) == 1
            && size - taken >= 12288
  {
    var p := Pages(size);
    var taken := (p - 1) * 4096;
    var k := size / 4096 / TWO32;
    assert size / 4096 == k * TWO32 + p;
    assert (size - taken) / 4096 == k * TWO32 + 1;
    assert taken / 4096 == p - 1;
    assert k >= 1;
  }

  /** A multiple of the block size is not rounded. */
  lemma RoundsToItself(size: nat)
    requires size % 4096 == 0 && size <= TWO64 - 4096
    ensures RoundUp(size, 4096) == size
  {
    RoundUpIs(size, 4096);
  }

  /** Two or three pages are not found in a region whose count shows one page. */
  lemma ShownTooSmall(lo: nat, hi: nat, filing: nat, want: nat)
    requires lo < hi && Pages(hi - lo) == 1 && want <= hi - lo && IndexFits(hi - lo, filing)
    requires want == 12288 || (want == 8192 && filing == FreedIndex(hi - lo))
    ensures !Servable([Span(lo, hi)], [filing], want) && AllFree([Span(lo, hi)], lo, want)
  {
    var s := [Span(lo, hi)];
    assert s[0].start == lo && want <= s[0].end - s[0].start;
    RunIsFree(s, lo, want);
  }

  /** From 2^44 bytes on every region that Initialize accepts comes to a point where a request of three pages
      or less fails although that many free addresses lie in a row. */
  method EveryLargeRegionMisses(mrAddress: nat, mrSize: nat)
    returns (allocator: NetMemAllocator, want: nat, result: NResult, ghost at: nat)
    requires 0 < mrAddress && TWO44 <= mrSize && mrAddress + mrSize < TWO64 && Pages(mrSize) > 0
    ensures allocator.Valid() && allocator.managed == Span(mrAddress, mrAddress + mrSize)
    ensures 0 < want <= 12288 && result == NN_ERROR && AllFree(allocator.Spans(), at, want)
  {
    hide FilesKept, LowestFit, RunEnd, SplitIndex;
    hide Servable, AllFree, Pages, FreedIndex, RoundUp, PowerOf2, FreeRun, Lost, Separated, NetMemAllocator.Valid,
         IndexFits;
    Power4096();
    OnePageShows(mrSize);
    allocator := new NetMemAllocator();
    var made := allocator.Initialize(mrAddress, mrSize, 4096);
    allocator.Inner();
    var pages := Pages(mrSize);
    at := mrAddress;
    if pages == 1 {
      want := 8192;
      FreedFits(mrSize);
    } else {
      var taken := (pages - 1) * 4096;
      RoundsToItself(taken);
      FirstServed(mrAddress, mrSize, taken);
      ghost var s0 := allocator.Spans();
      var address;
      made, address := allocator.Allocate(taken);
      allocator.Inner();
      FrontTaken(s0, allocator.Spans(), mrAddress, mrAddress + mrSize, address, taken);
      at := mrAddress + taken;
      want := 12288;
    }
    assert allocator.Filings() == [allocator.Filings()[0]];
    ShownTooSmall(at, mrAddress + mrSize, allocator.Filings()[0], want);
    RoundsToItself(want);
    var address;
    result, address := allocator.Allocate(want);
  }

  lemma FirstServed(lo: nat, size: nat, taken: nat)
    requires taken <= size && Pages(taken) <= Pages(size)
    ensures Servable([Span(lo, lo + size)], [FreedIndex(size)], taken)
  {
    var s, f := [Span(lo, lo + size)], [FreedIndex(size)];
    assert taken <= s[0].end - s[0].start && FreedIndex(taken) <= f[0];
  }

  /** A region of 2^44 + 4096 bytes from address 4096 on. */
  method LargeRegion() returns (allocator: NetMemAllocator)
    ensures allocator.Valid() && allocator.mInited && allocator.mMinBlockSize == 4096
    ensures allocator.Spans() == [Span(4096, 4096 + LARGE)]
    ensures fresh(allocator) && fresh(allocator.mMemRegionMgr) && fresh(allocator.mMemRegionMgr.mRoot)
    ensures fresh(allocator.mMemRegionMgr.mRoot.cells.Keys)
  {
    hide Servable, AllFree, Pages, FreedIndex, RoundUp, PowerOf2, NetMemAllocator.Valid;
    LargeFacts();
    allocator := new NetMemAllocator();
    var result := allocator.Initialize(4096, LARGE, 4096);
  }

  /** One page from its front. */
  method TakePage(allocator: NetMemAllocator, lo: nat)
    requires allocator.Valid() && allocator.mInited && allocator.mMinBlockSize == 4096
    requires allocator.Spans() == [Span(lo, 4096 + LARGE)] && lo < LARGE
    modifies allocator`mAddrLenMap, allocator.mMemRegionMgr, allocator.mMemRegionMgr.mRoot,
             allocator.mMemRegionMgr.mRoot.cells.Keys
    ensures allocator.Valid() && allocator.Spans() == [Span(lo + 4096, 4096 + LARGE)]
    ensures allocator.mAddrLenMap == old(allocator.mAddrLenMap)[lo := 4096]
    ensures fresh(allocator.mMemRegionMgr.mRoot.cells.Keys - old(allocator.mMemRegionMgr.mRoot.cells.Keys))
  {
    hide FilesKept, LowestFit, RunEnd, SplitIndex;
    hide Servable, Pages, FreedIndex, RoundUp, FreeRun, Lost, Separated, NetMemAllocator.Valid, IndexFits;
    RoundsToItself(4096);
    allocator.Inner();
    ghost var was := allocator.Spans();
    FrontServable(lo, 4096 + LARGE, allocator.Filings());
    var result, address := allocator.Allocate(4096);
    allocator.Inner();
    FrontTaken(was, allocator.Spans(), lo, 4096 + LARGE, address, 4096);
  }

  /** Two single pages taken from the same region: putting the second one back would make a run of 2^44
      bytes, for which MemoryAreaInsertPre computes the bucket number 2^32 - 1. */
  method LargeRegionRefuses() returns (allocator: NetMemAllocator, second: nat)
    ensures allocator.Valid() && second in allocator.mAddrLenMap && allocator.mAddrLenMap[second] == 4096
    ensures allocator.Breaks(second)
    ensures PreIndex(Joined(allocator.Spans(), second, second + 4096)) == TWO32 - 1
  {
    hide NetMemAllocator.Valid, Joined, Pages, PreIndex;
    allocator := LargeRegion();
    second := 8192;
    TakePage(allocator, 4096);
    TakePage(allocator, 8192);
    RefusedLands(allocator);
  }

  lemma RefusedLands(allocator: NetMemAllocator)
    requires allocator.Valid() && allocator.Spans() == [Span(12288, 4096 + LARGE)]
    requires 8192 in allocator.mAddrLenMap && allocator.mAddrLenMap[8192] == 4096
    ensures allocator.Breaks(8192) && PreIndex(Joined(allocator.Spans(), 8192, 12288)) == TWO32 - 1
  {
    hide MemoryRegion.Valid, Tiles, OnGrid, BlocksOnGrid, Outstanding;
    var s := allocator.Spans();
    allocator.mMemRegionMgr.SpansAreSeparated();
    LiveIsClear(s, allocator.mAddrLenMap, allocator.managed.start, allocator.managed.end, 8192);
    allocator.mMemRegionMgr.LandsApart(8192, 4096);
    assert s[0].start == 12288;
    RunEndIs(s, 0);
    assert RunStart(s, 8192) == 8192;
  }

  /** The free areas after three pages are taken from the front and the second of them is put back. */
  ghost predicate TwoAreas(allocator: NetMemAllocator)
    reads allocator, allocator.mMemRegionMgr, allocator.mMemRegionMgr.mRoot
  {
    && allocator.Spans() == [Span(8192, 12288), Span(16384, 4096 + LARGE)]
    && allocator.mMemRegionMgr.TopSpan() == Span(16384, 4096 + LARGE)
    && 12288 in allocator.mAddrLenMap && allocator.mAddrLenMap[12288] == 4096
  }

  /** Three pages from the front of a region of 2^44 + 4096 bytes. */
  method ThreePages() returns (allocator: NetMemAllocator)
    ensures allocator.Valid() && allocator.mInited && allocator.Spans() == [Span(16384, 4096 + LARGE)]
    ensures 8192 in allocator.mAddrLenMap && allocator.mAddrLenMap[8192] == 4096
    ensures 12288 in allocator.mAddrLenMap && allocator.mAddrLenMap[12288] == 4096
    ensures fresh(allocator) && fresh(allocator.mMemRegionMgr) && fresh(allocator.mMemRegionMgr.mRoot)
    ensures fresh(allocator.mMemRegionMgr.mRoot.cells.Keys)
  {
    hide NetMemAllocator.Valid;
    allocator := LargeRegion();
    TakePage(allocator, 4096);
    TakePage(allocator, 8192);
    TakePage(allocator, 12288);
  }

  lemma SecondIsLone(allocator: NetMemAllocator)
    requires allocator.Valid() && allocator.Spans() == [Span(16384, 4096 + LARGE)]
    requires 8192 in allocator.mAddrLenMap && allocator.mAddrLenMap[8192] == 4096
    ensures allocator.Lone(8192) && !allocator.Breaks(8192) && !allocator.Strands(8192)
    ensures allocator.mMemRegionMgr.TopSpan() == Span(16384, 4096 + LARGE)
  {
    hide MemoryRegion.Valid, Tiles, OnGrid, BlocksOnGrid, Outstanding, Joined, Land;
    var s := allocator.Spans();
    allocator.Inner();
    LiveIsClear(s, allocator.mAddrLenMap, allocator.managed.start, allocator.managed.end, 8192);
    allocator.mMemRegionMgr.LandsApart(8192, 4096);
    allocator.mMemRegionMgr.OnlyTop();
  }

  lemma BothThere(s: seq<Span>)
    requires Separated(s) && Gained([Span(16384, 4096 + LARGE)], s, 8192, 12288)
    ensures s == [Span(8192, 12288), Span(16384, 4096 + LARGE)]
  {
    var both := [Span(8192, 12288), Span(16384, 4096 + LARGE)];
    OneFree(Span(16384, 4096 + LARGE));
    TwoFree(both[0], both[1]);
    assert both == [both[0], both[1]];
    SameFreeSameSpans(s, both);
  }

  lemma ThirdStrands(allocator: NetMemAllocator)
    requires allocator.Valid() && TwoAreas(allocator)
    ensures allocator.Strands(12288) && !allocator.Breaks(12288) && !allocator.Lone(12288)
  {
    hide MemoryRegion.Valid, Tiles, OnGrid, BlocksOnGrid, Outstanding;
    var s := allocator.Spans();
    allocator.Inner();
    assert s[0].end == 12288 && s[1].start == 16384;
    RunStartIs(s, 0);
    RunEndIs(s, 1);
  }

  /** Three pages taken, the second and then the third put back: the last call reports success and counts its
      page as free, but the whole run is in no bucket, and no request of any length finds an area again. */
  method LargeRegionStrands(want: nat) returns (allocator: NetMemAllocator, result: NResult, area: RbTree.RbNode?)
    ensures result == NN_OK && area == null
    ensures allocator.mMemRegionMgr.Buckets() && allocator.mMemRegionMgr.filed == map[]
    ensures allocator.mMemRegionMgr.freeSize == TWO44 && 12288 !in allocator.mAddrLenMap
  {
    hide FilesKept, RunStart, Joined, FreedIndex;
    hide Pages, Separated, NetMemAllocator.Valid, MemoryRegion.Buckets, NetMemAllocator.Lone, NetMemAllocator.Breaks;
    hide NetMemAllocator.Strands, NetMemAllocator.LeftBehind, Gained;
    allocator := ThreePages();
    SecondIsLone(allocator);
    PagesSmall(4096);
    result := allocator.Free(8192);
    allocator.Inner();
    BothThere(allocator.Spans());
    ThirdStrands(allocator);
    allocator.TwoFiled();
    ghost var info, filed := allocator.mMemRegionMgr.info, allocator.mMemRegionMgr.filed;
    result := allocator.Free(12288);
    allocator.NoneFiled(info, filed, 12288, 4096);
    area := allocator.mMemRegionMgr.FindArea(want);
  }
}
