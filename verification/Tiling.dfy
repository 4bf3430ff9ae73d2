/**
 A memory region cut into free spans and live blocks, and what allocating and freeing keep.
 `live` maps the start of each block handed out to its length; a length of 0 covers nothing.
 */
module Tiling {
  import opened Bits
  import opened FreeSpans

  type Blocks = map<nat, nat>

  ghost predicate LiveAt(live: Blocks, x: nat)
  {
    exists a :: a in live && a <= x < a + live[a]
  }

  /** Two blocks have no address in common. */
  predicate Apart(a: nat, la: nat, b: nat, lb: nat)
  {
    a + la <= b || b + lb <= a
  }

  /** Each address of [lo, hi) is free or in one live block, and no other address is. */
  ghost predicate Tiles(s: seq<Span>, live: Blocks, lo: nat, hi: nat)
  {
    && (forall x: nat :: FreeAt(s, x) || LiveAt(live, x) <==> lo <= x < hi)
    && (forall x: nat :: !(FreeAt(s, x) && LiveAt(live, x)))
    && (forall a, b :: a in live && b in live && a != b && live[a] > 0 && live[b] > 0 ==> Apart(a, live[a], b, live[b]))
  }

  /** The bytes of all live blocks. */
  ghost function Outstanding(live: Blocks): nat
    decreases |live|
  {
    if live == map[] then 0 else
      var a :| a in live;
      live[a] + Outstanding(live - {a})
  }

  lemma {:induction false} OutstandingWithout(live: Blocks, a: nat)
    requires a in live
    ensures Outstanding(live) == live[a] + Outstanding(live - {a})
    decreases |live|
  {
    var b :| b in live && Outstanding(live) == live[b] + Outstanding(live - {b});
    if a != b {
      OutstandingWithout(live - {b}, a);
      OutstandingWithout(live - {a}, b);
      assert live - {b} - {a} == live - {a} - {b};
    }
  }

  lemma OutstandingWith(live: Blocks, a: nat, length: nat)
    ensures Outstanding(live[a := length]) == Outstanding(live - {a}) + length
  {
    OutstandingWithout(live[a := length], a);
    assert live[a := length] - {a} == live - {a};
  }

  lemma LiveNotFree(s: seq<Span>, live: Blocks, lo: nat, hi: nat, b: nat, x: nat)
    requires Tiles(s, live, lo, hi) && b in live
    ensures b <= x < b + live[b] ==> !FreeAt(s, x)
  {
    assert b <= x < b + live[b] ==> LiveAt(live, x);
  }

  /** A block taken from the free addresses. */
  lemma TilesTake(s: seq<Span>, s': seq<Span>, live: Blocks, lo: nat, hi: nat, a: nat, length: nat)
    requires Tiles(s, live, lo, hi) && length > 0 && Lost(s, s', a, a + length) && AllFree(s, a, length)
    ensures Tiles(s', live[a := length], lo, hi)
    ensures a in live ==> live[a] == 0
  {
    var live' := live[a := length];
    assert FreeAt(s, a);
    forall b | b in live && live[b] > 0
      ensures Apart(a, length, b, live[b])
    {
      var x := if a <= b then b else a;
      LiveNotFree(s, live, lo, hi, b, x);
      assert a <= x < a + length ==> FreeAt(s, x);
    }
    if a in live { LiveNotFree(s, live, lo, hi, a, a); }
    forall x: nat
      ensures LiveAt(live', x) <==> LiveAt(live, x) || a <= x < a + length
    {
      LiveAfterPut(live, a, length, x);
    }
    forall x: nat
      ensures FreeAt(s', x) || LiveAt(live', x) <==> lo <= x < hi
      ensures !(FreeAt(s', x) && LiveAt(live', x))
    {
      assert a <= x < a + length ==> FreeAt(s, x);
    }
  }

  lemma LiveAfterPut(live: Blocks, a: nat, length: nat, x: nat)
    requires a in live ==> live[a] == 0
    ensures LiveAt(live[a := length], x) <==> LiveAt(live, x) || a <= x < a + length
  {
    var live' := live[a := length];
    if LiveAt(live, x) {
      var b :| b in live && b <= x < b + live[b];
      assert b in live' && live'[b] == live[b];
    }
    if a <= x < a + length { assert a in live'; }
  }

  /** A block put back. */
  lemma TilesGive(s: seq<Span>, s': seq<Span>, live: Blocks, lo: nat, hi: nat, a: nat)
    requires Tiles(s, live, lo, hi) && a in live && live[a] > 0 && Gained(s, s', a, a + live[a])
    ensures Tiles(s', live - {a}, lo, hi)
  {
    var live' := live - {a};
    forall x: nat
      ensures LiveAt(live', x) <==> LiveAt(live, x) && !(a <= x < a + live[a])
    {
      if LiveAt(live', x) {
        var b :| b in live' && b <= x < b + live'[b];
        assert Apart(a, live[a], b, live[b]);
      }
      if LiveAt(live, x) && !(a <= x < a + live[a]) {
        var b :| b in live && b <= x < b + live[b];
        assert b in live';
      }
    }
    forall x: nat
      ensures FreeAt(s', x) || LiveAt(live', x) <==> lo <= x < hi
      ensures !(FreeAt(s', x) && LiveAt(live', x))
    {
      assert a <= x < a + live[a] ==> LiveAt(live, x);
    }
  }

  /** A live block has no free address. */
  lemma LiveIsClear(s: seq<Span>, live: Blocks, lo: nat, hi: nat, a: nat)
    requires Tiles(s, live, lo, hi) && a in live && live[a] > 0 && Separated(s)
    ensures Clear(s, a, a + live[a]) && lo <= a && a + live[a] <= hi
    ensures forall i :: 0 <= i < |s| ==> s[i].start != a
  {
    assert LiveAt(live, a) && LiveAt(live, a + live[a] - 1);
    forall i | 0 <= i < |s|
      ensures s[i].end <= a || a + live[a] <= s[i].start
      ensures s[i].start != a
    {
      var x := if s[i].start <= a then a else s[i].start;
      assert s[i].start <= x < s[i].end ==> FreeAt(s, x);
      LiveNotFree(s, live, lo, hi, a, x);
    }
  }

  /** Spans lie inside the region. */
  lemma SpansInside(s: seq<Span>, live: Blocks, lo: nat, hi: nat, i: nat)
    requires Tiles(s, live, lo, hi) && Separated(s) && i < |s|
    ensures lo <= s[i].start < s[i].end <= hi
  {
    assert FreeAt(s, s[i].start) && FreeAt(s, s[i].end - 1);
  }

  // ---- the free addresses determine the spans ----

  lemma {:induction false} SameFreeSameSpans(s: seq<Span>, t: seq<Span>)
    requires Separated(s) && Separated(t) && forall x: nat :: FreeAt(s, x) <==> FreeAt(t, x)
    ensures s == t
    decreases |s|
  {
    if s == [] {
      if t != [] { assert FreeAt(t, t[0].start); }
    } else if t == [] {
      assert FreeAt(s, s[0].start);
    } else {
      FirstSpan(s, t);
      FirstSpan(t, s);
      forall x: nat
        ensures FreeAt(s[1..], x) <==> FreeAt(t[1..], x)
      {
        FreeInTail(s, x);
        FreeInTail(t, x);
      }
      TailSeparated(s);
      TailSeparated(t);
      SameFreeSameSpans(s[1..], t[1..]);
    }
  }

  lemma TailSeparated(s: seq<Span>)
    requires Separated(s) && s != []
    ensures Separated(s[1..])
  {
  }

  lemma FreeInTail(s: seq<Span>, x: nat)
    requires Separated(s) && s != []
    ensures FreeAt(s[1..], x) <==> FreeAt(s, x) && x >= s[0].end
  {
    if FreeAt(s, x) && x >= s[0].end {
      var i :| 0 <= i < |s| && s[i].start <= x < s[i].end;
      assert s[1..][i - 1] == s[i];
    }
    if FreeAt(s[1..], x) {
      var i :| 0 <= i < |s[1..]| && s[1..][i].start <= x < s[1..][i].end;
      assert s[i + 1] == s[1..][i];
    }
  }

  /** The first span of s lies inside the first span of t. */
  lemma FirstSpan(s: seq<Span>, t: seq<Span>)
    requires Separated(s) && Separated(t) && s != [] && t != [] && forall x: nat :: FreeAt(s, x) ==> FreeAt(t, x)
    requires forall x: nat :: FreeAt(t, x) ==> FreeAt(s, x)
    ensures t[0].start <= s[0].start && s[0].end <= t[0].end
  {
    assert FreeAt(s, s[0].start) && FreeAt(t, t[0].start);
    FreeAbove(t, s[0].start);
    FreeAbove(s, t[0].start);
    forall x: nat | s[0].start <= x < s[0].end ensures FreeAt(t, x) { assert FreeAt(s, x); }
    var i := RunInOne(t, s[0].start, s[0].end);
  }

  lemma FreeAbove(s: seq<Span>, x: nat)
    requires Separated(s) && FreeAt(s, x)
    ensures s != [] && s[0].start <= x
  {
  }

  // ---- block addresses are multiples of the block size from the start of the region ----

  predicate OffsetBy(a: nat, lo: nat, m: nat)
    requires m > 0
  {
    lo <= a && (a - lo) % m == 0
  }

  ghost predicate OnGrid(s: seq<Span>, lo: nat, m: nat)
    requires m > 0
  {
    forall i :: 0 <= i < |s| ==> OffsetBy(s[i].start, lo, m)
  }

  ghost predicate BlocksOnGrid(live: Blocks, lo: nat, m: nat)
    requires m > 0
  {
    forall a :: a in live ==> OffsetBy(a, lo, m) && live[a] % m == 0
  }

  /** A span begins where an address is free and the one before it is not. */
  lemma StartIff(s: seq<Span>, x: nat)
    requires Separated(s)
    ensures (exists i :: 0 <= i < |s| && s[i].start == x) <==> FreeAt(s, x) && (x == 0 || !FreeAt(s, x - 1))
  {
    if i :| 0 <= i < |s| && s[i].start == x {
      assert s[i].start <= x < s[i].end;
      forall j | 0 <= j < |s|
        ensures !(s[j].start <= x - 1 < s[j].end)
      {
        if j < i { assert s[j].end < s[i].start; }
        if i < j { assert s[i].end < s[j].start; }
      }
    }
    if FreeAt(s, x) && (x == 0 || !FreeAt(s, x - 1)) {
      var i :| 0 <= i < |s| && s[i].start <= x < s[i].end;
    }
  }

  lemma GridGained(s: seq<Span>, s': seq<Span>, a: nat, b: nat, lo: nat, m: nat)
    requires Separated(s) && Separated(s') && Gained(s, s', a, b) && a < b && m > 0 && OnGrid(s, lo, m)
               && OffsetBy(a, lo, m)
    ensures OnGrid(s', lo, m)
  {
    forall i | 0 <= i < |s'|
      ensures OffsetBy(s'[i].start, lo, m)
    {
      var x := s'[i].start;
      StartIff(s', x);
      StartIff(s, x);
      assert x > 0 ==> !FreeAt(s', x - 1);
    }
  }

  lemma GridLost(s: seq<Span>, s': seq<Span>, a: nat, b: nat, lo: nat, m: nat)
    requires Separated(s) && Separated(s') && Lost(s, s', a, b) && a < b && m > 0 && OnGrid(s, lo, m)
               && OffsetBy(b, lo, m)
    ensures OnGrid(s', lo, m)
  {
    forall i | 0 <= i < |s'|
      ensures OffsetBy(s'[i].start, lo, m)
    {
      var x := s'[i].start;
      StartIff(s', x);
      StartIff(s, x);
      assert x > 0 ==> !FreeAt(s', x - 1);
    }
  }

  // ---- rounding of a request ----

  /** MEM_ALLOCATOR_ROUND_UP_TO: the 64-bit sum size + m - 1, cut down to a multiple of m. */
  function RoundUp(size: nat, m: nat): nat
    requires 0 < m <= TWO64 && size < TWO64
  {
    var sum := if size + m - 1 < TWO64 then size + m - 1 else size + m - 1 - TWO64;
    sum - sum % m
  }

  /** The rounded size is the least multiple of m that covers the request, but 0 where the sum passes 2^64. */
  lemma RoundUpIs(size: nat, m: nat)
    requires 0 < m <= TWO64 && size < TWO64
    ensures RoundUp(size, m) % m == 0
    ensures size <= TWO64 - m ==> size <= RoundUp(size, m) < size + m
    ensures RoundUp(size, m) == 0 <==> size == 0 || size > TWO64 - m
  {
    CutDown(if size + m - 1 < TWO64 then size + m - 1 else size + m - 1 - TWO64, m);
  }

  /** A number cut down to a multiple of m. */
  lemma CutDown(sum: nat, m: nat)
    requires m > 0
    ensures (sum - sum % m) % m == 0 && sum - m < sum - sum % m <= sum
    ensures sum - sum % m == 0 <==> sum < m
  {
    var q, r := sum / m, sum % m;
    assert sum == q * m + r && 0 <= r < m;
    if q == 0 {
      assert q * m == 0;
    } else {
      MulMonotone(1, q, m);
    }
    DivModUnique(sum - r, m, q, 0);
  }

  lemma RunIsFree(s: seq<Span>, a: nat, length: nat)
    requires FreeRun(s, a, length)
    ensures AllFree(s, a, length)
  {
    var i :| 0 <= i < |s| && s[i].start == a && length <= s[i].end - s[i].start;
    forall x: nat | a <= x < a + length
      ensures FreeAt(s, x)
    {
      assert s[i].start <= x < s[i].end;
    }
  }

  /** A free area begins at a, so no block of positive length does. */
  lemma RunFacts(s: seq<Span>, live: Blocks, lo: nat, hi: nat, m: nat, a: nat, length: nat)
    requires Tiles(s, live, lo, hi) && Separated(s) && FreeRun(s, a, length) && m > 0 && OnGrid(s, lo, m)
    ensures a in live ==> live[a] == 0
    ensures lo <= a < hi && a + length <= hi && OffsetBy(a, lo, m)
  {
    hide Tiles, Separated;
    var i :| 0 <= i < |s| && s[i].start == a && length <= s[i].end - s[i].start;
    SpansInside(s, live, lo, hi, i);
    assert FreeAt(s, a);
    if a in live { LiveNotFree(s, live, lo, hi, a, a); }
  }

  lemma OutstandingPut(live: Blocks, a: nat, length: nat)
    requires a in live ==> live[a] == 0
    ensures Outstanding(live[a := length]) == Outstanding(live) + length
  {
    hide Outstanding;
    OutstandingWith(live, a, length);
    if a in live {
      OutstandingWithout(live, a);
    } else {
      assert live - {a} == live;
    }
  }

  /** A block of `length` bytes, 0 included, handed out at the start of a free area. */
  lemma TakeKeeps(s: seq<Span>, s': seq<Span>, live: Blocks, lo: nat, hi: nat, m: nat, a: nat, length: nat)
    requires Tiles(s, live, lo, hi) && Separated(s) && Separated(s') && FreeRun(s, a, length)
    requires if length > 0 then Lost(s, s', a, a + length) else s' == s
    requires m > 0 && OnGrid(s, lo, m) && BlocksOnGrid(live, lo, m) && length % m == 0
    ensures Tiles(s', live[a := length], lo, hi) && OnGrid(s', lo, m) && BlocksOnGrid(live[a := length], lo, m)
    ensures Outstanding(live[a := length]) == Outstanding(live) + length
    ensures a in live ==> live[a] == 0
    ensures lo <= a < hi && a + length <= hi && OffsetBy(a, lo, m)
  {
    hide Tiles, Separated, Lost, Outstanding, FreeRun, OnGrid, OffsetBy;
    RunFacts(s, live, lo, hi, m, a, length);
    OutstandingPut(live, a, length);
    if length > 0 {
      RunIsFree(s, a, length);
      TilesTake(s, s', live, lo, hi, a, length);
      GridStep(a, length, lo, m);
      GridLost(s, s', a, a + length, lo, m);
    } else {
      TilesZero(s, live, lo, hi, a);
    }
  }

  lemma TilesZero(s: seq<Span>, live: Blocks, lo: nat, hi: nat, a: nat)
    requires Tiles(s, live, lo, hi) && (a in live ==> live[a] == 0)
    ensures Tiles(s, live[a := 0], lo, hi)
  {
    forall x: nat
      ensures LiveAt(live[a := 0], x) <==> LiveAt(live, x)
    {
      LiveAfterPut(live, a, 0, x);
    }
  }

  lemma GridStep(a: nat, length: nat, lo: nat, m: nat)
    requires m > 0 && OffsetBy(a, lo, m) && length % m == 0
    ensures OffsetBy(a + length, lo, m)
  {
    var p, q := (a - lo) / m, length / m;
    assert a - lo == p * m && length == q * m;
    DivModUnique(a + length - lo, m, p + q, 0);
  }

  /** A block put back, or an entry of length 0 forgotten. */
  lemma GiveKeeps(s: seq<Span>, s': seq<Span>, live: Blocks, lo: nat, hi: nat, m: nat, a: nat)
    requires Tiles(s, live, lo, hi) && Separated(s) && Separated(s') && a in live
    requires Gained(s, s', a, a + live[a]) && m > 0 && OnGrid(s, lo, m) && BlocksOnGrid(live, lo, m)
    ensures Tiles(s', live - {a}, lo, hi) && OnGrid(s', lo, m) && BlocksOnGrid(live - {a}, lo, m)
    ensures Outstanding(live - {a}) + live[a] == Outstanding(live)
  {
    OutstandingWithout(live, a);
    if live[a] == 0 {
      SameFreeSameSpans(s, s');
      TilesForget(s, live, lo, hi, a);
    } else {
      TilesGive(s, s', live, lo, hi, a);
      GridGained(s, s', a, a + live[a], lo, m);
    }
  }

  lemma TilesForget(s: seq<Span>, live: Blocks, lo: nat, hi: nat, a: nat)
    requires Tiles(s, live, lo, hi) && a in live && live[a] == 0
    ensures Tiles(s, live - {a}, lo, hi)
  {
    forall x: nat
      ensures LiveAt(live - {a}, x) <==> LiveAt(live, x)
    {
      if b :| b in live && b <= x < b + live[b] { assert b in live - {a}; }
    }
  }

  /** With nothing handed out the free addresses are one span: everything that was freed has merged. */
  lemma AllFreed(s: seq<Span>, live: Blocks, lo: nat, hi: nat)
    requires Separated(s) && Tiles(s, live, lo, hi) && lo < hi && forall a :: a in live ==> live[a] == 0
    ensures s == [Span(lo, hi)]
  {
    var whole := [Span(lo, hi)];
    forall x: nat
      ensures FreeAt(s, x) <==> FreeAt(whole, x)
    {
      assert !LiveAt(live, x);
      assert lo <= x < hi ==> whole[0].start <= x < whole[0].end;
    }
    SameFreeSameSpans(s, whole);
  }

  /** Taking a block and putting it back leaves the very spans there were. */
  lemma TakeGive(s: seq<Span>, t: seq<Span>, u: seq<Span>, a: nat, length: nat)
    requires Separated(s) && Separated(u) && FreeRun(s, a, length)
    requires Lost(s, t, a, a + length) && Gained(t, u, a, a + length)
    ensures u == s
  {
    RunIsFree(s, a, length);
    forall x: nat
      ensures FreeAt(u, x) <==> FreeAt(s, x)
    {
      assert a <= x < a + length ==> FreeAt(s, x);
    }
    SameFreeSameSpans(u, s);
  }

  /** The run around a block just taken from the front of an area is that area, and begins with the block. */
  lemma TakenJoined(s: seq<Span>, s': seq<Span>, i: nat, length: nat)
    requires Separated(s) && Separated(s') && i < |s| && 0 < length <= s[i].end - s[i].start
    requires Lost(s, s', s[i].start, s[i].start + length)
    ensures Joined(s', s[i].start, s[i].start + length) == s[i].end - s[i].start
    ensures RunStart(s', s[i].start) == s[i].start && forall j :: 0 <= j < |s'| ==> s'[j].end != s[i].start
  {
    hide Lost, Separated, Joined;
    var l, m, r := s[..i], s[i], s[i + 1..];
    assert s == l + [m] + r;
    TakenSpans(s, s', l, m, r, length);
    AroundOne(l, m, r);
    TakenRun(l, m, r, s', length);
  }

  lemma TakenRun(l: seq<Span>, m: Span, r: seq<Span>, s': seq<Span>, length: nat)
    requires Separated(s') && 0 < length <= m.end - m.start
    requires (forall i :: 0 <= i < |l| ==> l[i].end < m.start) && (forall i :: 0 <= i < |r| ==> m.end < r[i].start)
    requires s' == l + (if length == m.end - m.start then [] else [Span(m.start + length, m.end)]) + r
    ensures Joined(s', m.start, m.start + length) == m.end - m.start
    ensures RunStart(s', m.start) == m.start && forall j :: 0 <= j < |s'| ==> s'[j].end != m.start
  {
    forall x | x in s'
      ensures x.end != m.start && (length == m.end - m.start ==> x.start != m.end)
    {
      assert x in l || x in r || x == Span(m.start + length, m.end);
    }
    assert RunStart(s', m.start) == m.start;
    if length < m.end - m.start {
      assert s'[|l|] == Span(m.start + length, m.end);
      RunEndIs(s', |l|);
    }
  }

  lemma TakenSpans(s: seq<Span>, s': seq<Span>, l: seq<Span>, m: Span, r: seq<Span>, length: nat)
    requires Separated(s) && Separated(s') && s == l + [m] + r && 0 < length <= m.end - m.start
    requires Lost(s, s', m.start, m.start + length)
    ensures s' == l + (if length == m.end - m.start then [] else [Span(m.start + length, m.end)]) + r
  {
    if length == m.end - m.start {
      CutWhole(l, m, r);
      SameFreeSameSpans(s', l + [] + r);
    } else {
      CutFront(l, m, r, m.start + length);
      SameFreeSameSpans(s', l + [Span(m.start + length, m.end)] + r);
    }
  }

  lemma OneSpanGained(s: seq<Span>, a: nat, b: nat)
    requires Separated(s) && Gained([], s, a, b) && a < b
    ensures s == [Span(a, b)]
  {
    var whole := [Span(a, b)];
    forall x: nat
      ensures FreeAt(s, x) <==> FreeAt(whole, x)
    {
      assert a <= x < b ==> whole[0].start <= x < whole[0].end;
    }
    SameFreeSameSpans(s, whole);
  }

  lemma FreshTiles(a: nat, b: nat, m: nat)
    requires a < b && m > 0
    ensures Tiles([Span(a, b)], map[], a, b) && OnGrid([Span(a, b)], a, m) && BlocksOnGrid(map[], a, m)
              && Outstanding(map[]) == 0
  {
    forall x: nat
      ensures FreeAt([Span(a, b)], x) <==> a <= x < b
    {
      assert a <= x < b ==> [Span(a, b)][0].start <= x < [Span(a, b)][0].end;
    }
  }
}
