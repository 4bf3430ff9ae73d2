/**
 The free areas of a memory region as a sequence of address spans, the size buckets they are filed
 in, and the bookkeeping that ties both to the nodes of the tree.
 */
module FreeSpans {
  import opened RbTree

  const FREE_LIST_NUM: nat := 1024
  const PAGE: nat := 4096
  const TWO32: nat := 0x1_0000_0000
  /** Lengths from here on lose bits when their page count is kept in 32 bits. */
  const TWO44: nat := 0x1000_0000_0000

  // ---- spans ----

  datatype Span = Span(start: nat, end: nat)

  /** Not empty, in ascending order, and with a gap between any two: no two free areas are adjacent. */
  ghost predicate Separated(s: seq<Span>)
  {
    && (forall i :: 0 <= i < |s| ==> s[i].start < s[i].end)
    && (forall i, j :: 0 <= i < j < |s| ==> s[i].end < s[j].start)
  }

  ghost predicate FreeAt(s: seq<Span>, x: nat)
  {
    exists i :: 0 <= i < |s| && s[i].start <= x < s[i].end
  }

  /** No address of [a, b) is free. */
  ghost predicate Clear(s: seq<Span>, a: nat, b: nat)
  {
    forall i :: 0 <= i < |s| ==> s[i].end <= a || b <= s[i].start
  }

  /** Free now is what was free and what lies in [a, b). */
  ghost predicate Gained(was: seq<Span>, now: seq<Span>, a: nat, b: nat)
  {
    forall x: nat :: FreeAt(now, x) <==> FreeAt(was, x) || a <= x < b
  }

  /** Free now is what was free and lies outside [a, b). */
  ghost predicate Lost(was: seq<Span>, now: seq<Span>, a: nat, b: nat)
  {
    forall x: nat :: FreeAt(now, x) <==> FreeAt(was, x) && !(a <= x < b)
  }

  function Total(s: seq<Span>): int
  {
    if s == [] then 0 else s[0].end - s[0].start + Total(s[1..])
  }

  lemma {:induction false} TotalAppend(a: seq<Span>, b: seq<Span>)
    ensures Total(a + b) == Total(a) + Total(b)
  {
    if a == [] {
      assert a + b == b;
    } else {
      TotalAppend(a[1..], b);
      assert (a + b)[1..] == a[1..] + b;
    }
  }

  lemma TotalMiddle(a: seq<Span>, m: Span, b: seq<Span>)
    ensures Total(a + [m] + b) == Total(a) + (m.end - m.start) + Total(b)
  {
    TotalAppend(a + [m], b);
    TotalAppend(a, [m]);
  }

  lemma {:induction false} TotalAtLeast(s: seq<Span>, i: nat)
    requires i < |s| && forall k :: 0 <= k < |s| ==> s[k].start < s[k].end
    ensures s[i].end - s[i].start <= Total(s)
    decreases s
  {
    assert forall k :: 0 <= k < |s[1..]| ==> s[1..][k] == s[k + 1];
    TotalNonNegative(s[1..]);
    if i > 0 { TotalAtLeast(s[1..], i - 1); }
  }

  lemma {:induction false} TotalNonNegative(s: seq<Span>)
    requires forall k :: 0 <= k < |s| ==> s[k].start < s[k].end
    ensures Total(s) >= 0
    decreases s
  {
    if s != [] {
      assert forall k :: 0 <= k < |s[1..]| ==> s[1..][k] == s[k + 1];
      TotalNonNegative(s[1..]);
    }
  }

  /** One span in the middle replaced by another, or dropped: what is free around it stays. */
  lemma FreeMiddle(a: seq<Span>, m: seq<Span>, b: seq<Span>, x: nat)
    ensures FreeAt(a + m + b, x) <==> FreeAt(a, x) || FreeAt(m, x) || FreeAt(b, x)
  {
    var s := a + m + b;
    if FreeAt(s, x) {
      var i :| 0 <= i < |s| && s[i].start <= x < s[i].end;
      if i < |a| {
        assert a[i] == s[i];
      } else if i < |a| + |m| {
        assert m[i - |a|] == s[i];
      } else {
        assert b[i - |a| - |m|] == s[i];
      }
    }
    if FreeAt(a, x) {
      var i :| 0 <= i < |a| && a[i].start <= x < a[i].end;
      assert s[i] == a[i];
    }
    if FreeAt(m, x) {
      var i :| 0 <= i < |m| && m[i].start <= x < m[i].end;
      assert s[|a| + i] == m[i];
    }
    if FreeAt(b, x) {
      var i :| 0 <= i < |b| && b[i].start <= x < b[i].end;
      assert s[|a| + |m| + i] == b[i];
    }
  }

  /** A block put between `a` and `b` in place of the spans m that it swallows. */
  lemma Swallow(a: seq<Span>, m: seq<Span>, b: seq<Span>, new': Span, from: nat, to: nat)
    requires Separated(a + m + b) && new'.start <= from < to <= new'.end
    requires forall i :: 0 <= i < |a| ==> a[i].end < new'.start
    requires forall i :: 0 <= i < |b| ==> new'.end < b[i].start
    requires forall x: nat :: new'.start <= x < new'.end <==> FreeAt(m, x) || from <= x < to
    ensures Separated(a + [new'] + b) && Gained(a + m + b, a + [new'] + b, from, to)
  {
    var s, t := a + m + b, a + [new'] + b;
    assert forall i :: 0 <= i < |a| ==> s[i] == a[i];
    assert forall i :: 0 <= i < |b| ==> s[|a| + |m| + i] == b[i];
    forall x: nat
      ensures FreeAt(t, x) <==> FreeAt(s, x) || from <= x < to
    {
      FreeMiddle(a, m, b, x);
      FreeMiddle(a, [new'], b, x);
      assert [new'][0] == new';
    }
    SeparatedMiddle(a, [new'], b, s, |m|);
  }

  lemma SeparatedMiddle(a: seq<Span>, n: seq<Span>, b: seq<Span>, s: seq<Span>, k: nat)
    requires Separated(s) && |s| == |a| + k + |b| && s[..|a|] == a && s[|a| + k..] == b && Separated(n)
    requires forall i, j :: 0 <= i < |a| && 0 <= j < |n| ==> a[i].end < n[j].start
    requires forall i, j :: 0 <= i < |b| && 0 <= j < |n| ==> n[j].end < b[i].start
    ensures Separated(a + n + b)
  {
    var t := a + n + b;
    forall i, j | 0 <= i < j < |t|
      ensures t[i].end < t[j].start
    {
      var i' := if i < |a| then i else i - |n| + k;
      var j' := if j < |a| then j else j - |n| + k;
      if (i < |a| || i >= |a| + |n|) && (j < |a| || j >= |a| + |n|) {
        assert s[i'] == t[i] && s[j'] == t[j];
      }
    }
    forall i | 0 <= i < |t|
      ensures t[i].start < t[i].end
    {
      if i < |a| {
        assert s[i] == t[i];
      } else if i >= |a| + |n| {
        assert s[i - |n| + k] == t[i];
      }
    }
  }

  /** A span in the middle cut down to n, possibly nothing. */
  lemma Shrink(a: seq<Span>, m: Span, n: seq<Span>, b: seq<Span>, from: nat, to: nat)
    requires Separated(a + [m] + b) && Separated(n) && m.start <= from < to <= m.end
    requires forall j :: 0 <= j < |n| ==> m.start <= n[j].start && n[j].end <= m.end
    requires forall x: nat :: FreeAt(n, x) <==> m.start <= x < m.end && !(from <= x < to)
    ensures Separated(a + n + b) && Lost(a + [m] + b, a + n + b, from, to)
  {
    var s := a + [m] + b;
    assert s[|a|] == m;
    assert forall i :: 0 <= i < |a| ==> s[i] == a[i];
    assert forall i :: 0 <= i < |b| ==> s[|a| + 1 + i] == b[i];
    SeparatedMiddle(a, n, b, s, 1);
    forall x: nat
      ensures FreeAt(a + n + b, x) <==> FreeAt(s, x) && !(from <= x < to)
    {
      FreeMiddle(a, [m], b, x);
      FreeMiddle(a, n, b, x);
      assert [m][0] == m;
    }
  }

  /** Free addresses in a row lie in one span. */
  lemma RunInOne(s: seq<Span>, a: nat, b: nat) returns (i: nat)
    requires Separated(s) && a < b && forall x: nat :: a <= x < b ==> FreeAt(s, x)
    ensures i < |s| && s[i].start <= a && b <= s[i].end
  {
    assert FreeAt(s, a);
    i :| 0 <= i < |s| && s[i].start <= a < s[i].end;
    assert s[i].end < b ==> FreeAt(s, s[i].end);
    NotFreeAtEnd(s, i);
  }

  lemma NotFreeAtEnd(s: seq<Span>, i: nat)
    requires Separated(s) && i < |s|
    ensures !FreeAt(s, s[i].end)
  {
    forall j | 0 <= j < |s|
      ensures !(s[j].start <= s[i].end < s[j].end)
    {
      assert j < i ==> s[j].end < s[i].start;
    }
  }

  // ---- bucket numbers ----

  /** length >> 12 kept in 32 bits. */
  function Pages(length: nat): nat
  {
    (length / PAGE) % TWO32
  }

  /** The bucket of a freed area, and the first bucket searched for a request. */
  function FreedIndex(length: nat): nat
  {
    if Pages(length) >= FREE_LIST_NUM then FREE_LIST_NUM - 1 else if Pages(length) > 0 then Pages(length) - 1 else 0
  }

  /** The bucket of what is left after a split. */
  function SplitIndex(length: nat): nat
  {
    if Pages(length) >= FREE_LIST_NUM then FREE_LIST_NUM - 1 else Pages(length)
  }

  /** An area may be filed under either number. */
  predicate IndexFits(length: nat, index: nat)
  {
    index == FreedIndex(length) || index == SplitIndex(length)
  }

  /** The bucket number MemoryAreaInsertPre computes, in 32 bits and without a check, for a block merged with
      the area behind it alone. */
  function PreIndex(length: nat): nat
  {
    if Pages(length) >= FREE_LIST_NUM then FREE_LIST_NUM - 1 else (Pages(length) + TWO32 - 1) % TWO32
  }

  /** It is a bucket exactly when the page count is not cut to 0, and then the bucket of a freed area. */
  lemma PreIndexIs(length: nat)
    ensures PreIndex(length) < FREE_LIST_NUM <==> Pages(length) > 0
    ensures Pages(length) > 0 ==> PreIndex(length) == FreedIndex(length)
  {
  }

  lemma PagesSmall(length: nat)
    requires PAGE <= length < TWO44
    ensures Pages(length) > 0
  {
  }

  /** The search for `want` starts at or before the bucket of any area below 2^44 bytes that is long enough. */
  lemma SearchReaches(length: nat, index: nat, want: nat)
    requires want <= length < TWO44 && IndexFits(length, index)
    ensures FreedIndex(want) <= index < FREE_LIST_NUM
  {
    assert want / PAGE <= length / PAGE < TWO32;
  }

  /** An area is found by every request it could serve exactly when it is shorter than 2^44 bytes or
      filed in the last bucket. */
  lemma ReachedByAll(length: nat, index: nat)
    requires IndexFits(length, index)
    ensures (forall want: nat :: want <= length ==> FreedIndex(want) <= index) <==>
              length < TWO44 || index == FREE_LIST_NUM - 1
  {
    if length < TWO44 {
      forall want: nat | want <= length
        ensures FreedIndex(want) <= index
      {
        SearchReaches(length, index, want);
      }
    } else if index < FREE_LIST_NUM - 1 {
      assert FreedIndex(FREE_LIST_NUM * PAGE) == FREE_LIST_NUM - 1 > index;
    }
  }

  // ---- buckets ----

  function Remove(s: seq<RbNode>, n: RbNode): seq<RbNode>
  {
    if s == [] then [] else if s[0] == n then Remove(s[1..], n) else [s[0]] + Remove(s[1..], n)
  }

  lemma {:induction false} RemoveKeeps(s: seq<RbNode>, n: RbNode)
    requires Distinct(s)
    ensures Distinct(Remove(s, n)) && (forall m :: m in Remove(s, n) <==> m in s && m != n)
    ensures |Remove(s, n)| == if n in s then |s| - 1 else |s|
  {
    if s != [] {
      var t := s[1..];
      assert Distinct(t) && s[0] !in t by {
        forall i, j | 0 <= i < j < |t| ensures t[i] != t[j] { assert s[i + 1] != s[j + 1]; }
        forall i | 0 <= i < |t| ensures t[i] != s[0] { assert t[i] == s[i + 1]; }
      }
      RemoveKeeps(t, n);
      assert s == [s[0]] + t;
      if s[0] != n {
        ConsDistinct(s[0], Remove(t, n));
      }
    }
  }

  lemma {:induction false} StaysIn(s: seq<RbNode>, n: RbNode, m: RbNode)
    requires m in Remove(s, n)
    ensures m in s && m != n
  {
    if s != [] && !(s[0] != n && m == s[0]) {
      StaysIn(s[1..], n, m);
    }
  }

  lemma ConsDistinct(x: RbNode, s: seq<RbNode>)
    requires Distinct(s) && x !in s
    ensures Distinct([x] + s) && forall m :: m in [x] + s <==> m == x || m in s
  {
  }

  lemma SnocDistinct(s: seq<RbNode>, x: RbNode)
    requires Distinct(s) && x !in s
    ensures Distinct(s + [x]) && forall m :: m in s + [x] <==> m == x || m in s
  {
  }

  /** The node leaves the list it is in, whichever that is. */
  function Without(lists: seq<seq<RbNode>>, n: RbNode): seq<seq<RbNode>>
  {
    seq(|lists|, i requires 0 <= i < |lists| => Remove(lists[i], n))
  }

  /** Every node is in the list it is filed under, once, and in no other; the counters say how many. */
  ghost predicate Filed(lists: seq<seq<RbNode>>, cnt: seq<int>, filed: map<RbNode, nat>)
  {
    && |lists| == |cnt| == FREE_LIST_NUM
    && (forall i :: 0 <= i < |lists| ==> Distinct(lists[i]) && cnt[i] == |lists[i]|)
    && (forall n :: n in filed ==> filed[n] < FREE_LIST_NUM && n in lists[filed[n]])
    && (forall i, n :: 0 <= i < |lists| && n in lists[i] ==> n in filed && filed[n] == i)
  }

  lemma UnfileKeeps(lists: seq<seq<RbNode>>, cnt: seq<int>, filed: map<RbNode, nat>, n: RbNode)
    requires Filed(lists, cnt, filed) && n in filed
    ensures Filed(Without(lists, n), cnt[filed[n] := cnt[filed[n]] - 1], filed - {n})
  {
    var w := Without(lists, n);
    forall i | 0 <= i < |lists|
      ensures w[i] == Remove(lists[i], n) && Distinct(w[i]) && (forall m :: m in w[i] <==> m in lists[i] && m != n)
      ensures |w[i]| == if i == filed[n] then |lists[i]| - 1 else |lists[i]|
    {
      RemoveKeeps(lists[i], n);
    }
    forall m | m in filed - {n}
      ensures filed[m] < FREE_LIST_NUM && m in w[filed[m]]
    {
      assert m in lists[filed[m]];
    }
    forall i, m | 0 <= i < |w| && m in w[i]
      ensures m in filed - {n} && (filed - {n})[m] == i
    {
      StaysIn(lists[i], n, m);
    }
  }

  lemma FileKeeps(lists: seq<seq<RbNode>>, cnt: seq<int>, filed: map<RbNode, nat>, n: RbNode, index: nat)
    requires Filed(lists, cnt, filed) && n !in filed && index < FREE_LIST_NUM
    ensures Filed(lists[index := lists[index] + [n]], cnt[index := cnt[index] + 1], filed[n := index])
  {
    SnocDistinct(lists[index], n);
  }

  // ---- what the nodes of the tree describe ----

  /** The area fields of a node. */
  datatype Area = Area(start: nat, end: nat, length: nat)

  type Areas = map<RbNode, Area>

  ghost predicate Known(order: seq<RbNode>, info: Areas)
  {
    forall n :: n in order ==> n in info
  }

  ghost function SpansOf(order: seq<RbNode>, info: Areas): seq<Span>
    requires Known(order, info)
  {
    seq(|order|, i requires 0 <= i < |order| => assert order[i] in order; Span(info[order[i]].start,
        info[order[i]].end))
  }

  ghost function AllSpans(order: seq<RbNode>, info: Areas): seq<Span>
  {
    if Known(order, info) then SpansOf(order, info) else []
  }

  lemma SpansAppend(a: seq<RbNode>, b: seq<RbNode>, info: Areas)
    requires Known(a, info) && Known(b, info)
    ensures Known(a + b, info) && SpansOf(a + b, info) == SpansOf(a, info) + SpansOf(b, info)
  {
  }

  lemma SpansFrame(a: seq<RbNode>, info: Areas, info': Areas)
    requires Known(a, info) && forall n :: n in a ==> n in info' && info'[n] == info[n]
    ensures Known(a, info') && SpansOf(a, info) == SpansOf(a, info')
  {
  }

  /** The tree nodes in order, their areas and their buckets are consistent: the areas are separated,
      lengths and bucket numbers are right, and freeSize is the sum of the lengths. */
  ghost predicate RegionOk(order: seq<RbNode>, info: Areas, filed: map<RbNode, nat>, freeSize: int)
  {
    && Distinct(order) && info.Keys == (set n | n in order) && filed.Keys == info.Keys
    && Separated(SpansOf(order, info))
    && (forall n :: n in info ==> info[n].end == info[n].start + info[n].length && IndexFits(info[n].length, filed[n]))
    && freeSize == Total(SpansOf(order, info))
  }

  /** The areas of the nodes of `mid` are replaced by those of `mid'`, which is at most one node. */
  ghost predicate Swapped(info: Areas, info': Areas, filed: map<RbNode, nat>, filed': map<RbNode, nat>,
                          mid: seq<RbNode>, mid': seq<RbNode>)
  {
    && filed'.Keys == info'.Keys && |mid'| <= 1
    && (forall n :: n in info' ==> (n in info && n !in mid) || n in mid')
    && (forall n :: n in info && n in filed && n !in mid ==>
         n in info' && n in filed' && info'[n] == info[n] && filed'[n] == filed[n])
    && (forall n :: n in mid' ==> n in info' && (n in mid || n !in info))
  }

  /** A part of the order exchanged: everything but the spans themselves carries over. */
  lemma Exchange(pre: seq<RbNode>, mid: seq<RbNode>, mid': seq<RbNode>, post: seq<RbNode>,
                 info: Areas, info': Areas, filed: map<RbNode, nat>, filed': map<RbNode, nat>, freeSize: int)
    requires RegionOk(pre + mid + post, info, filed, freeSize) && Swapped(info, info', filed, filed', mid, mid')
    ensures Distinct(pre + mid' + post) && info'.Keys == set n | n in pre + mid' + post
    ensures Known(pre, info) && Known(post, info) && Known(mid', info') && Known(pre + mid' + post, info')
    ensures SpansOf(pre + mid' + post, info') == SpansOf(pre, info) + SpansOf(mid', info') + SpansOf(post, info)
  {
    hide Separated, Total, IndexFits;
    var order, order' := pre + mid + post, pre + mid' + post;
    forall n | n in pre || n in post
      ensures n in info && n !in mid && n in info' && info'[n] == info[n]
    {
      assert n in order;
      Apart(pre, mid, post, n);
    }
    SpansFrame(pre, info, info');
    SpansFrame(post, info, info');
    SpansAppend(pre + mid', post, info');
    SpansAppend(pre, mid', info');
    DistinctExchange(pre, mid, mid', post);
    forall n | n in info'
      ensures n in order'
    {
      if n !in mid' { assert n in order; }
    }
  }

  lemma Apart(pre: seq<RbNode>, mid: seq<RbNode>, post: seq<RbNode>, n: RbNode)
    requires Distinct(pre + mid + post) && (n in pre || n in post)
    ensures n !in mid
  {
    var s := pre + mid + post;
    if n in pre {
      var i :| 0 <= i < |pre| && pre[i] == n;
      forall j | 0 <= j < |mid| ensures mid[j] != n { assert s[|pre| + j] == mid[j] && s[i] == n; }
    } else {
      var i :| 0 <= i < |post| && post[i] == n;
      forall j | 0 <= j < |mid| ensures mid[j] != n { assert s[|pre| + j] == mid[j] && s[|pre| + |mid| + i] == n; }
    }
  }

  lemma DistinctExchange(pre: seq<RbNode>, mid: seq<RbNode>, mid': seq<RbNode>, post: seq<RbNode>)
    requires Distinct(pre + mid + post) && Distinct(mid')
    requires forall n :: n in mid' ==> n !in pre && n !in post
    ensures Distinct(pre + mid' + post)
  {
    var s, t := pre + mid + post, pre + mid' + post;
    forall i, j | 0 <= i < j < |t|
      ensures t[i] != t[j]
    {
      var i' := if i < |pre| then i else i - |mid'| + |mid|;
      var j' := if j < |pre| then j else j - |mid'| + |mid|;
      var iMid, jMid := |pre| <= i < |pre| + |mid'|, |pre| <= j < |pre| + |mid'|;
      if !iMid && !jMid {
        assert s[i'] == t[i] && s[j'] == t[j];
      } else if iMid && jMid {
        assert mid'[i - |pre|] == t[i] && mid'[j - |pre|] == t[j];
      } else if iMid {
        assert mid'[i - |pre|] == t[i] && post[j - |pre| - |mid'|] == t[j];
        assert t[i] in mid' && t[j] in post;
      } else {
        assert pre[i] == t[i] && mid'[j - |pre|] == t[j];
        assert t[i] in pre && t[j] in mid';
      }
    }
  }

  /** The nodes of mid' are described rightly. */
  ghost predicate Described(info: Areas, filed: map<RbNode, nat>, mid: seq<RbNode>)
  {
    forall n :: n in mid && n in info && n in filed ==>
        info[n].end == info[n].start + info[n].length && IndexFits(info[n].length, filed[n])
  }

  /** New spans in place of old ones: if they are separated, everything else about the region carries over. */
  lemma Reform(pre: seq<RbNode>, mid: seq<RbNode>, mid': seq<RbNode>, post: seq<RbNode>,
               info: Areas, info': Areas, filed: map<RbNode, nat>, filed': map<RbNode, nat>, freeSize: int,
                   new': seq<Span>)
    requires RegionOk(pre + mid + post, info, filed, freeSize) && Swapped(info, info', filed, filed', mid, mid')
    requires Described(info', filed', mid') && AllSpans(mid', info') == new'
    requires Separated(AllSpans(pre, info) + new' + AllSpans(post, info))
    ensures RegionOk(pre + mid' + post, info', filed', Total(AllSpans(pre, info) + new' + AllSpans(post, info)))
    ensures AllSpans(pre + mid' + post, info') == AllSpans(pre, info) + new' + AllSpans(post, info)
  {
    hide Separated, Total, IndexFits;
    Exchange(pre, mid, mid', post, info, info', filed, filed', freeSize);
    forall n | n in info'
      ensures info'[n].end == info'[n].start + info'[n].length && IndexFits(info'[n].length, filed'[n])
    {
      assert n in mid' || (n in info && n !in mid);
    }
  }

  /** One node out, one in; `m` and `n` may be the same. */
  lemma SwapOne(info: Areas, filed: map<RbNode, nat>, m: RbNode, n: RbNode, area: Area, index: nat)
    requires filed.Keys == info.Keys && (n == m || n !in info)
    ensures Swapped(info, (info - {m})[n := area], filed, (filed - {m})[n := index], [m], [n])
    ensures area.end == area.start + area.length && IndexFits(area.length, index) ==>
              Described((info - {m})[n := area], (filed - {m})[n := index], [n])
    ensures AllSpans([n], (info - {m})[n := area]) == [Span(area.start, area.end)]
  {
  }

  lemma SwapNone(info: Areas, filed: map<RbNode, nat>, n: RbNode, area: Area, index: nat)
    requires filed.Keys == info.Keys && n !in info
    ensures Swapped(info, info[n := area], filed, filed[n := index], [], [n])
    ensures area.end == area.start + area.length && IndexFits(area.length, index) ==>
              Described(info[n := area], filed[n := index], [n])
    ensures AllSpans([n], info[n := area]) == [Span(area.start, area.end)]
  {
  }

  lemma SwapTwo(info: Areas, filed: map<RbNode, nat>, p: RbNode, m: RbNode, area: Area, index: nat)
    requires filed.Keys == info.Keys && p in info && m in info && p != m
    ensures Swapped(info, (info - {m})[p := area], filed, (filed - {m})[p := index], [p, m], [p])
    ensures area.end == area.start + area.length && IndexFits(area.length, index) ==>
              Described((info - {m})[p := area], (filed - {m})[p := index], [p])
    ensures AllSpans([p], (info - {m})[p := area]) == [Span(area.start, area.end)]
  {
  }

  lemma SwapOut(info: Areas, filed: map<RbNode, nat>, m: RbNode)
    requires filed.Keys == info.Keys
    ensures Swapped(info, info - {m}, filed, filed - {m}, [m], []) && Described(info - {m}, filed - {m}, [])
    ensures AllSpans([], info - {m}) == []
  {
  }

  /** The spans of a region, cut at a part of its order. */
  lemma Cut(pre: seq<RbNode>, mid: seq<RbNode>, post: seq<RbNode>, info: Areas, filed: map<RbNode, nat>, freeSize: int)
    requires RegionOk(pre + mid + post, info, filed, freeSize)
    ensures Known(pre, info) && Known(mid, info) && Known(post, info) && filed.Keys == info.Keys
    ensures AllSpans(pre + mid + post, info) == AllSpans(pre, info) + AllSpans(mid, info) + AllSpans(post, info)
    ensures Separated(AllSpans(pre + mid + post, info)) && Total(AllSpans(pre + mid + post, info)) == freeSize
    ensures forall n :: n in mid ==> n in info && info[n].end == info[n].start + info[n].length
  {
    hide Separated, Total, IndexFits;
    var order := pre + mid + post;
    assert forall n :: n in pre || n in mid || n in post ==> n in order;
    SpansAppend(pre + mid, post, info);
    SpansAppend(pre, mid, info);
  }

  lemma EndsBelow(pre: seq<RbNode>, info: Areas, a: nat)
    requires Known(pre, info) && forall m :: m in pre ==> m in info && info[m].end < a
    ensures forall i :: 0 <= i < |AllSpans(pre, info)| ==> AllSpans(pre, info)[i].end < a
  {
    forall i | 0 <= i < |pre| ensures AllSpans(pre, info)[i].end < a { assert pre[i] in pre; }
  }

  lemma StartsAbove(post: seq<RbNode>, info: Areas, b: nat)
    requires Known(post, info) && forall m :: m in post ==> m in info && b < info[m].start
    ensures forall i :: 0 <= i < |AllSpans(post, info)| ==> b < AllSpans(post, info)[i].start
  {
    forall i | 0 <= i < |post| ensures b < AllSpans(post, info)[i].start { assert post[i] in post; }
  }

  lemma OneSpan(n: RbNode, info: Areas)
    requires n in info
    ensures Known([n], info) && AllSpans([n], info) == [Span(info[n].start, info[n].end)]
  {
  }

  lemma NoSpans(info: Areas)
    ensures AllSpans([], info) == []
  {
  }

  lemma TwoSpans(p: RbNode, m: RbNode, info: Areas)
    requires p in info && m in info
    ensures AllSpans([p, m], info) == [Span(info[p].start, info[p].end), Span(info[m].start, info[m].end)]
  {
  }

  /** The spans around a given one lie strictly on either side of it. */
  lemma AroundOne(l: seq<Span>, m: Span, r: seq<Span>)
    requires Separated(l + [m] + r)
    ensures forall i :: 0 <= i < |l| ==> l[i].end < m.start
    ensures forall i :: 0 <= i < |r| ==> m.end < r[i].start
    ensures m.start < m.end
  {
    var t := l + [m] + r;
    assert t[|l|] == m;
    forall i | 0 <= i < |l| ensures l[i].end < m.start { assert t[i] == l[i]; }
    forall i | 0 <= i < |r| ensures m.end < r[i].start { assert t[|l| + 1 + i] == r[i]; }
  }

  lemma GrowLone(l: seq<Span>, none: seq<Span>, r: seq<Span>, a: nat, b: nat)
    requires |none| == 0 && Separated(l + none + r) && a < b
    requires (forall i :: 0 <= i < |l| ==> l[i].end < a) && (forall i :: 0 <= i < |r| ==> b < r[i].start)
    ensures Separated(l + [Span(a, b)] + r) && Gained(l + none + r, l + [Span(a, b)] + r, a, b)
    ensures Total(l + [Span(a, b)] + r) == Total(l + none + r) + b - a
  {
    hide Separated, Gained;
    Swallow(l, none, r, Span(a, b), a, b);
    TotalMiddle(l, Span(a, b), r);
    TotalAppend(l + none, r);
    TotalAppend(l, none);
  }

  lemma GrowBefore(l: seq<Span>, m: Span, r: seq<Span>, a: nat)
    requires Separated(l + [m] + r) && a < m.start && forall i :: 0 <= i < |l| ==> l[i].end < a
    ensures Separated(l + [Span(a, m.end)] + r) && Gained(l + [m] + r, l + [Span(a, m.end)] + r, a, m.start)
    ensures Total(l + [Span(a, m.end)] + r) == Total(l + [m] + r) + m.start - a
  {
    hide Separated, Gained, Lost, Total;
    AroundOne(l, m, r);
    OneFree(m);
    Swallow(l, [m], r, Span(a, m.end), a, m.start);
    TotalMiddle(l, Span(a, m.end), r);
    TotalMiddle(l, m, r);
  }

  lemma NothingGained(s: seq<Span>, a: nat)
    ensures Gained(s, s, a, a)
  {
  }

  lemma GrowAfter(l: seq<Span>, m: Span, r: seq<Span>, b: nat)
    requires Separated(l + [m] + r) && m.end < b && forall i :: 0 <= i < |r| ==> b < r[i].start
    ensures Separated(l + [Span(m.start, b)] + r) && Gained(l + [m] + r, l + [Span(m.start, b)] + r, m.end, b)
    ensures Total(l + [Span(m.start, b)] + r) == Total(l + [m] + r) + b - m.end
  {
    hide Separated, Gained, Lost, Total;
    AroundOne(l, m, r);
    OneFree(m);
    Swallow(l, [m], r, Span(m.start, b), m.end, b);
    TotalMiddle(l, Span(m.start, b), r);
    TotalMiddle(l, m, r);
  }

  lemma GrowBetween(l: seq<Span>, p: Span, m: Span, r: seq<Span>)
    requires Separated(l + [p, m] + r)
    ensures Separated(l + [Span(p.start, m.end)] + r) && Gained(l + [p, m] + r, l + [Span(p.start, m.end)] + r, p.end,
              m.start)
    ensures Total(l + [Span(p.start, m.end)] + r) == Total(l + [p, m] + r) + m.start - p.end
  {
    hide Separated, Gained;
    var t := l + [p, m] + r;
    assert t[|l|] == p && t[|l| + 1] == m;
    assert t == l + [p] + ([m] + r) && t == (l + [p]) + [m] + r;
    AroundOne(l, p, [m] + r);
    AroundOne(l + [p], m, r);
    TwoFree(p, m);
    Swallow(l, [p, m], r, Span(p.start, m.end), p.end, m.start);
    TotalMiddle(l, Span(p.start, m.end), r);
    TotalMiddle(l, p, [m] + r);
    TotalAppend([m], r);
  }

  lemma CutWhole(l: seq<Span>, m: Span, r: seq<Span>)
    requires Separated(l + [m] + r)
    ensures Separated(l + [] + r) && Lost(l + [m] + r, l + [] + r, m.start, m.end)
    ensures Total(l + [] + r) == Total(l + [m] + r) - (m.end - m.start)
  {
    hide Separated, Gained, Lost, Total;
    AroundOne(l, m, r);
    Shrink(l, m, [], r, m.start, m.end);
    TotalMiddle(l, m, r);
    assert l + [] + r == l + r;
    TotalAppend(l, r);
  }

  lemma CutFront(l: seq<Span>, m: Span, r: seq<Span>, b: nat)
    requires Separated(l + [m] + r) && m.start < b < m.end
    ensures Separated(l + [Span(b, m.end)] + r) && Lost(l + [m] + r, l + [Span(b, m.end)] + r, m.start, b)
    ensures Total(l + [Span(b, m.end)] + r) == Total(l + [m] + r) - (b - m.start)
  {
    hide Separated, Gained, Lost, Total;
    OneFree(Span(b, m.end));
    Shrink(l, m, [Span(b, m.end)], r, m.start, b);
    TotalMiddle(l, m, r);
    TotalMiddle(l, Span(b, m.end), r);
  }

  lemma OneFree(m: Span)
    ensures forall x: nat :: FreeAt([m], x) <==> m.start <= x < m.end
  {
    assert [m][0] == m;
  }

  lemma TwoFree(m: Span, n: Span)
    ensures forall x: nat :: FreeAt([m, n], x) <==> m.start <= x < m.end || n.start <= x < n.end
  {
    assert [m, n][0] == m && [m, n][1] == n;
  }

  // ---- what freeing and allocating do to a region ----

  /** A freed block that touches no free area. */
  lemma AddLone(pre: seq<RbNode>, post: seq<RbNode>, info: Areas, filed: map<RbNode, nat>, freeSize: int,
                n: RbNode, a: nat, length: nat, index: nat)
    requires RegionOk(pre + post, info, filed, freeSize) && n !in info && length > 0
    requires forall m :: m in pre ==> m in info && info[m].end < a
    requires forall m :: m in post ==> m in info && a + length < info[m].start
    requires IndexFits(length, index)
    ensures var info', filed' := info[n := Area(a, a + length, length)], filed[n := index];
            && RegionOk(pre + [n] + post, info', filed', freeSize + length)
            && Gained(AllSpans(pre + post, info), AllSpans(pre + [n] + post, info'), a, a + length)
  {
    hide Separated, Gained, Total, IndexFits, RegionOk, Swapped, Described, AllSpans;
    var info', filed' := info[n := Area(a, a + length, length)], filed[n := index];
    assert pre + [] + post == pre + post;
    Cut(pre, [], post, info, filed, freeSize);
    NoSpans(info);
    EndsBelow(pre, info, a);
    StartsAbove(post, info, a + length);
    GrowLone(AllSpans(pre, info), AllSpans([], info), AllSpans(post, info), a, a + length);
    SwapNone(info, filed, n, Area(a, a + length, length), index);
    Reform(pre, [], [n], post, info, info', filed, filed', freeSize, [Span(a, a + length)]);
  }

  /** A freed block right before a free area m, whose node gives way to n. */
  lemma AddBefore(pre: seq<RbNode>, m: RbNode, post: seq<RbNode>, info: Areas, filed: map<RbNode, nat>, freeSize: int,
                  n: RbNode, a: nat, length: nat, index: nat)
    requires RegionOk(pre + [m] + post, info, filed, freeSize) && n !in info && length > 0
    requires m in info && a + length == info[m].start && forall k :: k in pre ==> k in info && info[k].end < a
    requires IndexFits(length + info[m].length, index)
    ensures var info' := (info - {m})[n := Area(a, info[m].end, length + info[m].length)];
            && RegionOk(pre + [n] + post, info', (filed - {m})[n := index], freeSize + length)
            && Gained(AllSpans(pre + [m] + post, info), AllSpans(pre + [n] + post, info'), a, a + length)
  {
    hide Separated, Gained, Total, IndexFits, RegionOk, Swapped, Described, AllSpans;
    var info', filed' := (info - {m})[n := Area(a, info[m].end, length + info[m].length)], (filed - {m})[n := index];
    Cut(pre, [m], post, info, filed, freeSize);
    OneSpan(m, info);
    EndsBelow(pre, info, a);
    GrowBefore(AllSpans(pre, info), Span(info[m].start, info[m].end), AllSpans(post, info), a);
    SwapOne(info, filed, m, n, info'[n], index);
    Reform(pre, [m], [n], post, info, info', filed, filed', freeSize, [Span(a, info[m].end)]);
  }

  /** A freed block right after the free area m, which grows. */
  lemma AddAfter(pre: seq<RbNode>, m: RbNode, post: seq<RbNode>, info: Areas, filed: map<RbNode, nat>, freeSize: int,
                 a: nat, length: nat, index: nat)
    requires RegionOk(pre + [m] + post, info, filed, freeSize)
    requires m in info && a == info[m].end && forall k :: k in post ==> k in info && a + length < info[k].start
    requires IndexFits(info[m].length + length, index)
    ensures var info' := info[m := Area(info[m].start, a + length, info[m].length + length)];
            && RegionOk(pre + [m] + post, info', filed[m := index], freeSize + length)
            && Gained(AllSpans(pre + [m] + post, info), AllSpans(pre + [m] + post, info'), a, a + length)
  {
    hide Separated, Gained, Total, IndexFits, RegionOk, Swapped, Described, AllSpans;
    var info', filed' := info[m := Area(info[m].start, a + length, info[m].length + length)], filed[m := index];
    Cut(pre, [m], post, info, filed, freeSize);
    OneSpan(m, info);
    StartsAbove(post, info, a + length);
    if length == 0 {
      NothingGained(AllSpans(pre, info) + [Span(info[m].start, a)] + AllSpans(post, info), a);
    } else {
      GrowAfter(AllSpans(pre, info), Span(info[m].start, info[m].end), AllSpans(post, info), a + length);
    }
    SwapOne(info, filed, m, m, info'[m], index);
    assert info' == (info - {m})[m := info'[m]] && filed' == (filed - {m})[m := index];
    Reform(pre, [m], [m], post, info, info', filed, filed', freeSize, [Span(info[m].start, a + length)]);
  }

  /** A freed block that fills the gap between two free areas: p grows over both, m goes away. */
  lemma AddBetween(pre: seq<RbNode>, p: RbNode, m: RbNode, post: seq<RbNode>, info: Areas, filed: map<RbNode, nat>,
                   freeSize: int,
                   a: nat, length: nat, index: nat)
    requires RegionOk(pre + [p, m] + post, info, filed, freeSize) && length > 0
    requires p in info && m in info && p != m && info[p].end == a && a + length == info[m].start
    requires IndexFits(info[p].length + length + info[m].length, index)
    ensures var info' := (info - {m})[p := Area(info[p].start, info[m].end, info[p].length + length + info[m].length)];
            && RegionOk(pre + [p] + post, info', (filed - {m})[p := index], freeSize + length)
            && Gained(AllSpans(pre + [p, m] + post, info), AllSpans(pre + [p] + post, info'), a, a + length)
  {
    hide Separated, Gained, Total, IndexFits, RegionOk, Swapped, Described, AllSpans;
    var info' := (info - {m})[p := Area(info[p].start, info[m].end, info[p].length + length + info[m].length)];
    var filed' := (filed - {m})[p := index];
    Cut(pre, [p, m], post, info, filed, freeSize);
    TwoSpans(p, m, info);
    GrowBetween(AllSpans(pre, info), Span(info[p].start, info[p].end), Span(info[m].start, info[m].end),
        AllSpans(post, info));
    SwapTwo(info, filed, p, m, info'[p], index);
    Reform(pre, [p, m], [p], post, info, info', filed, filed', freeSize, [Span(info[p].start, info[m].end)]);
  }

  /** A whole free area taken. */
  lemma TakeWhole(pre: seq<RbNode>, m: RbNode, post: seq<RbNode>, info: Areas, filed: map<RbNode, nat>, freeSize: int)
    requires RegionOk(pre + [m] + post, info, filed, freeSize) && m in info
    ensures RegionOk(pre + post, info - {m}, filed - {m}, freeSize - info[m].length)
    ensures Lost(AllSpans(pre + [m] + post, info), AllSpans(pre + post, info - {m}), info[m].start,
              info[m].start + info[m].length)
  {
    hide Separated, Lost, Total, IndexFits, RegionOk, Swapped, Described, AllSpans;
    var info', filed' := info - {m}, filed - {m};
    assert pre + [] + post == pre + post;
    Cut(pre, [m], post, info, filed, freeSize);
    OneSpan(m, info);
    CutWhole(AllSpans(pre, info), Span(info[m].start, info[m].end), AllSpans(post, info));
    SwapOut(info, filed, m);
    Reform(pre, [m], [], post, info, info', filed, filed', freeSize, []);
  }

  /** The front of a free area taken; the node n stands for what is left. */
  lemma TakeFront(pre: seq<RbNode>, m: RbNode, post: seq<RbNode>, info: Areas, filed: map<RbNode, nat>, freeSize: int,
                  n: RbNode, length: nat, index: nat)
    requires RegionOk(pre + [m] + post, info, filed, freeSize) && m in info && n !in info && 0 < length < info[m].length
    requires IndexFits(info[m].length - length, index)
    ensures var info' := (info - {m})[n := Area(info[m].start + length, info[m].end, info[m].length - length)];
            && RegionOk(pre + [n] + post, info', (filed - {m})[n := index], freeSize - length)
            && Lost(AllSpans(pre + [m] + post, info), AllSpans(pre + [n] + post, info'), info[m].start,
                 info[m].start + length)
  {
    hide Separated, Lost, Total, IndexFits, RegionOk, Swapped, Described, AllSpans;
    var info' := (info - {m})[n := Area(info[m].start + length, info[m].end, info[m].length - length)];
    var filed' := (filed - {m})[n := index];
    Cut(pre, [m], post, info, filed, freeSize);
    OneSpan(m, info);
    CutFront(AllSpans(pre, info), Span(info[m].start, info[m].end), AllSpans(post, info), info[m].start + length);
    SwapOne(info, filed, m, n, info'[n], index);
    Reform(pre, [m], [n], post, info, info', filed, filed', freeSize, [Span(info[m].start + length, info[m].end)]);
  }

  lemma FreedFits(length: nat)
    ensures IndexFits(length, FreedIndex(length))
  {
  }

  lemma SplitFits(length: nat)
    ensures IndexFits(length, SplitIndex(length)) && SplitIndex(length) < FREE_LIST_NUM
  {
  }

  /** No area is longer than all free bytes together. */
  lemma AreaWithin(pre: seq<RbNode>, m: RbNode, post: seq<RbNode>, info: Areas, filed: map<RbNode, nat>, freeSize: int)
    requires RegionOk(pre + [m] + post, info, filed, freeSize) && m in info
    ensures 0 < info[m].length <= freeSize && info[m].end == info[m].start + info[m].length
  {
    hide IndexFits, Total, Distinct;
    Cut(pre, [m], post, info, filed, freeSize);
    OneSpan(m, info);
    var l, r := AllSpans(pre, info), AllSpans(post, info);
    var t := l + [Span(info[m].start, info[m].end)] + r;
    assert t[|l|] == Span(info[m].start, info[m].end);
    TotalAtLeast(t, |l|);
  }

  lemma Refiled(filed: map<RbNode, nat>, keep: RbNode, gone: RbNode, index: nat)
    ensures (filed - {gone} - {keep})[keep := index] == (filed - {gone})[keep := index]
  {
  }

  /** The areas before and after a given one in order lie strictly below and above it. */
  lemma Neighbours(pre: seq<RbNode>, m: RbNode, post: seq<RbNode>, info: Areas, filed: map<RbNode, nat>, freeSize: int)
    requires RegionOk(pre + [m] + post, info, filed, freeSize)
    ensures m in info && info[m].start < info[m].end && info[m].end == info[m].start + info[m].length
    ensures forall k :: k in pre ==> k in info && info[k].end < info[m].start && k != m
    ensures forall k :: k in post ==> k in info && info[m].end < info[k].start && k != m
  {
    hide Separated, Total, IndexFits, RegionOk;
    Cut(pre, [m], post, info, filed, freeSize);
    assert m in [m];
    OneSpan(m, info);
    var l, r := AllSpans(pre, info), AllSpans(post, info);
    AroundOne(l, Span(info[m].start, info[m].end), r);
    forall k | k in pre
      ensures k in info && info[k].end < info[m].start && k != m
    {
      var i :| 0 <= i < |pre| && pre[i] == k;
      assert l[i].end < info[m].start;
    }
    forall k | k in post
      ensures k in info && info[m].end < info[k].start && k != m
    {
      var i :| 0 <= i < |post| && post[i] == k;
      assert info[m].end < r[i].start;
    }
  }

  /** The bucket numbers of the areas, in address order. */
  ghost function AllFilings(order: seq<RbNode>, filed: map<RbNode, nat>): seq<nat>
  {
    seq(|order|, i requires 0 <= i < |order| => if order[i] in filed then filed[order[i]] else 0)
  }

  // ---- where a freed block lands ----

  /** Where the descent of MemoryAreaInsert ends: in an empty place, at an area that begins where the
      block ends, at one that ends where it begins, or at one that overlaps it. */
  datatype Landing = InGap | InFront(node: RbNode) | Behind(node: RbNode) | Clash(node: RbNode)

  ghost function Land(t: Tree, info: Areas, a: nat, b: nat): Landing
  {
    if t.Leaf? || t.node !in info then InGap
    else if b == info[t.node].start then InFront(t.node)
    else if b < info[t.node].start then Land(t.left, info, a, b)
    else if a == info[t.node].end then Behind(t.node)
    else if a > info[t.node].end then Land(t.right, info, a, b)
    else Clash(t.node)
  }

  /** All areas of `pre` end below a, all of `post` begin above b. */
  ghost predicate Between(pre: seq<RbNode>, post: seq<RbNode>, info: Areas, a: nat, b: nat)
  {
    && (forall m :: m in pre ==> m in info && info[m].end < a)
    && (forall m :: m in post ==> m in info && b < info[m].start)
  }

  /** A step of the descent to the left ... */
  lemma StepLeft(path: Path, t: Tree, info: Areas, filed: map<RbNode, nat>, freeSize: int, a: nat, b: nat)
    requires t.Node? && RegionOk(InOrder(Plug(path, t)), info, filed, freeSize)
               && Between(Before(path), After(path), info, a, b)
    requires t.node in info && b < info[t.node].start
    ensures var low := Under(true, t.node, t.color, t.right, path);
            Plug(low, t.left) == Plug(path, t) && Between(Before(low), After(low), info, a, b)
  {
    hide RegionOk, Plug;
    PlugInOrder(path, t);
    InnerOrder(path, t);
    Neighbours(Before(path) + InOrder(t.left), t.node, InOrder(t.right) + After(path), info, filed, freeSize);
    PlugLeft(path, t);
  }

  lemma PlugLeft(path: Path, t: Tree)
    requires t.Node?
    ensures Plug(Under(true, t.node, t.color, t.right, path), t.left) == Plug(path, t)
    ensures Plug(Under(false, t.node, t.color, t.left, path), t.right) == Plug(path, t)
  {
  }

  lemma InnerOrder(path: Path, t: Tree)
    requires t.Node?
    ensures RbTree.Order(path, t) == (Before(path) + InOrder(t.left)) + [t.node] + (InOrder(t.right) + After(path))
  {
  }

  /** ... and to the right. */
  lemma StepRight(path: Path, t: Tree, info: Areas, filed: map<RbNode, nat>, freeSize: int, a: nat, b: nat)
    requires t.Node? && RegionOk(InOrder(Plug(path, t)), info, filed, freeSize)
               && Between(Before(path), After(path), info, a, b)
    requires t.node in info && info[t.node].end < a
    ensures var low := Under(false, t.node, t.color, t.left, path);
            Plug(low, t.right) == Plug(path, t) && Between(Before(low), After(low), info, a, b)
  {
    hide RegionOk, Plug;
    PlugInOrder(path, t);
    InnerOrder(path, t);
    Neighbours(Before(path) + InOrder(t.left), t.node, InOrder(t.right) + After(path), info, filed, freeSize);
    PlugLeft(path, t);
  }

  lemma ClearNodes(order: seq<RbNode>, info: Areas, a: nat, b: nat)
    requires Known(order, info) && Clear(AllSpans(order, info), a, b)
    ensures forall m :: m in order ==> m in info && (info[m].end <= a || b <= info[m].start)
  {
    forall m | m in order
      ensures m in info && (info[m].end <= a || b <= info[m].start)
    {
      var i :| 0 <= i < |order| && order[i] == m;
      assert AllSpans(order, info)[i] == Span(info[m].start, info[m].end);
    }
  }

  /** A block in front of m: only the last area before m can touch it on the other side. */
  lemma LastDecides(pre: seq<RbNode>, m: RbNode, post: seq<RbNode>, info: Areas, filed: map<RbNode, nat>, freeSize: int,
                    a: nat, b: nat)
    requires RegionOk(pre + [m] + post, info, filed, freeSize) && m in info && b == info[m].start && a < b
    requires Clear(AllSpans(pre + [m] + post, info), a, b)
    requires pre != [] ==> Last(pre) in info && info[Last(pre)].end != a
    ensures forall k :: k in pre ==> k in info && info[k].end < a
  {
    hide Clear;
    Neighbours(pre, m, post, info, filed, freeSize);
    ClearNodes(pre + [m] + post, info, a, b);
    if pre != [] {
      var front, last := pre[..|pre| - 1], Last(pre);
      assert pre + [m] + post == front + [last] + ([m] + post) && pre == front + [last];
      Neighbours(front, last, [m] + post, info, filed, freeSize);
      assert last in pre;
    }
  }

  /** A block behind m: only the first area after m can touch it on the other side. */
  lemma FirstDecides(pre: seq<RbNode>, m: RbNode, post: seq<RbNode>, info: Areas, filed: map<RbNode, nat>,
                     freeSize: int, a: nat, b: nat)
    requires RegionOk(pre + [m] + post, info, filed, freeSize) && m in info && a == info[m].end && a <= b
    requires Clear(AllSpans(pre + [m] + post, info), a, b)
    requires post != [] ==> post[0] in info && info[post[0]].start != b
    ensures forall k :: k in post ==> k in info && b < info[k].start
  {
    hide Clear, RegionOk, AllSpans;
    Neighbours(pre, m, post, info, filed, freeSize);
    ClearNodes(pre + [m] + post, info, a, b);
    if post != [] {
      var first, rest := post[0], post[1..];
      assert pre + [m] + post == (pre + [m]) + [first] + rest && post == [first] + rest;
      Neighbours(pre + [m], first, rest, info, filed, freeSize);
      assert first in post;
    }
  }

  lemma SwapKeys(info: Areas, m: RbNode, n: RbNode, area: Area)
    requires n !in info && m in info
    ensures info[n := area] - {m} == (info - {m})[n := area]
  {
  }

  lemma EmptyPlace(path: Path, tree: Tree)
    requires Plug(path, Leaf) == tree
    ensures InOrder(tree) == Before(path) + After(path)
  {
    PlugInOrder(path, Leaf);
    EmptyOrder();
  }

  // ---- the run of free addresses a freed block becomes part of ----

  /** Where the free span that ends at a begins, or a itself. */
  ghost function RunStart(s: seq<Span>, a: nat): nat
  {
    if exists i :: 0 <= i < |s| && s[i].end == a then
      var i :| 0 <= i < |s| && s[i].end == a; s[i].start
    else a
  }

  ghost function RunEnd(s: seq<Span>, b: nat): nat
  {
    if exists i :: 0 <= i < |s| && s[i].start == b then
      var i :| 0 <= i < |s| && s[i].start == b; s[i].end
    else b
  }

  /** The length of [a, b) together with the free spans it touches. */
  ghost function Joined(s: seq<Span>, a: nat, b: nat): nat
  {
    if RunStart(s, a) <= RunEnd(s, b) then RunEnd(s, b) - RunStart(s, a) else 0
  }

  lemma RunStartIs(s: seq<Span>, i: nat)
    requires Separated(s) && i < |s|
    ensures RunStart(s, s[i].end) == s[i].start
  {
    forall j | 0 <= j < |s| && j != i
      ensures s[j].end != s[i].end
    {
      if j < i { assert s[j].end < s[i].start; } else { assert s[i].end < s[j].start; }
    }
  }

  lemma RunEndIs(s: seq<Span>, i: nat)
    requires Separated(s) && i < |s|
    ensures RunEnd(s, s[i].start) == s[i].end
  {
    forall j | 0 <= j < |s| && j != i
      ensures s[j].start != s[i].start
    {
      if j < i { assert s[j].end < s[i].start; } else { assert s[i].end < s[j].start; }
    }
  }

  /** No merged run is longer than all free bytes and the block together. */
  lemma JoinedWithin(s: seq<Span>, a: nat, b: nat, lo: nat, hi: nat)
    requires a < b && lo <= a && b <= hi && forall i :: 0 <= i < |s| ==> lo <= s[i].start && s[i].end <= hi
    requires forall i :: 0 <= i < |s| ==> s[i].start < s[i].end
    ensures b - a <= Joined(s, a, b) <= hi - lo
  {
  }

  /** The position of a node in the order is the position of its span. */
  lemma SpanAt(pre: seq<RbNode>, m: RbNode, post: seq<RbNode>, info: Areas, filed: map<RbNode, nat>, freeSize: int)
    requires RegionOk(pre + [m] + post, info, filed, freeSize) && m in info
    ensures |AllSpans(pre + [m] + post, info)| == |pre| + 1 + |post|
    ensures AllSpans(pre + [m] + post, info)[|pre|] == Span(info[m].start, info[m].end)
    ensures Separated(AllSpans(pre + [m] + post, info))
  {
    assert (pre + [m] + post)[|pre|] == m;
  }

  lemma JoinedRight(pre: seq<RbNode>, m: RbNode, post: seq<RbNode>, info: Areas, filed: map<RbNode, nat>, freeSize: int,
                    a: nat, b: nat)
    requires RegionOk(pre + [m] + post, info, filed, freeSize) && m in info && b == info[m].start && a < b
    requires forall k :: k in pre ==> k in info && info[k].end < a
    ensures Joined(AllSpans(pre + [m] + post, info), a, b) == b - a + info[m].length
    ensures RunStart(AllSpans(pre + [m] + post, info), a) == a
  {
    hide RegionOk;
    var s := AllSpans(pre + [m] + post, info);
    SpanAt(pre, m, post, info, filed, freeSize);
    Neighbours(pre, m, post, info, filed, freeSize);
    RunEndIs(s, |pre|);
    Cut(pre, [m], post, info, filed, freeSize);
    EndsBelow(pre, info, a);
    forall i | 0 <= i < |s|
      ensures s[i].end != a
    {
      if i < |pre| {
        assert s[i] == AllSpans(pre, info)[i];
      } else {
        assert i > |pre| ==> s[|pre|].end < s[i].start;
      }
    }
  }

  lemma JoinedBoth(pre: seq<RbNode>, m: RbNode, post: seq<RbNode>, info: Areas, filed: map<RbNode, nat>, freeSize: int,
                   a: nat, b: nat)
    requires RegionOk(pre + [m] + post, info, filed, freeSize) && m in info && b == info[m].start && a < b
    requires pre != [] && Last(pre) in info && info[Last(pre)].end == a
    ensures Joined(AllSpans(pre + [m] + post, info), a, b) == info[Last(pre)].length + (b - a) + info[m].length
    ensures RunStart(AllSpans(pre + [m] + post, info), a) == info[Last(pre)].start < a
  {
    hide RegionOk;
    var s, front, last := AllSpans(pre + [m] + post, info), pre[..|pre| - 1], Last(pre);
    SpanAt(pre, m, post, info, filed, freeSize);
    Neighbours(pre, m, post, info, filed, freeSize);
    RunEndIs(s, |pre|);
    assert pre + [m] + post == front + [last] + ([m] + post);
    SpanAt(front, last, [m] + post, info, filed, freeSize);
    Neighbours(front, last, [m] + post, info, filed, freeSize);
    RunStartIs(s, |pre| - 1);
  }

  /** The block begins where m ends, and nothing begins where it ends. */
  lemma JoinedLeft(pre: seq<RbNode>, m: RbNode, post: seq<RbNode>, info: Areas, filed: map<RbNode, nat>, freeSize: int,
                   a: nat, b: nat)
    requires RegionOk(pre + [m] + post, info, filed, freeSize) && m in info && a == info[m].end && a <= b
    requires forall k :: k in post ==> k in info && b < info[k].start
    ensures Joined(AllSpans(pre + [m] + post, info), a, b) == info[m].length + (b - a)
    ensures RunStart(AllSpans(pre + [m] + post, info), a) == info[m].start
  {
    hide RegionOk;
    var s := AllSpans(pre + [m] + post, info);
    SpanAt(pre, m, post, info, filed, freeSize);
    Neighbours(pre, m, post, info, filed, freeSize);
    RunStartIs(s, |pre|);
    Cut(pre, [m], post, info, filed, freeSize);
    StartsAbove(post, info, b);
    forall i | 0 <= i < |s|
      ensures s[i].start != b
    {
      if i > |pre| {
        assert s[i] == AllSpans(post, info)[i - |pre| - 1];
      } else {
        assert i < |pre| ==> s[i].start < s[i].end < s[|pre|].start;
        assert s[|pre|].start < s[|pre|].end;
      }
    }
  }

  /** The block fills the gap between m and k. */
  lemma NextJoins(pre: seq<RbNode>, m: RbNode, k: RbNode, post: seq<RbNode>, info: Areas, filed: map<RbNode, nat>,
                  freeSize: int, a: nat, b: nat)
    requires RegionOk(pre + [m, k] + post, info, filed, freeSize) && m in info && k in info
    requires a == info[m].end && b == info[k].start && a < b
    ensures Joined(AllSpans(pre + [m, k] + post, info), a, b) == info[m].length + (b - a) + info[k].length
    ensures RunStart(AllSpans(pre + [m, k] + post, info), a) == info[m].start
  {
    hide RegionOk;
    assert pre + [m, k] + post == (pre + [m]) + [k] + post;
    assert Last(pre + [m]) == m;
    JoinedBoth(pre + [m], k, post, info, filed, freeSize, a, b);
  }

  /** The block touches nothing. */
  lemma LoneRun(pre: seq<RbNode>, post: seq<RbNode>, info: Areas, filed: map<RbNode, nat>, freeSize: int, a: nat,
                b: nat)
    requires RegionOk(pre + post, info, filed, freeSize) && a <= b && Between(pre, post, info, a, b)
    ensures Joined(AllSpans(pre + post, info), a, b) == b - a && RunStart(AllSpans(pre + post, info), a) == a
  {
    hide IndexFits, Total;
    var s, order := AllSpans(pre + post, info), pre + post;
    forall i | 0 <= i < |s|
      ensures s[i].end != a && s[i].start != b
    {
      assert order[i] in pre || order[i] in post;
      assert s[i].start < s[i].end;
    }
  }

  /** What Prev gives for the area behind the block: the one area that can touch the block in front, if any does. */
  lemma PrevLands(path: Path, t: Tree, info: Areas, filed: map<RbNode, nat>, freeSize: int, a: nat, b: nat,
                  neighb: RbNode)
    requires t.Node? && t.node in info && b == info[t.node].start && a < b
    requires RegionOk((Before(path) + InOrder(t.left)) + [t.node] + (InOrder(t.right) + After(path)), info, filed,
               freeSize)
    requires Clear(AllSpans((Before(path) + InOrder(t.left)) + [t.node] + (InOrder(t.right) + After(path)), info), a, b)
    requires Between(Before(path), After(path), info, a, b)
    requires if t.left.Leaf? then neighb == t.node else InOrder(t.left) != [] && neighb == Last(InOrder(t.left))
    ensures neighb in info
    ensures var pre := Before(path) + InOrder(t.left);
            && (info[neighb].end == a ==> pre != [] && neighb == Last(pre) && neighb != t.node)
            && (info[neighb].end != a ==> forall k :: k in pre ==> k in info && info[k].end < a)
  {
    hide RegionOk, Clear, AllSpans, InOrder, Before, After;
    var pre, post := Before(path) + InOrder(t.left), InOrder(t.right) + After(path);
    Neighbours(pre, t.node, post, info, filed, freeSize);
    if t.left.Leaf? {
      EmptyOrder();
    } else {
      assert Last(pre) == neighb && neighb in pre;
      if info[neighb].end != a {
        LastDecides(pre, t.node, post, info, filed, freeSize, a, b);
      }
    }
  }

  /** What Next gives for the area in front of the block: the one area that can touch the block behind, if any does. */
  lemma NextLands(pre: seq<RbNode>, m: RbNode, post: seq<RbNode>, info: Areas, filed: map<RbNode, nat>, freeSize: int,
                  a: nat, b: nat,
                  neighb: RbNode?)
    requires RegionOk(pre + [m] + post, info, filed, freeSize) && m in info && a == info[m].end && a <= b
    requires Clear(AllSpans(pre + [m] + post, info), a, b)
    requires neighb == if post == [] then null else post[0]
    ensures neighb != null ==> neighb in info && neighb != m && pre + [m] + post == pre + [m, neighb] + post[1..]
    ensures neighb != null ==> a < info[neighb].start
    ensures neighb == null || info[neighb].start != b ==> forall k :: k in post ==> k in info && b < info[k].start
  {
    hide RegionOk, Clear, AllSpans;
    Neighbours(pre, m, post, info, filed, freeSize);
    if neighb != null {
      assert neighb in post;
      assert post == [neighb] + post[1..];
    }
    if neighb == null || info[neighb].start != b {
      FirstDecides(pre, m, post, info, filed, freeSize, a, b);
    }
  }

  lemma FreedBelow(length: nat)
    ensures FreedIndex(length) < FREE_LIST_NUM
  {
  }

  lemma BeginBetween(info: Areas, a: nat, b: nat)
    ensures Between(Before(Top), After(Top), info, a, b)
  {
  }

  lemma TopPlug(t: Tree)
    ensures Plug(Top, t) == t
  {
  }

  lemma PagesIndex(length: nat)
    requires Pages(length) > 0
    ensures length > 0
    ensures FreedIndex(length) == (if Pages(length) >= FREE_LIST_NUM then FREE_LIST_NUM - 1
              else Pages(length) - 1) < FREE_LIST_NUM
  {
  }

  // ---- what a request finds ----

  /** Some area is long enough and filed at or above the bucket where the scan starts. */
  ghost predicate Servable(s: seq<Span>, filings: seq<nat>, want: nat)
  {
    exists i :: 0 <= i < |s| && i < |filings| && want <= s[i].end - s[i].start && FreedIndex(want) <= filings[i]
  }

  /** The area that begins at a is long enough, and lies in the lowest bucket, from the one where the scan starts,
      that holds such an area. */
  ghost predicate LowestFit(s: seq<Span>, filings: seq<nat>, a: nat, want: nat)
  {
    exists i :: 0 <= i < |s| && i < |filings| && s[i].start == a && want <= s[i].end - s[i].start
      && FreedIndex(want) <= filings[i] && NoneBelow(s, filings, want, filings[i])
  }

  ghost predicate NoneBelow(s: seq<Span>, filings: seq<nat>, want: nat, index: nat)
  {
    forall j :: 0 <= j < |s| && j < |filings| && FreedIndex(want) <= filings[j] < index ==> s[j].end - s[j].start < want
  }

  // ---- where areas are filed ----

  ghost predicate SameFiling(s: seq<Span>, f: seq<nat>, x: Span, index: nat)
  {
    exists k :: 0 <= k < |s| && k < |f| && s[k] == x && f[k] == index
  }

  /** The area that begins at `start` is filed under `index`, every other one is an area of before and filed as
      before. */
  ghost predicate FilesKept(s: seq<Span>, f: seq<nat>, s': seq<Span>, f': seq<nat>, start: nat, index: nat)
  {
    |f'| == |s'| && forall j :: 0 <= j < |s'| ==>
        if s'[j].start == start then f'[j] == index else SameFiling(s, f, s'[j], f'[j])
  }

  /** The same for nodes; n may be gone. */
  ghost predicate OneFiled(info: Areas, filed: map<RbNode, nat>, info': Areas, filed': map<RbNode, nat>, n: RbNode,
                           index: nat)
  {
    && (n in filed' ==> filed'[n] == index)
    && forall m :: m in info' && m != n ==>
         m in info && m in filed && m in filed' && info'[m] == info[m] && filed'[m] == filed[m]
  }

  lemma FilesKeptBy(order: seq<RbNode>, info: Areas, filed: map<RbNode, nat>, size: int, order': seq<RbNode>,
                    info': Areas,
                    filed': map<RbNode, nat>, size': int, n: RbNode, start: nat, index: nat)
    requires RegionOk(order, info, filed, size) && RegionOk(order', info', filed', size')
    requires OneFiled(info, filed, info', filed', n, index)
    requires if n in info' then info'[n].start == start else forall m :: m in info' ==> info'[m].start != start
    ensures FilesKept(AllSpans(order, info), AllFilings(order, filed), AllSpans(order', info'),
              AllFilings(order', filed'),
              start, index)
  {
    hide IndexFits, Total;
    var s', f' := AllSpans(order', info'), AllFilings(order', filed');
    forall j | 0 <= j < |s'|
      ensures if s'[j].start == start then f'[j] == index
              else SameFiling(AllSpans(order, info), AllFilings(order, filed), s'[j], f'[j])
    {
      var m := order'[j];
      assert m in order';
      if m == n {
      } else {
        if n in info' { StartsApart(order', info', filed', size', m, n); }
        assert m in info;
        var k :| 0 <= k < |order| && order[k] == m;
        assert AllSpans(order, info)[k] == s'[j] && AllFilings(order, filed)[k] == f'[j];
      }
    }
  }

  /** The node m gives way to n, which may be m itself, or be another area before, or be new with m absent. */
  lemma SwapFiles(order: seq<RbNode>, order': seq<RbNode>, info: Areas, filed: map<RbNode, nat>, size: int, size': int,
                  m: RbNode, n: RbNode, area: Area, index: nat)
    requires RegionOk(order, info, filed, size)
    requires RegionOk(order', (info - {m})[n := area], (filed - {m})[n := index], size')
    ensures FilesKept(AllSpans(order, info), AllFilings(order, filed), AllSpans(order', (info - {m})[n := area]),
              AllFilings(order', (filed - {m})[n := index]), area.start, index)
  {
    hide AllSpans, AllFilings, FilesKept, RegionOk;
    OrderKeys(order, info, filed, size);
    FilesKeptBy(order, info, filed, size, order', (info - {m})[n := area], (filed - {m})[n := index], size', n,
        area.start,
                index);
  }

  lemma NewFiles(order: seq<RbNode>, order': seq<RbNode>, info: Areas, filed: map<RbNode, nat>, size: int, size': int,
                 n: RbNode, area: Area, index: nat)
    requires RegionOk(order, info, filed, size) && RegionOk(order', info[n := area], filed[n := index], size')
    ensures FilesKept(AllSpans(order, info), AllFilings(order, filed), AllSpans(order', info[n := area]),
              AllFilings(order', filed[n := index]), area.start, index)
  {
    hide AllSpans, AllFilings, FilesKept, RegionOk;
    OrderKeys(order, info, filed, size);
    FilesKeptBy(order, info, filed, size, order', info[n := area], filed[n := index], size', n, area.start, index);
  }

  /** The node m goes: nothing begins where its area ended. */
  lemma WholeFiles(pre: seq<RbNode>, m: RbNode, post: seq<RbNode>, info: Areas, filed: map<RbNode, nat>, size: int,
                   size': int, index: nat)
    requires RegionOk(pre + [m] + post, info, filed, size) && RegionOk(pre + post, info - {m}, filed - {m}, size')
               && m in info
    ensures FilesKept(AllSpans(pre + [m] + post, info), AllFilings(pre + [m] + post, filed),
              AllSpans(pre + post, info - {m}),
              AllFilings(pre + post, filed - {m}), info[m].end, index)
  {
    hide AllSpans, AllFilings, FilesKept, RegionOk;
    OrderKeys(pre + [m] + post, info, filed, size);
    Neighbours(pre, m, post, info, filed, size);
    forall k | k in info - {m}
      ensures info[k].start != info[m].end
    {
      assert k in pre + [m] + post;
      assert k in pre || k in post;
      if k in pre { EndAfterStart(pre + [m] + post, info, filed, size, k); }
    }
    FilesKeptBy(pre + [m] + post, info, filed, size, pre + post, info - {m}, filed - {m}, size', m, info[m].end, index);
  }

  lemma EndAfterStart(order: seq<RbNode>, info: Areas, filed: map<RbNode, nat>, size: int, k: RbNode)
    requires RegionOk(order, info, filed, size) && k in order
    ensures k in info && info[k].start < info[k].end
  {
    PositiveAreas(order, info, filed, size);
  }

  lemma StartsApart(order: seq<RbNode>, info: Areas, filed: map<RbNode, nat>, size: int, m: RbNode, n: RbNode)
    requires RegionOk(order, info, filed, size) && m in info && n in info && m != n
    ensures info[m].start != info[n].start
  {
    var i :| 0 <= i < |order| && order[i] == m;
    var j :| 0 <= j < |order| && order[j] == n;
    var s := SpansOf(order, info);
    assert s[i].start < s[i].end && s[j].start < s[j].end;
    assert i < j ==> s[i].end < s[j].start;
    assert j < i ==> s[j].end < s[i].start;
  }

  /** A free area begins at a and has at least `length` bytes. */
  ghost predicate FreeRun(s: seq<Span>, a: nat, length: nat)
  {
    exists i :: 0 <= i < |s| && s[i].start == a && length <= s[i].end - s[i].start
  }

  lemma CutAt(order: seq<RbNode>, m: RbNode) returns (pre: seq<RbNode>, post: seq<RbNode>)
    requires m in order
    ensures order == pre + [m] + post
  {
    var i :| 0 <= i < |order| && order[i] == m;
    pre, post := order[..i], order[i + 1..];
  }

  lemma IsServable(pre: seq<RbNode>, m: RbNode, post: seq<RbNode>, info: Areas, filed: map<RbNode, nat>, freeSize: int,
                   want: nat)
    requires RegionOk(pre + [m] + post, info, filed, freeSize) && m in info && m in filed
    requires want <= info[m].length && FreedIndex(want) <= filed[m]
    ensures Servable(AllSpans(pre + [m] + post, info), AllFilings(pre + [m] + post, filed), want)
    ensures FreeRun(AllSpans(pre + [m] + post, info), info[m].start, want)
  {
    hide FreedIndex, IndexFits;
    SpanAt(pre, m, post, info, filed, freeSize);
    assert (pre + [m] + post)[|pre|] == m;
    assert AllFilings(pre + [m] + post, filed)[|pre|] == filed[m];
  }

  lemma IsLowest(pre: seq<RbNode>, m: RbNode, post: seq<RbNode>, info: Areas, filed: map<RbNode, nat>, freeSize: int,
                 want: nat)
    requires RegionOk(pre + [m] + post, info, filed, freeSize) && m in info && m in filed
    requires want <= info[m].length && FreedIndex(want) <= filed[m]
    requires forall n :: n in filed && FreedIndex(want) <= filed[n] < filed[m] ==> n in info && info[n].length < want
    ensures LowestFit(AllSpans(pre + [m] + post, info), AllFilings(pre + [m] + post, filed), info[m].start, want)
    ensures RunEnd(AllSpans(pre + [m] + post, info), info[m].start) == info[m].start + info[m].length
  {
    hide FreedIndex, IndexFits, Total;
    var order := pre + [m] + post;
    var s, f := AllSpans(order, info), AllFilings(order, filed);
    SpanAt(pre, m, post, info, filed, freeSize);
    assert order[|pre|] == m && f[|pre|] == filed[m];
    RunEndIs(s, |pre|);
    forall j | 0 <= j < |s| && j < |f| && FreedIndex(want) <= f[j] < f[|pre|]
      ensures s[j].end - s[j].start < want
    {
      assert order[j] in order;
    }
    assert NoneBelow(s, f, want, f[|pre|]);
  }

  lemma NotServable(order: seq<RbNode>, info: Areas, filed: map<RbNode, nat>, freeSize: int, want: nat)
    requires RegionOk(order, info, filed, freeSize)
    requires forall n :: n in info && n in filed ==> info[n].length < want || filed[n] < FreedIndex(want)
    ensures !Servable(AllSpans(order, info), AllFilings(order, filed), want)
  {
    hide FreedIndex, IndexFits;
    var s, f := AllSpans(order, info), AllFilings(order, filed);
    forall i | 0 <= i < |s| && i < |f|
      ensures !(want <= s[i].end - s[i].start && FreedIndex(want) <= f[i])
    {
      assert order[i] in order;
    }
  }

  /** Below 2^44 free bytes a request is served exactly when that many free addresses lie in a row. */
  lemma ServedIff(s: seq<Span>, filings: seq<nat>, want: nat)
    requires Separated(s) && |filings| == |s| && want > 0
    requires forall i :: 0 <= i < |s| ==> IndexFits(s[i].end - s[i].start, filings[i]) && s[i].end - s[i].start < TWO44
    ensures Servable(s, filings, want) <==> exists a: nat :: AllFree(s, a, want)
  {
    if Servable(s, filings, want) {
      var i :| 0 <= i < |s| && want <= s[i].end - s[i].start && FreedIndex(want) <= filings[i];
      forall x: nat | s[i].start <= x < s[i].start + want
        ensures FreeAt(s, x)
      {
      }
      assert AllFree(s, s[i].start, want);
    }
    if a: nat :| AllFree(s, a, want) {
      var i := RunInOne(s, a, a + want);
      SearchReaches(s[i].end - s[i].start, filings[i], want);
    }
  }

  ghost predicate AllFree(s: seq<Span>, a: nat, length: nat)
  {
    forall x: nat :: a <= x < a + length ==> FreeAt(s, x)
  }

  // ---- which requests pass an area by ----

  /** In page counts cut to 32 bits: when a scan for `want` starts above the bucket of an area. */
  lemma PassedIff(length: nat, want: nat)
    ensures FreedIndex(length) < FreedIndex(want) <==>
              Pages(length) < Pages(want) && Pages(length) < FREE_LIST_NUM && Pages(want) > 1
    ensures SplitIndex(length) < FreedIndex(want) <==>
              Pages(length) + 1 < Pages(want) && Pages(length) < FREE_LIST_NUM - 1
  {
  }

  /** The scan for `want` starts above the bucket of the area, told from the page counts and from which of its
      two numbers the area is filed under. */
  predicate Passed(length: nat, index: nat, want: nat)
  {
    if index == FreedIndex(length) then
      Pages(length) < Pages(want) && Pages(length) < FREE_LIST_NUM && Pages(want) > 1
    else
      Pages(length) + 1 < Pages(want) && Pages(length) < FREE_LIST_NUM - 1
  }

  /** A request fails although that many free addresses lie in a row, exactly when there is such a run
      and every area that is long enough is passed by; such areas have 2^44 bytes or more. */
  lemma MissedIff(s: seq<Span>, filings: seq<nat>, want: nat)
    requires Separated(s) && |filings| == |s| && want > 0
    requires forall i :: 0 <= i < |s| ==> IndexFits(s[i].end - s[i].start, filings[i])
    ensures (exists a: nat :: AllFree(s, a, want)) && !Servable(s, filings, want) <==>
              && (exists i :: 0 <= i < |s| && want <= s[i].end - s[i].start)
              && (forall i :: 0 <= i < |s| && want <= s[i].end - s[i].start ==>
                   Passed(s[i].end - s[i].start, filings[i], want))
    ensures forall i :: 0 <= i < |s| && want <= s[i].end - s[i].start < TWO44 ==>
              !Passed(s[i].end - s[i].start, filings[i], want)
  {
    hide Pages, FreedIndex, SplitIndex, Passed;
    forall i | 0 <= i < |s|
      ensures Passed(s[i].end - s[i].start, filings[i], want) <==> filings[i] < FreedIndex(want)
      ensures want <= s[i].end - s[i].start < TWO44 ==> FreedIndex(want) <= filings[i]
    {
      PassedByIndex(s[i].end - s[i].start, filings[i], want);
      if want <= s[i].end - s[i].start < TWO44 { SearchReaches(s[i].end - s[i].start, filings[i], want); }
    }
    RunIffArea(s, want);
  }

  lemma PassedByIndex(length: nat, index: nat, want: nat)
    requires IndexFits(length, index)
    ensures Passed(length, index, want) <==> index < FreedIndex(want)
  {
    hide Pages, FreedIndex, SplitIndex;
    PassedIff(length, want);
  }

  lemma RunIffArea(s: seq<Span>, want: nat)
    requires Separated(s) && want > 0
    ensures (exists a: nat :: AllFree(s, a, want)) <==> exists i :: 0 <= i < |s| && want <= s[i].end - s[i].start
  {
    if i :| 0 <= i < |s| && want <= s[i].end - s[i].start {
      forall x: nat | s[i].start <= x < s[i].start + want
        ensures FreeAt(s, x)
      {
      }
      assert AllFree(s, s[i].start, want);
    }
    if a: nat :| AllFree(s, a, want) {
      var i := RunInOne(s, a, a + want);
    }
  }

  // ---- the descent against the spans ----

  lemma PositiveAreas(order: seq<RbNode>, info: Areas, filed: map<RbNode, nat>, freeSize: int)
    requires RegionOk(order, info, filed, freeSize)
    ensures forall m :: m in order ==> m in info && info[m].start < info[m].end
  {
    forall m | m in order
      ensures m in info && info[m].start < info[m].end
    {
      var i :| 0 <= i < |order| && order[i] == m;
      assert SpansOf(order, info)[i].start < SpansOf(order, info)[i].end;
    }
  }

  // ---- a block whose merged run has page count 0 ----

  /** MemoryAreaInsertPre gave up after it had grown p over the block and m, the areas on both sides, and had
      taken both out of their buckets. */
  ghost predicate Stranded(info: Areas, filed: map<RbNode, nat>, info': Areas, filed': map<RbNode, nat>, p: RbNode,
                           m: RbNode,
                           a: nat, length: nat)
  {
    && p in info && m in info && p != m && info[p].end == a && a + length == info[m].start
    && info' == info[p := Area(info[p].start, info[m].end, info[p].length + length + info[m].length)]
    && filed' == filed - {p} - {m}
  }

  /** Every area still in a bucket is as it was, and apart from the run that p now stands for. */
  lemma StrandedAside(order: seq<RbNode>, info: Areas, filed: map<RbNode, nat>, freeSize: int, info': Areas,
                      filed': map<RbNode, nat>,
                      p: RbNode, m: RbNode, a: nat, length: nat)
    requires RegionOk(order, info, filed, freeSize) && Stranded(info, filed, info', filed', p, m, a, length)
    requires Known(order, info) && Clear(AllSpans(order, info), a, a + length)
    ensures forall n :: n in filed' ==> n in info' && info'[n] == info[n]
    ensures forall n :: n in filed' ==> info[n].end < info[p].start || info[m].end < info[n].start
    ensures info'[p].length == info'[p].end - info'[p].start
  {
    hide RegionOk, Clear, AllSpans;
    OrderKeys(order, info, filed, freeSize);
    ClearNodes(order, info, a, a + length);
    PositiveAreas(order, info, filed, freeSize);
    assert p in order && m in order;
    var pre, post := CutAt(order, p);
    Neighbours(pre, p, post, info, filed, freeSize);
    var pre', post' := CutAt(order, m);
    Neighbours(pre', m, post', info, filed, freeSize);
    forall n | n in filed'
      ensures n in info' && info'[n] == info[n] && (info[n].end < info[p].start || info[m].end < info[n].start)
    {
      assert n in order && n in pre + [p] + post && n in pre' + [m] + post';
    }
  }

  lemma OrderKeys(order: seq<RbNode>, info: Areas, filed: map<RbNode, nat>, freeSize: int)
    requires RegionOk(order, info, filed, freeSize)
    ensures info.Keys == (set n | n in order) && filed.Keys == info.Keys
  {
  }

  // ---- which overlaps the descent notices ----

  /** The area overlaps or touches [a, b) ... */
  predicate Meeting(info: Areas, m: RbNode, a: nat, b: nat)
  {
    m in info && info[m].start <= b && a <= info[m].end
  }

  /** ... and it overlaps it. */
  predicate Overlapping(info: Areas, m: RbNode, a: nat, b: nat)
  {
    m in info && info[m].start < b && a < info[m].end
  }

  /** The subtree in the hole of path holds every area that meets [a, b), and its root is one of them. */
  ghost predicate Topmost(tree: Tree, path: Path, t: Tree, info: Areas, a: nat, b: nat)
  {
    && Plug(path, t) == tree && t.Node? && Meeting(info, t.node, a, b)
    && NoneMeets(Before(path), info, a, b) && NoneMeets(After(path), info, a, b)
  }

  ghost predicate NoneMeets(order: seq<RbNode>, info: Areas, a: nat, b: nat)
  {
    forall m :: m in order ==> !Meeting(info, m, a, b)
  }

  /** The descent goes into the subtree that holds every area that meets the block. */
  lemma {:induction false} LandThrough(path: Path, t: Tree, info: Areas, filed: map<RbNode, nat>, freeSize: int,
                                       a: nat, b: nat, m: RbNode)
    requires RegionOk(InOrder(Plug(path, t)), info, filed, freeSize) && a <= b
    requires m in InOrder(t) && Meeting(info, m, a, b)
    requires NoneMeets(Before(path), info, a, b) && NoneMeets(After(path), info, a, b)
    ensures Land(Plug(path, t), info, a, b) == Land(t, info, a, b)
    decreases path
  {
    hide RegionOk, InOrder;
    if path.Under? {
      var inner := Make(path.side, t, path.node, path.color, path.other);
      InnerSides(path, t);
      LandThrough(path.rest, inner, info, filed, freeSize, a, b, m);
      PlugInOrder(path.rest, inner);
      InnerOrder(path.rest, inner);
      Neighbours(Before(path.rest) + InOrder(inner.left), path.node, InOrder(inner.right) + After(path.rest), info,
          filed, freeSize);
      assert m in Before(path.rest) + InOrder(inner.left) || m in InOrder(inner.right) + After(path.rest);
    }
  }

  /** What lies beside the hole, seen from one level further up. */
  lemma InnerSides(path: Path, t: Tree)
    requires path.Under?
    ensures var inner := Make(path.side, t, path.node, path.color, path.other);
            && inner.Node? && inner.node == path.node && (if path.side then inner.left else inner.right) == t
            && (forall m :: m in InOrder(t) ==> m in InOrder(inner))
            && (forall m :: m in Before(path.rest) ==> m in Before(path))
            && (forall m :: m in After(path.rest) ==> m in After(path))
            && (path.node in Before(path) || path.node in After(path))
  {
  }

  /** The topmost area that meets the block decides the landing, whichever tree it is. */
  lemma TopmostDecides(tree: Tree, path: Path, t: Tree, info: Areas, filed: map<RbNode, nat>, freeSize: int, a: nat,
                       b: nat)
    requires RegionOk(InOrder(tree), info, filed, freeSize) && a <= b && Topmost(tree, path, t, info, a, b)
    ensures Land(tree, info, a, b) ==
              if b == info[t.node].start then InFront(t.node) else
              if a == info[t.node].end then Behind(t.node) else Clash(t.node)
  {
    hide RegionOk;
    LandThrough(path, t, info, filed, freeSize, a, b, t.node);
  }

  /** Unless no area meets the block there is a topmost one. */
  lemma {:induction false} TopmostThere(path: Path, t: Tree, info: Areas, filed: map<RbNode, nat>, freeSize: int,
                                        a: nat, b: nat)
      returns (low: Path, u: Tree)
    requires RegionOk(InOrder(Plug(path, t)), info, filed, freeSize) && a <= b
               && Between(Before(path), After(path), info, a, b)
    ensures Land(t, info, a, b).InGap? <==> NoneMeets(InOrder(Plug(path, t)), info, a, b)
    ensures !NoneMeets(InOrder(Plug(path, t)), info, a, b) ==> Topmost(Plug(path, t), low, u, info, a, b)
    decreases t
  {
    hide RegionOk, Plug, Before, After, InOrder;
    low, u := path, t;
    PlugInOrder(path, t);
    if t.Leaf? {
      EmptyOrder();
    } else {
      InnerOrder(path, t);
      var pre, post := Before(path) + InOrder(t.left), InOrder(t.right) + After(path);
      Neighbours(pre, t.node, post, info, filed, freeSize);
      assert t.node in pre + [t.node] + post;
      if b < info[t.node].start {
        StepLeft(path, t, info, filed, freeSize, a, b);
        low, u := TopmostThere(Under(true, t.node, t.color, t.right, path), t.left, info, filed, freeSize, a, b);
      } else if info[t.node].end < a {
        StepRight(path, t, info, filed, freeSize, a, b);
        low, u := TopmostThere(Under(false, t.node, t.color, t.left, path), t.right, info, filed, freeSize, a, b);
      }
    }
  }

  ghost predicate SomeOverlaps(order: seq<RbNode>, info: Areas, a: nat, b: nat)
  {
    exists m :: m in order && Overlapping(info, m, a, b)
  }

  /** An overlap is missed exactly when the topmost area that meets the block only touches it. */
  lemma MissedOverlapIff(tree: Tree, info: Areas, filed: map<RbNode, nat>, freeSize: int, a: nat, b: nat)
    requires RegionOk(InOrder(tree), info, filed, freeSize) && a <= b
    ensures Land(tree, info, a, b).Clash? ==> SomeOverlaps(InOrder(tree), info, a, b)
    ensures SomeOverlaps(InOrder(tree), info, a, b) ==>
              (!Land(tree, info, a, b).Clash? <==>
               exists path, t :: Topmost(tree, path, t, info, a, b) && !Overlapping(info, t.node, a, b))
  {
    hide RegionOk, InOrder;
    BeginBetween(info, a, b);
    TopPlug(tree);
    var low, u := TopmostThere(Top, tree, info, filed, freeSize, a, b);
    if SomeOverlaps(InOrder(tree), info, a, b) {
      var m :| m in InOrder(tree) && Overlapping(info, m, a, b);
      assert Meeting(info, m, a, b);
    }
    if !NoneMeets(InOrder(tree), info, a, b) {
      TopmostDecides(tree, low, u, info, filed, freeSize, a, b);
      PlugInOrder(low, u);
      InnerOrder(low, u);
      assert u.node in InOrder(tree);
    }
    if path, t :| Topmost(tree, path, t, info, a, b) && !Overlapping(info, t.node, a, b) {
      TopmostDecides(tree, path, t, info, filed, freeSize, a, b);
    }
  }

  /** A block that no area ends or begins at is refused exactly when it overlaps one, and else lands in a gap. */
  lemma OverlapNoticed(tree: Tree, info: Areas, filed: map<RbNode, nat>, freeSize: int, a: nat, b: nat)
    requires RegionOk(InOrder(tree), info, filed, freeSize) && a <= b
    requires forall m :: m in InOrder(tree) ==> m in info && info[m].end != a && info[m].start != b
    ensures Land(tree, info, a, b).Clash? <==> SomeOverlaps(InOrder(tree), info, a, b)
    ensures Land(tree, info, a, b).InGap? <==> !SomeOverlaps(InOrder(tree), info, a, b)
  {
    hide RegionOk, InOrder, Land;
    BeginBetween(info, a, b);
    TopPlug(tree);
    var low, u := TopmostThere(Top, tree, info, filed, freeSize, a, b);
    if !NoneMeets(InOrder(tree), info, a, b) {
      TopmostDecides(tree, low, u, info, filed, freeSize, a, b);
      PlugInOrder(low, u);
      InnerOrder(low, u);
      assert u.node in InOrder(tree) && Overlapping(info, u.node, a, b);
    }
    assert forall m :: Overlapping(info, m, a, b) ==> Meeting(info, m, a, b);
  }

  /** A block apart from all areas lands in a gap exactly when it touches none. */
  lemma LandGap(tree: Tree, info: Areas, filed: map<RbNode, nat>, freeSize: int, a: nat, b: nat)
    requires RegionOk(InOrder(tree), info, filed, freeSize) && a <= b && !SomeOverlaps(InOrder(tree), info, a, b)
    ensures !Land(tree, info, a, b).Clash?
    ensures Land(tree, info, a, b).InGap? <==> NoneMeets(InOrder(tree), info, a, b)
    ensures Land(tree, info, a, b).Behind? ==> exists m :: m in InOrder(tree) && m in info && info[m].end == a
    ensures Land(tree, info, a, b).InFront? ==> exists m :: m in InOrder(tree) && m in info && info[m].start == b
  {
    hide RegionOk, InOrder;
    BeginBetween(info, a, b);
    TopPlug(tree);
    var low, u := TopmostThere(Top, tree, info, filed, freeSize, a, b);
    if !NoneMeets(InOrder(tree), info, a, b) {
      TopmostDecides(tree, low, u, info, filed, freeSize, a, b);
      PlugInOrder(low, u);
      InnerOrder(low, u);
      assert u.node in InOrder(tree);
    }
  }

  /** The descent may miss an overlap: with [4096, 12288) and [16384, 20480) free and the second on top,
      the block [8192, 16384) is taken to lie in front of the second. */
  lemma OverlapMissed(low: RbNode, high: RbNode)
    requires low != high
    ensures var t := Node(Node(Leaf, low, RED, Leaf), high, BLACK, Leaf);
            var info := map[low := Area(4096, 12288, 8192), high := Area(16384, 20480, 4096)];
            && RegionOk(InOrder(t), info, map[low := 1, high := 0], 12288)
            && !Clear(AllSpans(InOrder(t), info), 8192, 16384)
            && Land(t, info, 8192, 16384) == InFront(high)
  {
    var t := Node(Node(Leaf, low, RED, Leaf), high, BLACK, Leaf);
    var info := map[low := Area(4096, 12288, 8192), high := Area(16384, 20480, 4096)];
    assert InOrder(t) == [low, high];
    assert AllSpans([low, high], info) == [Span(4096, 12288), Span(16384, 20480)];
    assert [Span(4096, 12288), Span(16384, 20480)][1..] == [Span(16384, 20480)];
    assert [Span(4096, 12288), Span(16384, 20480)][0] == Span(4096, 12288);
  }
}
