/**
  Filtered pagination over an account's balances (utils/bank.go): one scan that counts hits from an
  offset, one that starts at a key, and the walk that follows the returned keys.
 */
module Pagination {
  import opened Prelude

  datatype Coin = Coin(denom: string, amount: int)

  /** query.DefaultLimit */
  const DEFAULT_LIMIT: uint64 := 100

  /** A page request; None as key is Go's nil slice. */
  datatype PageRequest = PageRequest(key: Option<string>, offset: uint64, limit: uint64, countTotal: bool, reverse: bool)

  /** What the iteration callback has collected. */
  datatype Scan = Scan(page: seq<Coin>, numHits: uint64, nextKey: Option<string>)

  const EMPTY_SCAN: Scan := Scan([], 0, None)

  // ---------- the scans, on values ----------

  /** The callback of the offset scan on one coin; end and stop are offset + limit and one more, wrapped. */
  function OffsetVisit(c: Coin, hit: Coin -> bool, offset: uint64, end: uint64, stop: uint64, s: Scan): Scan {
    var accumulate := offset <= s.numHits < end;
    var page := if hit(c) && accumulate then s.page + [c] else s.page;
    var n := if hit(c) then Add64(s.numHits, 1) else s.numHits;
    Scan(page, n, if n == stop && s.nextKey.None? then Some(c.denom) else s.nextKey)
  }

  function OffsetScan(coins: seq<Coin>, hit: Coin -> bool, offset: uint64, end: uint64, stop: uint64, countTotal: bool, s: Scan): Scan
    decreases |coins|
  {
    if coins == [] then s
    else
      var next := OffsetVisit(coins[0], hit, offset, end, stop, s);
      if next.numHits == stop && !countTotal then next
      else OffsetScan(coins[1..], hit, offset, end, stop, countTotal, next)
  }

  function OffsetPage(coins: seq<Coin>, hit: Coin -> bool, offset: uint64, limit: uint64, countTotal: bool): Scan {
    var end: uint64 := Add64(offset, limit);
    OffsetScan(coins, hit, offset, end, Add64(end, 1), countTotal, EMPTY_SCAN)
  }

  function KeyScan(coins: seq<Coin>, hit: Coin -> bool, key: string, limit: uint64, started: bool, s: Scan): Scan
    decreases |coins|
  {
    if coins == [] then s
    else
      var c := coins[0];
      var now := started || c.denom == key;
      if s.numHits == limit then s.(nextKey := Some(c.denom))
      else
        var next := if now && hit(c) then s.(page := s.page + [c], numHits := Add64(s.numHits, 1)) else s;
        KeyScan(coins[1..], hit, key, limit, now, next)
  }

  function KeyPage(coins: seq<Coin>, hit: Coin -> bool, key: string, limit: uint64): Scan {
    KeyScan(coins, hit, key, limit, false, EMPTY_SCAN)
  }

  // ---------- the list a client expects ----------

  /** The coins that pass the filter, in order. */
  function Hits(coins: seq<Coin>, hit: Coin -> bool): seq<Coin> {
    if coins == [] then []
    else
      var n := |coins| - 1;
      Hits(coins[..n], hit) + if hit(coins[n]) then [coins[n]] else []
  }

  function Slice(s: seq<Coin>, from: nat, to: nat): seq<Coin>
    requires from <= to
  {
    if |s| <= from then [] else if |s| <= to then s[from..] else s[from..to]
  }

  lemma SliceAppend(h: seq<Coin>, c: Coin, from: nat, to: nat)
    requires from <= to
    ensures Slice(h + [c], from, to) == Slice(h, from, to) + if from <= |h| < to then [c] else []
  {
  }

  lemma {:induction false} HitsAppend(a: seq<Coin>, b: seq<Coin>, hit: Coin -> bool)
    ensures Hits(a + b, hit) == Hits(a, hit) + Hits(b, hit)
    decreases |b|
  {
    if b == [] {
      assert a + b == a;
    } else {
      var n := |b| - 1;
      HitsAppend(a, b[..n], hit);
      assert (a + b)[..|a + b| - 1] == a + b[..n];
    }
  }

  lemma HitsFirst(coins: seq<Coin>, hit: Coin -> bool)
    requires coins != []
    ensures Hits(coins, hit) == (if hit(coins[0]) then [coins[0]] else []) + Hits(coins[1..], hit)
  {
    assert coins == [coins[0]] + coins[1..];
    HitsAppend([coins[0]], coins[1..], hit);
    assert Hits([coins[0]], hit) == if hit(coins[0]) then [coins[0]] else [] by { assert [coins[0]][..0] == []; }
  }

  lemma {:induction false} HitsLength(coins: seq<Coin>, hit: Coin -> bool)
    ensures |Hits(coins, hit)| <= |coins|
  {
    if coins == [] {
    } else {
      HitsLength(coins[..|coins| - 1], hit);
    }
  }

  // ---------- one page by offset ----------

  /** The first hit behind the page, if any. */
  function KeyAfter(hits: seq<Coin>, end: nat): Option<string> {
    if |hits| > end then Some(hits[end].denom) else None
  }

  /** The page is the slice of the hits, and the next key is the first hit behind it. */
  ghost predicate IsPage(s: Scan, coins: seq<Coin>, hit: Coin -> bool, offset: nat, limit: nat) {
    var hits := Hits(coins, hit);
    s.page == Slice(hits, offset, offset + limit) && s.nextKey == KeyAfter(hits, offset + limit)
  }

  /** What the scan knows after the coins in pre. */
  ghost predicate Scanned(s: Scan, pre: seq<Coin>, hit: Coin -> bool, offset: nat, limit: nat) {
    IsPage(s, pre, hit, offset, limit) && s.numHits == |Hits(pre, hit)|
  }

  lemma HitsOneMore(pre: seq<Coin>, c: Coin, hit: Coin -> bool)
    ensures Hits(pre + [c], hit) == if hit(c) then Hits(pre, hit) + [c] else Hits(pre, hit)
  {
    assert (pre + [c])[..|pre|] == pre;
  }

  lemma KeyOneMore(h: seq<Coin>, c: Coin, end: nat)
    ensures KeyAfter(h + [c], end) == if |h| == end then Some(c.denom) else KeyAfter(h, end)
  {
  }

  lemma VisitScanned(pre: seq<Coin>, c: Coin, hit: Coin -> bool, offset: uint64, limit: uint64, s: Scan)
    requires Scanned(s, pre, hit, offset, limit) && offset + limit < TWO_64 - 1 && |pre| < TWO_64 - 1
    ensures Scanned(OffsetVisit(c, hit, offset, offset + limit, offset + limit + 1, s), pre + [c], hit, offset, limit)
  {
    HitsOneMore(pre, c, hit);
    if hit(c) {
      HitsLength(pre, hit);
      SliceAppend(Hits(pre, hit), c, offset, offset + limit);
      KeyOneMore(Hits(pre, hit), c, offset + limit);
      VisitHit(c, hit, offset, offset + limit, s, Hits(pre, hit));
    } else {
      VisitMiss(c, hit, offset, offset + limit, s, Hits(pre, hit));
    }
  }

  lemma VisitHit(c: Coin, hit: Coin -> bool, offset: uint64, end: uint64, s: Scan, h: seq<Coin>)
    requires hit(c) && s.numHits == |h| < TWO_64 - 1 && end < TWO_64 - 1 && s.nextKey == KeyAfter(h, end)
    ensures OffsetVisit(c, hit, offset, end, end + 1, s)
            == Scan(s.page + if offset <= |h| < end then [c] else [], |h| + 1,
                    if |h| == end then Some(c.denom) else KeyAfter(h, end))
  {
  }

  lemma VisitMiss(c: Coin, hit: Coin -> bool, offset: uint64, end: uint64, s: Scan, h: seq<Coin>)
    requires !hit(c) && s.numHits == |h| && end < TWO_64 - 1 && s.nextKey == KeyAfter(h, end)
    ensures OffsetVisit(c, hit, offset, end, end + 1, s) == s
  {
  }

  /** Hits behind a full page and its successor change nothing of the page. */
  lemma PageSettled(s: Scan, pre: seq<Coin>, post: seq<Coin>, hit: Coin -> bool, offset: nat, limit: nat)
    requires IsPage(s, pre, hit, offset, limit) && |Hits(pre, hit)| > offset + limit
    ensures IsPage(s, pre + post, hit, offset, limit)
  {
    HitsAppend(pre, post, hit);
  }

  lemma {:induction false} OffsetScanIsPage(pre: seq<Coin>, post: seq<Coin>, hit: Coin -> bool, offset: uint64, limit: uint64, countTotal: bool, s: Scan)
    requires Scanned(s, pre, hit, offset, limit) && offset + limit < TWO_64 - 1 && |pre + post| < TWO_64
    ensures var r := OffsetScan(post, hit, offset, offset + limit, offset + limit + 1, countTotal, s);
            && IsPage(r, pre + post, hit, offset, limit)
            && (countTotal ==> r.numHits == |Hits(pre + post, hit)|)
    decreases |post|
  {
    if post == [] {
      assert pre + post == pre;
    } else {
      var next := OffsetVisit(post[0], hit, offset, offset + limit, offset + limit + 1, s);
      VisitScanned(pre, post[0], hit, offset, limit, s);
      assert pre + post == pre + [post[0]] + post[1..];
      if next.numHits == offset + limit + 1 && !countTotal {
        PageSettled(next, pre + [post[0]], post[1..], hit, offset, limit);
      } else {
        OffsetScanIsPage(pre + [post[0]], post[1..], hit, offset, limit, countTotal, next);
      }
    }
  }

  /** Without overflow an offset page is exactly its slice of the hits, and the total is their number. */
  lemma OffsetPageCorrect(coins: seq<Coin>, hit: Coin -> bool, offset: uint64, limit: uint64, countTotal: bool)
    requires offset + limit < TWO_64 - 1 && |coins| < TWO_64
    ensures IsPage(OffsetPage(coins, hit, offset, limit, countTotal), coins, hit, offset, limit)
    ensures countTotal ==> OffsetPage(coins, hit, offset, limit, countTotal).numHits == |Hits(coins, hit)|
  {
    var pre: seq<Coin> := [];
    assert pre + coins == coins;
    assert Scanned(EMPTY_SCAN, pre, hit, offset, limit);
    assert OffsetPage(coins, hit, offset, limit, countTotal)
        == OffsetScan(coins, hit, offset, offset + limit, offset + limit + 1, countTotal, EMPTY_SCAN);
    OffsetScanIsPage(pre, coins, hit, offset, limit, countTotal, EMPTY_SCAN);
  }

  // ---------- overflow of offset + limit ----------

  function Window(s: seq<Coin>, from: nat, to: nat): seq<Coin> {
    if to <= from then [] else Slice(s, from, to)
  }

  /** Page and count are those of the coins in pre, whatever the next key. */
  ghost predicate Tallied(s: Scan, pre: seq<Coin>, hit: Coin -> bool, offset: nat, end: nat) {
    s.page == Window(Hits(pre, hit), offset, end) && s.numHits == |Hits(pre, hit)|
  }

  /** The state of a scan that has not met its stop count. */
  ghost predicate Counted(s: Scan, pre: seq<Coin>, hit: Coin -> bool, offset: nat, end: nat) {
    Tallied(s, pre, hit, offset, end) && s.nextKey.None?
  }

  lemma VisitTallied(pre: seq<Coin>, c: Coin, hit: Coin -> bool, offset: uint64, end: uint64, stop: uint64, s: Scan)
    requires Tallied(s, pre, hit, offset, end) && |pre| < TWO_64 - 1
    ensures Tallied(OffsetVisit(c, hit, offset, end, stop, s), pre + [c], hit, offset, end)
  {
    HitsOneMore(pre, c, hit);
    HitsLength(pre, hit);
    if hit(c) { WindowAppend(Hits(pre, hit), c, offset, end); }
  }

  lemma VisitCounted(pre: seq<Coin>, c: Coin, hit: Coin -> bool, offset: uint64, end: uint64, stop: uint64, s: Scan)
    requires Counted(s, pre, hit, offset, end) && |pre| < TWO_64 - 1
    ensures var r := OffsetVisit(c, hit, offset, end, stop, s);
            Tallied(r, pre + [c], hit, offset, end) && (r.nextKey.None? <==> r.numHits != stop)
  {
    VisitTallied(pre, c, hit, offset, end, stop, s);
  }

  /** A counting scan goes through all coins, so its page and its total never depend on the stop count. */
  lemma {:induction false} CountingScan(pre: seq<Coin>, post: seq<Coin>, hit: Coin -> bool, offset: uint64, end: uint64, stop: uint64, s: Scan)
    requires Tallied(s, pre, hit, offset, end) && |pre + post| < TWO_64
    ensures Tallied(OffsetScan(post, hit, offset, end, stop, true, s), pre + post, hit, offset, end)
    decreases |post|
  {
    if post == [] {
      assert pre + post == pre;
    } else {
      assert pre + post == pre + [post[0]] + post[1..];
      VisitTallied(pre, post[0], hit, offset, end, stop, s);
      CountingScan(pre + [post[0]], post[1..], hit, offset, end, stop, OffsetVisit(post[0], hit, offset, end, stop, s));
    }
  }

  /** Whatever wraps around, a requested total is the number of hits. */
  lemma CountedTotal(coins: seq<Coin>, hit: Coin -> bool, offset: uint64, limit: uint64)
    requires |coins| < TWO_64
    ensures var r := OffsetPage(coins, hit, offset, limit, true);
            r.numHits == |Hits(coins, hit)| && r.page == Window(Hits(coins, hit), offset, Add64(offset, limit))
  {
    var pre: seq<Coin> := [];
    assert pre + coins == coins;
    var end := Add64(offset, limit);
    CountingScan(pre, coins, hit, offset, end, Add64(end, 1), EMPTY_SCAN);
  }

  lemma WindowAppend(h: seq<Coin>, c: Coin, from: nat, to: nat)
    ensures Window(h + [c], from, to) == Window(h, from, to) + if from <= |h| < to then [c] else []
  {
  }

  lemma HitsGrow(a: seq<Coin>, b: seq<Coin>, hit: Coin -> bool)
    ensures |Hits(a, hit)| <= |Hits(a + b, hit)|
  {
    HitsAppend(a, b, hit);
  }

  lemma {:induction false} NeverStops(pre: seq<Coin>, post: seq<Coin>, hit: Coin -> bool, offset: uint64, end: uint64, stop: uint64, countTotal: bool, s: Scan)
    requires Counted(s, pre, hit, offset, end) && |pre + post| < TWO_64
    requires stop > |Hits(pre + post, hit)| || (stop == 0 && |Hits(pre, hit)| >= 1)
    ensures Counted(OffsetScan(post, hit, offset, end, stop, countTotal, s), pre + post, hit, offset, end)
    decreases |post|
  {
    if post == [] {
      assert pre + post == pre;
    } else {
      var pre' := pre + [post[0]];
      assert pre + post == pre' + post[1..];
      HitsGrow(pre, [post[0]], hit);
      HitsGrow(pre', post[1..], hit);
      VisitCounted(pre, post[0], hit, offset, end, stop, s);
      NeverStops(pre', post[1..], hit, offset, end, stop, countTotal, OffsetVisit(post[0], hit, offset, end, stop, s));
    }
  }

  /** The first next key is never replaced. */
  lemma {:induction false} KeyPersists(post: seq<Coin>, hit: Coin -> bool, offset: uint64, end: uint64, stop: uint64, countTotal: bool, s: Scan)
    requires s.nextKey.Some?
    ensures OffsetScan(post, hit, offset, end, stop, countTotal, s).nextKey == s.nextKey
    decreases |post|
  {
    if post == [] {
    } else {
      KeyPersists(post[1..], hit, offset, end, stop, countTotal, OffsetVisit(post[0], hit, offset, end, stop, s));
    }
  }

  lemma {:induction false} StopsSomewhere(pre: seq<Coin>, post: seq<Coin>, hit: Coin -> bool, offset: uint64, end: uint64, stop: uint64, countTotal: bool, s: Scan)
    requires Counted(s, pre, hit, offset, end) && |pre + post| < TWO_64
    requires |Hits(pre, hit)| < stop <= |Hits(pre + post, hit)|
    ensures OffsetScan(post, hit, offset, end, stop, countTotal, s).nextKey.Some?
    decreases |post|
  {
    assert pre + [] == pre;
    var pre' := pre + [post[0]];
    assert pre + post == pre' + post[1..];
    assert pre'[..|pre|] == pre;
    VisitCounted(pre, post[0], hit, offset, end, stop, s);
    var next := OffsetVisit(post[0], hit, offset, end, stop, s);
    if next.numHits == stop {
      KeyPersists(post[1..], hit, offset, end, stop, countTotal, next);
    } else {
      StopsSomewhere(pre', post[1..], hit, offset, end, stop, countTotal, next);
    }
  }

  /** The requests whose arithmetic in uint64 does no harm. */
  predicate PageFits(coins: seq<Coin>, hit: Coin -> bool, offset: uint64, limit: uint64) {
    || offset + limit < TWO_64 - 1
    || (offset + limit == TWO_64 - 1 && (coins == [] || hit(coins[0])))
    || (offset + limit >= TWO_64 && |Hits(coins, hit)| <= offset + limit - TWO_64)
  }

  /**
    The page is right if and only if the sum does not wrap, or wraps to a count the scan never reaches.
    With offset + limit one below 2^64, a first balance that is no hit is enough to go wrong.
   */
  lemma OffsetPageCorrectIff(coins: seq<Coin>, hit: Coin -> bool, offset: uint64, limit: uint64, countTotal: bool)
    requires |coins| < TWO_64
    ensures IsPage(OffsetPage(coins, hit, offset, limit, countTotal), coins, hit, offset, limit)
            <==> PageFits(coins, hit, offset, limit)
  {
    if offset + limit < TWO_64 - 1 {
      OffsetPageCorrect(coins, hit, offset, limit, countTotal);
    } else if offset + limit == TWO_64 - 1 {
      StopAtZero(coins, hit, offset, limit, countTotal);
    } else {
      StopTooEarly(coins, hit, offset, limit, countTotal);
    }
  }

  lemma StopAtZero(coins: seq<Coin>, hit: Coin -> bool, offset: uint64, limit: uint64, countTotal: bool)
    requires |coins| < TWO_64 && offset + limit == TWO_64 - 1
    ensures var r := OffsetPage(coins, hit, offset, limit, countTotal);
            && (IsPage(r, coins, hit, offset, limit) <==> coins == [] || hit(coins[0]))
            && (r.nextKey.None? <==> coins == [] || hit(coins[0]))
  {
    HitsLength(coins, hit);
    assert OffsetPage(coins, hit, offset, limit, countTotal)
        == OffsetScan(coins, hit, offset, offset + limit, 0, countTotal, EMPTY_SCAN);
    if coins == [] {
    } else if hit(coins[0]) {
      FirstIsHit(coins, hit, offset, offset + limit, countTotal);
    } else {
      KeyPersists(coins[1..], hit, offset, offset + limit, 0, countTotal, EMPTY_SCAN.(nextKey := Some(coins[0].denom)));
    }
  }

  /** Once a hit is counted the stop count 0 is never met again. */
  lemma FirstIsHit(coins: seq<Coin>, hit: Coin -> bool, offset: uint64, end: uint64, countTotal: bool)
    requires 0 < |coins| < TWO_64 && hit(coins[0])
    ensures Counted(OffsetScan(coins, hit, offset, end, 0, countTotal, EMPTY_SCAN), coins, hit, offset, end)
  {
    var pre: seq<Coin>, first := [], [coins[0]];
    assert pre + first == first && coins == first + coins[1..];
    VisitCounted(pre, coins[0], hit, offset, end, 0, EMPTY_SCAN);
    HitsOneMore(pre, coins[0], hit);
    NeverStops(first, coins[1..], hit, offset, end, 0, countTotal, OffsetVisit(coins[0], hit, offset, end, 0, EMPTY_SCAN));
  }

  lemma StopTooEarly(coins: seq<Coin>, hit: Coin -> bool, offset: uint64, limit: uint64, countTotal: bool)
    requires |coins| < TWO_64 && offset + limit >= TWO_64
    ensures IsPage(OffsetPage(coins, hit, offset, limit, countTotal), coins, hit, offset, limit)
            <==> |Hits(coins, hit)| <= offset + limit - TWO_64
  {
    var end: uint64 := offset + limit - TWO_64;
    var r := OffsetPage(coins, hit, offset, limit, countTotal);
    ScanToStop(coins, hit, offset, end, countTotal);
    LastPageExpected(r, coins, hit, offset, limit);
  }

  lemma ScanToStop(coins: seq<Coin>, hit: Coin -> bool, offset: uint64, end: uint64, countTotal: bool)
    requires |coins| < TWO_64 && end <= offset && end < TWO_64 - 1
    ensures var r := OffsetScan(coins, hit, offset, end, end + 1, countTotal, EMPTY_SCAN);
            if |Hits(coins, hit)| <= end then r.page == [] && r.nextKey.None? else r.nextKey.Some?
  {
    var pre: seq<Coin> := [];
    assert pre + coins == coins;
    assert Counted(EMPTY_SCAN, pre, hit, offset, end);
    if |Hits(coins, hit)| <= end {
      NeverStops(pre, coins, hit, offset, end, end + 1, countTotal, EMPTY_SCAN);
    } else {
      StopsSomewhere(pre, coins, hit, offset, end, end + 1, countTotal, EMPTY_SCAN);
    }
  }

  lemma LastPageExpected(r: Scan, coins: seq<Coin>, hit: Coin -> bool, offset: uint64, limit: uint64)
    requires |coins| < TWO_64 && offset + limit >= TWO_64
    ensures IsPage(r, coins, hit, offset, limit) ==> r.nextKey.None?
    ensures r.nextKey.None? && r.page == [] && |Hits(coins, hit)| <= offset ==> IsPage(r, coins, hit, offset, limit)
  {
    HitsLength(coins, hit);
  }

  /** offset + limit == 2^64: of two hits the second is asked for, and the page is empty with the first as next key. */
  lemma WrappedPageIsEmpty(c: Coin, d: Coin, countTotal: bool)
    ensures var r := OffsetPage([c, d], _ => true, 1, TWO_64 - 1, countTotal);
            r.page == [] && r.nextKey == Some(c.denom)
    ensures Slice(Hits([c, d], _ => true), 1, TWO_64) == [d]
  {
    var hit: Coin -> bool := _ => true;
    var coins := [c, d];
    assert coins[1..] == [d] && [d][1..] == [];
    var one := OffsetVisit(c, hit, 1, 0, 1, EMPTY_SCAN);
    assert one == Scan([], 1, Some(c.denom));
    assert OffsetVisit(d, hit, 1, 0, 1, one) == Scan([], 2, Some(c.denom));
    assert OffsetScan([d], hit, 1, 0, 1, countTotal, one).page == [];
    assert OffsetPage(coins, hit, 1, TWO_64 - 1, countTotal) == OffsetScan(coins, hit, 1, 0, 1, countTotal, EMPTY_SCAN);
    HitsFirst(coins, hit);
    HitsFirst([d], hit);
    assert Hits(coins, hit) == [c, d];
  }

  // ---------- one page by key ----------

  /** Balances as the bank keeps them: one non-empty denomination each. */
  ghost predicate ProperBalances(coins: seq<Coin>) {
    && |coins| < TWO_64
    && (forall i :: 0 <= i < |coins| ==> coins[i].denom != "")
    && forall i, j :: 0 <= i < j < |coins| ==> coins[i].denom != coins[j].denom
  }

  /** Where a denomination stands in the list, and the end when it does not. */
  function IndexOf(coins: seq<Coin>, denom: string): (j: nat)
    ensures j <= |coins|
    ensures j < |coins| ==> coins[j].denom == denom
    ensures forall i :: 0 <= i < j ==> coins[i].denom != denom
  {
    if coins == [] || coins[0].denom == denom then 0 else 1 + IndexOf(coins[1..], denom)
  }

  lemma IndexOfAt(coins: seq<Coin>, j: nat)
    requires ProperBalances(coins) && j < |coins|
    ensures IndexOf(coins, coins[j].denom) == j
  {
  }

  /** The scan skips to the key. */
  lemma {:induction false} SkipToKey(coins: seq<Coin>, hit: Coin -> bool, key: string, limit: uint64)
    requires limit > 0
    ensures var j := IndexOf(coins, key);
            KeyPage(coins, hit, key, limit) == KeyScan(coins[j..], hit, key, limit, true, EMPTY_SCAN)
    decreases |coins|
  {
    if coins == [] || coins[0].denom == key {
    } else {
      SkipToKey(coins[1..], hit, key, limit);
      var j := IndexOf(coins, key);
      assert coins[j..] == coins[1..][j - 1..];
    }
  }

  /** From the key on, the scan takes hits up to the limit and stops at the coin after the last of them. */
  lemma {:induction false} TakesHits(post: seq<Coin>, hit: Coin -> bool, key: string, limit: uint64, s: Scan) returns (m: nat)
    requires 0 <= s.numHits <= limit && s.nextKey.None?
    ensures m <= |post|
    ensures var r := KeyScan(post, hit, key, limit, true, s);
            && r.page == s.page + Hits(post[..m], hit)
            && r.nextKey == if m == |post| then None else Some(post[m].denom)
    ensures s.numHits + |Hits(post[..m], hit)| <= limit
    ensures m < |post| ==> s.numHits + |Hits(post[..m], hit)| == limit
    decreases |post|
  {
    if post == [] || s.numHits == limit {
      m := 0;
      assert post[..0] == [];
    } else {
      var next := if hit(post[0]) then s.(page := s.page + [post[0]], numHits := s.numHits + 1) else s;
      var k := TakesHits(post[1..], hit, key, limit, next);
      m := k + 1;
      assert post[..m][1..] == post[1..][..k];
      HitsFirst(post[..m], hit);
    }
  }

  /**
    A page by key holds the next hits from that coin on, at most limit of them, and names the coin to
    go on with exactly when coins are left; a key that is not in the list gives an empty last page.
   */
  lemma KeyPageCorrect(coins: seq<Coin>, hit: Coin -> bool, key: string, limit: uint64) returns (next: nat)
    requires limit > 0
    ensures var j := IndexOf(coins, key);
            var r := KeyPage(coins, hit, key, limit);
            && j <= next <= |coins|
            && r.page == Hits(coins[j..next], hit) && |r.page| <= limit
            && r.nextKey == (if next == |coins| then None else Some(coins[next].denom))
            && (next < |coins| ==> j < next && |r.page| == limit)
  {
    var j := IndexOf(coins, key);
    SkipToKey(coins, hit, key, limit);
    var m := TakesHits(coins[j..], hit, key, limit, EMPTY_SCAN);
    next := j + m;
    assert coins[j..][..m] == coins[j..next];
    assert m == 0 ==> coins[j..next] == [];
  }

  // ---------- following the keys ----------

  lemma NextKeyIsLater(coins: seq<Coin>, hit: Coin -> bool, key: string, limit: uint64)
    requires ProperBalances(coins) && limit > 0
    ensures var r := KeyPage(coins, hit, key, limit);
            r.nextKey.Some? ==> IndexOf(coins, key) < IndexOf(coins, r.nextKey.value) < |coins|
  {
    var next := KeyPageCorrect(coins, hit, key, limit);
    if next < |coins| { IndexOfAt(coins, next); }
  }

  /** The pages a client sees that goes on with the returned key until there is none. */
  ghost function Follow(coins: seq<Coin>, hit: Coin -> bool, key: string, limit: uint64): (pages: seq<seq<Coin>>)
    requires ProperBalances(coins) && limit > 0
    decreases |coins| - IndexOf(coins, key)
  {
    var r := KeyPage(coins, hit, key, limit);
    NextKeyIsLater(coins, hit, key, limit);
    if r.nextKey.None? then [r.page] else [r.page] + Follow(coins, hit, r.nextKey.value, limit)
  }

  /** The whole walk, from offset 0. */
  ghost function Walk(coins: seq<Coin>, hit: Coin -> bool, limit: uint64, countTotal: bool): seq<seq<Coin>>
    requires ProperBalances(coins) && limit > 0
  {
    var r := OffsetPage(coins, hit, 0, limit, countTotal);
    if r.nextKey.None? then [r.page] else [r.page] + Follow(coins, hit, r.nextKey.value, limit)
  }

  function Concat(pages: seq<seq<Coin>>): seq<Coin> {
    if pages == [] then [] else pages[0] + Concat(pages[1..])
  }

  lemma ConcatCons(page: seq<Coin>, rest: seq<seq<Coin>>)
    ensures Concat([page] + rest) == page + Concat(rest)
    ensures Concat([page]) == page
  {
    assert ([page] + rest)[1..] == rest;
    assert [page][1..] == [];
  }

  lemma PageThenRest(coins: seq<Coin>, hit: Coin -> bool, j: nat, next: nat, rest: seq<seq<Coin>>)
    requires j <= next <= |coins| && Concat(rest) == Hits(coins[next..], hit)
    ensures Concat([Hits(coins[j..next], hit)] + rest) == Hits(coins[j..], hit)
  {
    assert coins[j..] == coins[j..next] + coins[next..];
    HitsAppend(coins[j..next], coins[next..], hit);
    ConcatCons(Hits(coins[j..next], hit), rest);
  }

  lemma {:induction false} FollowYields(coins: seq<Coin>, hit: Coin -> bool, key: string, limit: uint64)
    requires ProperBalances(coins) && limit > 0
    ensures Concat(Follow(coins, hit, key, limit)) == Hits(coins[IndexOf(coins, key)..], hit)
    ensures |Follow(coins, hit, key, limit)| <= |coins| - IndexOf(coins, key) + 1
    decreases |coins| - IndexOf(coins, key)
  {
    var j := IndexOf(coins, key);
    var r := KeyPage(coins, hit, key, limit);
    var next := KeyPageCorrect(coins, hit, key, limit);
    NextKeyIsLater(coins, hit, key, limit);
    if r.nextKey.None? {
      assert coins[j..next] == coins[j..];
      ConcatCons(r.page, []);
    } else {
      IndexOfAt(coins, next);
      FollowYields(coins, hit, r.nextKey.value, limit);
      PageThenRest(coins, hit, j, next, Follow(coins, hit, r.nextKey.value, limit));
    }
  }

  /** The m-th hit stands at some coin, with exactly m hits before it. */
  lemma {:induction false} HitPosition(coins: seq<Coin>, hit: Coin -> bool, m: nat) returns (j: nat)
    requires m < |Hits(coins, hit)|
    ensures j < |coins| && coins[j] == Hits(coins, hit)[m]
    ensures Hits(coins[j..], hit) == Hits(coins, hit)[m..]
    decreases |coins|
  {
    HitsFirst(coins, hit);
    if hit(coins[0]) && m == 0 {
      j := 0;
    } else {
      var skipped := if hit(coins[0]) then 1 else 0;
      var i := HitPosition(coins[1..], hit, m - skipped);
      j := i + 1;
      assert coins[j..] == coins[1..][i..];
    }
  }

  /** The limits with which a walk ends well: all but the greatest, and that one unless it counts past a first miss. */
  predicate WalkFits(coins: seq<Coin>, hit: Coin -> bool, limit: uint64, countTotal: bool) {
    limit < TWO_64 - 1 || !countTotal || coins == [] || hit(coins[0]) || Hits(coins, hit) == []
  }

  /**
    Starting at offset 0 and following the keys gives every hit once and in order, if and only if the
    limit is below 2^64 - 1 or does no harm; otherwise it gives every hit twice. In every case it
    ends after at most two pages more than there are balances.
   */
  lemma WalkYieldsAllHitsIff(coins: seq<Coin>, hit: Coin -> bool, limit: uint64, countTotal: bool)
    requires ProperBalances(coins) && limit > 0
    ensures Concat(Walk(coins, hit, limit, countTotal)) == Hits(coins, hit) <==> WalkFits(coins, hit, limit, countTotal)
    ensures !WalkFits(coins, hit, limit, countTotal) ==>
              Concat(Walk(coins, hit, limit, countTotal)) == Hits(coins, hit) + Hits(coins, hit)
    ensures |Walk(coins, hit, limit, countTotal)| <= |coins| + 2
  {
    if limit < TWO_64 - 1 {
      WalkBelowGreatest(coins, hit, limit, countTotal);
    } else {
      StopAtZero(coins, hit, 0, limit, countTotal);
      if coins == [] || hit(coins[0]) {
        var r := OffsetPage(coins, hit, 0, limit, countTotal);
        HitsLength(coins, hit);
        ConcatCons(r.page, []);
      } else {
        WalkPastMiss(coins, hit, countTotal);
      }
    }
  }

  lemma WalkBelowGreatest(coins: seq<Coin>, hit: Coin -> bool, limit: uint64, countTotal: bool)
    requires ProperBalances(coins) && 0 < limit < TWO_64 - 1
    ensures Concat(Walk(coins, hit, limit, countTotal)) == Hits(coins, hit)
    ensures |Walk(coins, hit, limit, countTotal)| <= |coins| + 2
  {
    var r := OffsetPage(coins, hit, 0, limit, countTotal);
    OffsetPageCorrect(coins, hit, 0, limit, countTotal);
    if r.nextKey.None? {
      ConcatCons(r.page, []);
    } else {
      FollowsFirstPage(coins, hit, limit);
      ConcatCons(r.page, Follow(coins, hit, r.nextKey.value, limit));
    }
  }

  /** With the greatest limit a first miss is taken for the next key, and everything is listed from there. */
  lemma WalkPastMiss(coins: seq<Coin>, hit: Coin -> bool, countTotal: bool)
    requires ProperBalances(coins) && coins != [] && !hit(coins[0])
    ensures var walk := Walk(coins, hit, TWO_64 - 1, countTotal);
            && Concat(walk) == (if countTotal then Hits(coins, hit) else []) + Hits(coins, hit)
            && |walk| <= |coins| + 2
  {
    var limit: uint64, key := TWO_64 - 1, coins[0].denom;
    var r := OffsetPage(coins, hit, 0, limit, countTotal);
    FirstMissIsKey(coins, hit, countTotal);
    IndexOfAt(coins, 0);
    assert coins[0..] == coins;
    FollowYields(coins, hit, key, limit);
    ConcatCons(r.page, Follow(coins, hit, key, limit));
  }

  lemma FirstMissIsKey(coins: seq<Coin>, hit: Coin -> bool, countTotal: bool)
    requires 0 < |coins| < TWO_64 && !hit(coins[0])
    ensures var r := OffsetPage(coins, hit, 0, TWO_64 - 1, countTotal);
            r.nextKey == Some(coins[0].denom) && r.page == if countTotal then Hits(coins, hit) else []
  {
    var end: uint64 := TWO_64 - 1;
    var next := EMPTY_SCAN.(nextKey := Some(coins[0].denom));
    assert OffsetVisit(coins[0], hit, 0, end, 0, EMPTY_SCAN) == next;
    KeyPersists(coins[1..], hit, 0, end, 0, countTotal, next);
    if countTotal {
      CountedTotal(coins, hit, 0, end);
      HitsLength(coins, hit);
    }
  }

  lemma FollowsFirstPage(coins: seq<Coin>, hit: Coin -> bool, limit: uint64)
    requires ProperBalances(coins) && 0 < limit < |Hits(coins, hit)|
    ensures var hits := Hits(coins, hit);
            var rest := Follow(coins, hit, hits[limit].denom, limit);
            hits == Slice(hits, 0, limit) + Concat(rest) && |rest| <= |coins| + 1
  {
    var hits := Hits(coins, hit);
    var j := HitPosition(coins, hit, limit);
    IndexOfAt(coins, j);
    FollowYields(coins, hit, coins[j].denom, limit);
    assert hits == hits[..limit] + hits[limit..];
  }

  // ---------- the query ----------

  datatype PageResponse = PageResponse(nextKey: Option<string>, total: uint64)

  datatype Reply = Refused | Page(response: PageResponse, coins: seq<Coin>)

  /** The loop over the balances that the keyed branch's callback makes. */
  method IterateFromKey(coins: seq<Coin>, hit: Coin -> bool, key: string, limit: uint64) returns (s: Scan)
    ensures s == KeyPage(coins, hit, key, limit)
  {
    var page: seq<Coin>, numHits: uint64, nextKey, startAccum := [], 0, None, false;
    for i := 0 to |coins|
      invariant nextKey.None?
      invariant KeyScan(coins[i..], hit, key, limit, startAccum, Scan(page, numHits, nextKey)) == KeyPage(coins, hit, key, limit)
    {
      var coin := coins[i];
      assert coins[i..][1..] == coins[i + 1..];
      if coin.denom == key {
        startAccum := true;
      }
      if numHits == limit {
        nextKey := Some(coin.denom);
        return Scan(page, numHits, nextKey);
      }
      if startAccum {
        if hit(coin) {
          page := page + [coin];
          numHits := Add64(numHits, 1);
        }
      }
    }
    return Scan(page, numHits, nextKey);
  }

  /** The loop over the balances that the offset branch's callback makes. */
  method IterateFromOffset(coins: seq<Coin>, hit: Coin -> bool, offset: uint64, limit: uint64, countTotal: bool) returns (s: Scan)
    ensures s == OffsetPage(coins, hit, offset, limit, countTotal)
  {
    var end: uint64 := Add64(offset, limit);
    var page: seq<Coin>, numHits: uint64, nextKey := [], 0, None;
    for i := 0 to |coins|
      invariant OffsetScan(coins[i..], hit, offset, end, Add64(end, 1), countTotal, Scan(page, numHits, nextKey))
             == OffsetPage(coins, hit, offset, limit, countTotal)
    {
      var coin := coins[i];
      assert coins[i..][1..] == coins[i + 1..];
      var accumulate := numHits >= offset && numHits < end;
      if hit(coin) {
        if accumulate {
          page := page + [coin];
        }
        numHits := Add64(numHits, 1);
      }
      if numHits == Add64(end, 1) {
        if nextKey.None? {
          nextKey := Some(coin.denom);
        }
        if !countTotal {
          return Scan(page, numHits, nextKey);
        }
      }
    }
    return Scan(page, numHits, nextKey);
  }

  /** Which of the two scans a request gets; an empty key is no key, but it excludes an offset. */
  method FilteredPaginateAccountBalances(coins: seq<Coin>, hit: Coin -> bool, request: Option<PageRequest>) returns (reply: Reply)
    requires |coins| < TWO_64
    ensures var r := if request.None? then PageRequest(None, 0, 0, false, false) else request.value;
            var limit: uint64 := if r.limit == 0 then DEFAULT_LIMIT else r.limit;
            if r.reverse || (r.offset > 0 && r.key.Some?) then reply.Refused?
            else if r.key.Some? && r.key.value != "" then
              var s := KeyPage(coins, hit, r.key.value, limit);
              reply == Page(PageResponse(s.nextKey, 0), s.page)
            else
              var count := r.countTotal || r.limit == 0;
              var s := OffsetPage(coins, hit, r.offset, limit, count);
              && reply.Page? && reply.response.nextKey == s.nextKey && reply.coins == s.page
              && (IsPage(s, coins, hit, r.offset, limit) <==> PageFits(coins, hit, r.offset, limit))
              && reply.response.total == if count then |Hits(coins, hit)| else 0
  {
    var r := if request.None? then PageRequest(None, 0, 0, false, false) else request.value;
    if r.reverse {
      return Refused;
    }
    if r.offset > 0 && r.key.Some? {
      return Refused;
    }
    var limit, countTotal := r.limit, r.countTotal;
    if limit == 0 {
      limit := DEFAULT_LIMIT;
      countTotal := true;
    }
    if r.key.Some? && |r.key.value| != 0 {
      var s := IterateFromKey(coins, hit, r.key.value, limit);
      return Page(PageResponse(s.nextKey, 0), s.page);
    }
    var s := IterateFromOffset(coins, hit, r.offset, limit, countTotal);
    OffsetPageCorrectIff(coins, hit, r.offset, limit, countTotal);
    CountedTotal(coins, hit, r.offset, limit);
    return Page(PageResponse(s.nextKey, if countTotal then s.numHits else 0), s.page);
  }
}
