/** SanitizeCoins of utils/bank.go: sort by denomination, drop zeros, add up duplicates. */
module SanitizedCoins {
  import opened Prelude
  import opened ByteOrder
  import opened Pagination

  // ---------- the stable sort ----------

  /** Put c behind everything that is not greater. */
  function Insert(s: seq<Coin>, c: Coin): seq<Coin> {
    if s == [] || !Less(c.denom, s[|s| - 1].denom) then s + [c]
    else Insert(s[..|s| - 1], c) + [s[|s| - 1]]
  }

  function Sort(s: seq<Coin>): seq<Coin> {
    if s == [] then [] else Insert(Sort(s[..|s| - 1]), s[|s| - 1])
  }

  /** Denominations never fall. */
  ghost predicate Ascending(s: seq<Coin>) {
    forall i, j :: 0 <= i < j < |s| ==> !Less(s[j].denom, s[i].denom)
  }

  lemma {:induction false} InsertPermutes(s: seq<Coin>, c: Coin)
    ensures multiset(Insert(s, c)) == multiset(s) + multiset{c}
    decreases |s|
  {
    if s == [] || !Less(c.denom, s[|s| - 1].denom) {
    } else {
      InsertPermutes(s[..|s| - 1], c);
      assert s == s[..|s| - 1] + [s[|s| - 1]];
    }
  }

  lemma {:induction false} InsertSorts(s: seq<Coin>, c: Coin)
    requires Ascending(s)
    ensures Ascending(Insert(s, c))
    decreases |s|
  {
    if s == [] || !Less(c.denom, s[|s| - 1].denom) {
      forall x | x in s
        ensures !Less(c.denom, x.denom)
      {
        var i :| 0 <= i < |s| && s[i] == x;
        NotAbove(c.denom, s, i);
      }
      AppendAscending(s, c);
    } else {
      var front, top := s[..|s| - 1], s[|s| - 1];
      InsertSorts(front, c);
      LessAsymmetric(c.denom, top.denom);
      forall x | x in Insert(front, c)
        ensures !Less(top.denom, x.denom)
      {
        InsertMembers(front, c, x);
      }
      AppendAscending(Insert(front, c), top);
    }
  }

  lemma AppendAscending(s: seq<Coin>, c: Coin)
    requires Ascending(s) && forall x :: x in s ==> !Less(c.denom, x.denom)
    ensures Ascending(s + [c])
  {
  }

  lemma InsertMembers(s: seq<Coin>, c: Coin, x: Coin)
    requires x in Insert(s, c)
    ensures x in s || x == c
  {
    InsertPermutes(s, c);
    assert x in multiset(Insert(s, c));
  }

  lemma NotAbove(d: string, s: seq<Coin>, i: nat)
    requires Ascending(s) && i < |s| && !Less(d, s[|s| - 1].denom)
    ensures !Less(d, s[i].denom)
  {
    var last := s[|s| - 1].denom;
    if Less(d, s[i].denom) && i < |s| - 1 {
      LessTotal(s[i].denom, last);
      if Less(s[i].denom, last) { LessTransitive(d, s[i].denom, last); }
    }
  }

  lemma {:induction false} SortSorts(s: seq<Coin>)
    ensures Ascending(Sort(s)) && multiset(Sort(s)) == multiset(s)
    decreases |s|
  {
    if s == [] {
    } else {
      var n := |s| - 1;
      SortSorts(s[..n]);
      InsertSorts(Sort(s[..n]), s[n]);
      InsertPermutes(Sort(s[..n]), s[n]);
      assert s == s[..n] + [s[n]];
    }
  }

  // ---------- the merging loop ----------

  /** math.Int can hold x. */
  predicate Fits(x: int) {
    -INT_LIMIT < x < INT_LIMIT
  }

  /**
    A nonzero coin of the empty denomination before any other indexes an empty list, and Coin.Add
    panics on a sum that math.Int cannot hold.
   */
  function Merge(coins: seq<Coin>, clean: seq<Coin>, last: string): Outcome<seq<Coin>>
    decreases |coins|
  {
    if coins == [] then Returned(clean)
    else
      var c := coins[0];
      if c.amount == 0 then Merge(coins[1..], clean, last)
      else if last != c.denom then Merge(coins[1..], clean + [c], c.denom)
      else if clean == [] || !Fits(clean[|clean| - 1].amount + c.amount) then Panicked
      else Merge(coins[1..], AddToLast(clean, c), c.denom)
  }

  function AddToLast(clean: seq<Coin>, c: Coin): seq<Coin>
    requires clean != []
  {
    clean[|clean| - 1 := clean[|clean| - 1].(amount := clean[|clean| - 1].amount + c.amount)]
  }

  function Sanitize(coins: seq<Coin>): Outcome<seq<Coin>> {
    Merge(Sort(coins), [], "")
  }

  // ---------- totals ----------

  function Part(c: Coin, d: string): int {
    if c.denom == d then c.amount else 0
  }

  function TotalOf(coins: seq<Coin>, d: string): int {
    if coins == [] then 0
    else TotalOf(coins[..|coins| - 1], d) + Part(coins[|coins| - 1], d)
  }

  lemma TotalOneMore(s: seq<Coin>, c: Coin, d: string)
    ensures TotalOf(s + [c], d) == TotalOf(s, d) + Part(c, d)
  {
    assert (s + [c])[..|s|] == s;
  }

  lemma {:induction false} TotalAppend(a: seq<Coin>, b: seq<Coin>, d: string)
    ensures TotalOf(a + b, d) == TotalOf(a, d) + TotalOf(b, d)
    decreases |b|
  {
    if b == [] {
      assert a + b == a;
    } else {
      TotalAppend(a, b[..|b| - 1], d);
      assert (a + b)[..|a + b| - 1] == a + b[..|b| - 1];
    }
  }

  lemma TotalFirst(s: seq<Coin>, d: string)
    requires s != []
    ensures TotalOf(s, d) == Part(s[0], d) + TotalOf(s[1..], d)
  {
    assert s == [s[0]] + s[1..];
    TotalAppend([s[0]], s[1..], d);
    assert [s[0]][..0] == [];
  }

  lemma TakeOut(b: seq<Coin>, i: nat, d: string)
    requires i < |b|
    ensures var rest := b[..i] + b[i + 1..];
            && multiset(b) == multiset(rest) + multiset{b[i]}
            && TotalOf(b, d) == TotalOf(rest, d) + Part(b[i], d)
  {
    var front, back := b[..i], b[i + 1..];
    assert b == front + [b[i]] + back;
    TotalAppend(front, back, d);
    TotalAppend(front + [b[i]], back, d);
    assert (front + [b[i]])[..i] == front;
  }

  lemma CancelOne(m: multiset<Coin>, n: multiset<Coin>, c: Coin)
    requires m + multiset{c} == n + multiset{c}
    ensures m == n
  {
    assert m == m + multiset{c} - multiset{c};
  }

  /** Totals do not see the order. */
  lemma {:induction false} TotalOfPermutation(a: seq<Coin>, b: seq<Coin>, d: string)
    requires multiset(a) == multiset(b)
    ensures TotalOf(a, d) == TotalOf(b, d)
    decreases |a|
  {
    assert |a| == |multiset(a)| == |b|;
    if a == [] {
    } else {
      var n := |a| - 1;
      assert a[n] in multiset(b);
      var i :| 0 <= i < |b| && b[i] == a[n];
      TakeOut(b, i, d);
      TakeOut(a, n, d);
      assert a[..n] + a[n + 1..] == a[..n];
      CancelOne(multiset(a[..n]), multiset(b[..i] + b[i + 1..]), a[n]);
      TotalOfPermutation(a[..n], b[..i] + b[i + 1..], d);
    }
  }

  // ---------- sanitized lists ----------

  /** Strictly ascending denominations with positive amounts. */
  ghost predicate Sanitized(s: seq<Coin>) {
    && (forall i, j :: 0 <= i < j < |s| ==> Less(s[i].denom, s[j].denom))
    && forall i :: 0 <= i < |s| ==> s[i].amount > 0
  }

  lemma {:induction false} AbsentTotal(s: seq<Coin>, d: string)
    requires forall i :: 0 <= i < |s| ==> s[i].denom != d
    ensures TotalOf(s, d) == 0
    decreases |s|
  {
    if s == [] {
    } else {
      AbsentTotal(s[..|s| - 1], d);
    }
  }

  lemma FirstTotal(s: seq<Coin>)
    requires Sanitized(s) && s != []
    ensures TotalOf(s, s[0].denom) == s[0].amount && TotalOf(s[1..], s[0].denom) == 0
  {
    forall i | 1 <= i < |s|
      ensures s[i].denom != s[0].denom
    {
      LessIrreflexive(s[i].denom);
    }
    AbsentTotal(s[1..], s[0].denom);
    TotalFirst(s, s[0].denom);
  }

  lemma NotBelowFirst(s: seq<Coin>, d: string)
    requires Sanitized(s) && (s != [] ==> Less(d, s[0].denom))
    ensures TotalOf(s, d) == 0
  {
    forall i | 0 <= i < |s|
      ensures s[i].denom != d
    {
      if i > 0 { LessTransitive(d, s[0].denom, s[i].denom); }
      LessIrreflexive(d);
    }
    AbsentTotal(s, d);
  }

  lemma FirstNotBelow(s: seq<Coin>, t: seq<Coin>)
    requires Sanitized(s) && Sanitized(t) && s != [] && TotalOf(s, s[0].denom) == TotalOf(t, s[0].denom)
    ensures t != [] && !Less(s[0].denom, t[0].denom)
  {
    FirstTotal(s);
    if t == [] || Less(s[0].denom, t[0].denom) { NotBelowFirst(t, s[0].denom); }
  }

  /** A sanitized list is determined by its totals. */
  lemma {:induction false} SanitizedUnique(s: seq<Coin>, t: seq<Coin>)
    requires Sanitized(s) && Sanitized(t) && forall d :: TotalOf(s, d) == TotalOf(t, d)
    ensures s == t
    decreases |s|
  {
    if t == [] {
    } else {
      FirstNotBelow(t, s);
    }
    if s == [] {
    } else {
      FirstNotBelow(s, t);
      LessTotal(s[0].denom, t[0].denom);
      FirstTotal(s);
      FirstTotal(t);
      forall d
        ensures TotalOf(s[1..], d) == TotalOf(t[1..], d)
      {
        TotalFirst(s, d);
        TotalFirst(t, d);
      }
      SanitizedUnique(s[1..], t[1..]);
      assert s == [s[0]] + s[1..] && t == [t[0]] + t[1..];
    }
  }

  // ---------- when the loop panics ----------

  /** Added up one after the other, starting at acc, the amounts of d never leave math.Int. */
  predicate SumsFit(coins: seq<Coin>, d: string, acc: int)
    decreases |coins|
  {
    Fits(acc) && (coins == [] || SumsFit(coins[1..], d, acc + Part(coins[0], d)))
  }

  predicate AddsUp(coins: seq<Coin>, d: string) {
    SumsFit(coins, d, 0)
  }

  ghost predicate AmountsFit(coins: seq<Coin>) {
    forall c :: c in coins ==> Fits(c.amount)
  }

  ghost predicate Nameless(coins: seq<Coin>) {
    exists c :: c in coins && c.denom == "" && c.amount != 0
  }

  lemma {:induction false} AbsentSumsFit(coins: seq<Coin>, d: string, acc: int)
    requires Fits(acc) && forall c :: c in coins ==> c.denom != d
    ensures SumsFit(coins, d, acc)
    decreases |coins|
  {
    if coins == [] {
    } else {
      assert coins[0] in coins;
      AbsentSumsFit(coins[1..], d, acc);
    }
  }

  /** No coin is below last, and those of last stand first. */
  ghost predicate NotBelow(coins: seq<Coin>, last: string) {
    Ascending(coins) && forall c :: c in coins ==> !Less(c.denom, last)
  }

  lemma RestNotBelow(coins: seq<Coin>, last: string)
    requires NotBelow(coins, last) && coins != []
    ensures NotBelow(coins[1..], last) && NotBelow(coins[1..], coins[0].denom)
    ensures coins[0].denom != last ==> forall c :: c in coins ==> c.denom != last
  {
    var first, rest := coins[0].denom, coins[1..];
    assert coins[0] in coins;
    forall c | c in rest
      ensures c in coins && !Less(c.denom, first)
    {
      var i :| 0 <= i < |rest| && rest[i] == c;
      assert coins[i + 1] == c;
    }
    if first != last {
      LessTotal(first, last);
    }
  }

  lemma SumsStep(coins: seq<Coin>, d: string, acc: int)
    requires coins != []
    ensures SumsFit(coins, d, acc)
            <==> Fits(acc) && SumsFit(coins[1..], d, acc + Part(coins[0], d))
    ensures SumsFit(coins[1..], d, acc) ==> Fits(acc)
  {
  }

  /** A coin of another denomination, or of no amount, is passed over. */
  lemma SumsSkip(coins: seq<Coin>, d: string)
    requires coins != [] && (coins[0].denom != d || coins[0].amount == 0)
    ensures AddsUp(coins, d) <==> AddsUp(coins[1..], d)
  {
    SumsStep(coins, d, 0);
  }

  /** Everything but last adds up from zero. */
  ghost predicate OthersAddUp(coins: seq<Coin>, last: string) {
    forall d :: d != last ==> AddsUp(coins, d)
  }

  lemma OthersSkip(coins: seq<Coin>, last: string)
    requires coins != [] && (coins[0].denom == last || coins[0].amount == 0)
    ensures OthersAddUp(coins, last) <==> OthersAddUp(coins[1..], last)
  {
    forall d | d != last
      ensures AddsUp(coins, d) <==> AddsUp(coins[1..], d)
    {
      SumsSkip(coins, d);
    }
  }

  /** With a clean list the loop returns exactly when no running sum overflows. */
  lemma {:induction false} MergeReturnsIff(coins: seq<Coin>, clean: seq<Coin>, last: string)
    requires AmountsFit(coins) && NotBelow(coins, last)
    requires clean != [] && clean[|clean| - 1].denom == last && Fits(clean[|clean| - 1].amount)
    ensures Merge(coins, clean, last).Returned?
            <==> SumsFit(coins, last, clean[|clean| - 1].amount) && OthersAddUp(coins, last)
    decreases |coins|
  {
    if coins == [] {
      assert OthersAddUp(coins, last);
    } else {
      var c, rest, sum := coins[0], coins[1..], clean[|clean| - 1].amount;
      assert c in coins && forall x :: x in rest ==> x in coins;
      RestNotBelow(coins, last);
      SumsStep(coins, last, sum);
      if c.amount == 0 {
        MergeReturnsIff(rest, clean, last);
        OthersSkip(coins, last);
      } else if last != c.denom {
        MergeReturnsIff(rest, clean + [c], c.denom);
        AbsentSumsFit(coins, last, sum);
        SumsOfNext(coins, last);
      } else {
        if Fits(sum + c.amount) { MergeReturnsIff(rest, AddToLast(clean, c), last); }
        SumsStart(rest, last, sum + c.amount);
        OthersSkip(coins, last);
      }
    }
  }

  lemma SumsStart(coins: seq<Coin>, d: string, acc: int)
    ensures SumsFit(coins, d, acc) ==> Fits(acc)
  {
  }

  /** When the first coin starts a new denomination its sum starts at that coin. */
  lemma SumsOfNext(coins: seq<Coin>, last: string)
    requires AmountsFit(coins) && coins != [] && coins[0].denom != last && forall c :: c in coins ==> c.denom != last
    ensures OthersAddUp(coins, last)
            <==> SumsFit(coins[1..], coins[0].denom, coins[0].amount) && OthersAddUp(coins[1..], coins[0].denom)
  {
    var c, rest := coins[0], coins[1..];
    SumsStep(coins, c.denom, 0);
    AbsentSumsFit(rest, last, 0);
    assert AddsUp(rest, last);
    forall d
      ensures d != c.denom ==> (AddsUp(coins, d) <==> AddsUp(rest, d))
    {
      if d != c.denom { SumsSkip(coins, d); }
    }
    assert AddsUp(coins, c.denom) <==> SumsFit(rest, c.denom, c.amount);
  }

  ghost predicate AllAddUp(coins: seq<Coin>) {
    forall d :: AddsUp(coins, d)
  }

  lemma {:induction false} MergePanicsIff(coins: seq<Coin>)
    requires AmountsFit(coins) && Ascending(coins)
    ensures Merge(coins, [], "").Panicked? <==> Nameless(coins) || !AllAddUp(coins)
    decreases |coins|
  {
    if coins == [] {
      assert !Nameless(coins) && AllAddUp(coins);
    } else {
      var c, rest := coins[0], coins[1..];
      assert c in coins && forall x :: x in coins <==> x == c || x in rest;
      assert NotBelow(coins, "");
      RestNotBelow(coins, "");
      if c.amount == 0 {
        MergePanicsIff(rest);
        assert Nameless(coins) <==> Nameless(rest);
        forall d { SumsSkip(coins, d); }
        assert AllAddUp(coins) <==> AllAddUp(rest);
      } else if c.denom == "" {
        assert Nameless(coins);
      } else {
        NamedReturnsIff(coins);
      }
    }
  }

  lemma NamedReturnsIff(coins: seq<Coin>)
    requires AmountsFit(coins) && NotBelow(coins, "") && coins != [] && coins[0].denom != "" && coins[0].amount != 0
    ensures !Nameless(coins)
    ensures Merge(coins, [], "").Returned? <==> AllAddUp(coins)
  {
    var c, rest := coins[0], coins[1..];
    RestNotBelow(coins, "");
    assert c in coins && forall x :: x in rest ==> x in coins;
    assert [] + [c] == [c];
    MergeReturnsIff(rest, [c], c.denom);
    SumsOfNext(coins, "");
    AbsentSumsFit(coins, "", 0);
    assert AddsUp(coins, "");
    assert OthersAddUp(coins, "") <==> AllAddUp(coins);
  }

  // ---------- sorting does not change the running sums ----------

  lemma {:induction false} SumsAppend(a: seq<Coin>, c: Coin, d: string, acc: int)
    ensures SumsFit(a + [c], d, acc) <==> SumsFit(a, d, acc) && Fits(acc + TotalOf(a, d) + Part(c, d))
    decreases |a|
  {
    if a == [] {
      assert a + [c] == [c] && [c][1..] == [];
      SumsStep([c], d, acc);
    } else {
      assert (a + [c])[1..] == a[1..] + [c];
      SumsStep(a + [c], d, acc);
      SumsStep(a, d, acc);
      TotalFirst(a, d);
      SumsAppend(a[1..], c, d, acc + Part(a[0], d));
    }
  }

  lemma SumsOneMore(s: seq<Coin>, c: Coin, d: string)
    ensures AddsUp(s + [c], d) <==> AddsUp(s, d) && Fits(TotalOf(s, d) + Part(c, d))
    ensures TotalOf(s + [c], d) == TotalOf(s, d) + Part(c, d)
  {
    SumsAppend(s, c, d, 0);
    TotalOneMore(s, c, d);
  }

  /** The last running sum of a list is its total. */
  lemma SumsOfLast(s: seq<Coin>, d: string)
    requires s != []
    ensures var front, c := s[..|s| - 1], s[|s| - 1];
            && (AddsUp(s, d) <==> AddsUp(front, d) && Fits(TotalOf(front, d) + Part(c, d)))
            && TotalOf(s, d) == TotalOf(front, d) + Part(c, d)
  {
    assert s == s[..|s| - 1] + [s[|s| - 1]];
    SumsOneMore(s[..|s| - 1], s[|s| - 1], d);
  }

  lemma LastSumFits(s: seq<Coin>, d: string)
    ensures AddsUp(s, d) ==> Fits(TotalOf(s, d))
  {
    if s == [] {
    } else {
      SumsOfLast(s, d);
    }
  }

  /** Of two coins of different denominations only one changes a sum, so they may change places. */
  lemma SwapSums(ok: bool, sum: int, x: int, y: int)
    requires (x == 0 || y == 0) && (ok ==> Fits(sum))
    ensures ok && Fits(sum + x) && Fits(sum + x + y) <==> ok && Fits(sum + y) && Fits(sum + y + x)
  {
  }

  lemma InsertBelow(s: seq<Coin>, c: Coin)
    requires s != [] && Less(c.denom, s[|s| - 1].denom)
    ensures Insert(s, c) == Insert(s[..|s| - 1], c) + [s[|s| - 1]]
    ensures c.denom != s[|s| - 1].denom
  {
    LessIrreflexive(c.denom);
  }

  /** t has the total and the running sums of s followed by c. */
  ghost predicate SumsLike(t: seq<Coin>, s: seq<Coin>, c: Coin, d: string) {
    && TotalOf(t, d) == TotalOf(s, d) + Part(c, d)
    && (AddsUp(t, d) <==> AddsUp(s, d) && Fits(TotalOf(s, d) + Part(c, d)))
  }

  lemma SumsLikeBelow(inserted: seq<Coin>, s: seq<Coin>, c: Coin, d: string)
    requires s != [] && c.denom != s[|s| - 1].denom && SumsLike(inserted, s[..|s| - 1], c, d)
    ensures SumsLike(inserted + [s[|s| - 1]], s, c, d)
  {
    var front, top := s[..|s| - 1], s[|s| - 1];
    SumsOfLast(s, d);
    SumsOneMore(inserted, top, d);
    LastSumFits(front, d);
    SwapSums(AddsUp(front, d), TotalOf(front, d), Part(c, d), Part(top, d));
  }

  /** Insertion moves a coin only past others of greater denominations. */
  lemma {:induction false} InsertSums(s: seq<Coin>, c: Coin, d: string)
    ensures SumsLike(Insert(s, c), s, c, d)
    decreases |s|
  {
    if s == [] || !Less(c.denom, s[|s| - 1].denom) {
      SumsOneMore(s, c, d);
    } else {
      InsertBelow(s, c);
      InsertSums(s[..|s| - 1], c, d);
      SumsLikeBelow(Insert(s[..|s| - 1], c), s, c, d);
    }
  }

  /** t has the total and the running sums of s. */
  ghost predicate SameSums(t: seq<Coin>, s: seq<Coin>, d: string) {
    TotalOf(t, d) == TotalOf(s, d) && (AddsUp(t, d) <==> AddsUp(s, d))
  }

  lemma SameSumsLast(t: seq<Coin>, u: seq<Coin>, s: seq<Coin>, d: string)
    requires s != [] && SameSums(t, s[..|s| - 1], d) && SumsLike(u, t, s[|s| - 1], d)
    ensures SameSums(u, s, d)
  {
    SumsOfLast(s, d);
  }

  lemma {:induction false} SortSums(s: seq<Coin>, d: string)
    ensures SameSums(Sort(s), s, d)
    decreases |s|
  {
    if s == [] {
    } else {
      var front, c := s[..|s| - 1], s[|s| - 1];
      SortSums(front, d);
      InsertSums(Sort(front), c, d);
      SameSumsLast(Sort(front), Insert(Sort(front), c), s, d);
    }
  }

  /**
    The call panics if and only if some coin has an amount but no denomination, or the amounts of
    some denomination, added up in the given order, leave math.Int on the way.
   */
  lemma SanitizePanicsIff(coins: seq<Coin>)
    requires AmountsFit(coins)
    ensures Sanitize(coins).Panicked? <==> Nameless(coins) || !AllAddUp(coins)
  {
    var sorted := Sort(coins);
    SortSorts(coins);
    SameElements(sorted, coins);
    MergePanicsIff(sorted);
    forall d
      ensures AddsUp(sorted, d) <==> AddsUp(coins, d)
    {
      SortSums(coins, d);
    }
  }

  lemma SameElements(a: seq<Coin>, b: seq<Coin>)
    requires multiset(a) == multiset(b)
    ensures forall c :: c in a <==> c in b
  {
    assert forall c :: c in a <==> c in multiset(a);
    assert forall c :: c in b <==> c in multiset(b);
  }

  // ---------- non-negative amounts ----------

  ghost predicate NonNegative(coins: seq<Coin>) {
    forall c :: c in coins ==> 0 <= c.amount < INT_LIMIT
  }

  /** Without negative amounts the last sum is the greatest. */
  lemma {:induction false} SumsFitIffTotal(coins: seq<Coin>, d: string, acc: int)
    requires NonNegative(coins) && acc >= 0
    ensures TotalOf(coins, d) >= 0
    ensures SumsFit(coins, d, acc) <==> acc + TotalOf(coins, d) < INT_LIMIT
    decreases |coins|
  {
    if coins == [] {
    } else {
      assert coins[0] in coins;
      TotalFirst(coins, d);
      SumsFitIffTotal(coins[1..], d, acc + Part(coins[0], d));
    }
  }

  /** Some denomination adds up to more than math.Int holds. */
  ghost predicate Overflows(coins: seq<Coin>) {
    exists d :: TotalOf(coins, d) >= INT_LIMIT
  }

  /** On non-negative amounts: a nameless coin, or a total of 2^256 or more. */
  lemma SanitizePanicsIffTotal(coins: seq<Coin>)
    requires NonNegative(coins)
    ensures Sanitize(coins).Panicked? <==> Nameless(coins) || Overflows(coins)
  {
    SanitizePanicsIff(coins);
    forall d
      ensures AddsUp(coins, d) <==> TotalOf(coins, d) < INT_LIMIT
    {
      SumsFitIffTotal(coins, d, 0);
    }
  }

  /** Two coins of one denomination with the greatest amount there is. */
  lemma TwoGreatestPanic(d: string)
    ensures NonNegative([Coin(d, INT_LIMIT - 1), Coin(d, INT_LIMIT - 1)])
    ensures Sanitize([Coin(d, INT_LIMIT - 1), Coin(d, INT_LIMIT - 1)]).Panicked?
  {
    var c := Coin(d, INT_LIMIT - 1);
    var coins := [c, c];
    assert coins[..1] == [c] && [c][..0] == [];
    assert TotalOf(coins, d) == TotalOf([c], d) + c.amount;
    SanitizePanicsIffTotal(coins);
  }

  // ---------- what the loop keeps ----------

  /** The clean list, the last denomination in it, and the coins still to come fit together. */
  ghost predicate MergeState(coins: seq<Coin>, clean: seq<Coin>, last: string) {
    && NonNegative(coins) && NotBelow(coins, last) && Sanitized(clean)
    && (clean == [] ==> last == "")
    && (clean != [] ==> clean[|clean| - 1].denom == last)
  }

  lemma {:induction false} MergeSanitizes(coins: seq<Coin>, clean: seq<Coin>, last: string, d: string)
    requires MergeState(coins, clean, last)
    ensures var r := Merge(coins, clean, last);
            r.Returned? ==> Sanitized(r.value) && TotalOf(r.value, d) == TotalOf(clean, d) + TotalOf(coins, d)
    decreases |coins|
  {
    if coins == [] {
    } else {
      var c, rest := coins[0], coins[1..];
      assert c in coins;
      TotalFirst(coins, d);
      RestNotBelow(coins, last);
      if c.amount == 0 {
        MergeSanitizes(rest, clean, last, d);
      } else if last != c.denom {
        AppendSanitized(clean, c, last, d);
        MergeSanitizes(rest, clean + [c], c.denom, d);
      } else if clean != [] && Fits(clean[|clean| - 1].amount + c.amount) {
        AddKeepsSanitized(clean, c, d);
        MergeSanitizes(rest, AddToLast(clean, c), c.denom, d);
      }
    }
  }

  lemma AppendSanitized(clean: seq<Coin>, c: Coin, last: string, d: string)
    requires Sanitized(clean) && c.amount > 0 && last != c.denom && !Less(c.denom, last)
    requires clean != [] ==> clean[|clean| - 1].denom == last
    ensures Sanitized(clean + [c])
    ensures TotalOf(clean + [c], d) == TotalOf(clean, d) + Part(c, d)
  {
    LessTotal(last, c.denom);
    forall i | 0 <= i < |clean|
      ensures Less(clean[i].denom, c.denom)
    {
      if i < |clean| - 1 { LessTransitive(clean[i].denom, last, c.denom); }
    }
    AppendGreatest(clean, c);
    TotalOneMore(clean, c, d);
  }

  lemma AppendGreatest(clean: seq<Coin>, c: Coin)
    requires Sanitized(clean) && c.amount > 0 && forall i :: 0 <= i < |clean| ==> Less(clean[i].denom, c.denom)
    ensures Sanitized(clean + [c])
  {
  }

  lemma AddKeepsSanitized(clean: seq<Coin>, c: Coin, d: string)
    requires Sanitized(clean) && clean != [] && c.amount > 0 && clean[|clean| - 1].denom == c.denom
    ensures Sanitized(AddToLast(clean, c))
    ensures TotalOf(AddToLast(clean, c), d) == TotalOf(clean, d) + Part(c, d)
  {
    AddToLastTotal(clean, c, d);
    SameDenoms(clean, AddToLast(clean, c));
  }

  lemma AddToLastTotal(clean: seq<Coin>, c: Coin, d: string)
    requires clean != [] && clean[|clean| - 1].denom == c.denom
    ensures TotalOf(AddToLast(clean, c), d) == TotalOf(clean, d) + Part(c, d)
  {
    var front, last := clean[..|clean| - 1], clean[|clean| - 1];
    var sum := last.(amount := last.amount + c.amount);
    assert clean == front + [last] && AddToLast(clean, c) == front + [sum];
    TotalOneMore(front, last, d);
    TotalOneMore(front, sum, d);
  }

  lemma SameDenoms(s: seq<Coin>, t: seq<Coin>)
    requires Sanitized(s) && |s| == |t| && forall i :: 0 <= i < |s| ==> t[i].denom == s[i].denom && t[i].amount > 0
    ensures Sanitized(t)
  {
  }

  // ---------- the results ----------

  /** Non-negative coins become a sanitized list with the same totals, unless the call panics. */
  lemma SanitizeCorrect(coins: seq<Coin>, d: string)
    requires NonNegative(coins)
    ensures Sanitize(coins).Returned? <==> !Nameless(coins) && !Overflows(coins)
    ensures Sanitize(coins).Returned? ==>
              Sanitized(Sanitize(coins).value) && TotalOf(Sanitize(coins).value, d) == TotalOf(coins, d)
  {
    SanitizePanicsIffTotal(coins);
    SortSorts(coins);
    var sorted := Sort(coins);
    SameElements(sorted, coins);
    assert NotBelow(sorted, "");
    MergeSanitizes(sorted, [], "", d);
    TotalOfPermutation(sorted, coins, d);
  }

  /** Any order of the same non-negative coins gives the same result or the same panic. */
  lemma SanitizeIgnoresOrder(a: seq<Coin>, b: seq<Coin>)
    requires NonNegative(a) && multiset(a) == multiset(b)
    ensures Sanitize(a) == Sanitize(b)
  {
    SameElements(a, b);
    forall d
      ensures TotalOf(a, d) == TotalOf(b, d)
    {
      TotalOfPermutation(a, b, d);
    }
    SanitizeCorrect(a, "");
    SanitizeCorrect(b, "");
    if Sanitize(a).Returned? {
      forall d
        ensures TotalOf(Sanitize(a).value, d) == TotalOf(Sanitize(b).value, d)
      {
        SanitizeCorrect(a, d);
        SanitizeCorrect(b, d);
      }
      SanitizedUnique(Sanitize(a).value, Sanitize(b).value);
    }
  }

  /** A sanitized list of named coins is left as it is. */
  lemma SanitizeIdempotent(s: seq<Coin>)
    requires Sanitized(s) && NonNegative(s) && !Nameless(s)
    ensures Sanitize(s) == Returned(s)
  {
    forall d
      ensures TotalOf(s, d) < INT_LIMIT
    {
      SanitizedTotalFits(s, d);
    }
    SanitizeCorrect(s, "");
    forall d
      ensures TotalOf(Sanitize(s).value, d) == TotalOf(s, d)
    {
      SanitizeCorrect(s, d);
    }
    SanitizedUnique(Sanitize(s).value, s);
  }

  lemma {:induction false} SanitizedTotalFits(s: seq<Coin>, d: string)
    requires Sanitized(s) && NonNegative(s)
    ensures TotalOf(s, d) < INT_LIMIT
    decreases |s|
  {
    if s == [] {
    } else if s[0].denom == d {
      assert s[0] in s;
      FirstTotal(s);
    } else {
      TotalFirst(s, d);
      SanitizedTotalFits(s[1..], d);
    }
  }

  // ---------- in place ----------

  /** sort.SliceStable by denomination: afterwards the caller's slice is the stably sorted one. */
  method SortStable(a: array<Coin>)
    modifies a
    ensures a[..] == Sort(old(a[..]))
  {
    ghost var was := a[..];
    assert a[..0] == [];
    for k := 0 to a.Length
      invariant a[..k] == Sort(was[..k])
      invariant a[k..] == was[k..]
    {
      assert was[..k + 1][..k] == was[..k];
      InsertInPlace(a, k);
    }
    assert a[..a.Length] == a[..] && was[..a.Length] == was;
  }

  method InsertInPlace(a: array<Coin>, k: nat)
    requires k < a.Length
    modifies a
    ensures a[..k + 1] == Insert(old(a[..k]), old(a[k]))
    ensures a[k + 1..] == old(a[k + 1..])
  {
    ghost var p, c, tail := a[..k], a[k], a[k + 1..];
    var j := k;
    assert a[..] == With(p, c, j) + tail;
    assert p[..k] == p && p[k..] == [];
    while j > 0 && Less(a[j].denom, a[j - 1].denom)
      invariant 0 <= j <= k
      invariant a[..] == With(p, c, j) + tail
      invariant Insert(p, c) == Insert(p[..j], c) + p[j..]
    {
      assert a[j] == a[..][j] == c && a[j - 1] == a[..][j - 1] == p[j - 1];
      MoveDown(p, c, tail, j);
      InsertBefore(p, c, j);
      SwapDown(a, j);
      j := j - 1;
    }
    StopInserting(p, c, tail, j, a[..]);
  }

  method SwapDown(a: array<Coin>, j: nat)
    requires 0 < j < a.Length
    modifies a
    ensures a[..] == old(a[..])[j := old(a[j - 1])][j - 1 := old(a[j])]
  {
    a[j], a[j - 1] := a[j - 1], a[j];
  }

  lemma StopInserting(p: seq<Coin>, c: Coin, tail: seq<Coin>, j: nat, s: seq<Coin>)
    requires j <= |p| && s == With(p, c, j) + tail && Insert(p, c) == Insert(p[..j], c) + p[j..]
    requires j > 0 ==> !Less(s[j].denom, s[j - 1].denom)
    ensures s[..|p| + 1] == Insert(p, c) && s[|p| + 1..] == tail
  {
    assert j > 0 ==> s[j] == c && s[j - 1] == p[j - 1];
    assert Insert(p[..j], c) == p[..j] + [c];
    assert s[..|p| + 1] == With(p, c, j);
  }

  /** p with c put in at place j. */
  function With(p: seq<Coin>, c: Coin, j: nat): seq<Coin>
    requires j <= |p|
  {
    p[..j] + [c] + p[j..]
  }

  lemma MoveDown(p: seq<Coin>, c: Coin, tail: seq<Coin>, j: nat)
    requires 0 < j <= |p|
    ensures var s := With(p, c, j) + tail; s[j := s[j - 1]][j - 1 := s[j]] == With(p, c, j - 1) + tail
  {
  }

  lemma InsertBefore(p: seq<Coin>, c: Coin, j: nat)
    requires 0 < j <= |p| && Less(c.denom, p[j - 1].denom)
    ensures Insert(p[..j], c) + p[j..] == Insert(p[..j - 1], c) + p[j - 1..]
  {
    assert p[..j][..j - 1] == p[..j - 1];
    assert p[j - 1..] == [p[j - 1]] + p[j..];
  }

  /** SanitizeCoins: the argument is left sorted and the result is the sanitized list. */
  method SanitizeCoins(coins: array<Coin>) returns (r: Outcome<seq<Coin>>)
    modifies coins
    ensures coins[..] == Sort(old(coins[..]))
    ensures r == Sanitize(old(coins[..]))
  {
    SortStable(coins);
    var cleanCoins: seq<Coin>, lastDenom := [], "";
    assert coins[0..] == coins[..];
    for i := 0 to coins.Length
      invariant coins[..] == Sort(old(coins[..]))
      invariant Merge(coins[i..], cleanCoins, lastDenom) == Sanitize(old(coins[..]))
    {
      var coin := coins[i];
      assert coins[i..][0] == coin && coins[i..][1..] == coins[i + 1..];
      if coin.amount == 0 {
        continue;
      }
      if lastDenom != coin.denom {
        cleanCoins := cleanCoins + [coin];
      } else if |cleanCoins| == 0 || !Fits(cleanCoins[|cleanCoins| - 1].amount + coin.amount) {
        return Panicked;
      } else {
        cleanCoins := AddToLast(cleanCoins, coin);
      }
      lastDenom := coin.denom;
    }
    return Returned(cleanCoins);
  }
}
