/**
  The entries app/clawback.go seizes: thirteen coins of the attacker, two amounts of the voter and what
  unstaking released, and what becomes of every balance they name.
 */
module StolenFunds {
  import opened Prelude
  import opened Messages
  import opened HaltFilters
  import opened Clawback

  const CLAWBACK_RECIPIENT := "neutron1yr29fd7uzdjp2jsq8hrta8mvyd6ex7vumn0shy"
  const NTRN := "untrn"

  const ATTACKER_COINS: seq<(Denom, nat)> := [
    ("ibc/B559A80D62249C8AA07A380E2A2BEA6E5CA9A6F079C912C3A9E9B494105E4F81", 1671301712957),
    ("factory/neutron1k6hr0f83e7un2wjf29cspk7j69jrnskk65k3ek2nj9dztrlzpj6q00rtsa/udatom", 1592481671557),
    (NTRN, 95196289988992),
    ("factory/neutron1ffus553eet978k024lmssw0czsxwr97mggyv85lpcsdkft8v9ufsz3sa07/astro", 370318691388430),
    ("ibc/A585C2D15DCD3B010849B453A2CFCB5E213208A5AB665691792684C26274304D", 14088467067160856016),
    ("factory/neutron1ug740qrkquxzrk2hh29qrlx3sktkfml3je7juusc2te7xmvsscns0n2wry/wstETH", 293993098793),
    ("factory/neutron10sr06r3qkhn7xzpw3339wuj77hu06mzna6uht0/eclip", 429157300),
    ("ibc/F082B65C88E4B6D5EF1DB243CDA1D331D002759E938A0F5CD3FFDC5D53B3E349", 7141),
    ("ibc/773B4D0A3CD667B2275D5A4A7A2F0909C0BA0F4059C0B9181E680DDF4965DCC7", 2100),
    ("factory/neutron18c8qejysp4hgcfuxdpj4wf29mevzwllz5yh8uayjxamwtrs0n9fshq9vtv/astroport/share", 1000),
    ("factory/neutron1nfns3ck2ykrs0fknckrzd9728cyf77devuzernhwcwrdxw7ssk2s3tjf8r/astroport/share", 1000),
    ("factory/neutron1yem82r0wf837lfkwvcu2zxlyds5qrzwkz8alvmg0apyrjthk64gqeq2e98/astroport/share", 1000),
    ("factory/neutron1zlf3hutsa4qnmue53lz2tfxrutp8y2e3rj4nkghg3rupgl4mqy8s5jgxsn/xASTRO", 1000)
  ]

  /** The voter's liquid amount and its unclaimed rewards at the halt. */
  const VOTER_AMOUNTS: seq<nat> := [7501863566, 19385160546]

  function FromAttacker(coins: seq<(Denom, nat)>): seq<Transfer> {
    seq(|coins|, i requires 0 <= i < |coins| => Transfer(ATTACKER, coins[i].0, coins[i].1))
  }

  function FromVoter(amounts: seq<nat>): seq<Transfer> {
    seq(|amounts|, i requires 0 <= i < |amounts| => Transfer(ATTACKER_2, NTRN, amounts[i]))
  }

  /** The listed entries, then the amount the unstaking released. */
  function Transfers(voterUnstaked: nat): seq<Transfer> {
    FromAttacker(ATTACKER_COINS) + FromVoter(VOTER_AMOUNTS + [voterUnstaked])
  }

  /** ClawbackStolenFunds: the recipient exists afterwards, and the listed entries and the unstaked amount were seized in order. */
  method ClawbackStolenFunds(bank: Bank, voterUnstaked: nat) returns (panicked: bool)
    modifies bank
    ensures bank.accounts == old(bank.accounts) + {CLAWBACK_RECIPIENT}
    ensures var all := ClawAllChecked(old(bank.balances), bank.locks, CLAWBACK_RECIPIENT, Transfers(voterUnstaked));
            panicked == all.Panicked? && (!panicked ==> bank.balances == all.value)
  {
    if CLAWBACK_RECIPIENT !in bank.accounts {
      bank.accounts := bank.accounts + {CLAWBACK_RECIPIENT};
    }
    panicked := ClawEach(bank, CLAWBACK_RECIPIENT, Transfers(voterUnstaked));
  }

  // ---------- what is listed ----------

  function SumOf(amounts: seq<nat>): nat {
    if amounts == [] then 0 else amounts[0] + SumOf(amounts[1..])
  }

  lemma {:induction false} VoterListed(amounts: seq<nat>)
    ensures Listed(FromVoter(amounts), (ATTACKER_2, NTRN)) == SumOf(amounts)
    decreases |amounts|
  {
    if amounts == [] {
    } else {
      assert FromVoter(amounts)[1..] == FromVoter(amounts[1..]);
      VoterListed(amounts[1..]);
    }
  }

  lemma AccountsDiffer()
    ensures ATTACKER != ATTACKER_2 && ATTACKER_2 != CLAWBACK_RECIPIENT && ATTACKER != CLAWBACK_RECIPIENT
  {
    assert ATTACKER[8] == 'd' && ATTACKER_2[8] == 'e' && CLAWBACK_RECIPIENT[8] == 'y';
  }

  lemma OnlyVoterListed(coins: seq<(Denom, nat)>, amounts: seq<nat>)
    ensures Listed(FromAttacker(coins) + FromVoter(amounts), (ATTACKER_2, NTRN)) == SumOf(amounts)
  {
    AccountsDiffer();
    NothingListed(FromAttacker(coins), (ATTACKER_2, NTRN));
    VoterListed(amounts);
    ListedAppend(FromAttacker(coins), FromVoter(amounts), (ATTACKER_2, NTRN));
  }

  lemma VoterSum(voterUnstaked: nat)
    ensures SumOf(VOTER_AMOUNTS + [voterUnstaked]) == 7501863566 + 19385160546 + voterUnstaked
  {
    var amounts := VOTER_AMOUNTS + [voterUnstaked];
    assert amounts[1..] == [19385160546, voterUnstaked] && amounts[1..][1..] == [voterUnstaked];
    assert SumOf([voterUnstaked]) == voterUnstaked + SumOf([]);
  }

  lemma OnlyAttackerListed(coins: seq<(Denom, nat)>, amounts: seq<nat>, d: Denom)
    ensures Listed(FromAttacker(coins) + FromVoter(amounts), (ATTACKER, d)) == Listed(FromAttacker(coins), (ATTACKER, d))
  {
    AccountsDiffer();
    NothingListed(FromVoter(amounts), (ATTACKER, d));
    ListedAppend(FromAttacker(coins), FromVoter(amounts), (ATTACKER, d));
  }

  lemma {:induction false} VoterListsOneDenom(amounts: seq<nat>, d: Denom)
    requires d != NTRN
    ensures Listed(FromVoter(amounts), (ATTACKER_2, d)) == 0
    decreases |amounts|
  {
    if amounts == [] {
    } else {
      assert FromVoter(amounts)[1..] == FromVoter(amounts[1..]);
      VoterListsOneDenom(amounts[1..], d);
    }
  }

  /** What is listed of a denomination for an account. */
  function AmountOf(coins: seq<(Denom, nat)>, d: Denom): nat {
    if coins == [] then 0 else (if coins[0].0 == d then coins[0].1 else 0) + AmountOf(coins[1..], d)
  }

  lemma {:induction false} AttackerListed(coins: seq<(Denom, nat)>, d: Denom)
    ensures Listed(FromAttacker(coins), (ATTACKER, d)) == AmountOf(coins, d)
    decreases |coins|
  {
    if coins == [] {
    } else {
      assert FromAttacker(coins)[1..] == FromAttacker(coins[1..]);
      AttackerListed(coins[1..], d);
    }
  }

  // ---------- no coin is listed twice ----------

  /** A character in which the listed denominations differ. */
  function Mark(d: Denom): char {
    if d == [] then '-' else if |d| == 90 then d[73] else d[|d| - 1]
  }

  const MARKS := "1mnoDHp97vr8O"

  lemma MarksOfFirstCoins()
    ensures forall i :: 0 <= i < 5 ==> Mark(ATTACKER_COINS[i].0) == MARKS[i]
  {
    assert Mark(ATTACKER_COINS[0].0) == '1' && Mark(ATTACKER_COINS[1].0) == 'm' && Mark(ATTACKER_COINS[2].0) == 'n';
    assert Mark(ATTACKER_COINS[3].0) == 'o' && Mark(ATTACKER_COINS[4].0) == 'D';
  }

  lemma MarksOfMiddleCoins()
    ensures forall i :: 5 <= i < 9 ==> Mark(ATTACKER_COINS[i].0) == MARKS[i]
  {
    assert Mark(ATTACKER_COINS[5].0) == 'H' && Mark(ATTACKER_COINS[6].0) == 'p';
    assert Mark(ATTACKER_COINS[7].0) == '9' && Mark(ATTACKER_COINS[8].0) == '7';
  }

  lemma MarksOfLastCoins()
    ensures forall i :: 9 <= i < 13 ==> Mark(ATTACKER_COINS[i].0) == MARKS[i]
  {
    assert Mark(ATTACKER_COINS[9].0) == 'v' && Mark(ATTACKER_COINS[10].0) == 'r';
    assert Mark(ATTACKER_COINS[11].0) == '8' && Mark(ATTACKER_COINS[12].0) == 'O';
  }

  lemma MarksOfCoins()
    ensures |ATTACKER_COINS| == |MARKS|
    ensures forall i :: 0 <= i < |MARKS| ==> Mark(ATTACKER_COINS[i].0) == MARKS[i]
  {
    MarksOfFirstCoins();
    MarksOfMiddleCoins();
    MarksOfLastCoins();
  }

  lemma MarksDiffer(i: nat, j: nat)
    requires i < j < |MARKS|
    ensures MARKS[i] != MARKS[j]
  {
  }

  ghost predicate DistinctDenoms(coins: seq<(Denom, nat)>) {
    forall i, j :: 0 <= i < j < |coins| ==> coins[i].0 != coins[j].0
  }

  lemma CoinsDistinct()
    ensures DistinctDenoms(ATTACKER_COINS)
  {
    MarksOfCoins();
    forall i, j | 0 <= i < j < |ATTACKER_COINS|
      ensures ATTACKER_COINS[i].0 != ATTACKER_COINS[j].0
    {
      MarksDiffer(i, j);
    }
  }

  lemma {:induction false} AmountAbsent(coins: seq<(Denom, nat)>, d: Denom)
    requires forall i :: 0 <= i < |coins| ==> coins[i].0 != d
    ensures AmountOf(coins, d) == 0
    decreases |coins|
  {
    if coins == [] {
    } else {
      AmountAbsent(coins[1..], d);
    }
  }

  lemma {:induction false} AmountAt(coins: seq<(Denom, nat)>, i: nat)
    requires DistinctDenoms(coins) && i < |coins|
    ensures AmountOf(coins, coins[i].0) == coins[i].1
    decreases |coins|
  {
    if i == 0 {
      AmountAbsent(coins[1..], coins[0].0);
    } else {
      AmountAt(coins[1..], i - 1);
    }
  }

  // ---------- what becomes of the balances ----------

  /** The voter loses its two listed amounts and the unstaked one together, or all it can spend. */
  lemma VoterSeizure(b: Ledger, locks: Locks, voterUnstaked: nat)
    requires WellFormed(b)
    ensures var k := (ATTACKER_2, NTRN);
            Balance(ClawAll(b, locks, CLAWBACK_RECIPIENT, Transfers(voterUnstaked)), k)
            == Balance(b, k) - Min(7501863566 + 19385160546 + voterUnstaked, Spendable(b, locks, k))
  {
    AccountsDiffer();
    OnlyVoterListed(ATTACKER_COINS, VOTER_AMOUNTS + [voterUnstaked]);
    VoterSum(voterUnstaked);
    SeizedInAll(b, locks, CLAWBACK_RECIPIENT, Transfers(voterUnstaked), (ATTACKER_2, NTRN));
  }

  /** The attacker loses of every denomination what is listed of it, or all it can spend. */
  lemma AttackerLoses(b: Ledger, locks: Locks, voterUnstaked: nat, d: Denom)
    requires WellFormed(b)
    ensures var k := (ATTACKER, d);
            Balance(ClawAll(b, locks, CLAWBACK_RECIPIENT, Transfers(voterUnstaked)), k)
            == Balance(b, k) - Min(AmountOf(ATTACKER_COINS, d), Spendable(b, locks, k))
  {
    AccountsDiffer();
    OnlyAttackerListed(ATTACKER_COINS, VOTER_AMOUNTS + [voterUnstaked], d);
    AttackerListed(ATTACKER_COINS, d);
    SeizedInAll(b, locks, CLAWBACK_RECIPIENT, Transfers(voterUnstaked), (ATTACKER, d));
  }

  /** The attacker loses each of its thirteen listed coins, or all it can spend of it. */
  lemma AttackerSeizure(b: Ledger, locks: Locks, voterUnstaked: nat, i: nat)
    requires WellFormed(b) && i < |ATTACKER_COINS|
    ensures var k := (ATTACKER, ATTACKER_COINS[i].0);
            Balance(ClawAll(b, locks, CLAWBACK_RECIPIENT, Transfers(voterUnstaked)), k)
            == Balance(b, k) - Min(ATTACKER_COINS[i].1, Spendable(b, locks, k))
  {
    CoinsDistinct();
    AmountAt(ATTACKER_COINS, i);
    AttackerLoses(b, locks, voterUnstaked, ATTACKER_COINS[i].0);
  }

  /** Its other coins stay where they are. */
  lemma AttackerKeeps(b: Ledger, locks: Locks, voterUnstaked: nat, d: Denom)
    requires WellFormed(b) && forall i :: 0 <= i < |ATTACKER_COINS| ==> ATTACKER_COINS[i].0 != d
    ensures Balance(ClawAll(b, locks, CLAWBACK_RECIPIENT, Transfers(voterUnstaked)), (ATTACKER, d)) == Balance(b, (ATTACKER, d))
  {
    AmountAbsent(ATTACKER_COINS, d);
    AttackerLoses(b, locks, voterUnstaked, d);
  }

  lemma SourcesAre(coins: seq<(Denom, nat)>, amounts: seq<nat>)
    requires coins != [] && amounts != []
    ensures Sources(FromAttacker(coins) + FromVoter(amounts), CLAWBACK_RECIPIENT) == {ATTACKER, ATTACKER_2}
  {
    var ts := FromAttacker(coins) + FromVoter(amounts);
    AccountsDiffer();
    assert ts[0] in ts && ts[0].from == ATTACKER;
    assert ts[|coins|] in ts && ts[|coins|].from == ATTACKER_2;
    forall t | t in ts
      ensures t.from == ATTACKER || t.from == ATTACKER_2
    {
      var n :| 0 <= n < |ts| && ts[n] == t;
      assert n >= |coins| ==> t == FromVoter(amounts)[n - |coins|];
    }
  }

  lemma TakenFromTwo(b: Ledger, locks: Locks, ts: seq<Transfer>, a: Address, a': Address, d: Denom)
    requires a != a'
    ensures Taken(b, locks, ts, {a, a'}, d) == TakenFrom(b, locks, ts, (a, d)) + TakenFrom(b, locks, ts, (a', d))
  {
    var s := {a, a'};
    var x :| x in s && Taken(b, locks, ts, s, d) == TakenFrom(b, locks, ts, (x, d)) + Taken(b, locks, ts, s - {x}, d);
    var y := if x == a then a' else a;
    assert s - {x} == {y};
    TakenFromOne(b, locks, ts, y, d);
  }

  lemma TakenFromOne(b: Ledger, locks: Locks, ts: seq<Transfer>, a: Address, d: Denom)
    ensures Taken(b, locks, ts, {a}, d) == TakenFrom(b, locks, ts, (a, d))
  {
    var x :| x in {a} && Taken(b, locks, ts, {a}, d) == TakenFrom(b, locks, ts, (x, d)) + Taken(b, locks, ts, {a} - {x}, d);
    assert {a} - {x} == {};
  }

  /** What the recipient gains of any denomination, from the attacker and from the voter. */
  lemma RecipientReceives(b: Ledger, locks: Locks, voterUnstaked: nat, d: Denom)
    requires WellFormed(b)
    ensures Balance(ClawAll(b, locks, CLAWBACK_RECIPIENT, Transfers(voterUnstaked)), (CLAWBACK_RECIPIENT, d))
            == Balance(b, (CLAWBACK_RECIPIENT, d))
               + Min(AmountOf(ATTACKER_COINS, d), Spendable(b, locks, (ATTACKER, d)))
               + (if d == NTRN then Min(7501863566 + 19385160546 + voterUnstaked, Spendable(b, locks, (ATTACKER_2, NTRN))) else 0)
  {
    var amounts := VOTER_AMOUNTS + [voterUnstaked];
    var ts := Transfers(voterUnstaked);
    AccountsDiffer();
    RecipientGains(b, locks, CLAWBACK_RECIPIENT, ts, d);
    SourcesAre(ATTACKER_COINS, amounts);
    TakenFromTwo(b, locks, ts, ATTACKER, ATTACKER_2, d);
    OnlyAttackerListed(ATTACKER_COINS, amounts, d);
    AttackerListed(ATTACKER_COINS, d);
    if d == NTRN {
      OnlyVoterListed(ATTACKER_COINS, amounts);
      VoterSum(voterUnstaked);
    } else {
      NothingListed(FromAttacker(ATTACKER_COINS), (ATTACKER_2, d));
      VoterListsOneDenom(amounts, d);
      ListedAppend(FromAttacker(ATTACKER_COINS), FromVoter(amounts), (ATTACKER_2, d));
    }
  }

  /** The recipient's gain of NTRN, in the listed figures. */
  lemma RecipientReceivesNtrn(b: Ledger, locks: Locks, voterUnstaked: nat)
    requires WellFormed(b)
    ensures Balance(ClawAll(b, locks, CLAWBACK_RECIPIENT, Transfers(voterUnstaked)), (CLAWBACK_RECIPIENT, NTRN))
            == Balance(b, (CLAWBACK_RECIPIENT, NTRN))
               + Min(95196289988992, Spendable(b, locks, (ATTACKER, NTRN)))
               + Min(7501863566 + 19385160546 + voterUnstaked, Spendable(b, locks, (ATTACKER_2, NTRN)))
  {
    CoinsDistinct();
    AmountAt(ATTACKER_COINS, 2);
    RecipientReceives(b, locks, voterUnstaked, NTRN);
  }
}
