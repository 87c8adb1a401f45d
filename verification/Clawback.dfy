/**
  The seizure of app/clawback.go: listed amounts move from the attacker's accounts to the recipient by
  rewriting bank balances entry by entry.
 */
module Clawback {
  import opened Prelude
  import opened Messages

  type Denom = string

  type Account = (Address, Denom)

  /** Stored balances; an account without entry holds zero. */
  type Ledger = map<Account, int>

  /** The part of each balance the bank refuses to spend, fixed while the seizure runs. */
  type Locks = map<Account, nat>

  datatype Transfer = Transfer(from: Address, denom: Denom, amount: nat)

  function Balance(b: Ledger, k: Account): int {
    if k in b then b[k] else 0
  }

  function Locked(locks: Locks, k: Account): nat {
    if k in locks then locks[k] else 0
  }

  /** What is above the lock, and nothing when the lock is above the balance. */
  function Spendable(b: Ledger, locks: Locks, k: Account): int {
    if Balance(b, k) > Locked(locks, k) then Balance(b, k) - Locked(locks, k) else 0
  }

  function Min(x: int, y: int): int {
    if x <= y then x else y
  }

  // ---------- one entry, on values ----------

  /** setClawbackBalance: a zero balance is removed, not stored. */
  function SetBalance(b: Ledger, k: Account, amount: int): Ledger {
    if amount == 0 then b - {k} else b[k := amount]
  }

  /** What clawCoin moves. */
  function Seized(b: Ledger, locks: Locks, t: Transfer): int {
    Min(t.amount, Spendable(b, locks, (t.from, t.denom)))
  }

  /** The ledger after the debit. */
  function Debited(b: Ledger, t: Transfer, amount: int): Ledger {
    SetBalance(b, (t.from, t.denom), Balance(b, (t.from, t.denom)) - amount)
  }

  function Claw(b: Ledger, locks: Locks, to: Address, t: Transfer): Ledger {
    var amount := Seized(b, locks, t);
    if amount <= 0 then b
    else
      var debited := Debited(b, t, amount);
      SetBalance(debited, (to, t.denom), Balance(debited, (to, t.denom)) + amount)
  }

  /** The credit stays within math.Int; otherwise Coin.Add panics. */
  predicate CreditFits(b: Ledger, locks: Locks, to: Address, t: Transfer) {
    var amount := Seized(b, locks, t);
    amount <= 0 || Balance(Debited(b, t, amount), (to, t.denom)) + amount < INT_LIMIT
  }

  /** All entries in order, up to the first credit that does not fit. */
  function ClawAllChecked(b: Ledger, locks: Locks, to: Address, ts: seq<Transfer>): Outcome<Ledger>
    decreases |ts|
  {
    if ts == [] then Returned(b)
    else if !CreditFits(b, locks, to, ts[0]) then Panicked
    else ClawAllChecked(Claw(b, locks, to, ts[0]), locks, to, ts[1..])
  }

  function ClawAll(b: Ledger, locks: Locks, to: Address, ts: seq<Transfer>): Ledger
    decreases |ts|
  {
    if ts == [] then b else ClawAll(Claw(b, locks, to, ts[0]), locks, to, ts[1..])
  }

  // ---------- well-formed ledgers ----------

  /** Every stored balance is positive. */
  ghost predicate WellFormed(b: Ledger) {
    forall k :: k in b ==> b[k] > 0
  }

  lemma {:induction false} ClawAllWellFormed(b: Ledger, locks: Locks, to: Address, ts: seq<Transfer>)
    requires WellFormed(b)
    ensures WellFormed(ClawAll(b, locks, to, ts))
    decreases |ts|
  {
    if ts == [] {
    } else {
      ClawAllWellFormed(Claw(b, locks, to, ts[0]), locks, to, ts[1..]);
    }
  }

  /** Only the sources and the recipient, each in the listed denomination, change. */
  lemma {:induction false} ClawAllFrame(b: Ledger, locks: Locks, to: Address, ts: seq<Transfer>, k: Account)
    requires forall t :: t in ts ==> k != (t.from, t.denom) && k != (to, t.denom)
    ensures k in ClawAll(b, locks, to, ts) <==> k in b
    ensures Balance(ClawAll(b, locks, to, ts), k) == Balance(b, k)
    decreases |ts|
  {
    if ts == [] {
    } else {
      assert ts[0] in ts;
      ClawAllFrame(Claw(b, locks, to, ts[0]), locks, to, ts[1..], k);
    }
  }

  // ---------- conservation ----------

  function Part(b: Ledger, k: Account, d: Denom): int
    requires k in b
  {
    if k.1 == d then b[k] else 0
  }

  /** The total of a denomination over all accounts. */
  ghost function Total(b: Ledger, d: Denom): int
    decreases |b.Keys|
  {
    if b.Keys == {} then 0
    else
      var k :| k in b.Keys;
      assert (b - {k}).Keys == b.Keys - {k};
      Part(b, k, d) + Total(b - {k}, d)
  }

  /** The total does not depend on the order of summation. */
  lemma {:induction false} TotalWithout(b: Ledger, k: Account, d: Denom)
    requires k in b
    ensures Total(b, d) == Part(b, k, d) + Total(b - {k}, d)
    decreases |b.Keys|
  {
    var l :| l in b.Keys && Total(b, d) == Part(b, l, d) + Total(b - {l}, d);
    if l != k {
      var bl, bk := b - {l}, b - {k};
      assert bl.Keys == b.Keys - {l} && bk.Keys == b.Keys - {k};
      assert bl - {k} == bk - {l};
      TotalWithout(bl, k, d);
      TotalWithout(bk, l, d);
      assert Part(bl, k, d) == Part(b, k, d) && Part(bk, l, d) == Part(b, l, d);
    }
  }

  lemma TotalAfterSet(b: Ledger, k: Account, amount: int, d: Denom)
    ensures Total(SetBalance(b, k, amount), d) == Total(b, d) + if k.1 == d then amount - Balance(b, k) else 0
  {
    var rest := b - {k};
    if k in b {
      TotalWithout(b, k, d);
    } else {
      assert rest == b;
    }
    if amount != 0 {
      var b' := b[k := amount];
      TotalWithout(b', k, d);
      assert b' - {k} == rest;
    }
  }

  lemma ClawConserves(b: Ledger, locks: Locks, to: Address, t: Transfer, d: Denom)
    ensures Total(Claw(b, locks, to, t), d) == Total(b, d)
  {
    var amount := Seized(b, locks, t);
    if amount > 0 {
      var from := (t.from, t.denom);
      var debited := Debited(b, t, amount);
      TotalAfterSet(b, from, Balance(b, from) - amount, d);
      TotalAfterSet(debited, (to, t.denom), Balance(debited, (to, t.denom)) + amount, d);
    }
  }

  /** The seizure neither makes nor loses coins of any denomination, also when a source is the recipient. */
  lemma {:induction false} ClawAllConserves(b: Ledger, locks: Locks, to: Address, ts: seq<Transfer>, d: Denom)
    ensures Total(ClawAll(b, locks, to, ts), d) == Total(b, d)
    decreases |ts|
  {
    if ts == [] {
    } else {
      ClawConserves(b, locks, to, ts[0], d);
      ClawAllConserves(Claw(b, locks, to, ts[0]), locks, to, ts[1..], d);
    }
  }

  // ---------- no overflow ----------

  lemma {:induction false} TotalNotNegative(b: Ledger, d: Denom)
    requires WellFormed(b)
    ensures Total(b, d) >= 0
    decreases |b.Keys|
  {
    if b.Keys == {} {
    } else {
      var k :| k in b;
      assert (b - {k}).Keys == b.Keys - {k};
      TotalNotNegative(b - {k}, d);
      TotalWithout(b, k, d);
      assert b[k] > 0;
    }
  }

  lemma BalanceWithinTotal(b: Ledger, k: Account)
    requires WellFormed(b)
    ensures Balance(b, k) <= Total(b, k.1)
  {
    if k in b {
      TotalWithout(b, k, k.1);
      TotalNotNegative(b - {k}, k.1);
    } else {
      TotalNotNegative(b, k.1);
    }
  }

  /** The recipient's balances never fall. */
  lemma ClawRaises(b: Ledger, locks: Locks, to: Address, t: Transfer, d: Denom)
    ensures Balance(Claw(b, locks, to, t), (to, d)) >= Balance(b, (to, d))
    ensures Balance(Claw(b, locks, to, t), (to, t.denom)) < INT_LIMIT ==> CreditFits(b, locks, to, t)
    ensures CreditFits(b, locks, to, t) && Balance(b, (to, d)) < INT_LIMIT ==>
              Balance(Claw(b, locks, to, t), (to, d)) < INT_LIMIT
  {
  }

  lemma {:induction false} ClawAllRaises(b: Ledger, locks: Locks, to: Address, ts: seq<Transfer>, d: Denom)
    ensures Balance(ClawAll(b, locks, to, ts), (to, d)) >= Balance(b, (to, d))
    decreases |ts|
  {
    if ts == [] {
    } else {
      ClawRaises(b, locks, to, ts[0], d);
      ClawAllRaises(Claw(b, locks, to, ts[0]), locks, to, ts[1..], d);
    }
  }

  /** Every balance of the account is within math.Int. */
  ghost predicate BalancesFit(b: Ledger, a: Address) {
    forall d: Denom :: Balance(b, (a, d)) < INT_LIMIT
  }

  /** A seizure that returns is the exact one, and it returns if and only if the recipient's final balances fit. */
  lemma {:induction false} ClawAllReturnsIff(b: Ledger, locks: Locks, to: Address, ts: seq<Transfer>)
    requires BalancesFit(b, to)
    ensures ClawAllChecked(b, locks, to, ts).Returned? ==> ClawAllChecked(b, locks, to, ts).value == ClawAll(b, locks, to, ts)
    ensures ClawAllChecked(b, locks, to, ts).Returned? <==> BalancesFit(ClawAll(b, locks, to, ts), to)
    decreases |ts|
  {
    if ts == [] {
    } else {
      var next := Claw(b, locks, to, ts[0]);
      ClawAllRaises(next, locks, to, ts[1..], ts[0].denom);
      ClawRaises(b, locks, to, ts[0], ts[0].denom);
      if CreditFits(b, locks, to, ts[0]) {
        forall d: Denom
          ensures Balance(next, (to, d)) < INT_LIMIT
        {
          ClawRaises(b, locks, to, ts[0], d);
        }
        ClawAllReturnsIff(next, locks, to, ts[1..]);
      }
    }
  }

  /** The total of every denomination is within math.Int. */
  ghost predicate SupplyFits(b: Ledger) {
    forall d :: Total(b, d) < INT_LIMIT
  }

  /** While supplies fit, no seizure overflows. */
  lemma ClawAllReturns(b: Ledger, locks: Locks, to: Address, ts: seq<Transfer>)
    requires WellFormed(b) && SupplyFits(b)
    ensures ClawAllChecked(b, locks, to, ts) == Returned(ClawAll(b, locks, to, ts))
  {
    var after := ClawAll(b, locks, to, ts);
    ClawAllWellFormed(b, locks, to, ts);
    forall d: Denom
      ensures Balance(b, (to, d)) < INT_LIMIT && Balance(after, (to, d)) < INT_LIMIT
    {
      BalanceWithinTotal(b, (to, d));
      BalanceWithinTotal(after, (to, d));
      ClawAllConserves(b, locks, to, ts, d);
    }
    ClawAllReturnsIff(b, locks, to, ts);
  }

  /** A ledger as the bank stores it: positive amounts of math.Int. */
  ghost predicate Stored(b: Ledger) {
    forall k :: k in b ==> 0 < b[k] < INT_LIMIT
  }

  type BankLedger = b: Ledger | Stored(b) witness map[]

  lemma {:induction false} ClawAllStored(b: Ledger, locks: Locks, to: Address, ts: seq<Transfer>)
    requires Stored(b)
    ensures ClawAllChecked(b, locks, to, ts).Returned? ==> Stored(ClawAllChecked(b, locks, to, ts).value)
    decreases |ts|
  {
    if ts == [] || !CreditFits(b, locks, to, ts[0]) {
    } else {
      ClawAllStored(Claw(b, locks, to, ts[0]), locks, to, ts[1..]);
    }
  }

  // ---------- how much is seized ----------

  /** All that is listed for one account and denomination. */
  function Listed(ts: seq<Transfer>, k: Account): nat
    decreases |ts|
  {
    if ts == [] then 0
    else (if (ts[0].from, ts[0].denom) == k then ts[0].amount else 0) + Listed(ts[1..], k)
  }

  lemma {:induction false} ListedAppend(ts: seq<Transfer>, us: seq<Transfer>, k: Account)
    ensures Listed(ts + us, k) == Listed(ts, k) + Listed(us, k)
    decreases |ts|
  {
    if ts == [] {
      assert ts + us == us;
    } else {
      assert (ts + us)[1..] == ts[1..] + us;
      ListedAppend(ts[1..], us, k);
    }
  }

  lemma {:induction false} NothingListed(ts: seq<Transfer>, k: Account)
    requires forall t :: t in ts ==> t.from != k.0
    ensures Listed(ts, k) == 0
    decreases |ts|
  {
    if ts == [] {
    } else {
      assert ts[0] in ts;
      NothingListed(ts[1..], k);
    }
  }

  lemma ClawSource(b: Ledger, locks: Locks, to: Address, t: Transfer, k: Account)
    requires WellFormed(b) && k.0 != to
    ensures WellFormed(Claw(b, locks, to, t))
    ensures Balance(Claw(b, locks, to, t), k)
            == Balance(b, k) - if (t.from, t.denom) == k then Min(t.amount, Spendable(b, locks, k)) else 0
  {
  }

  /**
    Over all its entries an account other than the recipient loses exactly the sum listed for it, or
    everything it could spend at the start when that is less.
   */
  lemma {:induction false} SeizedInAll(b: Ledger, locks: Locks, to: Address, ts: seq<Transfer>, k: Account)
    requires WellFormed(b) && k.0 != to
    ensures Balance(ClawAll(b, locks, to, ts), k) == Balance(b, k) - Min(Listed(ts, k), Spendable(b, locks, k))
    decreases |ts|
  {
    if ts == [] {
    } else {
      ClawSource(b, locks, to, ts[0], k);
      SeizedInAll(Claw(b, locks, to, ts[0]), locks, to, ts[1..], k);
    }
  }

  // ---------- what the recipient gains ----------

  lemma TotalDrop(b: Ledger, k: Account, d: Denom)
    ensures Total(b, d) == Total(b - {k}, d) + if k.1 == d then Balance(b, k) else 0
    ensures (b - {k}).Keys == b.Keys - {k}
  {
    if k in b { TotalWithout(b, k, d); } else { assert b - {k} == b; }
  }

  ghost predicate Agree(b: Ledger, b': Ledger, d: Denom) {
    forall a: Address :: Balance(b, (a, d)) == Balance(b', (a, d))
  }

  /** Ledgers that agree on a denomination have one total of it. */
  lemma {:induction false} TotalSame(b: Ledger, b': Ledger, d: Denom, keys: set<Account>)
    requires Agree(b, b', d) && b.Keys <= keys && b'.Keys <= keys
    ensures Total(b, d) == Total(b', d)
    decreases |keys|
  {
    if keys == {} {
      assert b == b';
    } else {
      var k :| k in keys;
      TotalDrop(b, k, d);
      TotalDrop(b', k, d);
      AgreeWithout(b, b', k, d);
      TotalSame(b - {k}, b' - {k}, d, keys - {k});
      if k.1 == d { AgreeAt(b, b', k, d); }
    }
  }

  lemma AgreeAt(b: Ledger, b': Ledger, k: Account, d: Denom)
    requires Agree(b, b', d) && k.1 == d
    ensures Balance(b, k) == Balance(b', k)
  {
    assert Balance(b, (k.0, d)) == Balance(b', (k.0, d));
  }

  lemma AgreeWithout(b: Ledger, b': Ledger, k: Account, d: Denom)
    requires Agree(b, b', d)
    ensures Agree(b - {k}, b' - {k}, d)
  {
    forall a: Address
      ensures Balance(b - {k}, (a, d)) == Balance(b' - {k}, (a, d))
    {
      assert Balance(b, (a, d)) == Balance(b', (a, d));
    }
  }

  /** What the entries take from one account. */
  function TakenFrom(b: Ledger, locks: Locks, ts: seq<Transfer>, k: Account): int {
    Min(Listed(ts, k), Spendable(b, locks, k))
  }

  /** What they take of one denomination from all sources together. */
  ghost function Taken(b: Ledger, locks: Locks, ts: seq<Transfer>, sources: set<Address>, d: Denom): int
    decreases |sources|
  {
    if sources == {} then 0
    else
      var a :| a in sources;
      TakenFrom(b, locks, ts, (a, d)) + Taken(b, locks, ts, sources - {a}, d)
  }

  function Sources(ts: seq<Transfer>, to: Address): set<Address> {
    set t | t in ts && t.from != to :: t.from
  }

  /** b' is b less what is taken from the sources. */
  ghost predicate Lost(b: Ledger, b': Ledger, locks: Locks, ts: seq<Transfer>, sources: set<Address>, d: Denom) {
    forall a: Address :: Balance(b', (a, d))
                         == Balance(b, (a, d)) - if a in sources then TakenFrom(b, locks, ts, (a, d)) else 0
  }

  lemma GiveBack(b: Ledger, b': Ledger, locks: Locks, ts: seq<Transfer>, sources: set<Address>, d: Denom, a: Address)
    requires Lost(b, b', locks, ts, sources, d)
    ensures Lost(b, SetBalance(b', (a, d), Balance(b, (a, d))), locks, ts, sources - {a}, d)
  {
    var back := SetBalance(b', (a, d), Balance(b, (a, d)));
    forall x: Address
      ensures Balance(back, (x, d))
              == Balance(b, (x, d)) - if x in sources - {a} then TakenFrom(b, locks, ts, (x, d)) else 0
    {
      assert Balance(b', (x, d)) == Balance(b, (x, d)) - if x in sources then TakenFrom(b, locks, ts, (x, d)) else 0;
    }
  }

  lemma {:induction false} TotalTaken(b: Ledger, b': Ledger, locks: Locks, ts: seq<Transfer>, sources: set<Address>, d: Denom)
    requires Lost(b, b', locks, ts, sources, d)
    ensures Total(b', d) == Total(b, d) - Taken(b, locks, ts, sources, d)
    decreases |sources|
  {
    if sources == {} {
      TotalSame(b, b', d, b.Keys + b'.Keys);
    } else {
      var a :| a in sources && Taken(b, locks, ts, sources, d)
                               == TakenFrom(b, locks, ts, (a, d)) + Taken(b, locks, ts, sources - {a}, d);
      assert Balance(b', (a, d)) == Balance(b, (a, d)) - TakenFrom(b, locks, ts, (a, d));
      TotalAfterSet(b', (a, d), Balance(b, (a, d)), d);
      GiveBack(b, b', locks, ts, sources, d, a);
      TotalTaken(b, SetBalance(b', (a, d), Balance(b, (a, d))), locks, ts, sources - {a}, d);
    }
  }

  /** The recipient ends with what it had and everything taken from the other sources. */
  lemma RecipientGains(b: Ledger, locks: Locks, to: Address, ts: seq<Transfer>, d: Denom)
    requires WellFormed(b)
    ensures Balance(ClawAll(b, locks, to, ts), (to, d)) == Balance(b, (to, d)) + Taken(b, locks, ts, Sources(ts, to), d)
  {
    var after := ClawAll(b, locks, to, ts);
    var others := SetBalance(after, (to, d), Balance(b, (to, d)));
    forall a: Address
      ensures Balance(others, (a, d))
              == Balance(b, (a, d)) - if a in Sources(ts, to) then TakenFrom(b, locks, ts, (a, d)) else 0
    {
      if a == to {
      } else if a in Sources(ts, to) {
        SeizedInAll(b, locks, to, ts, (a, d));
      } else {
        assert forall t :: t in ts && t.from != to ==> t.from in Sources(ts, to);
        ClawAllFrame(b, locks, to, ts, (a, d));
      }
    }
    TotalTaken(b, others, locks, ts, Sources(ts, to), d);
    TotalAfterSet(after, (to, d), Balance(b, (to, d)), d);
    ClawAllConserves(b, locks, to, ts, d);
  }

  /** An account that is both source and recipient keeps its balance through its own entries. */
  lemma ClawFromRecipient(b: Ledger, locks: Locks, t: Transfer)
    ensures Balance(Claw(b, locks, t.from, t), (t.from, t.denom)) == Balance(b, (t.from, t.denom))
  {
  }

  // ---------- in place ----------

  class Bank {
    var balances: Ledger
    var accounts: set<Address>
    const locks: Locks

    constructor (balances: Ledger, accounts: set<Address>, locks: Locks)
      ensures this.balances == balances && this.accounts == accounts && this.locks == locks
    {
      this.balances, this.accounts, this.locks := balances, accounts, locks;
    }
  }

  method SetClawbackBalance(bank: Bank, k: Account, amount: int)
    modifies bank`balances
    ensures bank.balances == SetBalance(old(bank.balances), k, amount)
  {
    if amount == 0 {
      bank.balances := bank.balances - {k};
    } else {
      bank.balances := bank.balances[k := amount];
    }
  }

  /** A credit that does not fit panics after the debit. */
  method ClawCoin(bank: Bank, from: Address, to: Address, denom: Denom, listed: nat) returns (panicked: bool)
    modifies bank`balances
    ensures var t := Transfer(from, denom, listed);
            var was := old(bank.balances);
            && panicked == !CreditFits(was, bank.locks, to, t)
            && bank.balances == if panicked then Debited(was, t, Seized(was, bank.locks, t)) else Claw(was, bank.locks, to, t)
  {
    var amount: int := listed;
    var spendable := Spendable(bank.balances, bank.locks, (from, denom));
    if spendable < listed {
      amount := spendable;
    }
    if amount <= 0 {
      return false;
    }
    SetClawbackBalance(bank, (from, denom), Balance(bank.balances, (from, denom)) - amount);
    var credit := Balance(bank.balances, (to, denom)) + amount;
    if credit >= INT_LIMIT {
      return true;
    }
    SetClawbackBalance(bank, (to, denom), credit);
    panicked := false;
  }

  method ClawEach(bank: Bank, to: Address, transfers: seq<Transfer>) returns (panicked: bool)
    modifies bank`balances
    ensures var all := ClawAllChecked(old(bank.balances), bank.locks, to, transfers);
            panicked == all.Panicked? && (!panicked ==> bank.balances == all.value)
  {
    ghost var all := ClawAllChecked(bank.balances, bank.locks, to, transfers);
    assert transfers[0..] == transfers;
    for i := 0 to |transfers|
      invariant ClawAllChecked(bank.balances, bank.locks, to, transfers[i..]) == all
    {
      assert transfers[i..][0] == transfers[i] && transfers[i..][1..] == transfers[i + 1..];
      panicked := ClawCoin(bank, transfers[i].from, to, transfers[i].denom, transfers[i].amount);
      if panicked {
        return;
      }
    }
    panicked := false;
  }
}
