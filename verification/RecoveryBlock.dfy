/**
  RecoverProposal9 as one step: the contracts are restored, the undelegations manager is disabled,
  the voter is unstaked and the stolen funds are seized, and a failure anywhere fails the block.
 */
module RecoveryBlock {
  import opened Prelude
  import opened Messages
  import opened HaltFilters
  import opened WasmStore
  import opened Restore
  import opened Clawback
  import opened StolenFunds

  /** The part of the state the recovery touches; rest stands for everything else. */
  datatype World = World(kv: TypedKV, codes: Codes, balances: BankLedger, locks: Locks, accounts: set<Address>, rest: string)

  /**
    What the recovery is given: the listed contracts, the index of its block's history entries, and
    the two steps that call into other modules.
   */
  datatype Plan = Plan(contracts: seq<ContractRestore>, index: uint64,
                       disable: World -> Option<World>, unstake: World -> Option<(World, nat)>)
  {
    function Now(): TxPosition {
      TxPosition(RECOVERY_HEIGHT, index)
    }
  }

  ghost function RestoreResult(p: Plan, w: World): (r: Result)
    ensures Schema(r.kv)
  {
    RestoreAll(w.kv, w.codes, p.contracts, ATTACKER, p.Now())
  }

  /** The world with the contracts restored. */
  ghost function RestoredWorld(p: Plan, w: World): World {
    w.(kv := RestoreResult(p, w).kv)
  }

  /** ClawbackStolenFunds on a world. */
  function Seize(w: World, unstaked: nat): Option<World> {
    ClawAllStored(w.balances, w.locks, CLAWBACK_RECIPIENT, Transfers(unstaked));
    match ClawAllChecked(w.balances, w.locks, CLAWBACK_RECIPIENT, Transfers(unstaked))
    case Panicked => None
    case Returned(balances) => Some(w.(balances := balances, accounts := w.accounts + {CLAWBACK_RECIPIENT}))
  }

  ghost function Recover(p: Plan, w: World): Option<World> {
    if !RestoreResult(p, w).ok then None
    else
      match p.disable(RestoredWorld(p, w))
      case None => None
      case Some(disabled) =>
        match p.unstake(disabled)
        case None => None
        case Some(unstaked) => Seize(unstaked.0, unstaked.1)
  }

  // ---------- when it succeeds ----------

  /** The steps between restoring and seizing. */
  ghost function Between(p: Plan, w: World): Option<(World, nat)> {
    match p.disable(RestoredWorld(p, w))
    case None => None
    case Some(disabled) => p.unstake(disabled)
  }

  /** What the recipient holds of d after the seizure: what it had, what the attacker loses, and the voter's NTRN. */
  function Credited(w: World, unstaked: nat, d: Denom): int {
    Balance(w.balances, (CLAWBACK_RECIPIENT, d))
    + Min(AmountOf(ATTACKER_COINS, d), Spendable(w.balances, w.locks, (ATTACKER, d)))
    + if d == NTRN then Min(7501863566 + 19385160546 + unstaked, Spendable(w.balances, w.locks, (ATTACKER_2, NTRN))) else 0
  }

  lemma SeizeSucceedsIff(w: World, unstaked: nat)
    ensures Seize(w, unstaked).Some? <==> forall d: Denom :: Credited(w, unstaked, d) < INT_LIMIT
    ensures Seize(w, unstaked).Some? ==>
              Seize(w, unstaked).value.balances
              == ClawAll(w.balances, w.locks, CLAWBACK_RECIPIENT, Transfers(unstaked))
  {
    var ts := Transfers(unstaked);
    assert BalancesFit(w.balances, CLAWBACK_RECIPIENT);
    ClawAllReturnsIff(w.balances, w.locks, CLAWBACK_RECIPIENT, ts);
    var after := ClawAll(w.balances, w.locks, CLAWBACK_RECIPIENT, ts);
    forall d: Denom
      ensures Balance(after, (CLAWBACK_RECIPIENT, d)) == Credited(w, unstaked, d)
    {
      RecipientReceives(w.balances, w.locks, unstaked, d);
    }
  }

  /**
    The recovery succeeds if and only if every listed contract can be restored and the list is
    compatible, the two calls into other modules succeed, and what the recipient had and what is
    taken from attacker and voter together is within math.Int for every denomination.
   */
  lemma RecoverSucceedsIff(p: Plan, w: World)
    ensures Recover(p, w).Some? <==>
              && Compatible(p.contracts, ATTACKER)
              && (forall c :: c in p.contracts ==> Restorable(w.kv, w.codes, c, ATTACKER))
              && Between(p, w).Some?
              && forall d: Denom :: Credited(Between(p, w).value.0, Between(p, w).value.1, d) < INT_LIMIT
  {
    RestoreSucceedsIff(w.kv, w.codes, p.contracts, ATTACKER, p.Now());
    if Between(p, w).Some? { SeizeSucceedsIff(Between(p, w).value.0, Between(p, w).value.1); }
  }

  // ---------- what it leaves ----------

  /** A listed contract has its values, and if it was consistent also its code, history and index. */
  ghost predicate ContractDone(p: Plan, w: World, kv: TypedKV, c: ContractRestore) {
    && HoldsValues(kv, c)
    && (Ready(w.kv, w.codes, c.address.value, ATTACKER) ==> Restored(w.kv, kv, w.codes, c, ATTACKER, p.Now()))
  }

  /** The first step restores the contracts and touches no other; the last one moves coins and makes none. */
  lemma RecoverSteps(p: Plan, w: World)
    requires Recover(p, w).Some?
    ensures forall i: nat :: IsLast(p.contracts, i) ==> ContractDone(p, w, RestoredWorld(p, w).kv, p.contracts[i])
    ensures SameElsewhere(w.kv, RestoredWorld(p, w).kv, p.contracts)
    ensures forall d :: Total(Recover(p, w).value.balances, d) == Total(Between(p, w).value.0.balances, d)
  {
    RestoreAllFrame(w.kv, w.codes, p.contracts, ATTACKER, p.Now());
    forall i: nat | IsLast(p.contracts, i)
      ensures ContractDone(p, w, RestoredWorld(p, w).kv, p.contracts[i])
    {
      RestoreAllValues(w.kv, w.codes, p.contracts, ATTACKER, p.Now(), i);
      if Ready(w.kv, w.codes, p.contracts[i].address.value, ATTACKER) {
        RestoreAllRestores(w.kv, w.codes, p.contracts, ATTACKER, p.Now(), i);
      }
    }
    var (between, unstaked) := Between(p, w).value;
    SeizeSucceedsIff(between, unstaked);
    forall d
      ensures Total(Recover(p, w).value.balances, d) == Total(between.balances, d)
    {
      ClawAllConserves(between.balances, between.locks, CLAWBACK_RECIPIENT, Transfers(unstaked), d);
    }
  }

  /** The calls into other modules leave the listed contracts alone and move coins without making any. */
  ghost predicate Confined(p: Plan, w: World) {
    Between(p, w).Some? ==>
      var between := Between(p, w).value.0;
      && (forall addr :: Lists(p.contracts, addr) ==> SameView(RestoredWorld(p, w).kv, between.kv, addr))
      && (forall d :: Total(between.balances, d) == Total(w.balances, d))
  }

  /** Every listed contract is done as its last listing says, and no coin was made or lost. */
  ghost predicate Completed(p: Plan, w: World, w': World) {
    && (forall i: nat :: IsLast(p.contracts, i) ==> ContractDone(p, w, w'.kv, p.contracts[i]))
    && (forall d :: Total(w'.balances, d) == Total(w.balances, d))
    && CLAWBACK_RECIPIENT in w'.accounts
  }

  lemma RecoverCompletes(p: Plan, w: World)
    requires Recover(p, w).Some? && Confined(p, w)
    ensures Completed(p, w, Recover(p, w).value)
  {
    RecoverSteps(p, w);
    var between := Between(p, w).value.0;
    forall i: nat | IsLast(p.contracts, i)
      ensures ContractDone(p, w, Recover(p, w).value.kv, p.contracts[i])
    {
      var c := p.contracts[i];
      assert ContractDone(p, w, RestoredWorld(p, w).kv, c);
      assert c in p.contracts && Lists(p.contracts, c.address.value);
      DoneSeenThrough(p, w, RestoredWorld(p, w).kv, between.kv, c);
    }
  }

  lemma DoneSeenThrough(p: Plan, w: World, kv1: TypedKV, kv': TypedKV, c: ContractRestore)
    requires ContractDone(p, w, kv1, c) && SameView(kv1, kv', c.address.value)
    ensures ContractDone(p, w, kv', c)
  {
    ViewDecides(kv1, kv', c.address.value);
    if Ready(w.kv, w.codes, c.address.value, ATTACKER) {
      CodeRestoredCompose(w.kv, kv1, kv', w.codes, c.address.value, ATTACKER, p.Now());
    }
  }

  /**
    Where the stolen funds are afterwards: the attacker has lost each listed coin or all it could spend
    of it, the voter its three amounts or all it could spend, and the recipient has gained both.
   */
  lemma RecoverSeizes(p: Plan, w: World)
    requires Recover(p, w).Some?
    ensures var (between, unstaked) := Between(p, w).value;
            var after := Recover(p, w).value.balances;
            && (forall d: Denom :: Balance(after, (CLAWBACK_RECIPIENT, d)) == Credited(between, unstaked, d))
            && (forall i :: 0 <= i < |ATTACKER_COINS| ==>
                  var k := (ATTACKER, ATTACKER_COINS[i].0);
                  Balance(after, k) == Balance(between.balances, k)
                                       - Min(ATTACKER_COINS[i].1, Spendable(between.balances, between.locks, k)))
            && var k := (ATTACKER_2, NTRN);
               Balance(after, k)
               == Balance(between.balances, k)
                  - Min(7501863566 + 19385160546 + unstaked, Spendable(between.balances, between.locks, k))
  {
    var (between, unstaked) := Between(p, w).value;
    var after := Recover(p, w).value.balances;
    SeizeSucceedsIff(between, unstaked);
    forall d: Denom
      ensures Balance(after, (CLAWBACK_RECIPIENT, d)) == Credited(between, unstaked, d)
    {
      RecipientReceives(between.balances, between.locks, unstaked, d);
    }
    forall i | 0 <= i < |ATTACKER_COINS|
      ensures var k := (ATTACKER, ATTACKER_COINS[i].0);
              Balance(after, k) == Balance(between.balances, k)
                                   - Min(ATTACKER_COINS[i].1, Spendable(between.balances, between.locks, k))
    {
      AttackerSeizure(between.balances, between.locks, unstaked, i);
    }
    VoterSeizure(between.balances, between.locks, unstaked);
  }
}
