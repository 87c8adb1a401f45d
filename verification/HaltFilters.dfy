/**
  The halt protections that look at messages: the proposal filter, the account lock and the staking
  freeze, with the conditions under which they apply.
 */
module HaltFilters {
  import opened Prelude
  import opened Messages

  // ---------- when the protections apply ----------

  const NEUTRON_CHAIN_ID := "neutron-1"
  const HALT_HEIGHT: int := 61635573
  const RECOVERY_HEIGHT: int := 61635575

  datatype Context = Context(chainID: string, height: int, isCheckTx: bool)

  /** Proposal9ProtectionsActive. */
  predicate ProtectionsActive(ctx: Context) {
    ctx.chainID == NEUTRON_CHAIN_ID && (ctx.height > HALT_HEIGHT || ctx.isCheckTx)
  }

  /** proposal9RecoveryDue. */
  predicate RecoveryDue(ctx: Context) {
    ctx.chainID == NEUTRON_CHAIN_ID && ctx.height == RECOVERY_HEIGHT
  }

  datatype Reason = OnlySoftwareUpgrades | AccountLocked | StakingFrozen | BadMessages | BadTransaction

  datatype Verdict = Accept | Reject(reason: Reason)

  // ---------- proposals ----------

  predicate IsUpgradeOrStoreCode(m: Msg) {
    m.body.SoftwareUpgrade? || m.body.StoreCode?
  }

  /** A legacy text proposal, by its cached value or, without one, by its type URL. */
  predicate IsTextProposal(m: Msg) {
    && m.body.ExecLegacyContent? && m.body.content.Some?
    && var legacy := m.body.content.value;
       if legacy.cached.Some? then legacy.cached.value.TextProposal?
       else legacy.typeURL == TEXT_PROPOSAL_URL
  }

  /** Governance may route and execute m. */
  predicate AllowedByRouter(m: Msg) {
    IsUpgradeOrStoreCode(m) || IsTextProposal(m)
  }

  /** Only upgrades and stored code, or only legacy text; both hold of an empty proposal. */
  predicate ProposalAllowed(msgs: seq<Msg>) {
    (forall m :: m in msgs ==> IsUpgradeOrStoreCode(m)) || (forall m :: m in msgs ==> IsTextProposal(m))
  }

  /** The loop with its two flags accepts exactly the homogeneous proposals and stops at the first offender. */
  method ValidateProposalMessages(msgs: seq<Msg>) returns (verdict: Verdict, offender: nat)
    ensures verdict == if ProposalAllowed(msgs) then Accept else Reject(OnlySoftwareUpgrades)
    ensures verdict.Reject? ==>
              && offender < |msgs|
              && ProposalAllowed(msgs[..offender]) && !ProposalAllowed(msgs[..offender + 1])
  {
    offender := 0;
    if |msgs| == 0 {
      return Accept, 0;
    }
    var upgrades, texts := true, true;
    for k := 0 to |msgs|
      invariant upgrades == forall m :: m in msgs[..k] ==> IsUpgradeOrStoreCode(m)
      invariant texts == forall m :: m in msgs[..k] ==> IsTextProposal(m)
      invariant upgrades || texts
    {
      var msg := msgs[k];
      assert msgs[..k + 1] == msgs[..k] + [msg];
      if !IsUpgradeOrStoreCode(msg) {
        upgrades := false;
      }
      if !IsTextProposal(msg) {
        texts := false;
      }
      if !upgrades && !texts {
        assert forall m :: m in msgs[..k + 1] ==> m in msgs;
        return Reject(OnlySoftwareUpgrades), k;
      }
    }
    assert msgs[..|msgs|] == msgs;
    verdict := Accept;
  }

  function ValidateTxMessages(msgs: seq<Msg>): Verdict
    decreases msgs
  {
    if msgs == [] then Accept
    else
      var first := ValidateTxMessage(msgs[0]);
      if first.Reject? then first else ValidateTxMessages(msgs[1..])
  }

  function ValidateTxMessage(m: Msg): Verdict
    decreases m
  {
    match m.body
    case SubmitProposal(NotUnpacked) => Reject(OnlySoftwareUpgrades)
    case SubmitProposal(Unpacked(inner)) => if ProposalAllowed(inner) then Accept else Reject(OnlySoftwareUpgrades)
    case SubmitLegacyProposal(_) => Reject(OnlySoftwareUpgrades)
    case Exec(NotUnpacked) => Reject(OnlySoftwareUpgrades)
    case Exec(Unpacked(inner)) => ValidateTxMessages(inner)
    case _ => Accept
  }

  /** A proposal submission that the filter refuses on sight. */
  predicate BadSubmission(m: Msg) {
    match m.body
    case SubmitProposal(inner) => inner.NotUnpacked? || !ProposalAllowed(inner.msgs)
    case SubmitLegacyProposal(_) => true
    case _ => false
  }

  // ---------- the staking freeze ----------

  const FROZEN_MSGS: set<string> := {
    "/cosmos.staking.v1beta1.MsgDelegate",
    "/cosmos.staking.v1beta1.MsgCancelUnbondingDelegation",
    "/cosmos.staking.v1beta1.MsgCreateValidator"
  }

  predicate IsFrozen(m: Msg) {
    TypeURL(m) in FROZEN_MSGS
  }

  function RejectFrozenStakingMsgs(msgs: seq<Msg>): Verdict
    decreases msgs
  {
    if msgs == [] then Accept
    else
      var first := RejectFrozenStakingMsg(msgs[0]);
      if first.Reject? then first else RejectFrozenStakingMsgs(msgs[1..])
  }

  function RejectFrozenStakingMsg(m: Msg): Verdict
    decreases m
  {
    if IsFrozen(m) then Reject(StakingFrozen)
    else
      match m.body
      case Exec(NotUnpacked) => Reject(BadMessages)
      case Exec(Unpacked(inner)) => RejectFrozenStakingMsgs(inner)
      case SubmitProposal(NotUnpacked) => Reject(BadMessages)
      case SubmitProposal(Unpacked(inner)) => RejectFrozenStakingMsgs(inner)
      case _ => Accept
  }

  /** StakingFreezeCircuit.IsAllowed; without a block context a frozen message is refused. */
  predicate CircuitAllows(ctx: Option<Context>, typeURL: string) {
    typeURL !in FROZEN_MSGS || (ctx.Some? && !ProtectionsActive(ctx.value))
  }

  // ---------- the account lock ----------

  const ATTACKER: Address := "neutron1dd25c4sshelrpfs0433apg24c5phrhk8l6n605"
  const ATTACKER_2: Address := "neutron1ekgfga6vv4zdrrjn3dux6f62fuzektfndgaehm"
  const LOCKED_ACCOUNTS: seq<Address> := [ATTACKER, ATTACKER_2]

  /** Some address is one of the locked accounts. */
  predicate AnyLocked(locked: seq<Address>, addrs: seq<Address>) {
    exists a :: a in addrs && a in locked
  }

  function RejectLockedMessageSigners(locked: seq<Address>, msgs: seq<Msg>): Verdict
    decreases msgs
  {
    if msgs == [] then Accept
    else
      var first := RejectLockedSigner(locked, msgs[0]);
      if first.Reject? then first else RejectLockedMessageSigners(locked, msgs[1..])
  }

  function RejectLockedSigner(locked: seq<Address>, m: Msg): Verdict
    decreases m
  {
    if m.signers.None? then Reject(BadMessages)
    else if AnyLocked(locked, m.signers.value) then Reject(AccountLocked)
    else
      match m.body
      case Exec(NotUnpacked) => Reject(BadMessages)
      case Exec(Unpacked(inner)) => RejectLockedMessageSigners(locked, inner)
      case _ => Accept
  }

  predicate BadSigner(locked: seq<Address>, m: Msg) {
    m.signers.None? || AnyLocked(locked, m.signers.value)
  }

  // ---------- each filter accepts exactly the trees without a reachable offender ----------

  lemma {:induction false} TxFilterClean(msgs: seq<Msg>)
    ensures ValidateTxMessages(msgs).Accept? <==> Clean(msgs, false, BadSubmission)
    decreases msgs
  {
    if msgs == [] {
    } else {
      TxFilterCleanMsg(msgs[0]);
      TxFilterClean(msgs[1..]);
    }
  }

  lemma {:induction false} TxFilterCleanMsg(m: Msg)
    ensures ValidateTxMessage(m).Accept? <==> CleanMsg(m, false, BadSubmission)
    decreases m
  {
    if m.body.Exec? && m.body.inner.Unpacked? { TxFilterClean(m.body.inner.msgs); }
  }

  /** The proposal filter: no refused submission at the top level or inside executions, however deep. */
  lemma TxFilterAcceptsIff(msgs: seq<Msg>)
    ensures ValidateTxMessages(msgs).Accept? <==> AllReachable(msgs, false, BadSubmission)
  {
    TxFilterClean(msgs);
    CleanIffReachable(msgs, false, BadSubmission);
  }

  lemma {:induction false} FreezeClean(msgs: seq<Msg>)
    ensures RejectFrozenStakingMsgs(msgs).Accept? <==> Clean(msgs, true, IsFrozen)
    decreases msgs
  {
    if msgs == [] {
    } else {
      FreezeCleanMsg(msgs[0]);
      FreezeClean(msgs[1..]);
    }
  }

  lemma {:induction false} FreezeCleanMsg(m: Msg)
    ensures RejectFrozenStakingMsg(m).Accept? <==> CleanMsg(m, true, IsFrozen)
    decreases m
  {
    if (m.body.Exec? || m.body.SubmitProposal?) && m.body.inner.Unpacked? { FreezeClean(m.body.inner.msgs); }
  }

  /** The freeze: no frozen message reachable through executions and v1 proposals. */
  lemma FreezeAcceptsIff(msgs: seq<Msg>)
    ensures RejectFrozenStakingMsgs(msgs).Accept? <==> AllReachable(msgs, true, IsFrozen)
  {
    FreezeClean(msgs);
    CleanIffReachable(msgs, true, IsFrozen);
  }

  lemma {:induction false} LockClean(locked: seq<Address>, msgs: seq<Msg>)
    ensures RejectLockedMessageSigners(locked, msgs).Accept? <==> Clean(msgs, false, m => BadSigner(locked, m))
    decreases msgs
  {
    if msgs == [] {
    } else {
      LockCleanMsg(locked, msgs[0]);
      LockClean(locked, msgs[1..]);
    }
  }

  lemma {:induction false} LockCleanMsg(locked: seq<Address>, m: Msg)
    ensures RejectLockedSigner(locked, m).Accept? <==> CleanMsg(m, false, x => BadSigner(locked, x))
    decreases m
  {
    if m.body.Exec? && m.body.inner.Unpacked? { LockClean(locked, m.body.inner.msgs); }
  }

  /** The lock: no locked or unresolvable signer reachable through executions. */
  lemma LockAcceptsIff(locked: seq<Address>, msgs: seq<Msg>)
    ensures RejectLockedMessageSigners(locked, msgs).Accept?
            <==> AllReachable(msgs, false, m => BadSigner(locked, m))
  {
    LockClean(locked, msgs);
    CleanIffReachable(msgs, false, m => BadSigner(locked, m));
  }

  // ---------- the freeze behind the proposal filter ----------

  /** What an allowed proposal carries is neither frozen nor nested. */
  lemma {:induction false} AllowedProposalNotFrozen(msgs: seq<Msg>)
    requires forall m :: m in msgs ==> AllowedByRouter(m)
    ensures Clean(msgs, true, IsFrozen)
    decreases |msgs|
  {
    if msgs == [] {
    } else {
      assert msgs[0] in msgs;
      assert CleanMsg(msgs[0], true, IsFrozen);
      AllowedProposalNotFrozen(msgs[1..]);
    }
  }

  lemma ProposalPassesRouter(msgs: seq<Msg>)
    requires ProposalAllowed(msgs)
    ensures forall m :: m in msgs ==> AllowedByRouter(m)
  {
  }

  lemma {:induction false} FreezeIgnoresProposals(msgs: seq<Msg>)
    requires Clean(msgs, false, BadSubmission)
    ensures Clean(msgs, true, IsFrozen) <==> Clean(msgs, false, IsFrozen)
    decreases msgs
  {
    if msgs == [] {
    } else {
      FreezeIgnoresProposalsMsg(msgs[0]);
      FreezeIgnoresProposals(msgs[1..]);
    }
  }

  lemma {:induction false} FreezeIgnoresProposalsMsg(m: Msg)
    requires CleanMsg(m, false, BadSubmission)
    ensures CleanMsg(m, true, IsFrozen) <==> CleanMsg(m, false, IsFrozen)
    decreases m
  {
    match m.body
    case Exec(Unpacked(inner)) => FreezeIgnoresProposals(inner);
    case SubmitProposal(Unpacked(inner)) =>
      ProposalPassesRouter(inner);
      AllowedProposalNotFrozen(inner);
    case _ =>
  }

  /**
    For a transaction that passed the proposal filter, looking inside proposals never decides the
    freeze: it accepts exactly when nothing frozen is reachable through executions alone.
   */
  lemma FreezeInsideProposalsNeverFires(msgs: seq<Msg>)
    requires ValidateTxMessages(msgs).Accept?
    ensures RejectFrozenStakingMsgs(msgs).Accept? <==> AllReachable(msgs, false, IsFrozen)
  {
    TxFilterClean(msgs);
    FreezeClean(msgs);
    FreezeIgnoresProposals(msgs);
    CleanIffReachable(msgs, false, IsFrozen);
  }
}
