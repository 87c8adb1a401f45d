/**
  The halt protections over whole runs of the chain: transactions pass the ante filters, every
  message passes the router's circuit, proposals pass the submission hook and, when governance
  executes them, the router guard. A run is any interleaving of deliveries, contract dispatches,
  proposal executions and block changes.
 */
module HaltProtocol {
  import opened Prelude
  import opened Messages
  import opened HaltFilters
  import opened Restore
  import opened RecoveryBlock

  // ---------- the ante filters ----------

  datatype Fee = Fee(payer: Address, granter: Address)

  datatype Tx = Tx(signable: bool, signers: Option<seq<Address>>, fee: Option<Fee>, msgs: seq<Msg>)

  function RejectLockedAccount(tx: Tx): Verdict {
    if !tx.signable || tx.signers.None? then Reject(BadTransaction)
    else if AnyLocked(LOCKED_ACCOUNTS, tx.signers.value) then Reject(AccountLocked)
    else if tx.fee.Some? && AnyLocked(LOCKED_ACCOUNTS, [tx.fee.value.payer, tx.fee.value.granter]) then
      Reject(AccountLocked)
    else RejectLockedMessageSigners(LOCKED_ACCOUNTS, tx.msgs)
  }

  /** The three decorators in the order of the ante handler; filtered says whether they are installed. */
  function Ante(filtered: bool, ctx: Context, tx: Tx): Verdict {
    if !(filtered && ProtectionsActive(ctx)) then Accept
    else
      var proposals := ValidateTxMessages(tx.msgs);
      if proposals.Reject? then proposals
      else
        var lock := RejectLockedAccount(tx);
        if lock.Reject? then lock else RejectFrozenStakingMsgs(tx.msgs)
  }

  /** No account the transaction names outside its messages is locked. */
  predicate EnvelopeUnlocked(tx: Tx) {
    && tx.signable && tx.signers.Some? && !AnyLocked(LOCKED_ACCOUNTS, tx.signers.value)
    && (tx.fee.Some? ==> tx.fee.value.payer !in LOCKED_ACCOUNTS && tx.fee.value.granter !in LOCKED_ACCOUNTS)
  }

  /**
    While the protections are active a transaction passes exactly when neither its signers nor its
    fee are locked and no refused submission, locked signer or frozen message is reachable through
    executions; the three filters together need not look inside proposals for frozen messages.
   */
  lemma AnteAcceptsIff(ctx: Context, tx: Tx)
    requires ProtectionsActive(ctx)
    ensures Ante(true, ctx, tx).Accept? <==>
              && EnvelopeUnlocked(tx)
              && AllReachable(tx.msgs, false, BadSubmission)
              && AllReachable(tx.msgs, false, m => BadSigner(LOCKED_ACCOUNTS, m))
              && AllReachable(tx.msgs, false, IsFrozen)
  {
    TxFilterAcceptsIff(tx.msgs);
    LockAcceptsIff(LOCKED_ACCOUNTS, tx.msgs);
    if ValidateTxMessages(tx.msgs).Accept? { FreezeInsideProposalsNeverFires(tx.msgs); }
    EnvelopeFilter(tx);
  }

  lemma EnvelopeFilter(tx: Tx)
    ensures RejectLockedAccount(tx).Accept? <==>
              EnvelopeUnlocked(tx) && RejectLockedMessageSigners(LOCKED_ACCOUNTS, tx.msgs).Accept?
  {
    if tx.fee.Some? {
      var named := [tx.fee.value.payer, tx.fee.value.granter];
      assert tx.fee.value.payer in named && tx.fee.value.granter in named;
    }
  }

  /** On neutron-1 whatever CheckTx lets into the mempool is not refused by these filters in any block. */
  lemma CheckTxImpliesDelivery(tx: Tx, checkHeight: int, height: int, filtered: bool)
    requires Ante(filtered, Context(NEUTRON_CHAIN_ID, checkHeight, true), tx).Accept?
    ensures Ante(filtered, Context(NEUTRON_CHAIN_ID, height, false), tx).Accept?
  {
  }

  // ---------- the chain ----------

  datatype Origin = FromTx | FromContract | FromGov

  /** An executed message, with the block and the path it took. */
  datatype Entry = Entry(height: int, origin: Origin, msg: Msg)

  datatype Proposal = Proposal(submittedAt: int, msgs: Nested)

  /** log has the executed messages, recoveries the blocks that ran the recovery. */
  datatype State = State(height: int, proposals: seq<Proposal>, log: seq<Entry>, recoveries: seq<int>, world: World)

  /** gov is the account of x/gov. What the model leaves open: the modules' own handlers and their work between blocks. */
  datatype Chain = Chain(chainID: string, filtered: bool, gov: Address, plan: Plan,
                         handles: (State, Msg) -> Option<World>, endBlock: State -> World, beginBlock: State -> World)

  function BlockContext(c: Chain, st: State): Context {
    Context(c.chainID, st.height, false)
  }

  predicate Active(c: Chain, st: State) {
    c.filtered && ProtectionsActive(BlockContext(c, st))
  }

  predicate CircuitPasses(c: Chain, st: State, m: Msg) {
    !c.filtered || CircuitAllows(Some(BlockContext(c, st)), TypeURL(m))
  }

  /** The legacy router: while active it accepts text and executes nothing; before, it panics like no router. */
  predicate LegacyRouterAccepts(c: Chain, st: State, content: Option<LegacyContent>) {
    Active(c, st) && content.Some? && content.value.cached == Some(TextProposal)
  }

  /** ProposalHooks.AfterProposalSubmission. */
  predicate HookAccepts(c: Chain, st: State, p: Proposal) {
    Active(c, st) ==> p.msgs.Unpacked? && ProposalAllowed(p.msgs.msgs)
  }

  function Submit(c: Chain, st: State, msgs: Nested): Option<State> {
    var p := Proposal(st.height, msgs);
    if HookAccepts(c, st, p) then Some(st.(proposals := st.proposals + [p])) else None
  }

  /** What a v1beta1 submission puts into the proposal: one message that x/gov signs. */
  function LegacyProposal(c: Chain, legacy: Option<LegacyContent>): Nested {
    Unpacked([Msg(Some([c.gov]), ExecLegacyContent(legacy))])
  }

  /** The state after the handler, with the message in the log. */
  function Handled(c: Chain, st: State, m: Msg, origin: Origin): State
    requires c.handles(st, m).Some?
  {
    st.(log := st.log + [Entry(st.height, origin, m)], world := c.handles(st, m).value)
  }

  /** The message router: circuit, then handler. A failure anywhere undoes the whole message. */
  function Dispatch(c: Chain, st: State, m: Msg, origin: Origin): Option<State>
    decreases m
  {
    if !CircuitPasses(c, st, m) || c.handles(st, m).None? then None
    else
      var done := Handled(c, st, m, origin);
      match m.body
      case Exec(NotUnpacked) => None
      case Exec(Unpacked(inner)) => DispatchAll(c, done, inner, origin)
      case SubmitProposal(inner) => Submit(c, done, inner)
      case SubmitLegacyProposal(legacy) => Submit(c, done, LegacyProposal(c, legacy))
      case ExecLegacyContent(content) => if LegacyRouterAccepts(c, st, content) then Some(done) else None
      case _ => Some(done)
  }

  function DispatchAll(c: Chain, st: State, msgs: seq<Msg>, origin: Origin): Option<State>
    decreases msgs
  {
    if msgs == [] then Some(st)
    else
      match Dispatch(c, st, msgs[0], origin)
      case None => None
      case Some(next) => DispatchAll(c, next, msgs[1..], origin)
  }

  /** softwareUpgradeRouter.guard in front of the message router, for each message of a proposal. */
  function GovExecute(c: Chain, st: State, msgs: seq<Msg>): Option<State>
    decreases |msgs|
  {
    if msgs == [] then Some(st)
    else if Active(c, st) && !AllowedByRouter(msgs[0]) then None
    else
      match Dispatch(c, st, msgs[0], FromGov)
      case None => None
      case Some(next) => GovExecute(c, next, msgs[1..])
  }

  datatype Step =
    | DeliverTx(tx: Tx)
    | ContractDispatch(msg: Msg)
    | ExecuteProposal(id: nat)
    | NextBlock

  /** A refused step leaves the state; a failed recovery keeps the chain at its height. */
  ghost function Take(c: Chain, st: State, step: Step): State {
    match step
    case DeliverTx(tx) =>
      if Ante(c.filtered, BlockContext(c, st), tx).Reject? then st
      else OrElse(DispatchAll(c, st, tx.msgs, FromTx), st)
    case ContractDispatch(m) =>
      OrElse(Dispatch(c, st, m, FromContract), st)
    case ExecuteProposal(id) =>
      if id >= |st.proposals| || st.proposals[id].msgs.NotUnpacked? then st
      else OrElse(GovExecute(c, st, st.proposals[id].msgs.msgs), st)
    case NextBlock =>
      var next := st.(height := st.height + 1, world := c.endBlock(st));
      if !RecoveryDue(BlockContext(c, next)) then Begun(c, next)
      else
        match Recover(c.plan, next.world)
        case None => st
        case Some(w) => Begun(c, next.(world := w, recoveries := next.recoveries + [next.height]))
  }

  /** The modules' own work at the start of a block, after the recovery. */
  function Begun(c: Chain, st: State): State {
    st.(world := c.beginBlock(st))
  }

  function OrElse(r: Option<State>, st: State): State {
    if r.Some? then r.value else st
  }

  ghost function Run(c: Chain, st: State, steps: seq<Step>): State
    decreases |steps|
  {
    if steps == [] then st else Run(c, Take(c, st, steps[0]), steps[1..])
  }

  // ---------- safety ----------

  /** What may have happened after the halt. */
  predicate EntrySafe(e: Entry) {
    e.height > HALT_HEIGHT ==>
      && !IsFrozen(e.msg)
      && (e.origin.FromGov? ==> AllowedByRouter(e.msg))
      && (e.origin.FromTx? ==> !BadSigner(LOCKED_ACCOUNTS, e.msg))
  }

  /** What may have been submitted after the halt. */
  predicate ProposalSafe(p: Proposal) {
    p.submittedAt > HALT_HEIGHT ==> p.msgs.Unpacked? && ProposalAllowed(p.msgs.msgs)
  }

  ghost predicate Safe(st: State) {
    && (forall e :: e in st.log ==> EntrySafe(e))
    && (forall p :: p in st.proposals ==> ProposalSafe(p))
  }

  predicate Protected(c: Chain) {
    c.chainID == NEUTRON_CHAIN_ID && c.filtered
  }

  /** What each path demands of a message it dispatches after the halt. */
  predicate PathChecked(st: State, m: Msg, origin: Origin) {
    st.height > HALT_HEIGHT ==>
      && (origin.FromGov? ==> AllowedByRouter(m))
      && (origin.FromTx? ==> RejectLockedSigner(LOCKED_ACCOUNTS, m).Accept?)
  }

  /** The same for a list; no list is dispatched as a whole by governance. */
  predicate PathCheckedAll(st: State, msgs: seq<Msg>, origin: Origin) {
    st.height > HALT_HEIGHT ==>
      && !origin.FromGov?
      && (origin.FromTx? ==> RejectLockedMessageSigners(LOCKED_ACCOUNTS, msgs).Accept?)
  }

  lemma SubmitSafe(c: Chain, st: State, msgs: Nested)
    requires Protected(c) && Safe(st)
    ensures var r := Submit(c, st, msgs); r.Some? ==> Safe(r.value) && r.value.height == st.height
  {
  }

  lemma LoggedSafe(c: Chain, st: State, m: Msg, origin: Origin)
    requires Protected(c) && Safe(st) && PathChecked(st, m, origin) && CircuitPasses(c, st, m) && c.handles(st, m).Some?
    ensures Safe(Handled(c, st, m, origin))
  {
    assert EntrySafe(Entry(st.height, origin, m));
  }

  lemma {:induction false} DispatchSafe(c: Chain, st: State, m: Msg, origin: Origin)
    requires Protected(c) && Safe(st) && PathChecked(st, m, origin)
    ensures var r := Dispatch(c, st, m, origin); r.Some? ==> Safe(r.value) && r.value.height == st.height
    decreases m
  {
    if CircuitPasses(c, st, m) && c.handles(st, m).Some? {
      LoggedSafe(c, st, m, origin);
      var done := Handled(c, st, m, origin);
      match m.body
      case Exec(Unpacked(inner)) => DispatchAllSafe(c, done, inner, origin);
      case SubmitProposal(inner) => SubmitSafe(c, done, inner);
      case SubmitLegacyProposal(legacy) =>
        SubmitSafe(c, done, LegacyProposal(c, legacy));
      case _ =>
    }
  }

  lemma {:induction false} DispatchAllSafe(c: Chain, st: State, msgs: seq<Msg>, origin: Origin)
    requires Protected(c) && Safe(st) && PathCheckedAll(st, msgs, origin)
    ensures var r := DispatchAll(c, st, msgs, origin); r.Some? ==> Safe(r.value) && r.value.height == st.height
    decreases msgs
  {
    if msgs == [] {
    } else {
      DispatchSafe(c, st, msgs[0], origin);
      var r := Dispatch(c, st, msgs[0], origin);
      if r.Some? { DispatchAllSafe(c, r.value, msgs[1..], origin); }
    }
  }

  lemma {:induction false} GovExecuteSafe(c: Chain, st: State, msgs: seq<Msg>)
    requires Protected(c) && Safe(st)
    ensures var r := GovExecute(c, st, msgs); r.Some? ==> Safe(r.value) && r.value.height == st.height
    decreases |msgs|
  {
    if msgs != [] && !(Active(c, st) && !AllowedByRouter(msgs[0])) {
      DispatchSafe(c, st, msgs[0], FromGov);
      var r := Dispatch(c, st, msgs[0], FromGov);
      if r.Some? { GovExecuteSafe(c, r.value, msgs[1..]); }
    }
  }

  lemma TakeSafe(c: Chain, st: State, step: Step)
    requires Protected(c) && Safe(st)
    ensures Safe(Take(c, st, step))
  {
    match step
    case DeliverTx(tx) =>
      if Ante(c.filtered, BlockContext(c, st), tx).Accept? {
        DispatchAllSafe(c, st, tx.msgs, FromTx);
      }
    case ContractDispatch(m) =>
      DispatchSafe(c, st, m, FromContract);
    case ExecuteProposal(id) =>
      if id < |st.proposals| && st.proposals[id].msgs.Unpacked? {
        GovExecuteSafe(c, st, st.proposals[id].msgs.msgs);
      }
    case NextBlock =>
  }

  /**
    Safety of every run on neutron-1: above the halt no frozen message was executed on any path,
    governance executed only upgrades, stored code and legacy text, whenever the proposal was
    submitted, and no message of a locked signer was executed from a transaction's own messages,
    however it was nested. What a contract dispatches is not a message of the transaction.
   */
  lemma {:induction false} RunSafe(c: Chain, st: State, steps: seq<Step>)
    requires Protected(c) && Safe(st)
    ensures Safe(Run(c, st, steps))
    decreases |steps|
  {
    if steps == [] {
    } else {
      TakeSafe(c, st, steps[0]);
      RunSafe(c, Take(c, st, steps[0]), steps[1..]);
    }
  }

  /** From any state at or below the halt, with any proposals already submitted, safety needs no further assumption. */
  lemma RunFromBeforeHaltSafe(c: Chain, st: State, steps: seq<Step>)
    requires Protected(c)
    requires forall e :: e in st.log ==> e.height <= HALT_HEIGHT
    requires forall p :: p in st.proposals ==> p.submittedAt <= HALT_HEIGHT
    ensures Safe(Run(c, st, steps))
  {
    RunSafe(c, st, steps);
  }

  lemma {:induction false} GuardLetsThrough(c: Chain, st: State, msgs: seq<Msg>)
    requires forall m :: m in msgs ==> AllowedByRouter(m)
    ensures GovExecute(c, st, msgs) == DispatchAll(c, st, msgs, FromGov)
    decreases |msgs|
  {
    if msgs == [] {
    } else {
      assert msgs[0] in msgs;
      var r := Dispatch(c, st, msgs[0], FromGov);
      if r.Some? { GuardLetsThrough(c, r.value, msgs[1..]); }
    }
  }

  /** A proposal the hook accepted while active runs, from any later state, as if there were no guard. */
  lemma HookedProposalPassesGuard(c: Chain, st: State, p: Proposal, later: State)
    requires Active(c, st) && HookAccepts(c, st, p)
    ensures p.msgs.Unpacked?
    ensures GovExecute(c, later, p.msgs.msgs) == DispatchAll(c, later, p.msgs.msgs, FromGov)
  {
    ProposalPassesRouter(p.msgs.msgs);
    GuardLetsThrough(c, later, p.msgs.msgs);
  }

  // ---------- block heights ----------

  lemma {:induction false} DispatchHeight(c: Chain, st: State, m: Msg, origin: Origin)
    ensures var r := Dispatch(c, st, m, origin);
            r.Some? ==> r.value.height == st.height && r.value.recoveries == st.recoveries
    decreases m
  {
    if m.body.Exec? && m.body.inner.Unpacked? && c.handles(st, m).Some? {
      DispatchAllHeight(c, Handled(c, st, m, origin), m.body.inner.msgs, origin);
    }
  }

  lemma {:induction false} DispatchAllHeight(c: Chain, st: State, msgs: seq<Msg>, origin: Origin)
    ensures var r := DispatchAll(c, st, msgs, origin);
            r.Some? ==> r.value.height == st.height && r.value.recoveries == st.recoveries
    decreases msgs
  {
    if msgs == [] {
    } else {
      DispatchHeight(c, st, msgs[0], origin);
      var r := Dispatch(c, st, msgs[0], origin);
      if r.Some? { DispatchAllHeight(c, r.value, msgs[1..], origin); }
    }
  }

  lemma {:induction false} GovExecuteHeight(c: Chain, st: State, msgs: seq<Msg>)
    ensures var r := GovExecute(c, st, msgs);
            r.Some? ==> r.value.height == st.height && r.value.recoveries == st.recoveries
    decreases |msgs|
  {
    if msgs == [] {
    } else {
      DispatchHeight(c, st, msgs[0], FromGov);
      var r := Dispatch(c, st, msgs[0], FromGov);
      if r.Some? { GovExecuteHeight(c, r.value, msgs[1..]); }
    }
  }

  /** Only a block change touches the height and the record of recoveries. */
  lemma TakeHeight(c: Chain, st: State, step: Step)
    ensures step.NextBlock? || (Take(c, st, step).height == st.height && Take(c, st, step).recoveries == st.recoveries)
  {
    match step
    case DeliverTx(tx) => DispatchAllHeight(c, st, tx.msgs, FromTx);
    case ContractDispatch(m) => DispatchHeight(c, st, m, FromContract);
    case ExecuteProposal(id) =>
      if id < |st.proposals| && st.proposals[id].msgs.Unpacked? {
        GovExecuteHeight(c, st, st.proposals[id].msgs.msgs);
      }
    case NextBlock =>
  }

  lemma {:induction false} RunHeight(c: Chain, st: State, steps: seq<Step>)
    ensures Run(c, st, steps).height >= st.height
    decreases |steps|
  {
    if steps == [] {
    } else {
      TakeHeight(c, st, steps[0]);
      RunHeight(c, Take(c, st, steps[0]), steps[1..]);
    }
  }

  /** The recovery ran in exactly the blocks it is due: none below the recovery height, that one from there on. */
  ghost predicate RecoveredOnce(c: Chain, st: State) {
    st.recoveries == if c.chainID == NEUTRON_CHAIN_ID && st.height >= RECOVERY_HEIGHT then [RECOVERY_HEIGHT] else []
  }

  /**
    No run gets past the recovery block without one successful recovery, and none runs it twice; a
    recovery that fails keeps the chain below that block.
   */
  lemma {:induction false} RecoveryRunsOnce(c: Chain, st: State, steps: seq<Step>)
    requires RecoveredOnce(c, st)
    ensures RecoveredOnce(c, Run(c, st, steps))
    decreases |steps|
  {
    if steps == [] {
    } else {
      TakeHeight(c, st, steps[0]);
      RecoveryRunsOnce(c, Take(c, st, steps[0]), steps[1..]);
    }
  }

  /** The block change from before, with the recovery of the world its block ended with. */
  ghost predicate RecoveryStep(c: Chain, before: State, after: State) {
    var w := c.endBlock(before);
    && before.height == RECOVERY_HEIGHT - 1
    && Recover(c.plan, w).Some?
    && after == Begun(c, before.(height := RECOVERY_HEIGHT, world := Recover(c.plan, w).value,
                                 recoveries := before.recoveries + [RECOVERY_HEIGHT]))
  }

  lemma PassingStep(c: Chain, st: State, step: Step)
    requires c.chainID == NEUTRON_CHAIN_ID && st.height < RECOVERY_HEIGHT <= Take(c, st, step).height
    ensures step == NextBlock && RecoveryStep(c, st, Take(c, st, step))
  {
    TakeHeight(c, st, step);
  }

  lemma RunFirst(c: Chain, st: State, steps: seq<Step>, k: nat)
    requires k < |steps|
    ensures Run(c, st, steps[..k + 1]) == Run(c, Take(c, st, steps[0]), steps[1..][..k])
    ensures Run(c, st, steps[..0]) == st
  {
    assert steps[..k + 1][1..] == steps[1..][..k];
  }

  /** A run on neutron-1 that gets to the recovery height took exactly such a step on its way. */
  lemma {:induction false} RecoveryIsPassed(c: Chain, st: State, steps: seq<Step>) returns (n: nat)
    requires c.chainID == NEUTRON_CHAIN_ID && st.height < RECOVERY_HEIGHT
    requires Run(c, st, steps).height >= RECOVERY_HEIGHT
    ensures n < |steps| && steps[n] == NextBlock
    ensures RecoveryStep(c, Run(c, st, steps[..n]), Run(c, st, steps[..n + 1]))
    decreases |steps|
  {
    var next := Take(c, st, steps[0]);
    RunFirst(c, st, steps, 0);
    if next.height >= RECOVERY_HEIGHT {
      n := 0;
      assert steps[1..][..0] == [];
      PassingStep(c, st, steps[0]);
    } else {
      var m := RecoveryIsPassed(c, next, steps[1..]);
      n := m + 1;
      RunFirst(c, st, steps, m);
      RunFirst(c, st, steps, m + 1);
    }
  }

  /**
    No run on neutron-1 gets past the recovery block unless the world it started from could be
    recovered: the listed contracts were restorable and compatible there, and afterwards, if the
    calls into other modules kept to their own, every contract is done as listed and every
    denomination has the total it had.
   */
  lemma RunPastRecovery(c: Chain, st: State, steps: seq<Step>) returns (before: State)
    requires c.chainID == NEUTRON_CHAIN_ID && st.height < RECOVERY_HEIGHT
    requires Run(c, st, steps).height >= RECOVERY_HEIGHT
    ensures exists n :: 0 <= n < |steps| && before == Run(c, st, steps[..n]) && steps[n] == NextBlock
                        && RecoveryStep(c, before, Run(c, st, steps[..n + 1]))
    ensures var w := c.endBlock(before);
            && Compatible(c.plan.contracts, ATTACKER)
            && (forall x :: x in c.plan.contracts ==> Restorable(w.kv, w.codes, x, ATTACKER))
            && (Confined(c.plan, w) ==> Completed(c.plan, w, Recover(c.plan, w).value))
  {
    var n := RecoveryIsPassed(c, st, steps);
    before := Run(c, st, steps[..n]);
    var w := c.endBlock(before);
    RecoverSucceedsIff(c.plan, w);
    if Confined(c.plan, w) { RecoverCompletes(c.plan, w); }
  }

  // ---------- before the halt, and on other chains, the filters do nothing ----------

  predicate Dormant(c: Chain, st: State) {
    !ProtectionsActive(BlockContext(c, st))
  }

  function Unfiltered(c: Chain): Chain {
    c.(filtered := false)
  }

  lemma {:induction false} DispatchDormant(c: Chain, st: State, m: Msg, origin: Origin)
    requires Dormant(c, st)
    ensures Dispatch(c, st, m, origin) == Dispatch(Unfiltered(c), st, m, origin)
    decreases m
  {
    if m.body.Exec? && m.body.inner.Unpacked? && CircuitPasses(c, st, m) && c.handles(st, m).Some? {
      DispatchAllDormant(c, Handled(c, st, m, origin), m.body.inner.msgs, origin);
    }
  }

  lemma {:induction false} DispatchAllDormant(c: Chain, st: State, msgs: seq<Msg>, origin: Origin)
    requires Dormant(c, st)
    ensures DispatchAll(c, st, msgs, origin) == DispatchAll(Unfiltered(c), st, msgs, origin)
    decreases msgs
  {
    if msgs == [] {
    } else {
      DispatchDormant(c, st, msgs[0], origin);
      DispatchHeight(c, st, msgs[0], origin);
      var r := Dispatch(c, st, msgs[0], origin);
      if r.Some? { DispatchAllDormant(c, r.value, msgs[1..], origin); }
    }
  }

  lemma {:induction false} GovExecuteDormant(c: Chain, st: State, msgs: seq<Msg>)
    requires Dormant(c, st)
    ensures GovExecute(c, st, msgs) == GovExecute(Unfiltered(c), st, msgs)
    decreases |msgs|
  {
    if msgs == [] {
    } else {
      DispatchDormant(c, st, msgs[0], FromGov);
      DispatchHeight(c, st, msgs[0], FromGov);
      var r := Dispatch(c, st, msgs[0], FromGov);
      if r.Some? { GovExecuteDormant(c, r.value, msgs[1..]); }
    }
  }

  lemma TakeDormant(c: Chain, st: State, step: Step)
    requires Dormant(c, st)
    ensures Take(c, st, step) == Take(Unfiltered(c), st, step)
  {
    match step
    case DeliverTx(tx) => DispatchAllDormant(c, st, tx.msgs, FromTx);
    case ContractDispatch(m) => DispatchDormant(c, st, m, FromContract);
    case ExecuteProposal(id) =>
      if id < |st.proposals| && st.proposals[id].msgs.Unpacked? {
        GovExecuteDormant(c, st, st.proposals[id].msgs.msgs);
      }
    case NextBlock =>
  }

  /**
    Replay: on another chain, and on neutron-1 in every run that ends at or below the halt, the
    filtered chain reaches exactly the state the unfiltered chain reaches.
   */
  lemma {:induction false} ReplayUnchanged(c: Chain, st: State, steps: seq<Step>)
    requires c.chainID != NEUTRON_CHAIN_ID || Run(c, st, steps).height <= HALT_HEIGHT
    ensures Run(c, st, steps) == Run(Unfiltered(c), st, steps)
    decreases |steps|
  {
    if steps == [] {
    } else {
      RunHeight(c, st, steps);
      TakeDormant(c, st, steps[0]);
      ReplayUnchanged(c, Take(c, st, steps[0]), steps[1..]);
    }
  }
}
