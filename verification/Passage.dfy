/**
  What the halt protections let through: above the halt, messages that no protection is about are
  executed exactly as on a chain without the filters.
 */
module Passage {
  import opened Prelude
  import opened Messages
  import opened HaltFilters
  import opened HaltProtocol

  /** A message some protection treats differently: frozen, a refused submission, or legacy content. */
  predicate Concerned(m: Msg) {
    IsFrozen(m) || BadSubmission(m) || m.body.ExecLegacyContent?
  }

  predicate IsLegacyContent(m: Msg) {
    m.body.ExecLegacyContent?
  }

  predicate AboveHalt(c: Chain, st: State) {
    Protected(c) && st.height > HALT_HEIGHT
  }

  // ---------- dispatch ----------

  lemma {:induction false} DispatchUnchanged(c: Chain, st: State, m: Msg, origin: Origin)
    requires AboveHalt(c, st) && CleanMsg(m, false, Concerned)
    ensures Dispatch(c, st, m, origin) == Dispatch(Unfiltered(c), st, m, origin)
    decreases m
  {
    if c.handles(st, m).Some? {
      var done := Handled(c, st, m, origin);
      assert done == Handled(Unfiltered(c), st, m, origin);
      match m.body
      case Exec(Unpacked(inner)) =>
        if inner != [] { DispatchAllUnchanged(c, done, inner, origin); }
      case _ =>
    }
  }

  lemma {:induction false} DispatchAllUnchanged(c: Chain, st: State, msgs: seq<Msg>, origin: Origin)
    requires AboveHalt(c, st) && Clean(msgs, false, Concerned)
    ensures DispatchAll(c, st, msgs, origin) == DispatchAll(Unfiltered(c), st, msgs, origin)
    decreases msgs
  {
    if msgs == [] {
    } else {
      DispatchUnchanged(c, st, msgs[0], origin);
      DispatchHeight(c, st, msgs[0], origin);
      var r := Dispatch(c, st, msgs[0], origin);
      if r.Some? { DispatchAllUnchanged(c, r.value, msgs[1..], origin); }
    }
  }

  // ---------- transactions and contracts ----------

  lemma ConcernsSplit(msgs: seq<Msg>)
    requires AllReachable(msgs, false, BadSubmission) && AllReachable(msgs, false, IsFrozen)
    requires AllReachable(msgs, false, IsLegacyContent)
    ensures Clean(msgs, false, Concerned)
  {
    forall path: seq<nat> | At(msgs, path, false).Some?
      ensures var m := At(msgs, path, false).value; !Concerned(m) && Below(m, false).Unpacked?
    {
      assert !BadSubmission(At(msgs, path, false).value);
    }
    CleanIffReachable(msgs, false, Concerned);
  }

  /**
    A transaction that the filters accept, and that carries no legacy content of its own, has exactly
    the effect it has without them.
   */
  lemma AcceptedTxUnchanged(c: Chain, st: State, tx: Tx)
    requires AboveHalt(c, st) && Ante(true, BlockContext(c, st), tx).Accept?
    requires AllReachable(tx.msgs, false, IsLegacyContent)
    ensures Take(c, st, DeliverTx(tx)) == Take(Unfiltered(c), st, DeliverTx(tx))
  {
    AnteAcceptsIff(BlockContext(c, st), tx);
    ConcernsSplit(tx.msgs);
    DispatchAllUnchanged(c, st, tx.msgs, FromTx);
  }

  /** What a contract dispatches has the effect it has without the protections, unless it concerns them. */
  lemma DispatchedUnchanged(c: Chain, st: State, m: Msg)
    requires AboveHalt(c, st) && CleanMsg(m, false, Concerned)
    ensures Take(c, st, ContractDispatch(m)) == Take(Unfiltered(c), st, ContractDispatch(m))
  {
    DispatchUnchanged(c, st, m, FromContract);
  }

  // ---------- governance ----------

  /** A legacy text proposal runs above the halt, and only there: without the filters there is no router for it. */
  lemma TextRunsIffActive(c: Chain, st: State, m: Msg, legacy: LegacyContent)
    requires m.body == ExecLegacyContent(Some(legacy)) && legacy.cached == Some(TextProposal)
    requires c.handles(st, m).Some?
    ensures Dispatch(c, st, m, FromGov).Some? <==> Active(c, st)
    ensures Active(c, st) ==> Dispatch(c, st, m, FromGov) == Some(Handled(c, st, m, FromGov))
  {
  }

  lemma {:induction false} UpgradesAreClean(msgs: seq<Msg>)
    requires forall m :: m in msgs ==> IsUpgradeOrStoreCode(m)
    ensures Clean(msgs, false, Concerned)
    decreases |msgs|
  {
    if msgs == [] {
    } else {
      assert msgs[0] in msgs && CleanMsg(msgs[0], false, Concerned);
      UpgradesAreClean(msgs[1..]);
    }
  }

  /** A proposal of upgrades and stored code is executed as without guard, circuit or hook. */
  lemma UpgradesUnchanged(c: Chain, st: State, msgs: seq<Msg>)
    requires AboveHalt(c, st) && forall m :: m in msgs ==> IsUpgradeOrStoreCode(m)
    ensures GovExecute(c, st, msgs) == DispatchAll(Unfiltered(c), st, msgs, FromGov)
  {
    GuardLetsThrough(c, st, msgs);
    UpgradesAreClean(msgs);
    DispatchAllUnchanged(c, st, msgs, FromGov);
  }
}
