/**
  What the account lock of app/account_lock.go means for whole runs: which steps above the halt execute
  a message of a locked signer, in terms of what the lock says of the messages they start from.
 */
module LockedSigners {
  import opened Prelude
  import opened Messages
  import opened HaltFilters
  import opened HaltProtocol

  // ---------- what a dispatch adds to the log ----------

  /** The log grew by entries of this height and origin. */
  ghost predicate Grew(st: State, after: State, origin: Origin) {
    && st.log <= after.log
    && forall i :: |st.log| <= i < |after.log| ==> after.log[i].height == st.height && after.log[i].origin == origin
  }

  lemma GrewTwice(st: State, next: State, after: State, origin: Origin)
    requires Grew(st, next, origin) && Grew(next, after, origin) && next.height == st.height
    ensures Grew(st, after, origin)
  {
    forall i | |st.log| <= i < |after.log|
      ensures after.log[i].height == st.height && after.log[i].origin == origin
    {
      if i < |next.log| { assert after.log[i] == next.log[i]; }
    }
  }

  lemma {:induction false} DispatchGrows(c: Chain, st: State, m: Msg, origin: Origin)
    ensures var r := Dispatch(c, st, m, origin);
            r.Some? ==> Grew(st, r.value, origin) && |r.value.log| > |st.log| && r.value.log[|st.log|].msg == m
    decreases m
  {
    if CircuitPasses(c, st, m) && c.handles(st, m).Some? {
      var done := Handled(c, st, m, origin);
      assert Grew(st, done, origin) && done.log[|st.log|].msg == m;
      if m.body.Exec? && m.body.inner.Unpacked? {
        DispatchAllGrows(c, done, m.body.inner.msgs, origin);
        var r := DispatchAll(c, done, m.body.inner.msgs, origin);
        if r.Some? { GrewTwice(st, done, r.value, origin); }
      }
    }
  }

  lemma {:induction false} DispatchAllGrows(c: Chain, st: State, msgs: seq<Msg>, origin: Origin)
    ensures var r := DispatchAll(c, st, msgs, origin); r.Some? ==> Grew(st, r.value, origin)
    decreases msgs
  {
    if msgs == [] {
    } else {
      DispatchGrows(c, st, msgs[0], origin);
      DispatchHeight(c, st, msgs[0], origin);
      var next := Dispatch(c, st, msgs[0], origin);
      if next.Some? {
        DispatchAllGrows(c, next.value, msgs[1..], origin);
        var r := DispatchAll(c, next.value, msgs[1..], origin);
        if r.Some? { GrewTwice(st, next.value, r.value, origin); }
      }
    }
  }

  lemma {:induction false} GovExecuteGrows(c: Chain, st: State, msgs: seq<Msg>)
    ensures var r := GovExecute(c, st, msgs); r.Some? ==> Grew(st, r.value, FromGov)
    decreases |msgs|
  {
    if msgs == [] {
    } else {
      DispatchGrows(c, st, msgs[0], FromGov);
      DispatchHeight(c, st, msgs[0], FromGov);
      var next := Dispatch(c, st, msgs[0], FromGov);
      if next.Some? {
        GovExecuteGrows(c, next.value, msgs[1..]);
        var r := GovExecute(c, next.value, msgs[1..]);
        if r.Some? { GrewTwice(st, next.value, r.value, FromGov); }
      }
    }
  }

  // ---------- which messages bring locked signers with them ----------

  /** Some message from place n of the log on has a locked or unresolvable signer. */
  ghost predicate LockedFrom(log: seq<Entry>, n: nat) {
    exists i :: n <= i < |log| && BadSigner(LOCKED_ACCOUNTS, log[i].msg)
  }

  lemma LockedSplits(log: seq<Entry>, more: seq<Entry>, n: nat)
    requires n <= |log| && log <= more
    ensures LockedFrom(more, n) <==> LockedFrom(log, n) || LockedFrom(more, |log|)
  {
    if LockedFrom(log, n) {
      var i :| n <= i < |log| && BadSigner(LOCKED_ACCOUNTS, log[i].msg);
      assert more[i] == log[i];
    }
    if LockedFrom(more, n) {
      var i :| n <= i < |more| && BadSigner(LOCKED_ACCOUNTS, more[i].msg);
      assert i < |log| ==> log[i] == more[i];
    }
  }

  /** A message that is executed brings such messages with it exactly when the lock would have refused it. */
  lemma {:induction false} DispatchLockedIff(c: Chain, st: State, m: Msg, origin: Origin)
    ensures var r := Dispatch(c, st, m, origin);
            r.Some? ==> (LockedFrom(r.value.log, |st.log|) <==> RejectLockedSigner(LOCKED_ACCOUNTS, m).Reject?)
    decreases m
  {
    var r := Dispatch(c, st, m, origin);
    if r.Some? {
      var done := Handled(c, st, m, origin);
      DispatchGrows(c, st, m, origin);
      assert done.log == st.log + [Entry(st.height, origin, m)];
      assert LockedFrom(done.log, |st.log|) <==> BadSigner(LOCKED_ACCOUNTS, m) by {
        assert done.log[|st.log|].msg == m;
      }
      if m.body.Exec? {
        DispatchAllGrows(c, done, m.body.inner.msgs, origin);
        DispatchAllLockedIff(c, done, m.body.inner.msgs, origin);
        LockedSplits(done.log, r.value.log, |st.log|);
      }
    }
  }

  lemma {:induction false} DispatchAllLockedIff(c: Chain, st: State, msgs: seq<Msg>, origin: Origin)
    ensures var r := DispatchAll(c, st, msgs, origin);
            r.Some? ==> (LockedFrom(r.value.log, |st.log|) <==> RejectLockedMessageSigners(LOCKED_ACCOUNTS, msgs).Reject?)
    decreases msgs
  {
    if msgs == [] {
    } else {
      var r := DispatchAll(c, st, msgs, origin);
      if r.Some? {
        var next := Dispatch(c, st, msgs[0], origin).value;
        DispatchGrows(c, st, msgs[0], origin);
        DispatchLockedIff(c, st, msgs[0], origin);
        DispatchAllGrows(c, next, msgs[1..], origin);
        DispatchAllLockedIff(c, next, msgs[1..], origin);
        LockedSplits(next.log, r.value.log, |st.log|);
      }
    }
  }

  lemma {:induction false} GovExecuteLockedIff(c: Chain, st: State, msgs: seq<Msg>)
    ensures var r := GovExecute(c, st, msgs);
            r.Some? ==> (LockedFrom(r.value.log, |st.log|) <==> RejectLockedMessageSigners(LOCKED_ACCOUNTS, msgs).Reject?)
    decreases |msgs|
  {
    if msgs == [] {
    } else {
      var r := GovExecute(c, st, msgs);
      if r.Some? {
        var next := Dispatch(c, st, msgs[0], FromGov).value;
        DispatchGrows(c, st, msgs[0], FromGov);
        DispatchLockedIff(c, st, msgs[0], FromGov);
        GovExecuteGrows(c, next, msgs[1..]);
        GovExecuteLockedIff(c, next, msgs[1..]);
        LockedSplits(next.log, r.value.log, |st.log|);
      }
    }
  }

  // ---------- steps and runs ----------

  /** Above the halt: a contract's dispatch or a proposal that runs and that the lock would have refused. */
  ghost predicate CarriesLocked(c: Chain, st: State, step: Step) {
    match step
    case ContractDispatch(m) =>
      Dispatch(c, st, m, FromContract).Some? && RejectLockedSigner(LOCKED_ACCOUNTS, m).Reject?
    case ExecuteProposal(id) =>
      && id < |st.proposals| && st.proposals[id].msgs.Unpacked?
      && GovExecute(c, st, st.proposals[id].msgs.msgs).Some?
      && RejectLockedMessageSigners(LOCKED_ACCOUNTS, st.proposals[id].msgs.msgs).Reject?
    case _ => false
  }

  lemma TakeGrows(c: Chain, st: State, step: Step)
    ensures var after := Take(c, st, step);
            && st.log <= after.log
            && forall i :: |st.log| <= i < |after.log| ==> after.log[i].height == st.height
  {
    match step
    case DeliverTx(tx) => DispatchAllGrows(c, st, tx.msgs, FromTx);
    case ContractDispatch(m) => DispatchGrows(c, st, m, FromContract);
    case ExecuteProposal(id) =>
      if id < |st.proposals| && st.proposals[id].msgs.Unpacked? {
        GovExecuteGrows(c, st, st.proposals[id].msgs.msgs);
      }
    case NextBlock =>
  }

  lemma TakeLockedIff(c: Chain, st: State, step: Step)
    requires Protected(c) && st.height > HALT_HEIGHT
    ensures LockedFrom(Take(c, st, step).log, |st.log|) <==> CarriesLocked(c, st, step)
  {
    match step
    case DeliverTx(tx) =>
      if Ante(c.filtered, BlockContext(c, st), tx).Accept? { DispatchAllLockedIff(c, st, tx.msgs, FromTx); }
    case ContractDispatch(m) => DispatchLockedIff(c, st, m, FromContract);
    case ExecuteProposal(id) =>
      if id < |st.proposals| && st.proposals[id].msgs.Unpacked? {
        GovExecuteLockedIff(c, st, st.proposals[id].msgs.msgs);
      }
    case NextBlock =>
  }

  /** A message of a locked or unresolvable signer above the halt, from place n of the log on. */
  ghost predicate LockedAboveFrom(log: seq<Entry>, n: nat) {
    exists i :: n <= i < |log| && log[i].height > HALT_HEIGHT && BadSigner(LOCKED_ACCOUNTS, log[i].msg)
  }

  lemma LockedAboveSplits(log: seq<Entry>, more: seq<Entry>, n: nat)
    requires n <= |log| && log <= more
    ensures LockedAboveFrom(more, n) <==> LockedAboveFrom(log, n) || LockedAboveFrom(more, |log|)
  {
    if LockedAboveFrom(log, n) {
      var i :| n <= i < |log| && log[i].height > HALT_HEIGHT && BadSigner(LOCKED_ACCOUNTS, log[i].msg);
      assert more[i] == log[i];
    }
    if LockedAboveFrom(more, n) {
      var i :| n <= i < |more| && more[i].height > HALT_HEIGHT && BadSigner(LOCKED_ACCOUNTS, more[i].msg);
      assert i < |log| ==> log[i] == more[i];
    }
  }

  lemma TakeLockedAbove(c: Chain, st: State, step: Step)
    requires Protected(c)
    ensures LockedAboveFrom(Take(c, st, step).log, |st.log|) <==> st.height > HALT_HEIGHT && CarriesLocked(c, st, step)
  {
    var log := Take(c, st, step).log;
    TakeGrows(c, st, step);
    if st.height > HALT_HEIGHT {
      TakeLockedIff(c, st, step);
      if LockedFrom(log, |st.log|) {
        var i :| |st.log| <= i < |log| && BadSigner(LOCKED_ACCOUNTS, log[i].msg);
        assert log[i].height == st.height;
      }
    }
  }

  ghost predicate RunCarriesLocked(c: Chain, st: State, steps: seq<Step>)
    decreases |steps|
  {
    steps != [] &&
    ((st.height > HALT_HEIGHT && CarriesLocked(c, st, steps[0])) || RunCarriesLocked(c, Take(c, st, steps[0]), steps[1..]))
  }

  lemma {:induction false} RunGrows(c: Chain, st: State, steps: seq<Step>)
    ensures st.log <= Run(c, st, steps).log
    decreases |steps|
  {
    if steps == [] {
    } else {
      TakeGrows(c, st, steps[0]);
      RunGrows(c, Take(c, st, steps[0]), steps[1..]);
    }
  }

  /**
    Over every run on neutron-1, a message of a locked signer is executed above the halt if and only if
    some step there is a contract's dispatch or a proposal that runs and that the lock would have refused.
   */
  lemma {:induction false} RunLockedIff(c: Chain, st: State, steps: seq<Step>)
    requires Protected(c)
    ensures LockedAboveFrom(Run(c, st, steps).log, |st.log|) <==> RunCarriesLocked(c, st, steps)
    decreases |steps|
  {
    if steps == [] {
    } else {
      var next := Take(c, st, steps[0]);
      TakeGrows(c, st, steps[0]);
      TakeLockedAbove(c, st, steps[0]);
      RunGrows(c, next, steps[1..]);
      RunLockedIff(c, next, steps[1..]);
      LockedAboveSplits(next.log, Run(c, st, steps).log, |st.log|);
    }
  }

  /** An execution that a contract signs and dispatches, with a message of the attacker inside, is such a step if it runs. */
  lemma ContractExecutionCarriesLocked(c: Chain, st: State, contract: Address, inner: Msg)
    requires Protected(c) && st.height > HALT_HEIGHT && contract !in LOCKED_ACCOUNTS && inner.signers == Some([ATTACKER])
    requires Dispatch(c, st, Msg(Some([contract]), Exec(Unpacked([inner]))), FromContract).Some?
    ensures var m := Msg(Some([contract]), Exec(Unpacked([inner])));
            && !BadSigner(LOCKED_ACCOUNTS, m)
            && CarriesLocked(c, st, ContractDispatch(m))
            && exists e :: e in Take(c, st, ContractDispatch(m)).log && e.height == st.height && e.msg == inner
  {
    var m := Msg(Some([contract]), Exec(Unpacked([inner])));
    assert RejectLockedSigner(LOCKED_ACCOUNTS, inner).Reject? by { assert ATTACKER in [ATTACKER] && ATTACKER in LOCKED_ACCOUNTS; }
    assert RejectLockedMessageSigners(LOCKED_ACCOUNTS, [inner]).Reject?;
    assert m.body == Exec(Unpacked([inner]));
    var done := Handled(c, st, m, FromContract);
    OneMessage(c, done, inner, FromContract);
    DispatchGrows(c, done, inner, FromContract);
    var after := Dispatch(c, done, inner, FromContract).value;
    assert after == Take(c, st, ContractDispatch(m));
    assert after.log[|done.log|] in after.log;
  }

  lemma OneMessage(c: Chain, st: State, m: Msg, origin: Origin)
    ensures DispatchAll(c, st, [m], origin) == Dispatch(c, st, m, origin)
  {
    var r := Dispatch(c, st, m, origin);
    assert [m][1..] == [];
    if r.Some? { assert DispatchAll(c, r.value, [m][1..], origin) == r; }
  }
}
