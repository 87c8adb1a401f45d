/**
  The gas-limited Sudo wrapper of x/contractmanager/ibc_middleware.go: a contract runs on a cached
  store under a nested gas meter, and its writes are committed only if it returns without error.
 */
module SudoWrapper {
  import opened Prelude
  import opened DecimalText
  import opened ByteOrder

  type Store = map<string, string>

  /** Panics as the recovery handler tells them apart. */
  datatype Panic = OutOfGas | GasOverflow | OtherPanic

  /** A gas meter of the store module: the limit and what was consumed. */
  datatype Meter = Meter(limit: uint64, consumed: uint64) {
    predicate IsOutOfGas() {
      consumed >= limit
    }

    function ConsumedToLimit(): uint64 {
      if consumed > limit then limit else consumed
    }
  }

  datatype Charge = Charge(meter: Meter, panic: Option<Panic>)

  /** ConsumeGas: the sum is stored even when it is past the limit; an overflow fills the meter. */
  function Consume(m: Meter, amount: uint64): Charge {
    if m.consumed + amount >= TWO_64 then Charge(m.(consumed := TWO_64 - 1), Some(GasOverflow))
    else
      var charged := m.(consumed := m.consumed + amount);
      Charge(charged, if charged.consumed > charged.limit then Some(OutOfGas) else None)
  }

  // ---------- errors ----------

  /** An error of the wasm system, or one with a registered codespace and code; text may differ between nodes. */
  datatype SudoError = SystemError(text: string) | CodedError(codespace: string, code: nat, text: string)

  /** RedactError: what is recorded of an error. */
  function Redact(e: SudoError): string {
    match e
    case SystemError(text) => text
    case CodedError(codespace, code, _) => "codespace: " + codespace + ", code: " + Digits(code)
  }

  /** ErrSudoOutOfGas */
  const SUDO_OUT_OF_GAS: SudoError :=
    CodedError("contractmanager", 1103, "sudo handling went beyond the gas limit allowed by the module")

  // ---------- what a contract does ----------

  datatype Op = Write(key: string, value: string) | Delete(key: string) | Use(gas: uint64)

  /** How a contract ends when no operation stops it; Raise is a panic from elsewhere, such as another meter. */
  datatype Ending = Respond(response: string) | Fail(error: SudoError) | Raise(panic: Panic)

  /** What a contract does on one store. */
  datatype Behaviour = Behaviour(ops: seq<Op>, ending: Ending)

  datatype Execution = Execution(store: Store, meter: Meter, ending: Ending)

  /** Run the operations on a store and a meter. */
  function Execute(ops: seq<Op>, ending: Ending, store: Store, m: Meter): Execution
    decreases |ops|
  {
    if ops == [] then Execution(store, m, ending)
    else
      match ops[0]
      case Write(k, v) => Execute(ops[1..], ending, store[k := v], m)
      case Delete(k) => Execute(ops[1..], ending, store - {k}, m)
      case Use(gas) =>
        var charge := Consume(m, gas);
        if charge.panic.Some? then Execution(store, charge.meter, Raise(charge.panic.value))
        else Execute(ops[1..], ending, store, charge.meter)
  }

  // ---------- recorded failures ----------

  datatype Failure = Failure(address: string, id: uint64, payload: string, error: string)

  /** The failure store, by contract and number; a stored failure repeats its number. */
  type Failures = f: map<(string, uint64), Failure> | Numbered(f) witness map[]

  ghost predicate Numbered(f: map<(string, uint64), Failure>) {
    forall k :: k in f ==> f[k].id == k.1
  }

  function NumbersOf(failures: Failures, address: string): set<uint64> {
    set k | k in failures.Keys && k.0 == address :: k.1
  }

  lemma NumbersIff(failures: Failures, address: string, id: uint64)
    ensures id in NumbersOf(failures, address) <==> (address, id) in failures
  {
    assert (address, id).1 == id;
  }

  /** GetNextFailureIDKey: one above the number of the contract's last failure, which wraps. */
  ghost function NextID(failures: Failures, address: string): uint64 {
    var ids := NumbersOf(failures, address);
    if ids == {} then 0
    else
      NumbersIff(failures, address, MaxOf(ids));
      Add64(failures[(address, MaxOf(ids))].id, 1)
  }

  ghost function AddFailure(failures: Failures, call: Call, error: SudoError): Failures {
    var id := NextID(failures, call.address);
    failures[(call.address, id) := Failure(call.address, id, call.payload, Redact(error))]
  }

  // ---------- the bytes of a failure's key ----------

  /** GetFailureKeyPrefix */
  function FailurePrefix(address: Bytes): Bytes {
    [1 as char] + address + "/"
  }

  /** GetFailureKey */
  function FailureKey(address: Bytes, id: uint64): Bytes {
    FailurePrefix(address) + BigEndian(id, 8)
  }

  /** Addresses have no separator in them, so a key under a contract's prefix is a key of that contract. */
  lemma FailurePrefixDecides(a: Bytes, b: Bytes, id: uint64)
    requires '/' !in a && '/' !in b && FailurePrefix(a) <= FailureKey(b, id)
    ensures a == b
  {
    var p, k := FailurePrefix(a), FailureKey(b, id);
    assert p[1 + |a|] == '/' && k[1 + |b|] == '/';
    assert forall i :: 0 <= i < |b| ==> k[1 + i] == b[i];
    assert forall i :: 0 <= i < |a| ==> p[1 + i] == a[i];
    assert a == p[1..1 + |a|] && b == k[1..1 + |b|];
  }

  /** The failures of one contract sort by number, so the last one under its prefix has the greatest. */
  lemma FailureKeyOrder(address: Bytes, i: uint64, j: uint64)
    requires i < j
    ensures Less(FailureKey(address, i), FailureKey(address, j))
  {
    EightBytes();
    BigEndianOrder(i, j, 8);
    LessAfterPrefix(FailurePrefix(address), BigEndian(i, 8), BigEndian(j, 8));
  }

  // ---------- the wrapper, on values ----------

  datatype Host = Host(store: Store, failures: Failures, meter: Meter)

  /**
    A call: what the contract does on each store, its payload, the gas limit, and the gas that reading
    the limit and recording a failure cost the caller.
   */
  datatype Call = Call(address: string, payload: string, contract: Store -> Behaviour,
                       gasLimit: uint64, paramsGas: uint64, recordGas: uint64)

  /** A returned response, a returned error, or a panic that reaches the caller. */
  datatype CallOutcome = Succeeded(response: string) | Failed(error: SudoError) | Panics(panic: Panic)

  function Run(store: Store, call: Call): Execution {
    var does := call.contract(store);
    Execute(does.ops, does.ending, store, Meter(call.gasLimit, 0))
  }

  /** outOfGasRecovery: an out-of-gas panic becomes an error when the nested meter is out of gas; others go on. */
  function Recovered(e: Execution): CallOutcome {
    match e.ending
    case Respond(r) => Succeeded(r)
    case Fail(err) => Failed(err)
    case Raise(p) => if p.OutOfGas? && e.meter.IsOutOfGas() then Failed(SUDO_OUT_OF_GAS) else Panics(p)
  }

  ghost function SudoResult(h: Host, call: Call): (Host, CallOutcome) {
    var params := Consume(h.meter, call.paramsGas);
    var host := h.(meter := params.meter);
    if params.panic.Some? then (host, Panics(params.panic.value))
    else
      var cached := Run(h.store, call);
      var outcome := Recovered(cached);
      if outcome.Panics? then (host, outcome)
      else if outcome.Succeeded? then Charged(host.(store := cached.store), cached, outcome)
      else
        var record := Consume(host.meter, call.recordGas);
        if record.panic.Some? then (host.(meter := record.meter), Panics(record.panic.value))
        else Charged(Host(h.store, AddFailure(h.failures, call, outcome.error), record.meter), cached, outcome)
  }

  function Charged(h: Host, cached: Execution, outcome: CallOutcome): (Host, CallOutcome) {
    var charge := Consume(h.meter, cached.meter.ConsumedToLimit());
    (h.(meter := charge.meter), if charge.panic.Some? then Panics(charge.panic.value) else outcome)
  }

  // ---------- in place ----------

  class Chain {
    var store: Store
    var failures: Failures
    var meter: Meter

    constructor (host: Host)
      ensures State() == host
    {
      store, failures, meter := host.store, host.failures, host.meter;
    }

    function State(): Host
      reads this
    {
      Host(store, failures, meter)
    }

    /** Consume gas on the caller's meter. */
    method ConsumeGas(amount: uint64) returns (panic: Option<Panic>)
      modifies this`meter
      ensures meter == Consume(old(meter), amount).meter && panic == Consume(old(meter), amount).panic
    {
      var charge := Consume(meter, amount);
      meter := charge.meter;
      return charge.panic;
    }

    /** The reverse iteration over the contract's failures stops at the last one. */
    method GetNextFailureIDKey(address: string) returns (id: uint64)
      ensures id == NextID(failures, address)
    {
      var ids := NumbersOf(failures, address);
      if ids == {} {
        return 0;
      }
      GreatestElementExists(ids);
      var last: uint64 :| last in ids && forall j :: j in ids ==> j <= last;
      NumbersIff(failures, address, last);
      return Add64(failures[(address, last)].id, 1);
    }

    /** AddContractFailure: recording may itself run the caller out of gas before anything is written. */
    method AddContractFailure(call: Call, error: SudoError) returns (panic: Option<Panic>)
      modifies this
      ensures store == old(store)
      ensures meter == Consume(old(meter), call.recordGas).meter && panic == Consume(old(meter), call.recordGas).panic
      ensures failures == if panic.None? then AddFailure(old(failures), call, error) else old(failures)
    {
      panic := ConsumeGas(call.recordGas);
      if panic.None? {
        var id := GetNextFailureIDKey(call.address);
        failures := failures[(call.address, id) := Failure(call.address, id, call.payload, Redact(error))];
      }
    }

    /**
      Sudo: read the limit, run on a cached copy, recover, then either record the failure or commit, and
      in both cases charge the caller what the nested meter used up to its limit.
     */
    method Sudo(call: Call) returns (outcome: CallOutcome)
      modifies this
      ensures (State(), outcome) == SudoResult(old(State()), call)
    {
      var panic := ConsumeGas(call.paramsGas);
      if panic.Some? {
        return Panics(panic.value);
      }
      var cached := Run(store, call);
      outcome := Recovered(cached);
      if outcome.Panics? {
        return;
      }
      if outcome.Failed? {
        panic := AddContractFailure(call, outcome.error);
        if panic.Some? {
          return Panics(panic.value);
        }
      } else {
        store := cached.store;
      }
      panic := ConsumeGas(cached.meter.ConsumedToLimit());
      if panic.Some? {
        outcome := Panics(panic.value);
      }
    }
  }

  // ---------- one call ----------

  /**
    A call that returns either commits the contract's writes and records nothing, or discards them and
    records exactly one failure.
   */
  lemma CommitOrRecord(h: Host, call: Call)
    ensures var (h', outcome) := SudoResult(h, call);
            && (outcome.Succeeded? ==> h'.store == Run(h.store, call).store && h'.failures == h.failures)
            && (outcome.Failed? ==> h'.store == h.store && h'.failures == AddFailure(h.failures, call, outcome.error))
            && (outcome.Succeeded? <==> !outcome.Panics? && Run(h.store, call).ending.Respond?)
  {
  }

  /** Beside reading the limit and recording, a returning call charges what the contract used, at most the limit. */
  lemma ChargeBounded(h: Host, call: Call)
    ensures var (h', outcome) := SudoResult(h, call);
            !outcome.Panics? ==>
              var own := call.paramsGas + if outcome.Failed? then call.recordGas else 0;
              && h'.meter.consumed == h.meter.consumed + own + Run(h.store, call).meter.ConsumedToLimit()
              && Run(h.store, call).meter.ConsumedToLimit() <= call.gasLimit
  {
    MeterKeepsLimit(call.contract(h.store).ops, call.contract(h.store).ending, h.store, Meter(call.gasLimit, 0));
  }

  lemma {:induction false} MeterKeepsLimit(ops: seq<Op>, ending: Ending, store: Store, m: Meter)
    ensures Execute(ops, ending, store, m).meter.limit == m.limit
    decreases |ops|
  {
    if ops == [] {
    } else {
      match ops[0]
      case Write(k, v) => MeterKeepsLimit(ops[1..], ending, store[k := v], m);
      case Delete(k) => MeterKeepsLimit(ops[1..], ending, store - {k}, m);
      case Use(gas) => MeterKeepsLimit(ops[1..], ending, store, Consume(m, gas).meter);
    }
  }

  /** All the gas the operations ask for. */
  function UsedGas(ops: seq<Op>): nat {
    if ops == [] then 0 else (if ops[0].Use? then ops[0].gas else 0) + UsedGas(ops[1..])
  }

  /** Some operation is stopped by the meter. */
  predicate Stops(ops: seq<Op>, m: Meter)
    decreases |ops|
  {
    ops != [] &&
    if ops[0].Use? then Consume(m, ops[0].gas).panic.Some? || Stops(ops[1..], Consume(m, ops[0].gas).meter)
    else Stops(ops[1..], m)
  }

  /** Operations are stopped exactly when they ask for more than is left, and otherwise end as the contract does. */
  lemma {:induction false} ExecuteGas(ops: seq<Op>, ending: Ending, store: Store, m: Meter)
    requires m.consumed <= m.limit
    ensures var e := Execute(ops, ending, store, m);
            && (Stops(ops, m) <==> m.consumed + UsedGas(ops) > m.limit)
            && (Stops(ops, m) ==> e.ending == Raise(GasOverflow) || (e.ending == Raise(OutOfGas) && e.meter.consumed > m.limit))
            && (!Stops(ops, m) ==> e.ending == ending && e.meter == m.(consumed := m.consumed + UsedGas(ops)))
    decreases |ops|
  {
    if ops == [] {
    } else {
      match ops[0]
      case Write(k, v) => ExecuteGas(ops[1..], ending, store[k := v], m);
      case Delete(k) => ExecuteGas(ops[1..], ending, store - {k}, m);
      case Use(gas) =>
        if Consume(m, gas).panic.None? { ExecuteGas(ops[1..], ending, store, Consume(m, gas).meter); }
    }
  }

  /** The wrapper turns a panic into an error only if it is out-of-gas and the nested meter is exhausted. */
  predicate Absorbed(e: Execution) {
    e.ending == Raise(OutOfGas) && e.meter.IsOutOfGas()
  }

  /**
    Which panics are absorbed, by what the contract asks for: its own meter's out-of-gas panic always is,
    and that of another meter exactly when the contract used its limit to the last unit.
   */
  lemma AbsorbedIff(store: Store, call: Call)
    ensures var does, e := call.contract(store), Run(store, call);
            && (Stops(does.ops, Meter(call.gasLimit, 0)) <==> UsedGas(does.ops) > call.gasLimit)
            && (if UsedGas(does.ops) > call.gasLimit then Absorbed(e) <==> e.ending == Raise(OutOfGas)
                else Absorbed(e) <==> does.ending == Raise(OutOfGas) && UsedGas(does.ops) == call.gasLimit)
  {
    MeterKeepsLimit(call.contract(store).ops, call.contract(store).ending, store, Meter(call.gasLimit, 0));
    ExecuteGas(call.contract(store).ops, call.contract(store).ending, store, Meter(call.gasLimit, 0));
  }

  /** A contract that uses exactly its limit and meets another meter's out-of-gas panic ends as if it had run out itself. */
  lemma ForeignPanicAbsorbed(store: Store, limit: uint64)
    ensures Recovered(Execute([Use(limit)], Raise(OutOfGas), store, Meter(limit, 0))) == Failed(SUDO_OUT_OF_GAS)
    ensures !Stops([Use(limit)], Meter(limit, 0))
  {
    assert [Use(limit)][1..] == [];
    ExecuteGas([Use(limit)], Raise(OutOfGas), store, Meter(limit, 0));
  }

  /**
    Once the limit is read, every other panic reaches the caller with nothing further changed; an
    absorbed one leaves the store and, when the caller can pay, becomes the out-of-gas error.
   */
  lemma PanicsOtherThanAbsorbedPass(h: Host, call: Call)
    requires Run(h.store, call).ending.Raise? && Consume(h.meter, call.paramsGas).panic.None?
    ensures var e := Run(h.store, call);
            var host := h.(meter := Consume(h.meter, call.paramsGas).meter);
            && (!Absorbed(e) ==> SudoResult(h, call) == (host, Panics(e.ending.panic)))
            && (Absorbed(e) ==> SudoResult(h, call).0.store == h.store)
            && ((Absorbed(e) && host.meter.consumed + call.recordGas + call.gasLimit <= h.meter.limit)
                ==> SudoResult(h, call).1 == Failed(SUDO_OUT_OF_GAS))
  {
    MeterKeepsLimit(call.contract(h.store).ops, call.contract(h.store).ending, h.store, Meter(call.gasLimit, 0));
  }

  /**
    What a call that returns answers, by what the contract does on the store: its own response or error
    when it keeps to its limit, and the out-of-gas error when it does not or another meter ran out.
   */
  lemma AnswerOf(h: Host, call: Call)
    ensures var does, outcome := call.contract(h.store), SudoResult(h, call).1;
            !outcome.Panics? ==>
              outcome == if UsedGas(does.ops) > call.gasLimit || does.ending.Raise? then Failed(SUDO_OUT_OF_GAS)
                         else if does.ending.Respond? then Succeeded(does.ending.response)
                         else Failed(does.ending.error)
  {
    var does := call.contract(h.store);
    ExecuteGas(does.ops, does.ending, h.store, Meter(call.gasLimit, 0));
  }

  /** A caller that can pay gets an answer unless a panic passes through the wrapper. */
  lemma AnswersWhenPaid(h: Host, call: Call)
    requires h.meter.consumed + call.paramsGas + call.recordGas + call.gasLimit <= h.meter.limit
    ensures var e := Run(h.store, call);
            SudoResult(h, call).1.Panics? <==> e.ending.Raise? && !Absorbed(e)
  {
    MeterKeepsLimit(call.contract(h.store).ops, call.contract(h.store).ending, h.store, Meter(call.gasLimit, 0));
  }

  /** The writes of the contract on a store, all of them made. */
  function Applied(ops: seq<Op>, store: Store): Store
    decreases |ops|
  {
    if ops == [] then store
    else
      match ops[0]
      case Write(k, v) => Applied(ops[1..], store[k := v])
      case Delete(k) => Applied(ops[1..], store - {k})
      case Use(_) => Applied(ops[1..], store)
  }

  lemma {:induction false} ExecuteApplies(ops: seq<Op>, ending: Ending, store: Store, m: Meter)
    ensures !Stops(ops, m) ==> Execute(ops, ending, store, m).store == Applied(ops, store)
    decreases |ops|
  {
    if ops == [] {
    } else {
      match ops[0]
      case Write(k, v) => ExecuteApplies(ops[1..], ending, store[k := v], m);
      case Delete(k) => ExecuteApplies(ops[1..], ending, store - {k}, m);
      case Use(gas) => ExecuteApplies(ops[1..], ending, store, Consume(m, gas).meter);
    }
  }

  /** A call that succeeds has made every write of the contract. */
  lemma SuccessApplies(h: Host, call: Call)
    requires SudoResult(h, call).1.Succeeded?
    ensures SudoResult(h, call).0.store == Applied(call.contract(h.store).ops, h.store)
  {
    var does := call.contract(h.store);
    ExecuteGas(does.ops, does.ending, h.store, Meter(call.gasLimit, 0));
    ExecuteApplies(does.ops, does.ending, h.store, Meter(call.gasLimit, 0));
  }

  // ---------- what is recorded ----------

  lemma RedactedApart(e: SudoError, f: SudoError)
    requires e.CodedError? && f.CodedError? && (e.codespace == f.codespace || e.code == f.code)
    ensures Redact(e) == Redact(f) <==> e.codespace == f.codespace && e.code == f.code
  {
    DigitsRead(e.code);
    DigitsRead(f.code);
    if e.codespace == f.codespace {
      var head := "codespace: " + e.codespace + ", code: ";
      assert Redact(e)[|head|..] == Digits(e.code) && Redact(f)[|head|..] == Digits(f.code);
    } else {
      var tail := ", code: " + Digits(e.code);
      assert Redact(e) == "codespace: " + e.codespace + tail && Redact(f) == "codespace: " + f.codespace + tail;
      assert Redact(e)[11..|Redact(e)| - |tail|] == e.codespace && Redact(f)[11..|Redact(f)| - |tail|] == f.codespace;
    }
  }

  /**
    A failed call leaves one failure more or in place of another, with the call's own address and
    payload; its text is the same for two coded errors with one codespace and code, and differs when
    they share only one of the two.
   */
  lemma FailureHolds(h: Host, call: Call, f: SudoError)
    requires SudoResult(h, call).1.Failed?
    ensures var (h', outcome) := SudoResult(h, call);
            var id := NextID(h.failures, call.address);
            && (call.address, id) in h'.failures
            && var failure := h'.failures[(call.address, id)];
               && failure.address == call.address && failure.payload == call.payload && failure.id == id
               && (outcome.error.SystemError? ==> failure.error == outcome.error.text)
               && ((outcome.error.CodedError? && f.CodedError? && (f.codespace == outcome.error.codespace || f.code == outcome.error.code)) ==>
                     (failure.error == Redact(f) <==> f.codespace == outcome.error.codespace && f.code == outcome.error.code))
  {
    CommitOrRecord(h, call);
    var e := SudoResult(h, call).1.error;
    if e.CodedError? && f.CodedError? && (f.codespace == e.codespace || f.code == e.code) { RedactedApart(e, f); }
  }

  // ---------- the numbers of failures ----------

  /** The contract has both the greatest number and 0, so that the next number is taken. */
  predicate Full(failures: Failures, address: string) {
    (address, TWO_64 - 1) in failures && (address, 0) in failures
  }

  /** The next number is new, so that recording replaces nothing, if and only if the numbers have not run out. */
  lemma RecordIsNewIff(failures: Failures, address: string)
    ensures (address, NextID(failures, address)) !in failures <==> !Full(failures, address)
  {
    var ids := NumbersOf(failures, address);
    NumbersIff(failures, address, NextID(failures, address));
    NumbersIff(failures, address, TWO_64 - 1);
    NumbersIff(failures, address, 0);
    if ids != {} { NumbersIff(failures, address, MaxOf(ids)); }
  }

  lemma RecordCounts(failures: Failures, call: Call, error: SudoError)
    ensures var after := AddFailure(failures, call, error);
            && |after| == |failures| + (if Full(failures, call.address) then 0 else 1)
            && (!Full(failures, call.address) ==> forall k :: k in failures ==> k in after && after[k] == failures[k])
  {
    RecordIsNewIff(failures, call.address);
  }

  /** There is room for n more failures of every contract. */
  ghost predicate Roomy(failures: Failures, n: nat) {
    n <= TWO_64 && forall k :: k in failures ==> k.1 + n < TWO_64
  }

  lemma RoomShrinks(failures: Failures, call: Call, error: SudoError, n: nat)
    requires Roomy(failures, n + 1)
    ensures !Full(failures, call.address) && Roomy(AddFailure(failures, call, error), n)
  {
    var ids := NumbersOf(failures, call.address);
    if ids != {} { NumbersIff(failures, call.address, MaxOf(ids)); }
  }

  // ---------- runs of calls ----------

  /** replaced counts the failed calls whose record took the place of an earlier one. */
  datatype Trace = Trace(host: Host, succeeded: seq<Call>, failed: nat, replaced: nat, panicked: bool)

  /** Calls in order, up to the first panic, which takes the caller down with it. */
  ghost function RunAll(h: Host, calls: seq<Call>): Trace
    decreases |calls|
  {
    if calls == [] then Trace(h, [], 0, 0, false)
    else
      var (h', outcome) := SudoResult(h, calls[0]);
      if outcome.Panics? then Trace(h', [], 0, 0, true)
      else
        var rest := RunAll(h', calls[1..]);
        if outcome.Succeeded? then rest.(succeeded := [calls[0]] + rest.succeeded)
        else rest.(failed := rest.failed + 1, replaced := rest.replaced + if Full(h.failures, calls[0].address) then 1 else 0)
  }

  /** The store after running contracts one after the other, without any wrapper. */
  function Committed(store: Store, calls: seq<Call>): Store
    decreases |calls|
  {
    if calls == [] then store else Committed(Run(store, calls[0]).store, calls[1..])
  }

  /** Over any run without a panic the store is the one the successful calls alone would have produced. */
  lemma {:induction false} RunCommitsSuccesses(h: Host, calls: seq<Call>)
    requires !RunAll(h, calls).panicked
    ensures var t := RunAll(h, calls);
            t.failed + |t.succeeded| == |calls| && t.host.store == Committed(h.store, t.succeeded)
    decreases |calls|
  {
    if calls == [] {
    } else {
      var h' := SudoResult(h, calls[0]).0;
      CommitOrRecord(h, calls[0]);
      RunCommitsSuccesses(h', calls[1..]);
      var rest := RunAll(h', calls[1..]);
      assert ([calls[0]] + rest.succeeded)[1..] == rest.succeeded;
    }
  }

  /**
    Over any run without a panic the failures grow by exactly the failed calls less those that met a
    contract out of numbers, and if there are none of these earlier failures stay as they are.
   */
  lemma {:induction false} RunCountsFailures(h: Host, calls: seq<Call>)
    requires !RunAll(h, calls).panicked
    ensures var t := RunAll(h, calls);
            && |t.host.failures| + t.replaced == |h.failures| + t.failed
            && (t.replaced == 0 ==> forall k :: k in h.failures ==> k in t.host.failures && t.host.failures[k] == h.failures[k])
    decreases |calls|
  {
    if calls == [] {
    } else {
      var (h', outcome) := SudoResult(h, calls[0]);
      CommitOrRecord(h, calls[0]);
      if outcome.Failed? { RecordCounts(h.failures, calls[0], outcome.error); }
      RunCountsFailures(h', calls[1..]);
    }
  }

  /** While every contract has numbers left, no record replaces another. */
  lemma {:induction false} RunReplacesNone(h: Host, calls: seq<Call>)
    requires !RunAll(h, calls).panicked && Roomy(h.failures, |calls|)
    ensures RunAll(h, calls).replaced == 0
    decreases |calls|
  {
    if calls == [] {
    } else {
      var (h', outcome) := SudoResult(h, calls[0]);
      CommitOrRecord(h, calls[0]);
      if outcome.Failed? { RoomShrinks(h.failures, calls[0], outcome.error, |calls| - 1); }
      RunReplacesNone(h', calls[1..]);
    }
  }
}
