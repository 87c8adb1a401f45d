/**
  The one-time contract recovery of app/restore_contract_admins.go: each listed contract gets back
  its admin, the newest code the attacker did not upload, and its cw2 value.
 */
module Restore {
  import opened Prelude
  import opened ByteOrder
  import opened WasmStore

  /** A listed contract; the address and the admin are None when their bech32 text is invalid. */
  datatype ContractRestore = ContractRestore(address: Option<Bytes>, admin: Option<string>, cw2: string)

  /** The creator of each stored code. */
  type Codes = map<uint64, string>

  // ---------- the newest legitimate code ----------

  datatype CodeResult = Code(id: uint64) | CodeMissing | AllByAttacker

  /** legitimateCodeID's walk from the newest entry to the oldest. */
  function NewestLegitimate(h: seq<HistoryEntry>, codes: Codes, attacker: string): CodeResult {
    if h == [] then AllByAttacker
    else
      var id := h[|h| - 1].codeID;
      if id !in codes then CodeMissing
      else if codes[id] == attacker then NewestLegitimate(h[..|h| - 1], codes, attacker)
      else Code(id)
  }

  /** Entry i is the newest one whose code the attacker did not upload. */
  ghost predicate IsNewestLegitimate(h: seq<HistoryEntry>, codes: Codes, attacker: string, i: int) {
    && 0 <= i < |h| && h[i].codeID in codes && codes[h[i].codeID] != attacker
    && forall j :: i < j < |h| ==> h[j].codeID in codes && codes[h[j].codeID] == attacker
  }

  /** The walk finds a code exactly when such an entry exists, and then that entry's code. */
  lemma {:induction false} NewestLegitimateIff(h: seq<HistoryEntry>, codes: Codes, attacker: string, id: uint64)
    ensures NewestLegitimate(h, codes, attacker) == Code(id)
            <==> exists i :: IsNewestLegitimate(h, codes, attacker, i) && h[i].codeID == id
    decreases |h|
  {
    if h == [] {
    } else {
      var n := |h| - 1;
      var last := h[n].codeID;
      if last in codes && codes[last] == attacker {
        NewestLegitimateIff(h[..n], codes, attacker, id);
        if exists i :: IsNewestLegitimate(h[..n], codes, attacker, i) && h[..n][i].codeID == id {
          var i :| IsNewestLegitimate(h[..n], codes, attacker, i) && h[..n][i].codeID == id;
          assert IsNewestLegitimate(h, codes, attacker, i);
        }
        if exists i :: IsNewestLegitimate(h, codes, attacker, i) && h[i].codeID == id {
          var i :| IsNewestLegitimate(h, codes, attacker, i) && h[i].codeID == id;
          assert IsNewestLegitimate(h[..n], codes, attacker, i);
        }
      } else if last in codes {
        assert IsNewestLegitimate(h, codes, attacker, n);
      }
    }
  }

  // ---------- one contract, on values ----------

  /** Whether the step succeeded, and the store it leaves either way. */
  datatype Result = Result(ok: bool, kv: KV)

  /** info.AddMigration's history entry for the block of the recovery. */
  function MigrationTo(id: uint64, now: TxPosition): HistoryEntry {
    HistoryEntry(Migrate, id, now, None)
  }

  /** The writes of restoreContractCodeID; pos + 1 wraps like Go's uint64. */
  function Rewrite(kv: KV, addr: Bytes, info: ContractInfo, last: HistoryEntry, pos: uint64, e: HistoryEntry): KV {
    (kv - {IndexOf(addr, last)})
      [InfoKey(addr) := InfoValue(info.(codeID := e.codeID))]
      [HistoryKey(addr, Add64(pos, 1)) := EntryValue(e)]
      [IndexOf(addr, e) := EmptyValue]
  }

  ghost function RestoreCode(kv: KV, codes: Codes, addr: Bytes, info: ContractInfo, attacker: string, now: TxPosition): Result
    requires Schema(kv)
  {
    var h := HistoryOf(kv, addr);
    var target := NewestLegitimate(h, codes, attacker);
    if !target.Code? then Result(false, kv)
    else if target.id == h[|h| - 1].codeID then Result(true, kv)
    else
      assert HistoryMap(kv, addr).Keys == Positions(kv, addr);
      Result(true, Rewrite(kv, addr, info, h[|h| - 1], MaxOf(Positions(kv, addr)), MigrationTo(target.id, now)))
  }

  /** The stored cw2 value; an absent key reads as no bytes. */
  predicate Cw2Is(kv: KV, addr: Bytes, cw2: string) {
    if Cw2Key(addr) in kv then kv[Cw2Key(addr)] == RawValue(cw2) else cw2 == ""
  }

  /** restoreCW2 on values: a value that is there already is not written. */
  function SetCw2(kv: KV, addr: Bytes, cw2: string): KV {
    if Cw2Is(kv, addr, cw2) then kv else kv[Cw2Key(addr) := RawValue(cw2)]
  }

  ghost function RestoreOne(kv: KV, codes: Codes, c: ContractRestore, attacker: string, now: TxPosition): (r: Result)
    requires Schema(kv)
    ensures Schema(r.kv)
  {
    if c.address.None? || c.admin.None? || InfoKey(c.address.value) !in kv then Result(false, kv)
    else
      var addr := c.address.value;
      var info := InfoOf(kv, addr);
      var code := RestoreCode(kv, codes, addr, info, attacker, now);
      if !code.ok then code else Finish(code.kv, addr, c.cw2, info.admin, c.admin.value, attacker)
  }

  /** The writes after the code: the cw2 value, and the admin unless it is there already. */
  function Finish(kv: KV, addr: Bytes, cw2: string, current: string, admin: string, attacker: string): Result {
    var kv2 := SetCw2(kv, addr, cw2);
    if current == admin then Result(true, kv2)
    else if current != attacker then Result(false, kv2)
    else Result(true, WithAdmin(kv2, addr, admin))
  }

  /** UpdateContractAdmin: the stored info is read again and written with the new admin. */
  function WithAdmin(kv: KV, addr: Bytes, admin: string): KV {
    if InfoKey(addr) in kv && kv[InfoKey(addr)].InfoValue? then
      kv[InfoKey(addr) := InfoValue(kv[InfoKey(addr)].info.(admin := admin))]
    else kv
  }

  // ---------- what the rewrite does to a consistent contract ----------

  lemma RewriteFrame(kv: KV, addr: Bytes, info: ContractInfo, last: HistoryEntry, pos: uint64, e: HistoryEntry)
    requires Schema(kv)
    ensures Schema(Rewrite(kv, addr, info, last, pos, e))
    ensures SameOutside(kv, Rewrite(kv, addr, info, last, pos, e), addr)
  {
  }

  /** The rewrite puts one entry into the history, at the position behind the highest one. */
  lemma RewriteHistoryMap(kv: KV, addr: Bytes, info: ContractInfo, last: HistoryEntry, pos: uint64, e: HistoryEntry)
    requires Schema(kv)
    ensures var kv' := Rewrite(kv, addr, info, last, pos, e);
            Schema(kv') && HistoryMap(kv', addr) == HistoryMap(kv, addr)[Add64(pos, 1) := e]
  {
    RewriteFrame(kv, addr, info, last, pos, e);
    var kv', at := Rewrite(kv, addr, info, last, pos, e), Add64(pos, 1);
    forall p: uint64 { RewriteHistoryAt(kv, addr, info, last, pos, e, p); }
    HistoryMapAfter(kv, kv', addr, at, e);
  }

  lemma RewriteHistoryAt(kv: KV, addr: Bytes, info: ContractInfo, last: HistoryEntry, pos: uint64, e: HistoryEntry, p: uint64)
    ensures var kv' := Rewrite(kv, addr, info, last, pos, e);
            if p == Add64(pos, 1) then HistoryKey(addr, p) in kv' && kv'[HistoryKey(addr, p)] == EntryValue(e)
            else SameAt(kv, kv', HistoryKey(addr, p))
  {
  }

  lemma HistoryMapAfter(kv: KV, kv': KV, addr: Bytes, at: uint64, e: HistoryEntry)
    requires Schema(kv) && Schema(kv')
    requires HistoryKey(addr, at) in kv' && kv'[HistoryKey(addr, at)] == EntryValue(e)
    requires forall p: uint64 :: p != at ==> SameAt(kv, kv', HistoryKey(addr, p))
    ensures HistoryMap(kv', addr) == HistoryMap(kv, addr)[at := e]
  {
    var m, m' := HistoryMap(kv, addr)[at := e], HistoryMap(kv', addr);
    forall p: uint64
      ensures p in m' <==> p in m
      ensures p in m ==> m'[p] == m[p]
    {
      PositionsIff(kv, addr, p);
      PositionsIff(kv', addr, p);
      if p != at { assert SameAt(kv, kv', HistoryKey(addr, p)); }
    }
    assert m.Keys == m'.Keys;
  }

  lemma RewriteHistory(kv: KV, addr: Bytes, info: ContractInfo, last: HistoryEntry, pos: uint64, e: HistoryEntry)
    requires Schema(kv) && Positions(kv, addr) != {} && pos == MaxOf(Positions(kv, addr)) && pos < TWO_64 - 1
    ensures var kv' := Rewrite(kv, addr, info, last, pos, e);
            Schema(kv') && HistoryOf(kv', addr) == HistoryOf(kv, addr) + [e]
  {
    RewriteHistoryMap(kv, addr, info, last, pos, e);
    AppendedHistory(kv, addr, pos, e);
  }

  lemma AppendedHistory(kv: KV, addr: Bytes, pos: uint64, e: HistoryEntry)
    requires Schema(kv) && Positions(kv, addr) != {} && pos == MaxOf(Positions(kv, addr)) && pos < TWO_64 - 1
    ensures Listing(HistoryMap(kv, addr)[pos + 1 := e]) == HistoryOf(kv, addr) + [e]
  {
    ListingAppend(HistoryMap(kv, addr), pos + 1, e);
  }

  /** After the rewrite the index holds the new entry and nothing else of this contract. */
  lemma RewriteIndex(kv: KV, addr: Bytes, info: ContractInfo, last: HistoryEntry, pos: uint64, e: HistoryEntry)
    requires IndexKeysOf(kv, addr) == {IndexOf(addr, last)}
    ensures IndexKeysOf(Rewrite(kv, addr, info, last, pos, e), addr) == {IndexOf(addr, e)}
  {
    var kv' := Rewrite(kv, addr, info, last, pos, e);
    forall k
      ensures k in IndexKeysOf(kv', addr) <==> k == IndexOf(addr, e)
    {
      if k.IndexKey? && k.addr == addr && k != IndexOf(addr, e) {
        assert k in IndexKeysOf(kv, addr) <==> k == IndexOf(addr, last);
      }
    }
  }

  // ---------- one contract ----------

  /**
    What the wasm module guarantees of a contract before the recovery: the three records agree, and a
    history that must grow has a position left.
   */
  ghost predicate Ready(kv: KV, codes: Codes, addr: Bytes, attacker: string)
    requires Schema(kv)
  {
    InfoKey(addr) in kv ==>
      && Consistent(kv, addr)
      && var h := HistoryOf(kv, addr);
         || NewestLegitimate(h, codes, attacker) == Code(h[|h| - 1].codeID)
         || (Positions(kv, addr) != {} && MaxOf(Positions(kv, addr)) < TWO_64 - 1)
  }

  /** What the recovery leaves of a contract's code: consistent, at the newest legitimate code of the old history. */
  ghost predicate CodeRestored(kv: KV, kv': KV, codes: Codes, addr: Bytes, attacker: string, now: TxPosition)
    requires Schema(kv) && Schema(kv')
  {
    var h, h' := HistoryOf(kv, addr), HistoryOf(kv', addr);
    var target := NewestLegitimate(h, codes, attacker);
    && Consistent(kv, addr) && Consistent(kv', addr)
    && target.Code?
    && InfoOf(kv', addr).codeID == target.id
    && InfoOf(kv', addr).rest == InfoOf(kv, addr).rest
    && h' == if h[|h| - 1].codeID == target.id then h else h + [MigrationTo(target.id, now)]
  }

  lemma RestoreCodeEffect(kv: KV, codes: Codes, addr: Bytes, attacker: string, now: TxPosition)
    requires Schema(kv) && InfoKey(addr) in kv && Ready(kv, codes, addr, attacker)
    requires RestoreCode(kv, codes, addr, InfoOf(kv, addr), attacker, now).ok
    ensures var kv' := RestoreCode(kv, codes, addr, InfoOf(kv, addr), attacker, now).kv;
            && Schema(kv') && SameOutside(kv, kv', addr)
            && CodeRestored(kv, kv', codes, addr, attacker, now)
            && InfoOf(kv', addr).admin == InfoOf(kv, addr).admin
  {
    var info := InfoOf(kv, addr);
    var h := HistoryOf(kv, addr);
    var target := NewestLegitimate(h, codes, attacker);
    var last := h[|h| - 1];
    if target.id != last.codeID {
      var e := MigrationTo(target.id, now);
      var pos := MaxOf(Positions(kv, addr));
      RewriteFrame(kv, addr, info, last, pos, e);
      RewriteHistory(kv, addr, info, last, pos, e);
      RewriteIndex(kv, addr, info, last, pos, e);
    }
  }

  /** Writing the admin and the cw2 value leaves code, history and index as they are. */
  lemma SideWrites(kv: KV, kv': KV, addr: Bytes)
    requires Schema(kv) && Schema(kv') && InfoKey(addr) in kv && InfoKey(addr) in kv'
    requires InfoOf(kv, addr).codeID == InfoOf(kv', addr).codeID
    requires forall k :: k != InfoKey(addr) && k != Cw2Key(addr) ==> SameAt(kv, kv', k)
    ensures HistoryOf(kv, addr) == HistoryOf(kv', addr)
    ensures Consistent(kv, addr) <==> Consistent(kv', addr)
  {
    SameHistory(kv, kv', addr);
    assert IndexKeysOf(kv, addr) == IndexKeysOf(kv', addr) by {
      forall k: Key | k.IndexKey? && k.addr == addr
        ensures k in kv <==> k in kv'
      {
        assert SameAt(kv, kv', k);
      }
    }
  }

  /** Only the contract's info and cw2 value differ. */
  ghost predicate SameBeside(kv: KV, kv': KV, addr: Bytes) {
    forall k :: k != InfoKey(addr) && k != Cw2Key(addr) ==> SameAt(kv, kv', k)
  }

  lemma FinishEffect(kv: KV, addr: Bytes, cw2: string, admin: string, attacker: string)
    requires Schema(kv) && InfoKey(addr) in kv
    requires Finish(kv, addr, cw2, InfoOf(kv, addr).admin, admin, attacker).ok
    ensures var kv' := Finish(kv, addr, cw2, InfoOf(kv, addr).admin, admin, attacker).kv;
            && Schema(kv') && SameBeside(kv, kv', addr) && Cw2Is(kv', addr, cw2)
            && InfoKey(addr) in kv' && InfoOf(kv', addr) == InfoOf(kv, addr).(admin := admin)
  {
  }

  lemma OutsideBeside(kv: KV, kv1: KV, kv': KV, addr: Bytes)
    requires SameOutside(kv, kv1, addr) && SameBeside(kv1, kv', addr)
    ensures SameOutside(kv, kv', addr)
  {
    forall k | !Owned(k, addr)
      ensures SameAt(kv, kv', k)
    {
      assert SameAt(kv, kv1, k) && SameAt(kv1, kv', k);
    }
  }

  /** Everything the recovery promises of one listed contract. */
  ghost predicate Restored(kv: KV, kv': KV, codes: Codes, c: ContractRestore, attacker: string, now: TxPosition)
    requires Schema(kv) && Schema(kv')
  {
    && c.address.Some? && c.admin.Some?
    && CodeRestored(kv, kv', codes, c.address.value, attacker, now)
    && InfoOf(kv', c.address.value).admin == c.admin.value
    && Cw2Is(kv', c.address.value, c.cw2)
  }

  lemma RestoreOneEffect(kv: KV, codes: Codes, c: ContractRestore, attacker: string, now: TxPosition)
    requires Schema(kv) && (c.address.Some? ==> Ready(kv, codes, c.address.value, attacker))
    requires RestoreOne(kv, codes, c, attacker, now).ok
    ensures var kv' := RestoreOne(kv, codes, c, attacker, now).kv;
            SameOutside(kv, kv', c.address.value) && Restored(kv, kv', codes, c, attacker, now)
  {
    var addr := c.address.value;
    var info := InfoOf(kv, addr);
    RestoreCodeEffect(kv, codes, addr, attacker, now);
    var kv1 := RestoreCode(kv, codes, addr, info, attacker, now).kv;
    var kv' := RestoreOne(kv, codes, c, attacker, now).kv;
    FinishEffect(kv1, addr, c.cw2, c.admin.value, attacker);
    SideWrites(kv1, kv', addr);
    OutsideBeside(kv, kv1, kv', addr);
  }

  // ---------- one contract in any state ----------

  lemma {:induction false} LegitimateCode(h: seq<HistoryEntry>, codes: Codes, attacker: string)
    requires NewestLegitimate(h, codes, attacker).Code?
    ensures var id := NewestLegitimate(h, codes, attacker).id; id in codes && codes[id] != attacker
    decreases |h|
  {
    if codes[h[|h| - 1].codeID] == attacker {
      LegitimateCode(h[..|h| - 1], codes, attacker);
    }
  }

  /** An entry with the newest legitimate code, put in anywhere, leaves that code the newest legitimate one. */
  lemma {:induction false} InsertLegitimate(m: map<uint64, HistoryEntry>, p: uint64, e: HistoryEntry, codes: Codes, attacker: string)
    requires NewestLegitimate(Listing(m), codes, attacker) == Code(e.codeID)
    ensures NewestLegitimate(Listing(m[p := e]), codes, attacker) == Code(e.codeID)
    decreases |m.Keys|
  {
    LegitimateCode(Listing(m), codes, attacker);
    var m' := m[p := e];
    assert p in m'.Keys;
    var top := MaxOf(m'.Keys);
    if top == p {
      LastDecides(Listing(m' - {p}), e, codes, attacker);
    } else {
      assert m.Keys <= m'.Keys && top in m.Keys && MaxOf(m.Keys) == top;
      var rest := m - {top};
      LastDecides(Listing(rest), m[top], codes, attacker);
      LastDecides(Listing(m' - {top}), m[top], codes, attacker);
      assert m' - {top} == rest[p := e];
      if codes[m[top].codeID] == attacker {
        assert rest.Keys == m.Keys - {top};
        InsertLegitimate(rest, p, e, codes, attacker);
      }
    }
  }

  lemma LastDecides(h: seq<HistoryEntry>, e: HistoryEntry, codes: Codes, attacker: string)
    ensures NewestLegitimate(h + [e], codes, attacker)
            == if e.codeID !in codes then CodeMissing
               else if codes[e.codeID] == attacker then NewestLegitimate(h, codes, attacker)
               else Code(e.codeID)
  {
    assert (h + [e])[..|h|] == h;
  }

  /** Writing the code back keeps the target, the admin and the other contracts, whatever state the contract was in. */
  lemma RestoreCodeKeeps(kv: KV, codes: Codes, addr: Bytes, attacker: string, now: TxPosition)
    requires Schema(kv) && InfoKey(addr) in kv
    requires RestoreCode(kv, codes, addr, InfoOf(kv, addr), attacker, now).ok
    ensures var kv' := RestoreCode(kv, codes, addr, InfoOf(kv, addr), attacker, now).kv;
            && Schema(kv') && SameOutside(kv, kv', addr)
            && InfoKey(addr) in kv' && InfoOf(kv', addr).admin == InfoOf(kv, addr).admin
            && NewestLegitimate(HistoryOf(kv', addr), codes, attacker) == NewestLegitimate(HistoryOf(kv, addr), codes, attacker)
  {
    var h, info := HistoryOf(kv, addr), InfoOf(kv, addr);
    var target := NewestLegitimate(h, codes, attacker);
    if target.id != h[|h| - 1].codeID {
      assert HistoryMap(kv, addr).Keys == Positions(kv, addr);
      var pos, e := MaxOf(Positions(kv, addr)), MigrationTo(target.id, now);
      RewriteFrame(kv, addr, info, h[|h| - 1], pos, e);
      RewriteHistoryMap(kv, addr, info, h[|h| - 1], pos, e);
      InsertLegitimate(HistoryMap(kv, addr), Add64(pos, 1), e, codes, attacker);
    }
  }

  lemma RestoreOneKeeps(kv: KV, codes: Codes, c: ContractRestore, attacker: string, now: TxPosition)
    requires Schema(kv) && RestoreOne(kv, codes, c, attacker, now).ok
    ensures var kv' := RestoreOne(kv, codes, c, attacker, now).kv;
            && SameOutside(kv, kv', c.address.value)
            && InfoKey(c.address.value) in kv' && InfoOf(kv', c.address.value).admin == c.admin.value
            && Cw2Is(kv', c.address.value, c.cw2)
            && NewestLegitimate(HistoryOf(kv', c.address.value), codes, attacker)
               == NewestLegitimate(HistoryOf(kv, c.address.value), codes, attacker)
  {
    var addr := c.address.value;
    RestoreCodeKeeps(kv, codes, addr, attacker, now);
    var kv1 := RestoreCode(kv, codes, addr, InfoOf(kv, addr), attacker, now).kv;
    var kv' := RestoreOne(kv, codes, c, attacker, now).kv;
    FinishEffect(kv1, addr, c.cw2, c.admin.value, attacker);
    SameHistory(kv1, kv', addr);
    OutsideBeside(kv, kv1, kv', addr);
  }

  /** A visit writes keys of its own contract only, also when it fails halfway. */
  lemma RestoreOneFrame(kv: KV, codes: Codes, c: ContractRestore, attacker: string, now: TxPosition)
    requires Schema(kv)
    ensures var kv' := RestoreOne(kv, codes, c, attacker, now).kv;
            if c.address.Some? then SameOutside(kv, kv', c.address.value) else kv' == kv
  {
    var r := RestoreOne(kv, codes, c, attacker, now);
    if r.ok {
      RestoreOneKeeps(kv, codes, c, attacker, now);
    } else if c.address.Some? && c.admin.Some? && InfoKey(c.address.value) in kv {
      var addr := c.address.value;
      var code := RestoreCode(kv, codes, addr, InfoOf(kv, addr), attacker, now);
      if code.ok {
        RestoreCodeKeeps(kv, codes, addr, attacker, now);
        OutsideBeside(kv, code.kv, r.kv, addr);
      }
    }
  }

  // ---------- the whole list ----------

  ghost function RestoreAll(kv: KV, codes: Codes, list: seq<ContractRestore>, attacker: string, now: TxPosition): (r: Result)
    requires Schema(kv)
    ensures Schema(r.kv)
    decreases |list|
  {
    if list == [] then Result(true, kv)
    else
      var first := RestoreOne(kv, codes, list[0], attacker, now);
      if !first.ok then first else RestoreAll(first.kv, codes, list[1..], attacker, now)
  }

  ghost predicate Lists(list: seq<ContractRestore>, addr: Bytes) {
    exists c :: c in list && c.address == Some(addr)
  }

  /** Keys of no listed contract are as before. */
  ghost predicate SameElsewhere(kv: KV, kv': KV, list: seq<ContractRestore>) {
    forall k :: (forall c :: c in list && c.address.Some? ==> !Owned(k, c.address.value)) ==> SameAt(kv, kv', k)
  }

  lemma LegitimateStays(h: seq<HistoryEntry>, codes: Codes, attacker: string, now: TxPosition)
    requires NewestLegitimate(h, codes, attacker).Code?
    ensures var id := NewestLegitimate(h, codes, attacker).id;
            && id in codes && codes[id] != attacker
            && NewestLegitimate(h + [MigrationTo(id, now)], codes, attacker) == Code(id)
  {
  }

  /** A restored contract is ready again, with the same target. */
  lemma RestoredIsReady(kv: KV, kv': KV, codes: Codes, addr: Bytes, attacker: string, now: TxPosition)
    requires Schema(kv) && Schema(kv') && CodeRestored(kv, kv', codes, addr, attacker, now)
    ensures Ready(kv', codes, addr, attacker)
    ensures NewestLegitimate(HistoryOf(kv', addr), codes, attacker) == Code(InfoOf(kv', addr).codeID)
  {
    LegitimateStays(HistoryOf(kv, addr), codes, attacker, now);
  }

  lemma CodeRestoredCompose(kv: KV, kv1: KV, kv': KV, codes: Codes, addr: Bytes, attacker: string, now: TxPosition)
    requires Schema(kv) && Schema(kv1) && Schema(kv')
    requires CodeRestored(kv, kv1, codes, addr, attacker, now)
    requires CodeRestored(kv1, kv', codes, addr, attacker, now) || SameView(kv1, kv', addr)
    ensures CodeRestored(kv, kv', codes, addr, attacker, now)
  {
    RestoredIsReady(kv, kv1, codes, addr, attacker, now);
    if SameView(kv1, kv', addr) { ViewDecides(kv1, kv', addr); }
  }

  lemma ElsewhereViews(kv: KV, kv': KV, list: seq<ContractRestore>, addr: Bytes)
    requires SameElsewhere(kv, kv', list) && !Lists(list, addr)
    ensures SameView(kv, kv', addr)
  {
    forall k | Owned(k, addr)
      ensures SameAt(kv, kv', k)
    {
      forall c | c in list && c.address.Some?
        ensures !Owned(k, c.address.value)
      {
        if Owned(k, c.address.value) { OwnerUnique(k, c.address.value, addr); }
      }
    }
  }

  /** On every store, and also when the recovery fails with some writes made, keys of unlisted contracts are untouched. */
  lemma {:induction false} RestoreAllFrame(kv: KV, codes: Codes, list: seq<ContractRestore>, attacker: string, now: TxPosition)
    requires Schema(kv)
    ensures SameElsewhere(kv, RestoreAll(kv, codes, list, attacker, now).kv, list)
    decreases |list|
  {
    if list == [] {
    } else {
      var first := RestoreOne(kv, codes, list[0], attacker, now);
      RestoreOneFrame(kv, codes, list[0], attacker, now);
      if first.ok {
        RestoreAllFrame(first.kv, codes, list[1..], attacker, now);
        FrameGrows(kv, first.kv, RestoreAll(kv, codes, list, attacker, now).kv, list);
      } else {
        assert list[0] in list;
      }
    }
  }

  ghost predicate IsLast(list: seq<ContractRestore>, i: nat) {
    i < |list| && forall j :: i < j < |list| ==> list[j].address != list[i].address
  }

  lemma LastInRest(list: seq<ContractRestore>, i: nat)
    requires list != [] && i > 0
    ensures IsLast(list, i) <==> IsLast(list[1..], i - 1)
  {
    if IsLast(list[1..], i - 1) {
      forall j | i < j < |list|
        ensures list[j].address != list[i].address
      {
        assert list[1..][j - 1].address != list[1..][i - 1].address;
      }
    }
  }

  lemma LastIsUnlisted(list: seq<ContractRestore>)
    requires IsLast(list, 0) && list[0].address.Some?
    ensures !Lists(list[1..], list[0].address.value)
  {
    forall c | c in list[1..]
      ensures c.address != list[0].address
    {
      var j :| 0 <= j < |list[1..]| && list[1..][j] == c;
      assert list[j + 1] == c;
    }
  }

  /** The admin and the cw2 value are those of the listing. */
  ghost predicate HoldsValues(kv: KV, c: ContractRestore)
    requires Schema(kv)
  {
    && c.address.Some? && c.admin.Some? && InfoKey(c.address.value) in kv
    && InfoOf(kv, c.address.value).admin == c.admin.value && Cw2Is(kv, c.address.value, c.cw2)
  }

  /** On every store a successful recovery leaves each contract the admin and the cw2 value of its last listing. */
  lemma {:induction false} RestoreAllValues(kv: KV, codes: Codes, list: seq<ContractRestore>, attacker: string, now: TxPosition, i: nat)
    requires Schema(kv) && RestoreAll(kv, codes, list, attacker, now).ok && IsLast(list, i)
    ensures HoldsValues(RestoreAll(kv, codes, list, attacker, now).kv, list[i])
    decreases |list|
  {
    var kv1 := RestoreOne(kv, codes, list[0], attacker, now).kv;
    var kv' := RestoreAll(kv, codes, list, attacker, now).kv;
    if i == 0 {
      var addr := list[0].address.value;
      RestoreOneKeeps(kv, codes, list[0], attacker, now);
      RestoreAllFrame(kv1, codes, list[1..], attacker, now);
      LastIsUnlisted(list);
      ElsewhereViews(kv1, kv', list[1..], addr);
      ViewDecides(kv1, kv', addr);
    } else {
      LastInRest(list, i);
      RestoreAllValues(kv1, codes, list[1..], attacker, now, i - 1);
    }
  }

  /**
    After a successful recovery every listed contract that was consistent runs the newest code of its
    history that the attacker did not upload, its info, last history entry and single index entry
    agree, and at most one history entry was added.
   */
  lemma {:induction false} RestoreAllCodes(kv: KV, codes: Codes, list: seq<ContractRestore>, attacker: string, now: TxPosition, addr: Bytes)
    requires Schema(kv) && Ready(kv, codes, addr, attacker) && Lists(list, addr)
    requires RestoreAll(kv, codes, list, attacker, now).ok
    ensures CodeRestored(kv, RestoreAll(kv, codes, list, attacker, now).kv, codes, addr, attacker, now)
    decreases |list|
  {
    var kv1 := RestoreOne(kv, codes, list[0], attacker, now).kv;
    var kv' := RestoreAll(kv, codes, list, attacker, now).kv;
    RestoreAllFrame(kv1, codes, list[1..], attacker, now);
    if list[0].address == Some(addr) {
      RestoreOneEffect(kv, codes, list[0], attacker, now);
      RestoredIsReady(kv, kv1, codes, addr, attacker, now);
      if Lists(list[1..], addr) {
        RestoreAllCodes(kv1, codes, list[1..], attacker, now, addr);
      } else {
        ElsewhereViews(kv1, kv', list[1..], addr);
      }
      CodeRestoredCompose(kv, kv1, kv', codes, addr, attacker, now);
    } else {
      RestoreOneFrame(kv, codes, list[0], attacker, now);
      OtherContractsUntouched(kv, kv1, list[0].address.value, addr);
      ViewDecides(kv, kv1, addr);
      ListedInRest(list, addr);
      RestoreAllCodes(kv1, codes, list[1..], attacker, now, addr);
    }
  }

  lemma ListedInRest(list: seq<ContractRestore>, addr: Bytes)
    requires list != [] && Lists(list, addr) && list[0].address != Some(addr)
    ensures Lists(list[1..], addr)
  {
    var c :| c in list && c.address == Some(addr);
    assert c in list[1..];
  }

  /** Both together, for the last listing of a contract that was consistent. */
  lemma RestoreAllRestores(kv: KV, codes: Codes, list: seq<ContractRestore>, attacker: string, now: TxPosition, i: nat)
    requires Schema(kv) && RestoreAll(kv, codes, list, attacker, now).ok && IsLast(list, i)
    requires list[i].address.Some? ==> Ready(kv, codes, list[i].address.value, attacker)
    ensures Restored(kv, RestoreAll(kv, codes, list, attacker, now).kv, codes, list[i], attacker, now)
  {
    RestoreAllValues(kv, codes, list, attacker, now, i);
    assert list[i] in list && Lists(list, list[i].address.value);
    RestoreAllCodes(kv, codes, list, attacker, now, list[i].address.value);
  }

  lemma FrameGrows(kv: KV, kv1: KV, kv': KV, list: seq<ContractRestore>)
    requires list != [] && list[0].address.Some? && SameOutside(kv, kv1, list[0].address.value)
    requires SameElsewhere(kv1, kv', list[1..])
    ensures SameElsewhere(kv, kv', list)
  {
    forall k | forall c :: c in list && c.address.Some? ==> !Owned(k, c.address.value)
      ensures SameAt(kv, kv', k)
    {
      assert list[0] in list;
      assert SameAt(kv, kv1, k);
      assert forall c :: c in list[1..] ==> c in list;
      assert SameAt(kv1, kv', k);
    }
  }

  // ---------- when the recovery succeeds ----------

  ghost predicate Restorable(kv: KV, codes: Codes, c: ContractRestore, attacker: string)
    requires Schema(kv)
  {
    && c.address.Some? && c.admin.Some? && InfoKey(c.address.value) in kv
    && NewestLegitimate(HistoryOf(kv, c.address.value), codes, attacker).Code?
    && (InfoOf(kv, c.address.value).admin == c.admin.value || InfoOf(kv, c.address.value).admin == attacker)
  }

  /** A later listing of a contract finds the admin of an earlier one, which must be its own or the attacker. */
  ghost predicate Follows(c: ContractRestore, later: ContractRestore, attacker: string) {
    c.address == later.address ==> c.admin == later.admin || c.admin == Some(attacker)
  }

  ghost predicate Compatible(list: seq<ContractRestore>, attacker: string) {
    forall i, j :: 0 <= i < j < |list| ==> Follows(list[i], list[j], attacker)
  }

  lemma CompatibleFirst(list: seq<ContractRestore>, attacker: string)
    requires list != []
    ensures Compatible(list, attacker)
            <==> Compatible(list[1..], attacker) && forall c :: c in list[1..] ==> Follows(list[0], c, attacker)
  {
    var rest := list[1..];
    if Compatible(list, attacker) {
      forall i, j | 0 <= i < j < |rest|
        ensures Follows(rest[i], rest[j], attacker)
      {
        assert Follows(list[i + 1], list[j + 1], attacker);
      }
    }
    if Compatible(rest, attacker) && forall c :: c in rest ==> Follows(list[0], c, attacker) {
      forall i, j | 0 <= i < j < |list|
        ensures Follows(list[i], list[j], attacker)
      {
        assert list[j] == rest[j - 1];
        if i > 0 { assert Follows(rest[i - 1], rest[j - 1], attacker); }
      }
    }
  }

  lemma RestorableAfter(kv: KV, codes: Codes, first: ContractRestore, c: ContractRestore, attacker: string, now: TxPosition)
    requires Schema(kv) && RestoreOne(kv, codes, first, attacker, now).ok
    ensures Restorable(RestoreOne(kv, codes, first, attacker, now).kv, codes, c, attacker)
            <==> Restorable(kv, codes, c, attacker) && Follows(first, c, attacker)
  {
    var kv1 := RestoreOne(kv, codes, first, attacker, now).kv;
    RestoreOneKeeps(kv, codes, first, attacker, now);
    if c.address != first.address && c.address.Some? {
      OtherContractsUntouched(kv, kv1, first.address.value, c.address.value);
      ViewDecides(kv, kv1, c.address.value);
    }
  }

  /**
    The recovery succeeds if and only if each listed contract exists, has a code the attacker did
    not upload before any unknown one, and is administered by the attacker or already by its listed
    admin, and contracts listed twice are listed compatibly.
   */
  lemma {:induction false} RestoreSucceedsIff(kv: KV, codes: Codes, list: seq<ContractRestore>, attacker: string, now: TxPosition)
    requires Schema(kv)
    ensures RestoreAll(kv, codes, list, attacker, now).ok
            <==> Compatible(list, attacker) && forall c :: c in list ==> Restorable(kv, codes, c, attacker)
    decreases |list|
  {
    if list == [] {
    } else {
      assert list[0] in list;
      assert RestoreOne(kv, codes, list[0], attacker, now).ok <==> Restorable(kv, codes, list[0], attacker);
      if RestoreOne(kv, codes, list[0], attacker, now).ok {
        var kv1 := RestoreOne(kv, codes, list[0], attacker, now).kv;
        RestoreSucceedsIff(kv1, codes, list[1..], attacker, now);
        CompatibleFirst(list, attacker);
        forall c | c in list[1..]
          ensures Restorable(kv1, codes, c, attacker)
                  <==> Restorable(kv, codes, c, attacker) && Follows(list[0], c, attacker)
        {
          RestorableAfter(kv, codes, list[0], c, attacker, now);
        }
        assert forall c :: c in list <==> c == list[0] || c in list[1..];
      }
    }
  }
}
