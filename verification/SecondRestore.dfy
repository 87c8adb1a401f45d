/**
  The recovery of app/restore_contract_admins.go run twice: when a second run finds nothing left to
  do, on every store and for every list.
 */
module SecondRestore {
  import opened Prelude
  import opened ByteOrder
  import opened WasmStore
  import opened Restore

  // ---------- what a visit finds of the code ----------

  /** The last history entry has the newest legitimate code, so that no entry is needed. */
  ghost predicate Current(kv: KV, codes: Codes, addr: Bytes, attacker: string)
    requires Schema(kv)
  {
    var h := HistoryOf(kv, addr);
    h != [] && NewestLegitimate(h, codes, attacker) == Code(h[|h| - 1].codeID)
  }

  /** An entry is needed, and the positions are used up: it goes to position 0 and never becomes the last. */
  ghost predicate Stuck(kv: KV, codes: Codes, addr: Bytes, attacker: string)
    requires Schema(kv)
  {
    !Current(kv, codes, addr, attacker) && TWO_64 - 1 in Positions(kv, addr)
  }

  /** The writes of a visit at the given position are all there already. */
  ghost predicate Carried(kv: KV, codes: Codes, addr: Bytes, attacker: string, at: TxPosition)
    requires Schema(kv)
  {
    var h := HistoryOf(kv, addr);
    && h != [] && Positions(kv, addr) != {} && InfoKey(addr) in kv
    && NewestLegitimate(h, codes, attacker) == Code(InfoOf(kv, addr).codeID)
    && var e := MigrationTo(InfoOf(kv, addr).codeID, at);
       var key := HistoryKey(addr, Add64(MaxOf(Positions(kv, addr)), 1));
       && IndexOf(addr, h[|h| - 1]) !in kv
       && key in kv && kv[key] == EntryValue(e)
       && IndexOf(addr, e) in kv && kv[IndexOf(addr, e)] == EmptyValue
  }

  ghost predicate Quiet(kv: KV, codes: Codes, addr: Bytes, attacker: string, at: TxPosition)
    requires Schema(kv)
  {
    Current(kv, codes, addr, attacker) || Carried(kv, codes, addr, attacker, at)
  }

  lemma QuietVisit(kv: KV, codes: Codes, addr: Bytes, attacker: string, at: TxPosition)
    requires Schema(kv) && InfoKey(addr) in kv && Quiet(kv, codes, addr, attacker, at)
    ensures RestoreCode(kv, codes, addr, InfoOf(kv, addr), attacker, at) == Result(true, kv)
  {
    if !Current(kv, codes, addr, attacker) {
      var h, info := HistoryOf(kv, addr), InfoOf(kv, addr);
      var kv' := Rewrite(kv, addr, info, h[|h| - 1], MaxOf(Positions(kv, addr)), MigrationTo(info.codeID, at));
      assert forall k :: SameAt(kv, kv', k);
      SameEverywhere(kv, kv');
    }
  }

  lemma SameEverywhere(kv: KV, kv': KV)
    requires forall k :: SameAt(kv, kv', k)
    ensures kv == kv'
  {
    forall k
      ensures (k in kv <==> k in kv') && (k in kv ==> kv[k] == kv'[k])
    {
      assert SameAt(kv, kv', k);
    }
    assert kv.Keys == kv'.Keys;
  }

  /** Writing cw2 values and admins leaves this as it is. */
  lemma QuietBeside(kv: KV, kv': KV, codes: Codes, addr: Bytes, attacker: string, at: TxPosition)
    requires Schema(kv) && Schema(kv') && SameBeside(kv, kv', addr) && InfoKey(addr) in kv && InfoKey(addr) in kv'
    requires InfoOf(kv, addr).codeID == InfoOf(kv', addr).codeID
    ensures Current(kv, codes, addr, attacker) <==> Current(kv', codes, addr, attacker)
    ensures Stuck(kv, codes, addr, attacker) <==> Stuck(kv', codes, addr, attacker)
    ensures Carried(kv, codes, addr, attacker, at) <==> Carried(kv', codes, addr, attacker, at)
  {
    SameHistory(kv, kv', addr);
    forall k | k != InfoKey(addr) && k != Cw2Key(addr)
      ensures SameAt(kv', kv, k)
    {
      assert SameAt(kv, kv', k);
    }
    if Carried(kv, codes, addr, attacker, at) { SameCarried(kv, kv', codes, addr, attacker, at); }
    if Carried(kv', codes, addr, attacker, at) { SameCarried(kv', kv, codes, addr, attacker, at); }
  }

  lemma SameCarried(kv: KV, kv': KV, codes: Codes, addr: Bytes, attacker: string, at: TxPosition)
    requires Schema(kv) && Schema(kv') && Carried(kv, codes, addr, attacker, at)
    requires HistoryOf(kv, addr) == HistoryOf(kv', addr) && Positions(kv, addr) == Positions(kv', addr)
    requires forall k :: Owned(k, addr) && !k.InfoKey? && !k.StorageKey? ==> SameAt(kv, kv', k)
    requires InfoKey(addr) in kv && InfoKey(addr) in kv' && InfoOf(kv, addr).codeID == InfoOf(kv', addr).codeID
    ensures Carried(kv', codes, addr, attacker, at)
  {
    var h := HistoryOf(kv, addr);
    var e := MigrationTo(InfoOf(kv, addr).codeID, at);
    assert SameAt(kv, kv', IndexOf(addr, h[|h| - 1])) && SameAt(kv, kv', IndexOf(addr, e));
    assert SameAt(kv, kv', HistoryKey(addr, Add64(MaxOf(Positions(kv, addr)), 1)));
  }

  lemma QuietSeen(kv: KV, kv': KV, codes: Codes, addr: Bytes, attacker: string, at: TxPosition)
    requires Schema(kv) && Schema(kv') && SameView(kv, kv', addr)
    ensures Current(kv, codes, addr, attacker) <==> Current(kv', codes, addr, attacker)
    ensures Stuck(kv, codes, addr, attacker) <==> Stuck(kv', codes, addr, attacker)
    ensures Carried(kv, codes, addr, attacker, at) <==> Carried(kv', codes, addr, attacker, at)
  {
    ViewDecides(kv, kv', addr);
    if Carried(kv, codes, addr, attacker, at) { SameCarried(kv, kv', codes, addr, attacker, at); }
    if Carried(kv', codes, addr, attacker, at) { SameCarried(kv', kv, codes, addr, attacker, at); }
  }

  // ---------- what a visit leaves ----------

  /** After a visit at now: nothing left to do at now, and nothing at other positions unless the history is stuck. */
  ghost predicate Visited(kv: KV, kv': KV, codes: Codes, addr: Bytes, attacker: string, now: TxPosition, later: TxPosition)
    requires Schema(kv) && Schema(kv')
  {
    && (Stuck(kv', codes, addr, attacker) <==> Stuck(kv, codes, addr, attacker))
    && Quiet(kv', codes, addr, attacker, now)
    && (Quiet(kv', codes, addr, attacker, later) <==> later == now || !Stuck(kv, codes, addr, attacker))
  }

  lemma ListingLast(m: map<uint64, HistoryEntry>)
    requires m.Keys != {}
    ensures Listing(m) != [] && Listing(m)[|Listing(m)| - 1] == m[MaxOf(m.Keys)]
  {
  }

  lemma CodeVisited(kv: KV, codes: Codes, addr: Bytes, attacker: string, now: TxPosition, later: TxPosition)
    requires Schema(kv) && InfoKey(addr) in kv
    requires RestoreCode(kv, codes, addr, InfoOf(kv, addr), attacker, now).ok
    ensures var kv' := RestoreCode(kv, codes, addr, InfoOf(kv, addr), attacker, now).kv;
            Schema(kv') && Visited(kv, kv', codes, addr, attacker, now, later)
  {
    if Current(kv, codes, addr, attacker) {
    } else {
      var h := HistoryOf(kv, addr);
      assert HistoryMap(kv, addr).Keys == Positions(kv, addr);
      EntryVisited(kv, codes, addr, attacker, h[|h| - 1], MaxOf(Positions(kv, addr)),
                   NewestLegitimate(h, codes, attacker).id, now, later);
    }
  }

  lemma EntryVisited(kv: KV, codes: Codes, addr: Bytes, attacker: string, last: HistoryEntry, pos: uint64, id: uint64,
                     now: TxPosition, later: TxPosition)
    requires Schema(kv) && InfoKey(addr) in kv && Positions(kv, addr) != {} && pos == MaxOf(Positions(kv, addr))
    requires var h := HistoryOf(kv, addr);
             h != [] && last == h[|h| - 1] && last.codeID != id && NewestLegitimate(h, codes, attacker) == Code(id)
    ensures var kv' := Rewrite(kv, addr, InfoOf(kv, addr), last, pos, MigrationTo(id, now));
            Schema(kv') && Visited(kv, kv', codes, addr, attacker, now, later)
  {
    var e := MigrationTo(id, now);
    var kv' := Rewrite(kv, addr, InfoOf(kv, addr), last, pos, e);
    EntryAdded(kv, codes, addr, attacker, last, pos, e);
    if pos == TWO_64 - 1 {
      CarriedAfter(kv, kv', codes, addr, attacker, last, pos, id, now, later);
    }
  }

  /** The new entry becomes the last one unless its position wraps to 0; the newest legitimate code stays. */
  lemma EntryAdded(kv: KV, codes: Codes, addr: Bytes, attacker: string, last: HistoryEntry, pos: uint64, e: HistoryEntry)
    requires Schema(kv) && InfoKey(addr) in kv && Positions(kv, addr) != {} && pos == MaxOf(Positions(kv, addr))
    requires var h := HistoryOf(kv, addr);
             h != [] && last == h[|h| - 1] && NewestLegitimate(h, codes, attacker) == Code(e.codeID)
    ensures var kv' := Rewrite(kv, addr, InfoOf(kv, addr), last, pos, e);
            && Schema(kv') && Positions(kv', addr) == Positions(kv, addr) + {Add64(pos, 1)}
            && var h' := HistoryOf(kv', addr);
               && h' != [] && h'[|h'| - 1] == (if pos < TWO_64 - 1 then e else last)
               && NewestLegitimate(h', codes, attacker) == Code(e.codeID)
  {
    var m, at := HistoryMap(kv, addr), Add64(pos, 1);
    RewriteHistoryMap(kv, addr, InfoOf(kv, addr), last, pos, e);
    InsertLegitimate(m, at, e, codes, attacker);
    var kv' := Rewrite(kv, addr, InfoOf(kv, addr), last, pos, e);
    assert m.Keys == Positions(kv, addr) && HistoryMap(kv', addr).Keys == Positions(kv', addr);
    ListingLast(m);
    EntryIsLast(m, pos, e);
  }

  lemma EntryIsLast(m: map<uint64, HistoryEntry>, pos: uint64, e: HistoryEntry)
    requires m.Keys != {} && pos == MaxOf(m.Keys)
    ensures var h := Listing(m[Add64(pos, 1) := e]);
            h != [] && h[|h| - 1] == if pos < TWO_64 - 1 then e else m[pos]
  {
    var m' := m[Add64(pos, 1) := e];
    assert pos in m'.Keys && Add64(pos, 1) in m'.Keys;
    assert MaxOf(m'.Keys) == if pos < TWO_64 - 1 then pos + 1 else pos;
    ListingLast(m');
  }

  /** A wrapped entry is carried at its own position and at no other. */
  lemma CarriedAfter(kv: KV, kv': KV, codes: Codes, addr: Bytes, attacker: string, last: HistoryEntry, pos: uint64, id: uint64,
                     now: TxPosition, later: TxPosition)
    requires Schema(kv) && Schema(kv') && InfoKey(addr) in kv && last.codeID != id
    requires kv' == Rewrite(kv, addr, InfoOf(kv, addr), last, pos, MigrationTo(id, now))
    requires Positions(kv', addr) != {} && MaxOf(Positions(kv', addr)) == pos
    requires var h := HistoryOf(kv', addr);
             h != [] && h[|h| - 1] == last && NewestLegitimate(h, codes, attacker) == Code(id)
    ensures Carried(kv', codes, addr, attacker, now)
    ensures Carried(kv', codes, addr, attacker, later) ==> later == now
  {
    assert InfoOf(kv', addr).codeID == id;
    assert kv'[HistoryKey(addr, Add64(pos, 1))] == EntryValue(MigrationTo(id, now));
  }

  lemma OneVisited(kv: KV, codes: Codes, c: ContractRestore, attacker: string, now: TxPosition, later: TxPosition)
    requires Schema(kv) && RestoreOne(kv, codes, c, attacker, now).ok
    ensures Visited(kv, RestoreOne(kv, codes, c, attacker, now).kv, codes, c.address.value, attacker, now, later)
  {
    var addr := c.address.value;
    CodeVisited(kv, codes, addr, attacker, now, later);
    RestoreCodeKeeps(kv, codes, addr, attacker, now);
    var kv1 := RestoreCode(kv, codes, addr, InfoOf(kv, addr), attacker, now).kv;
    var kv' := RestoreOne(kv, codes, c, attacker, now).kv;
    FinishEffect(kv1, addr, c.cw2, c.admin.value, attacker);
    QuietBeside(kv1, kv', codes, addr, attacker, now);
    QuietBeside(kv1, kv', codes, addr, attacker, later);
  }

  lemma VisitedSeen(kv: KV, kv1: KV, kv': KV, codes: Codes, addr: Bytes, attacker: string, now: TxPosition, later: TxPosition)
    requires Schema(kv) && Schema(kv1) && Schema(kv')
    requires || (SameView(kv, kv1, addr) && Visited(kv1, kv', codes, addr, attacker, now, later))
             || (Visited(kv, kv1, codes, addr, attacker, now, later) && SameView(kv1, kv', addr))
             || (Visited(kv, kv1, codes, addr, attacker, now, later) && Visited(kv1, kv', codes, addr, attacker, now, later))
    ensures Visited(kv, kv', codes, addr, attacker, now, later)
  {
    if SameView(kv, kv1, addr) { QuietSeen(kv, kv1, codes, addr, attacker, now); }
    if SameView(kv1, kv', addr) {
      QuietSeen(kv1, kv', codes, addr, attacker, now);
      QuietSeen(kv1, kv', codes, addr, attacker, later);
    }
  }

  lemma {:induction false} AllVisited(kv: KV, codes: Codes, list: seq<ContractRestore>, attacker: string, now: TxPosition, later: TxPosition, addr: Bytes)
    requires Schema(kv) && Lists(list, addr) && RestoreAll(kv, codes, list, attacker, now).ok
    ensures Visited(kv, RestoreAll(kv, codes, list, attacker, now).kv, codes, addr, attacker, now, later)
    decreases |list|
  {
    var kv1 := RestoreOne(kv, codes, list[0], attacker, now).kv;
    var kv' := RestoreAll(kv, codes, list, attacker, now).kv;
    if list[0].address == Some(addr) {
      OneVisited(kv, codes, list[0], attacker, now, later);
    } else {
      RestoreOneFrame(kv, codes, list[0], attacker, now);
      OtherContractsUntouched(kv, kv1, list[0].address.value, addr);
      ListedInRest(list, addr);
    }
    if Lists(list[1..], addr) {
      AllVisited(kv1, codes, list[1..], attacker, now, later, addr);
    } else {
      RestoreAllFrame(kv1, codes, list[1..], attacker, now);
      ElsewhereViews(kv1, kv', list[1..], addr);
    }
    VisitedSeen(kv, kv1, kv', codes, addr, attacker, now, later);
  }

  // ---------- a run over contracts with nothing left to do ----------

  /** Every listing of a contract names one admin. */
  ghost predicate SameAdmins(list: seq<ContractRestore>) {
    forall c, d :: c in list && d in list && c.address == d.address ==> c.admin == d.admin
  }

  /** A visit that finds code and admin in place only writes the cw2 value. */
  ghost predicate Settled(kv: KV, codes: Codes, c: ContractRestore, attacker: string, at: TxPosition)
    requires Schema(kv)
  {
    && c.address.Some? && c.admin.Some? && InfoKey(c.address.value) in kv
    && Quiet(kv, codes, c.address.value, attacker, at)
    && InfoOf(kv, c.address.value).admin == c.admin.value
  }

  function WriteCw2(kv: KV, c: ContractRestore): KV {
    if c.address.None? then kv else SetCw2(kv, c.address.value, c.cw2)
  }

  lemma SettledVisit(kv: KV, codes: Codes, c: ContractRestore, attacker: string, later: TxPosition)
    requires Schema(kv) && Settled(kv, codes, c, attacker, later)
    ensures RestoreOne(kv, codes, c, attacker, later) == Result(true, WriteCw2(kv, c))
  {
    QuietVisit(kv, codes, c.address.value, attacker, later);
  }

  lemma SettledStays(kv: KV, codes: Codes, c: ContractRestore, d: ContractRestore, attacker: string, at: TxPosition)
    requires Schema(kv) && Settled(kv, codes, d, attacker, at)
    ensures Schema(WriteCw2(kv, c)) && Settled(WriteCw2(kv, c), codes, d, attacker, at)
  {
    var kv' := WriteCw2(kv, c);
    if c.address == d.address {
      QuietBeside(kv, kv', codes, d.address.value, attacker, at);
    } else if c.address.Some? {
      OtherContractsUntouched(kv, kv', c.address.value, d.address.value);
      ViewDecides(kv, kv', d.address.value);
      QuietSeen(kv, kv', codes, d.address.value, attacker, at);
    }
  }

  /** Only cw2 values of listed contracts differ between the two stores. */
  ghost predicate DifferInCw2(kv: KV, kv': KV, list: seq<ContractRestore>) {
    forall k :: SameAt(kv, kv', k) || exists c :: c in list && c.address.Some? && k == Cw2Key(c.address.value)
  }

  predicate HoldsCw2(kv: KV, c: ContractRestore) {
    c.address.Some? ==> Cw2Is(kv, c.address.value, c.cw2)
  }

  ghost predicate HoldsLastCw2(kv: KV, list: seq<ContractRestore>) {
    forall i: nat :: IsLast(list, i) ==> HoldsCw2(kv, list[i])
  }

  /** Both stores hold a cw2 value for the same listed contracts, and the others are listed without one. */
  ghost predicate SamePresence(kv: KV, kv': KV, list: seq<ContractRestore>) {
    forall c :: c in list && c.address.Some? ==>
                  && (Cw2Key(c.address.value) in kv <==> Cw2Key(c.address.value) in kv')
                  && (Cw2Key(c.address.value) in kv' || c.cw2 == "")
  }

  lemma LastCw2InRest(kv: KV, list: seq<ContractRestore>)
    requires list != [] && HoldsLastCw2(kv, list)
    ensures HoldsLastCw2(kv, list[1..])
  {
    forall i: nat | IsLast(list[1..], i)
      ensures HoldsCw2(kv, list[1..][i])
    {
      LastInRest(list, i + 1);
      assert HoldsCw2(kv, list[i + 1]);
    }
  }

  lemma WriteApproaches(kv: KV, kv': KV, list: seq<ContractRestore>)
    requires list != [] && list[0].address.Some? && DifferInCw2(kv, kv', list) && HoldsLastCw2(kv', list)
    requires SamePresence(kv, kv', list)
    ensures DifferInCw2(WriteCw2(kv, list[0]), kv', list[1..])
    ensures SamePresence(WriteCw2(kv, list[0]), kv', list[1..])
  {
    var kv1, addr := WriteCw2(kv, list[0]), list[0].address.value;
    assert list[0] in list && forall c :: c in list[1..] ==> c in list;
    assert forall k :: k in kv1 <==> k in kv;
    forall k
      ensures SameAt(kv1, kv', k) || exists c :: c in list[1..] && c.address.Some? && k == Cw2Key(c.address.value)
    {
      if k == Cw2Key(addr) {
        if IsLast(list, 0) {
          assert HoldsCw2(kv', list[0]);
        } else {
          var j :| 0 < j < |list| && list[j].address == list[0].address;
          assert list[j] == list[1..][j - 1];
        }
      } else if !SameAt(kv, kv', k) {
        var c :| c in list && c.address.Some? && k == Cw2Key(c.address.value);
        assert c in list[1..];
      }
    }
  }

  /** A run over settled contracts writes cw2 values until each holds its last listing. */
  lemma {:induction false} SettledRun(kv: KV, kv': KV, codes: Codes, list: seq<ContractRestore>, attacker: string, later: TxPosition)
    requires Schema(kv) && DifferInCw2(kv, kv', list) && HoldsLastCw2(kv', list) && SamePresence(kv, kv', list)
    requires forall c :: c in list ==> Settled(kv, codes, c, attacker, later)
    ensures RestoreAll(kv, codes, list, attacker, later) == Result(true, kv')
    decreases |list|
  {
    if list == [] {
      SameEverywhere(kv, kv');
    } else {
      assert list[0] in list;
      SettledVisit(kv, codes, list[0], attacker, later);
      forall c | c in list[1..]
        ensures Schema(WriteCw2(kv, list[0])) && Settled(WriteCw2(kv, list[0]), codes, c, attacker, later)
      {
        SettledStays(kv, codes, list[0], c, attacker, later);
      }
      SettledStays(kv, codes, list[0], list[0], attacker, later);
      LastCw2InRest(kv', list);
      WriteApproaches(kv, kv', list);
      SettledRun(WriteCw2(kv, list[0]), kv', codes, list[1..], attacker, later);
    }
  }

  // ---------- admins ----------

  /** An admin other than the attacker is never replaced, and whoever lists the contract must list that admin. */
  lemma {:induction false} AdminSticks(kv: KV, codes: Codes, list: seq<ContractRestore>, attacker: string, now: TxPosition, addr: Bytes)
    requires Schema(kv) && InfoKey(addr) in kv
    requires RestoreAll(kv, codes, list, attacker, now).ok && InfoOf(kv, addr).admin != attacker
    ensures var kv' := RestoreAll(kv, codes, list, attacker, now).kv;
            InfoKey(addr) in kv' && InfoOf(kv', addr).admin == InfoOf(kv, addr).admin
    ensures forall c :: c in list && c.address == Some(addr) ==> c.admin == Some(InfoOf(kv, addr).admin)
    decreases |list|
  {
    if list == [] {
    } else {
      var kv1 := RestoreOne(kv, codes, list[0], attacker, now).kv;
      RestoreOneKeeps(kv, codes, list[0], attacker, now);
      if list[0].address != Some(addr) {
        OtherContractsUntouched(kv, kv1, list[0].address.value, addr);
        ViewDecides(kv, kv1, addr);
      }
      AdminSticks(kv1, codes, list[1..], attacker, now, addr);
      assert forall c :: c in list <==> c == list[0] || c in list[1..];
    }
  }

  /** Contract info is never removed. */
  lemma {:induction false} InfoStays(kv: KV, codes: Codes, list: seq<ContractRestore>, attacker: string, now: TxPosition, addr: Bytes)
    requires Schema(kv) && InfoKey(addr) in kv
    ensures InfoKey(addr) in RestoreAll(kv, codes, list, attacker, now).kv
    decreases |list|
  {
    if list == [] {
    } else if RestoreOne(kv, codes, list[0], attacker, now).ok {
      InfoStays(RestoreOne(kv, codes, list[0], attacker, now).kv, codes, list[1..], attacker, now, addr);
    }
  }

  /** A contract left to the attacker was listed with no other admin. */
  lemma {:induction false} LeftToAttacker(kv: KV, codes: Codes, list: seq<ContractRestore>, attacker: string, now: TxPosition, c: ContractRestore)
    requires Schema(kv) && c in list && RestoreAll(kv, codes, list, attacker, now).ok
    ensures c.address.Some? && c.admin.Some? && InfoKey(c.address.value) in RestoreAll(kv, codes, list, attacker, now).kv
    ensures var kv' := RestoreAll(kv, codes, list, attacker, now).kv;
            InfoOf(kv', c.address.value).admin == attacker ==> c.admin.value == attacker
    decreases |list|
  {
    var kv1 := RestoreOne(kv, codes, list[0], attacker, now).kv;
    if c == list[0] {
      RestoreOneKeeps(kv, codes, c, attacker, now);
      InfoStays(kv1, codes, list[1..], attacker, now, c.address.value);
      if c.admin.value != attacker { AdminSticks(kv1, codes, list[1..], attacker, now, c.address.value); }
    } else {
      LeftToAttacker(kv1, codes, list[1..], attacker, now, c);
    }
  }

  /** No cw2 value is ever removed. */
  lemma {:induction false} PresentStays(kv: KV, codes: Codes, list: seq<ContractRestore>, attacker: string, now: TxPosition, addr: Bytes)
    requires Schema(kv) && Cw2Key(addr) in kv
    ensures Cw2Key(addr) in RestoreAll(kv, codes, list, attacker, now).kv
    decreases |list|
  {
    if list == [] {
    } else if RestoreOne(kv, codes, list[0], attacker, now).ok {
      PresentStays(RestoreOne(kv, codes, list[0], attacker, now).kv, codes, list[1..], attacker, now, addr);
    }
  }

  /** A contract listed with a cw2 value has one afterwards. */
  lemma {:induction false} ListedIsPresent(kv: KV, codes: Codes, list: seq<ContractRestore>, attacker: string, now: TxPosition, c: ContractRestore)
    requires Schema(kv) && c in list && RestoreAll(kv, codes, list, attacker, now).ok
    ensures c.address.Some? && (Cw2Key(c.address.value) in RestoreAll(kv, codes, list, attacker, now).kv || c.cw2 == "")
    decreases |list|
  {
    var kv1 := RestoreOne(kv, codes, list[0], attacker, now).kv;
    if c == list[0] {
      if Cw2Key(c.address.value) in kv1 { PresentStays(kv1, codes, list[1..], attacker, now, c.address.value); }
    } else {
      ListedIsPresent(kv1, codes, list[1..], attacker, now, c);
    }
  }

  lemma LastListing(list: seq<ContractRestore>, i: nat) returns (last: nat)
    requires i < |list|
    ensures IsLast(list, last) && list[last].address == list[i].address
    decreases |list| - i
  {
    if IsLast(list, i) {
      last := i;
    } else {
      var j :| i < j < |list| && list[j].address == list[i].address;
      last := LastListing(list, j);
    }
  }

  // ---------- the second run ----------

  /** No listed contract needs an entry that its history has no position for. */
  ghost predicate NoneStuck(kv: KV, codes: Codes, list: seq<ContractRestore>, attacker: string)
    requires Schema(kv)
  {
    forall addr :: Lists(list, addr) ==> !Stuck(kv, codes, addr, attacker)
  }

  /**
    On every store, after a successful recovery, running it again succeeds and changes nothing if and
    only if no contract is listed with two admins and, at another position, no history is stuck.
   */
  lemma RestoreAllIdempotentIff(kv: KV, codes: Codes, list: seq<ContractRestore>, attacker: string, now: TxPosition, later: TxPosition)
    requires Schema(kv) && RestoreAll(kv, codes, list, attacker, now).ok
    ensures var kv' := RestoreAll(kv, codes, list, attacker, now).kv;
            RestoreAll(kv', codes, list, attacker, later) == Result(true, kv')
            <==> SameAdmins(list) && (later == now || NoneStuck(kv, codes, list, attacker))
  {
    var kv' := RestoreAll(kv, codes, list, attacker, now).kv;
    if SameAdmins(list) && (later == now || NoneStuck(kv, codes, list, attacker)) {
      SecondRunChangesNothing(kv, codes, list, attacker, now, later);
    }
    if RestoreAll(kv', codes, list, attacker, later) == Result(true, kv') {
      SecondRunAgrees(kv, codes, list, attacker, now, later);
      UnchangedIsNotStuck(kv, codes, list, attacker, now, later);
    }
  }

  /** A second run that succeeds finds every contract with the admin of each of its listings. */
  lemma SecondRunAgrees(kv: KV, codes: Codes, list: seq<ContractRestore>, attacker: string, now: TxPosition, later: TxPosition)
    requires Schema(kv) && RestoreAll(kv, codes, list, attacker, now).ok
    requires RestoreAll(RestoreAll(kv, codes, list, attacker, now).kv, codes, list, attacker, later).ok
    ensures SameAdmins(list)
  {
    var kv' := RestoreAll(kv, codes, list, attacker, now).kv;
    forall c | c in list
      ensures c.address.Some? && InfoKey(c.address.value) in kv' && c.admin == Some(InfoOf(kv', c.address.value).admin)
    {
      LeftToAttacker(kv, codes, list, attacker, now, c);
      if InfoOf(kv', c.address.value).admin != attacker {
        AdminSticks(kv', codes, list, attacker, later, c.address.value);
      }
    }
  }

  /** A second run at another position leaves its own position in a stuck history. */
  lemma UnchangedIsNotStuck(kv: KV, codes: Codes, list: seq<ContractRestore>, attacker: string, now: TxPosition, later: TxPosition)
    requires Schema(kv) && RestoreAll(kv, codes, list, attacker, now).ok
    requires RestoreAll(RestoreAll(kv, codes, list, attacker, now).kv, codes, list, attacker, later)
             == Result(true, RestoreAll(kv, codes, list, attacker, now).kv)
    ensures later == now || NoneStuck(kv, codes, list, attacker)
  {
    var kv' := RestoreAll(kv, codes, list, attacker, now).kv;
    forall addr | Lists(list, addr)
      ensures later == now || !Stuck(kv, codes, addr, attacker)
    {
      AllVisited(kv, codes, list, attacker, now, later, addr);
      AllVisited(kv', codes, list, attacker, later, later, addr);
    }
  }

  lemma SettledAfterRun(kv: KV, codes: Codes, list: seq<ContractRestore>, attacker: string, now: TxPosition, later: TxPosition, i: nat)
    requires Schema(kv) && RestoreAll(kv, codes, list, attacker, now).ok && IsLast(list, i)
    requires later == now || NoneStuck(kv, codes, list, attacker)
    ensures var kv' := RestoreAll(kv, codes, list, attacker, now).kv;
            Settled(kv', codes, list[i], attacker, later) && HoldsCw2(kv', list[i])
  {
    RestoreAllValues(kv, codes, list, attacker, now, i);
    assert list[i] in list && Lists(list, list[i].address.value);
    AllVisited(kv, codes, list, attacker, now, later, list[i].address.value);
  }

  lemma SecondRunChangesNothing(kv: KV, codes: Codes, list: seq<ContractRestore>, attacker: string, now: TxPosition, later: TxPosition)
    requires Schema(kv) && RestoreAll(kv, codes, list, attacker, now).ok
    requires SameAdmins(list) && (later == now || NoneStuck(kv, codes, list, attacker))
    ensures var kv' := RestoreAll(kv, codes, list, attacker, now).kv;
            RestoreAll(kv', codes, list, attacker, later) == Result(true, kv')
  {
    var kv' := RestoreAll(kv, codes, list, attacker, now).kv;
    forall i: nat | IsLast(list, i)
      ensures Settled(kv', codes, list[i], attacker, later) && HoldsCw2(kv', list[i])
    {
      SettledAfterRun(kv, codes, list, attacker, now, later, i);
    }
    forall c | c in list
      ensures Settled(kv', codes, c, attacker, later)
    {
      var i :| 0 <= i < |list| && list[i] == c;
      var last := LastListing(list, i);
      assert list[last] in list && Settled(kv', codes, list[last], attacker, later);
    }
    forall c | c in list && c.address.Some?
      ensures Cw2Key(c.address.value) in kv' || c.cw2 == ""
    {
      ListedIsPresent(kv, codes, list, attacker, now, c);
    }
    SettledRun(kv', kv', codes, list, attacker, later);
  }

  /** A contract listed first with the attacker and then with its admin is restored once and refused the second time. */
  lemma TwoAdminsRefusedLater(kv: KV, codes: Codes, c: ContractRestore, attacker: string, now: TxPosition, later: TxPosition)
    requires Schema(kv) && Restorable(kv, codes, c, attacker)
    requires c.admin.value != attacker && InfoOf(kv, c.address.value).admin == attacker
    ensures var list := [c.(admin := Some(attacker)), c];
            var r := RestoreAll(kv, codes, list, attacker, now);
            r.ok && !RestoreAll(r.kv, codes, list, attacker, later).ok
  {
    var list := [c.(admin := Some(attacker)), c];
    RestoreSucceedsIff(kv, codes, list, attacker, now);
    assert RestoreAll(kv, codes, list, attacker, now).ok;
    assert list[0] in list && list[1] in list && list[0].admin != list[1].admin;
    if RestoreAll(RestoreAll(kv, codes, list, attacker, now).kv, codes, list, attacker, later).ok {
      SecondRunAgrees(kv, codes, list, attacker, now, later);
    }
  }

  /** A contract whose history is stuck is written again at every other position. */
  lemma StuckIsWrittenAgain(kv: KV, codes: Codes, c: ContractRestore, attacker: string, now: TxPosition, later: TxPosition)
    requires Schema(kv) && Restorable(kv, codes, c, attacker) && Stuck(kv, codes, c.address.value, attacker) && later != now
    ensures var r := RestoreAll(kv, codes, [c], attacker, now);
            r.ok && RestoreAll(r.kv, codes, [c], attacker, later) != r
  {
    RestoreSucceedsIff(kv, codes, [c], attacker, now);
    assert RestoreAll(kv, codes, [c], attacker, now).ok;
    assert c in [c] && Lists([c], c.address.value);
    RestoreAllIdempotentIff(kv, codes, [c], attacker, now, later);
  }
}
