/** The recovery's methods, which read and write the store in place. */
module Recovery {
  import opened Prelude
  import opened ByteOrder
  import opened WasmStore
  import opened HaltFilters
  import opened Restore

  class KVStore {
    var kv: KV

    constructor (kv: KV)
      ensures this.kv == kv
    {
      this.kv := kv;
    }
  }

  /** The contract info a caller holds and AddMigration changes. */
  class LoadedInfo {
    var v: ContractInfo

    constructor (v: ContractInfo)
      ensures this.v == v
    {
      this.v := v;
    }
  }

  // ---------- the reverse scan ----------

  /** Under the history prefix of addr, a key of the right length is a history key of exactly this contract. */
  lemma PrefixAndLength(k: Key, addr: Bytes)
    requires HistoryPrefix(addr) <= Encode(k) && |Encode(k)| == |HistoryPrefix(addr)| + 8
    ensures k.HistoryKey? && k.addr == addr
    ensures Encode(k)[|HistoryPrefix(addr)|..] == BigEndian(k.pos, 8)
  {
    FirstByte(k);
    assert Encode(k)[0] == HistoryPrefix(addr)[0];
    assert Encode(k)[..|HistoryPrefix(addr)|] == HistoryPrefix(addr);
    SplitEqual(HistoryPrefix(k.addr), BigEndian(k.pos, 8), HistoryPrefix(addr), Encode(k)[|HistoryPrefix(addr)|..]);
    SplitEqual([HISTORY], k.addr, [HISTORY], addr);
  }

  /** Positions of one contract sort in the store as numbers. */
  lemma PositionOrder(addr: Bytes, p: uint64, q: uint64)
    requires p < q
    ensures Less(Encode(HistoryKey(addr, p)), Encode(HistoryKey(addr, q)))
  {
    EightBytes();
    BigEndianOrder(p, q, 8);
    LessAfterPrefix(HistoryPrefix(addr), BigEndian(p, 8), BigEndian(q, 8));
  }

  /**
    The reverse iteration over the history prefix, skipping keys of other lengths, returns the
    highest position of exactly this contract, also when another address extends its bytes.
   */
  method LastHistoryPosition(store: KVStore, addr: Bytes) returns (r: Option<uint64>)
    ensures r == if Positions(store.kv, addr) == {} then None else Some(MaxOf(Positions(store.kv, addr)))
  {
    var prefix := HistoryPrefix(addr);
    var remaining := set k | k in store.kv.Keys && prefix <= Encode(k) :: Encode(k);
    while remaining != {}
      invariant forall b :: b in remaining ==> exists k :: k in store.kv && prefix <= Encode(k) && Encode(k) == b
      invariant forall k :: k in store.kv && prefix <= Encode(k) && |Encode(k)| == |prefix| + 8 ==> Encode(k) in remaining
      decreases |remaining|
    {
      ghost var top := GreatestExists(remaining);
      var key: Bytes :| key in remaining && forall b :: b in remaining && b != key ==> Less(b, key);
      if |key| != |prefix| + 8 {
        remaining := remaining - {key};
        continue;
      }
      var pos := FromBigEndian(key[|prefix|..]);
      ghost var k :| k in store.kv && prefix <= Encode(k) && Encode(k) == key;
      PrefixAndLength(k, addr);
      EightBytes();
      FromBigEndianOf(k.pos, 8);
      HighestIsGreatestKey(store.kv, addr, k.pos, key, remaining);
      return Some(pos);
    }
    NoPositions(store.kv, addr);
    r := None;
  }

  lemma HighestIsGreatestKey(kv: KV, addr: Bytes, pos: uint64, key: Bytes, remaining: set<Bytes>)
    requires HistoryKey(addr, pos) in kv && key == Encode(HistoryKey(addr, pos))
    requires forall b :: b in remaining && b != key ==> Less(b, key)
    requires forall k :: k in kv && HistoryPrefix(addr) <= Encode(k) && |Encode(k)| == |HistoryPrefix(addr)| + 8
                         ==> Encode(k) in remaining
    ensures Positions(kv, addr) != {} && MaxOf(Positions(kv, addr)) == pos
  {
    PositionsIff(kv, addr, pos);
    forall q | q in Positions(kv, addr)
      ensures q <= pos
    {
      PositionsIff(kv, addr, q);
      if q > pos {
        PositionOrder(addr, pos, q);
        LessAsymmetric(key, Encode(HistoryKey(addr, q)));
        LessIrreflexive(key);
      }
    }
  }

  lemma NoPositions(kv: KV, addr: Bytes)
    requires forall k :: k in kv && HistoryPrefix(addr) <= Encode(k) ==> |Encode(k)| != |HistoryPrefix(addr)| + 8
    ensures Positions(kv, addr) == {}
  {
    forall q: uint64
      ensures q !in Positions(kv, addr)
    {
      PositionsIff(kv, addr, q);
      assert HistoryPrefix(addr) <= Encode(HistoryKey(addr, q));
    }
  }

  // ---------- the keeper's history and the walk over it ----------

  /** The keeper's listing of a contract's history, oldest entry first. */
  method GetContractHistory(store: KVStore, addr: Bytes) returns (history: seq<HistoryEntry>)
    requires Schema(store.kv)
    ensures history == HistoryOf(store.kv, addr)
  {
    history := ListInOrder(HistoryMap(store.kv, addr));
  }

  method ListInOrder(entries: map<uint64, HistoryEntry>) returns (history: seq<HistoryEntry>)
    ensures history == Listing(entries)
  {
    history := [];
    var left := entries;
    while left.Keys != {}
      invariant Listing(entries) == Listing(left) + history
      decreases |left.Keys|
    {
      GreatestElementExists(left.Keys);
      var p: uint64 :| p in left.Keys && forall q :: q in left.Keys ==> q <= p;
      assert p == MaxOf(left.Keys);
      history := [left[p]] + history;
      assert (left - {p}).Keys == left.Keys - {p};
      left := left - {p};
    }
  }

  /** The walk back through the history; changed is false when the newest entry already is legitimate. */
  method LegitimateCodeID(codes: Codes, history: seq<HistoryEntry>, attacker: string) returns (r: CodeResult, changed: bool)
    requires history != []
    ensures r == NewestLegitimate(history, codes, attacker)
    ensures changed == (r.Code? && r.id != history[|history| - 1].codeID)
  {
    var current := history[|history| - 1].codeID;
    assert history[..|history|] == history;
    for i := |history| downto 0
      invariant NewestLegitimate(history[..i], codes, attacker) == NewestLegitimate(history, codes, attacker)
    {
      var codeID := history[i].codeID;
      assert history[..i + 1][..i] == history[..i];
      if codeID !in codes {
        return CodeMissing, false;
      }
      if codes[codeID] == attacker {
        continue;
      }
      return Code(codeID), codeID != current;
    }
    r, changed := AllByAttacker, false;
  }

  // ---------- the writes ----------

  /** The four store writes; the position is looked up after the info was written. */
  method RestoreContractCodeID(store: KVStore, codes: Codes, addr: Bytes, info: LoadedInfo, attacker: string, now: TxPosition)
    returns (ok: bool)
    requires Schema(store.kv)
    modifies store, info
    ensures Result(ok, store.kv) == RestoreCode(old(store.kv), codes, addr, old(info.v), attacker, now)
    ensures info.v.admin == old(info.v.admin)
  {
    var history := GetContractHistory(store, addr);
    if |history| == 0 {
      return false;
    }
    var target, changed := LegitimateCodeID(codes, history, attacker);
    if !target.Code? {
      return false;
    }
    if !changed {
      return true;
    }
    var last := history[|history| - 1];
    store.kv := store.kv - {IndexOf(addr, last)};
    var entry := MigrationTo(target.id, now);
    info.v := info.v.(codeID := target.id);
    store.kv := store.kv[InfoKey(addr) := InfoValue(info.v)];
    SamePositions(old(store.kv), store.kv, addr);
    var pos := LastHistoryPosition(store, addr);
    if pos.None? {
      return false;
    }
    store.kv := store.kv[HistoryKey(addr, Add64(pos.value, 1)) := EntryValue(entry)];
    store.kv := store.kv[IndexOf(addr, entry) := EmptyValue];
    ok := true;
  }

  lemma SamePositions(kv: KV, kv': KV, addr: Bytes)
    requires forall p: uint64 :: HistoryKey(addr, p) in kv <==> HistoryKey(addr, p) in kv'
    ensures Positions(kv, addr) == Positions(kv', addr)
  {
    forall p: uint64
      ensures p in Positions(kv, addr) <==> p in Positions(kv', addr)
    {
      PositionsIff(kv, addr, p);
      PositionsIff(kv', addr, p);
    }
  }

  method RestoreCW2(store: KVStore, addr: Bytes, cw2: string)
    modifies store
    ensures store.kv == SetCw2(old(store.kv), addr, cw2)
    ensures Cw2Is(store.kv, addr, cw2) && forall k :: k != Cw2Key(addr) ==> SameAt(old(store.kv), store.kv, k)
  {
    var current := if Cw2Key(addr) in store.kv then store.kv[Cw2Key(addr)] else RawValue("");
    if current == RawValue(cw2) {
      return;
    }
    store.kv := store.kv[Cw2Key(addr) := RawValue(cw2)];
  }

  /** RestoreContractAdmins: nothing outside the recovery block; otherwise the list in order, up to the first failure. */
  method RestoreContractAdmins(ctx: Context, store: KVStore, codes: Codes, contracts: seq<ContractRestore>,
                               attacker: string, attackerValid: bool, now: TxPosition) returns (ok: bool)
    requires Schema(store.kv)
    modifies store
    ensures Result(ok, store.kv) ==
              if !RecoveryDue(ctx) then Result(true, old(store.kv))
              else if !attackerValid then Result(false, old(store.kv))
              else RestoreAll(old(store.kv), codes, contracts, attacker, now)
  {
    if !RecoveryDue(ctx) {
      return true;
    }
    if !attackerValid {
      return false;
    }
    ghost var all := RestoreAll(store.kv, codes, contracts, attacker, now);
    for i := 0 to |contracts|
      invariant Schema(store.kv)
      invariant RestoreAll(store.kv, codes, contracts[i..], attacker, now) == all
    {
      var contract := contracts[i];
      ghost var before := store.kv;
      assert contracts[i..][1..] == contracts[i + 1..];
      if contract.address.None? || contract.admin.None? {
        return false;
      }
      var addr := contract.address.value;
      if InfoKey(addr) !in store.kv {
        return false;
      }
      var info := new LoadedInfo(store.kv[InfoKey(addr)].info);
      var restored := RestoreContractCodeID(store, codes, addr, info, attacker, now);
      if !restored {
        return false;
      }
      RestoreCW2(store, addr, contract.cw2);
      if info.v.admin != contract.admin.value {
        if info.v.admin != attacker {
          return false;
        }
        store.kv := WithAdmin(store.kv, addr, contract.admin.value);
      }
      assert Result(true, store.kv) == RestoreOne(before, codes, contract, attacker, now);
    }
    ok := true;
  }
}
