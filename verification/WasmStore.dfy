/**
  The wasm module's part of the key-value store: contract info, contract storage, code history and
  the secondary index by code. A key is kept with its parts; Encode is the byte string the store
  sorts by.
 */
module WasmStore {
  import opened Prelude
  import opened ByteOrder

  datatype TxPosition = TxPosition(height: uint64, index: uint64)

  datatype Operation = Init | Migrate | Genesis

  datatype HistoryEntry = HistoryEntry(operation: Operation, codeID: uint64, updated: TxPosition, msg: Option<Bytes>)

  /** rest stands for the fields nothing here reads or writes: creator, label, creation, port. */
  datatype ContractInfo = ContractInfo(codeID: uint64, admin: string, rest: string)

  datatype Key =
    | InfoKey(addr: Bytes)
    | StorageKey(path: Bytes)
    | HistoryKey(addr: Bytes, pos: uint64)
    | IndexKey(codeID: uint64, updated: TxPosition, addr: Bytes)

  /** A marshalled value. */
  datatype Value = InfoValue(info: ContractInfo) | EntryValue(entry: HistoryEntry) | RawValue(raw: string) | EmptyValue

  type KV = map<Key, Value>

  // ---------- the bytes of a key ----------

  const INFO: Byte := 2 as char
  const STORAGE: Byte := 3 as char
  const HISTORY: Byte := 5 as char
  const INDEX: Byte := 6 as char

  function HistoryPrefix(addr: Bytes): Bytes {
    [HISTORY] + addr
  }

  function Encode(k: Key): Bytes {
    match k
    case InfoKey(addr) => [INFO] + addr
    case StorageKey(path) => [STORAGE] + path
    case HistoryKey(addr, pos) => HistoryPrefix(addr) + BigEndian(pos, 8)
    case IndexKey(code, updated, addr) =>
      [INDEX] + BigEndian(code, 8) + (BigEndian(updated.height, 8) + BigEndian(updated.index, 8)) + addr
  }

  lemma SplitEqual(a: Bytes, b: Bytes, c: Bytes, d: Bytes)
    requires a + b == c + d && |a| == |c|
    ensures a == c && b == d
  {
    assert a == (a + b)[..|a|] && b == (a + b)[|a|..] && c == (c + d)[..|a|] && d == (c + d)[|a|..];
  }

  lemma BigEndianInjective(x: uint64, y: uint64)
    requires BigEndian(x, 8) == BigEndian(y, 8)
    ensures x == y
  {
    EightBytes();
    FromBigEndianOf(x, 8);
    FromBigEndianOf(y, 8);
  }

  lemma FirstByte(k: Key)
    ensures Encode(k) != []
    ensures Encode(k)[0] == match k {
              case InfoKey(_) => INFO
              case StorageKey(_) => STORAGE
              case HistoryKey(_, _) => HISTORY
              case IndexKey(_, _, _) => INDEX
            }
  {
  }

  /** No two keys share their bytes, whatever the lengths of the addresses in them. */
  lemma EncodeInjective(k: Key, l: Key)
    requires Encode(k) == Encode(l)
    ensures k == l
  {
    FirstByte(k);
    FirstByte(l);
    match k
    case InfoKey(a) => SplitEqual([INFO], a, [INFO], l.addr);
    case StorageKey(p) => SplitEqual([STORAGE], p, [STORAGE], l.path);
    case HistoryKey(a, p) =>
      SplitEqual(HistoryPrefix(a), BigEndian(p, 8), HistoryPrefix(l.addr), BigEndian(l.pos, 8));
      SplitEqual([HISTORY], a, [HISTORY], l.addr);
      BigEndianInjective(p, l.pos);
    case IndexKey(c, u, a) => IndexInjective(c, u, a, l.codeID, l.updated, l.addr);
  }

  lemma IndexInjective(c: uint64, u: TxPosition, a: Bytes, d: uint64, v: TxPosition, b: Bytes)
    requires Encode(IndexKey(c, u, a)) == Encode(IndexKey(d, v, b))
    ensures c == d && u == v && a == b
  {
    var x, y := BigEndian(c, 8), BigEndian(d, 8);
    var uh, ui := BigEndian(u.height, 8), BigEndian(u.index, 8);
    var vh, vi := BigEndian(v.height, 8), BigEndian(v.index, 8);
    SplitEqual([INDEX] + x + (uh + ui), a, [INDEX] + y + (vh + vi), b);
    SplitEqual([INDEX] + x, uh + ui, [INDEX] + y, vh + vi);
    SplitEqual([INDEX], x, [INDEX], y);
    SplitEqual(uh, ui, vh, vi);
    BigEndianInjective(c, d);
    BigEndianInjective(u.height, v.height);
    BigEndianInjective(u.index, v.index);
  }

  // ---------- the keys of one contract ----------

  const CW2_KEY: Bytes := "contract_info"

  function Cw2Key(addr: Bytes): Key {
    StorageKey(addr + CW2_KEY)
  }

  function IndexOf(addr: Bytes, e: HistoryEntry): Key {
    IndexKey(e.codeID, e.updated, addr)
  }

  predicate Owned(k: Key, addr: Bytes) {
    match k
    case StorageKey(_) => k == Cw2Key(addr)
    case _ => k.addr == addr
  }

  lemma OwnerUnique(k: Key, a: Bytes, b: Bytes)
    requires Owned(k, a) && Owned(k, b)
    ensures a == b
  {
    if k.StorageKey? {
      assert |a + CW2_KEY| == |b + CW2_KEY|;
      SplitEqual(a, CW2_KEY, b, CW2_KEY);
    }
  }

  // ---------- history positions ----------

  /** Values have the type their key announces. */
  ghost predicate Schema(kv: KV) {
    forall k :: k in kv ==> (k.InfoKey? ==> kv[k].InfoValue?) && (k.HistoryKey? ==> kv[k].EntryValue?)
  }

  type TypedKV = kv: KV | Schema(kv) witness map[]

  function Positions(kv: KV, addr: Bytes): set<uint64> {
    set k | k in kv.Keys && k.HistoryKey? && k.addr == addr :: k.pos
  }

  lemma PositionsIff(kv: KV, addr: Bytes, pos: uint64)
    ensures pos in Positions(kv, addr) <==> HistoryKey(addr, pos) in kv
  {
    assert HistoryKey(addr, pos).pos == pos;
  }

  /** The values of a map from positions, from the lowest position to the highest. */
  ghost function Listing(m: map<uint64, HistoryEntry>): seq<HistoryEntry>
    decreases |m.Keys|
  {
    if m.Keys == {} then []
    else
      var p := MaxOf(m.Keys);
      assert (m - {p}).Keys == m.Keys - {p};
      Listing(m - {p}) + [m[p]]
  }

  lemma ListingAppend(m: map<uint64, HistoryEntry>, p: uint64, e: HistoryEntry)
    requires forall q :: q in m.Keys ==> q < p
    ensures Listing(m[p := e]) == Listing(m) + [e]
  {
    assert p in m[p := e].Keys;
    assert MaxOf(m[p := e].Keys) == p;
    assert m[p := e] - {p} == m;
  }

  function HistoryMap(kv: KV, addr: Bytes): map<uint64, HistoryEntry>
    requires Schema(kv)
  {
    map p | p in Positions(kv, addr) :: kv[HistoryKey(addr, p)].entry
  }

  /** The code history of a contract, oldest entry first. */
  ghost function HistoryOf(kv: KV, addr: Bytes): seq<HistoryEntry>
    requires Schema(kv)
  {
    Listing(HistoryMap(kv, addr))
  }

  // ---------- what the store says of a contract ----------

  ghost function InfoOf(kv: KV, addr: Bytes): ContractInfo
    requires Schema(kv) && InfoKey(addr) in kv
  {
    kv[InfoKey(addr)].info
  }

  ghost function IndexKeysOf(kv: KV, addr: Bytes): set<Key> {
    set k | k in kv && k.IndexKey? && k.addr == addr
  }

  /** Info, last history entry and the one index entry agree. */
  ghost predicate Consistent(kv: KV, addr: Bytes)
    requires Schema(kv)
  {
    && InfoKey(addr) in kv
    && var h := HistoryOf(kv, addr);
       && h != []
       && h[|h| - 1].codeID == InfoOf(kv, addr).codeID
       && IndexKeysOf(kv, addr) == {IndexOf(addr, h[|h| - 1])}
  }

  // ---------- views depend on owned keys only ----------

  ghost predicate SameAt(kv: KV, kv': KV, k: Key) {
    (k in kv <==> k in kv') && (k in kv ==> kv[k] == kv'[k])
  }

  ghost predicate SameView(kv: KV, kv': KV, addr: Bytes) {
    forall k :: Owned(k, addr) ==> SameAt(kv, kv', k)
  }

  ghost predicate SameOutside(kv: KV, kv': KV, addr: Bytes) {
    forall k :: !Owned(k, addr) ==> SameAt(kv, kv', k)
  }

  lemma OtherContractsUntouched(kv: KV, kv': KV, a: Bytes, b: Bytes)
    requires SameOutside(kv, kv', a) && a != b
    ensures SameView(kv, kv', b)
  {
    forall k | Owned(k, b)
      ensures SameAt(kv, kv', k)
    {
      if Owned(k, a) { OwnerUnique(k, a, b); }
    }
  }

  lemma SameHistory(kv: KV, kv': KV, addr: Bytes)
    requires Schema(kv) && Schema(kv')
    requires forall p: uint64 :: SameAt(kv, kv', HistoryKey(addr, p))
    ensures Positions(kv, addr) == Positions(kv', addr)
    ensures HistoryOf(kv, addr) == HistoryOf(kv', addr)
  {
    forall p: uint64
      ensures p in Positions(kv, addr) <==> p in Positions(kv', addr)
    {
      PositionsIff(kv, addr, p);
      PositionsIff(kv', addr, p);
      assert SameAt(kv, kv', HistoryKey(addr, p));
    }
    assert HistoryMap(kv, addr) == HistoryMap(kv', addr) by {
      assert forall p :: p in Positions(kv, addr) ==> SameAt(kv, kv', HistoryKey(addr, p));
    }
  }

  /** A contract's info, history, index and cw2 are decided by the keys it owns. */
  lemma ViewDecides(kv: KV, kv': KV, addr: Bytes)
    requires Schema(kv) && Schema(kv') && SameView(kv, kv', addr)
    ensures HistoryOf(kv, addr) == HistoryOf(kv', addr)
    ensures Positions(kv, addr) == Positions(kv', addr)
    ensures SameAt(kv, kv', InfoKey(addr)) && SameAt(kv, kv', Cw2Key(addr))
    ensures Consistent(kv, addr) <==> Consistent(kv', addr)
  {
    assert forall p: uint64 :: Owned(HistoryKey(addr, p), addr);
    SameHistory(kv, kv', addr);
    assert Owned(InfoKey(addr), addr) && Owned(Cw2Key(addr), addr);
    assert IndexKeysOf(kv, addr) == IndexKeysOf(kv', addr) by {
      forall k: Key | k.IndexKey? && k.addr == addr
        ensures k in kv <==> k in kv'
      {
        assert SameAt(kv, kv', k);
      }
    }
  }
}
