/** The payload of a log frame and the balance snapshot message: nested encodings and what they determine. */
module RecordCodec {
  import opened Masks
  import opened Bytes
  import opened Types
  import opened Codec
  import opened WireCodec

  // ---- Log payloads ---------------------------------------------------------------------------

  /** One committed transaction as `serialize_for_wal` stores it. */
  datatype WalRecord = WalRecord(transactionId: Uuid, request: TransactionRequest, timestamp: int)

  predicate Storable(w: WalRecord) {
    Encodable(w.request) && IsInt64(w.timestamp)
  }

  function WalPayload(w: WalRecord): seq<byte>
    requires IsInt64(w.request.amountMinor) && IsInt64(w.timestamp)
  {
    w.transactionId + (RequestFields(w.request) + I64(w.timestamp))
  }

  /** `serialize_for_wal`; `nowNs` is the reading of the system clock. */
  method SerializeForWal(req: TransactionRequest, transactionId: Uuid, nowNs: int) returns (payload: seq<byte>)
    requires IsInt64(req.amountMinor) && IsInt64(nowNs)
    ensures payload == WalPayload(WalRecord(transactionId, req, nowNs))
  {
    hide I64, StringField, StringFields;
    var buf := new Buffer();
    buf.WriteBytes(transactionId);
    buf.WriteBytes(req.correlationId);
    buf.WriteBytes(I64(req.amountMinor));
    buf.WriteString(req.debitAccountId);
    buf.WriteString(req.creditAccountId);
    buf.WriteString(req.idempotencyKey);
    buf.WriteString(req.description);
    buf.WriteString(req.currency);
    buf.WriteString(req.stripeChargeId);
    SixFields(req.debitAccountId, req.creditAccountId, req.idempotencyKey,
              req.description, req.currency, req.stripeChargeId);
    buf.WriteBytes(I64(nowNs));
    return buf.bytes;
  }

  /** The payload byte by byte: transaction id, correlation id, amount, the six strings, and the time. */
  lemma PayloadLayout(w: WalRecord)
    requires Storable(w)
    ensures var data, r := WalPayload(w), w.request;
            && |data| >= 48 && data[..16] == w.transactionId && data[16..32] == r.correlationId
            && data[32..40] == I64(r.amountMinor) && data[|data| - 8..] == I64(w.timestamp)
            && data[40..|data| - 8] ==
               StringField(r.debitAccountId) + (StringField(r.creditAccountId) + (StringField(r.idempotencyKey)
               + (StringField(r.description) + (StringField(r.currency) + StringField(r.stripeChargeId)))))
  {
    hide I64, StringField, StringFields;
    var r := w.request;
    SixFields(r.debitAccountId, r.creditAccountId, r.idempotencyKey, r.description, r.currency, r.stripeChargeId);
    var data := WalPayload(w);
    assert data[40..|data| - 8] == StringFields(RequestStrings(r));
  }

  /** Reading a whole payload back. */
  function DecodePayload(data: seq<byte>): Option<WalRecord> {
    if |data| < 16 then None
    else
      match DecodeFields(data, 16)
      case None => None
      case Some((request, off)) =>
        match ReadI64(data, off)
        case None => None
        case Some((timestamp, end)) =>
          if end == |data| then Some(WalRecord(data[..16], request, timestamp)) else None
  }

  /** A payload decodes to exactly the record it encodes, and nothing else decodes at all. */
  lemma PayloadExact(data: seq<byte>, w: WalRecord)
    ensures DecodePayload(data) == Some(w) <==> Storable(w) && data == WalPayload(w)
  {
    hide RequestFields, DecodeFields, I64, ReadI64;
    if Storable(w) && data == WalPayload(w) {
      var fields, stamp := RequestFields(w.request), I64(w.timestamp);
      assert data[16..16 + |fields|] == fields;
      assert data[16 + |fields|..16 + |fields| + 8] == stamp;
      FieldsExact(data, 16, w.request, 16 + |fields|);
      I64Exact(data, 16 + |fields|, w.timestamp, |data|);
      assert data[..16] == w.transactionId;
    }
    if DecodePayload(data) == Some(w) {
      var off := DecodeFields(data, 16).value.1;
      FieldsExact(data, 16, w.request, off);
      I64Exact(data, off, w.timestamp, |data|);
      assert data == data[..16] + (data[16..off] + data[off..]);
      assert data[off..] == data[off..off + 8];
    }
  }

  // ---- Balance snapshots ----------------------------------------------------------------------

  const MSG_BALANCE_RESPONSE: byte := 0x84

  datatype Snapshot = Snapshot(
    accounts: seq<AccountInfo>,
    totalAssets: int,
    totalLiabilities: int,
    totalEquity: int,
    invariantOk: bool)

  predicate AccountFits(a: AccountInfo) {
    Short(a.id) && Short(a.name) && IsInt64(a.balance)
  }

  predicate SnapshotFits(s: Snapshot) {
    && IsInt64(s.totalAssets) && IsInt64(s.totalLiabilities) && IsInt64(s.totalEquity)
    && |s.accounts| < TWO_32
    && forall i :: 0 <= i < |s.accounts| ==> AccountFits(s.accounts[i])
  }

  function AccountBytes(a: AccountInfo): seq<byte>
    requires AccountFits(a)
  {
    StringField(a.id) + (StringField(a.name) + (I64(a.balance) + [TypeByte(a.kind)]))
  }

  function AccountsBytes(accounts: seq<AccountInfo>): seq<byte>
    requires forall i :: 0 <= i < |accounts| ==> AccountFits(accounts[i])
    decreases |accounts|
  {
    if accounts == [] then [] else AccountBytes(accounts[0]) + AccountsBytes(accounts[1..])
  }

  function Totals(s: Snapshot): seq<byte>
    requires SnapshotFits(s)
  {
    [if s.invariantOk then 1 else 0] + (I64(s.totalAssets) + (I64(s.totalLiabilities) + I64(s.totalEquity)))
  }

  function SnapshotBytes(corr: Uuid, s: Snapshot): seq<byte>
    requires SnapshotFits(s)
  {
    [MSG_BALANCE_RESPONSE] + (corr + (Totals(s) + (U32(|s.accounts|) + AccountsBytes(s.accounts))))
  }

  /** The message byte by byte: type 0x84, correlation id, flag, totals, number of accounts, accounts. */
  lemma SnapshotLayout(corr: Uuid, s: Snapshot)
    requires SnapshotFits(s)
    ensures var msg := SnapshotBytes(corr, s);
            && |msg| >= 46 && msg[0] == 0x84 && msg[1..17] == corr && msg[17] == (if s.invariantOk then 1 else 0)
            && msg[18..26] == I64(s.totalAssets) && msg[26..34] == I64(s.totalLiabilities)
            && msg[34..42] == I64(s.totalEquity) && Unsigned(msg[42..46]) == |s.accounts|
            && msg[46..] == AccountsBytes(s.accounts)
  {
    hide I64, U32, AccountsBytes, AccountFits, Unsigned;
    U32Inverse(|s.accounts|);
    assert SnapshotBytes(corr, s)[42..46] == U32(|s.accounts|);
  }

  /** One account in it: id, name, balance, type. */
  lemma AccountLayout(a: AccountInfo)
    requires AccountFits(a)
    ensures var data := AccountBytes(a);
            && data[|data| - 1] == TypeByte(a.kind) && data[|data| - 9..|data| - 1] == I64(a.balance)
            && data[..|data| - 9] == StringField(a.id) + StringField(a.name)
  {
    hide I64, StringField, TypeByte;
  }

  /** The body of the loop over the accounts. */
  method WriteAccount(buf: Buffer, acc: AccountInfo)
    requires AccountFits(acc)
    modifies buf
    ensures buf.bytes == old(buf.bytes) + AccountBytes(acc)
  {
    hide I64, StringField, TypeByte;
    buf.WriteString(acc.id);
    buf.WriteString(acc.name);
    buf.WriteBytes(I64(acc.balance));
    buf.PushBack(TypeByte(acc.kind));
  }

  /** Everything ahead of the account records. */
  method WriteSnapshotHead(buf: Buffer, corr: Uuid, s: Snapshot)
    requires SnapshotFits(s)
    modifies buf
    ensures buf.bytes == old(buf.bytes) + ([MSG_BALANCE_RESPONSE] + (corr + (Totals(s) + U32(|s.accounts|))))
  {
    hide I64, U32;
    buf.PushBack(MSG_BALANCE_RESPONSE);
    buf.WriteBytes(corr);
    buf.PushBack(if s.invariantOk then 1 else 0);
    buf.WriteBytes(I64(s.totalAssets));
    buf.WriteBytes(I64(s.totalLiabilities));
    buf.WriteBytes(I64(s.totalEquity));
    buf.WriteBytes(U32(|s.accounts|));
  }

  /** `serialize_balance_snapshot` */
  method SerializeSnapshot(corr: Uuid, s: Snapshot) returns (bytes: seq<byte>)
    requires SnapshotFits(s)
    ensures bytes == SnapshotBytes(corr, s)
  {
    hide Totals, U32, AccountBytes, AccountsBytes;
    var buf := new Buffer();
    WriteSnapshotHead(buf, corr, s);
    ghost var head := buf.bytes;
    var i := 0;
    assert AccountsBytes([]) == [] by { NoAccounts(); }
    while i < |s.accounts|
      invariant 0 <= i <= |s.accounts|
      invariant fresh(buf)
      invariant buf.bytes == head + AccountsBytes(s.accounts[..i])
    {
      WriteAccount(buf, s.accounts[i]);
      assert s.accounts[..i + 1] == s.accounts[..i] + [s.accounts[i]];
      AccountsSnoc(s.accounts[..i], s.accounts[i]);
      i := i + 1;
    }
    assert s.accounts[..i] == s.accounts;
    return buf.bytes;
  }

  lemma NoAccounts()
    ensures AccountsBytes([]) == []
  {}

  lemma {:induction false} AccountsSnoc(accounts: seq<AccountInfo>, a: AccountInfo)
    requires (forall i :: 0 <= i < |accounts| ==> AccountFits(accounts[i])) && AccountFits(a)
    ensures forall i :: 0 <= i < |accounts + [a]| ==> AccountFits((accounts + [a])[i])
    ensures AccountsBytes(accounts + [a]) == AccountsBytes(accounts) + AccountBytes(a)
    decreases |accounts|
  {
    hide AccountBytes, AccountFits;
    if accounts == [] {
      assert [] + [a] == [a] && [a][1..] == [];
      assert AccountBytes(a) + [] == AccountBytes(a) == [] + AccountBytes(a);
    } else {
      assert (accounts + [a])[1..] == accounts[1..] + [a];
      AccountsSnoc(accounts[1..], a);
    }
  }

  function ReadAccount(data: seq<byte>, off: nat): Reading<AccountInfo> {
    match ReadString(data, off)
    case None => None
    case Some((id, o1)) =>
      match ReadString(data, o1)
      case None => None
      case Some((name, o2)) =>
        match ReadI64(data, o2)
        case None => None
        case Some((balance, o3)) =>
          if o3 >= |data| || TypeOfByte(data[o3]).None? then None
          else Some((AccountInfo(id, name, TypeOfByte(data[o3]).value, balance), o3 + 1))
  }

  function ReadAccounts(data: seq<byte>, off: nat, count: nat): Reading<seq<AccountInfo>>
    decreases count
  {
    if count == 0 then Some(([], off))
    else
      match ReadAccount(data, off)
      case None => None
      case Some((a, next)) =>
        match ReadAccounts(data, next, count - 1)
        case None => None
        case Some((rest, end)) => Some(([a] + rest, end))
  }

  /** Reading a record back from where it was written. */
  lemma AccountReadBack(data: seq<byte>, off: nat, a: AccountInfo)
    requires AccountFits(a) && At(data, off, AccountBytes(a))
    ensures ReadAccount(data, off) == Some((a, off + |AccountBytes(a)|))
  {
    hide StringField, ReadString, I64, ReadI64, TypeByte, TypeOfByte;
    var id, name, balance, kind := StringField(a.id), StringField(a.name), I64(a.balance), [TypeByte(a.kind)];
    AtConcat(data, off, id, name + (balance + kind));
    AtConcat(data, off + |id|, name, balance + kind);
    AtConcat(data, off + |id| + |name|, balance, kind);
    StringExact(data, off, a.id, off + |id|);
    StringExact(data, off + |id|, a.name, off + |id| + |name|);
    I64Exact(data, off + |id| + |name|, a.balance, off + |id| + |name| + 8);
    var at := off + |id| + |name| + 8;
    assert data[at..at + 1][0] == data[at];
    TypeBytes(data[at], a.kind);
  }

  lemma {:induction false} AccountsReadBack(data: seq<byte>, off: nat, accounts: seq<AccountInfo>)
    requires off <= |data|
    requires forall i :: 0 <= i < |accounts| ==> AccountFits(accounts[i])
    requires At(data, off, AccountsBytes(accounts))
    ensures ReadAccounts(data, off, |accounts|) == Some((accounts, off + |AccountsBytes(accounts)|))
    decreases |accounts|
  {
    hide AccountBytes, ReadAccount, AccountFits;
    if accounts != [] {
      AtConcat(data, off, AccountBytes(accounts[0]), AccountsBytes(accounts[1..]));
      AccountReadBack(data, off, accounts[0]);
      AccountsReadBack(data, off + |AccountBytes(accounts[0])|, accounts[1..]);
      assert accounts == [accounts[0]] + accounts[1..];
    }
  }

  /** Reads a snapshot message laid out as `serialize_balance_snapshot` writes it. */
  function DecodeSnapshot(data: seq<byte>): Option<(Uuid, Snapshot)> {
    if |data| < 46 then None
    else
      var count := Unsigned(data[42..46]);
      match ReadAccounts(data, 46, count)
      case None => None
      case Some((accounts, _)) =>
        Some((data[1..17],
              Snapshot(accounts, ReadI64(data, 18).value.0, ReadI64(data, 26).value.0,
                       ReadI64(data, 34).value.0, data[17] == 1)))
  }

  /** A snapshot message, followed by anything, determines every field of the snapshot. */
  lemma SnapshotReadBack(corr: Uuid, s: Snapshot, rest: seq<byte>)
    requires SnapshotFits(s)
    ensures DecodeSnapshot(SnapshotBytes(corr, s) + rest) == Some((corr, s))
  {
    hide I64, U32, ReadI64, ReadAccounts, AccountsBytes, AccountFits, Unsigned;
    var data := SnapshotBytes(corr, s) + rest;
    assert data[1..17] == corr;
    assert data[17] == if s.invariantOk then 1 else 0;
    assert data[18..26] == I64(s.totalAssets);
    assert data[26..34] == I64(s.totalLiabilities);
    assert data[34..42] == I64(s.totalEquity);
    assert data[42..46] == U32(|s.accounts|);
    assert data[46..46 + |AccountsBytes(s.accounts)|] == AccountsBytes(s.accounts);
    I64Exact(data, 18, s.totalAssets, 26);
    I64Exact(data, 26, s.totalLiabilities, 34);
    I64Exact(data, 34, s.totalEquity, 42);
    U32Inverse(|s.accounts|);
    AccountsReadBack(data, 46, s.accounts);
  }

  /** Two snapshot messages that agree, whatever follows them, carry the same snapshot for the same request. */
  lemma SnapshotUnique(c: Uuid, s: Snapshot, x: seq<byte>, d: Uuid, t: Snapshot, y: seq<byte>)
    requires SnapshotFits(s) && SnapshotFits(t)
    requires SnapshotBytes(c, s) + x == SnapshotBytes(d, t) + y
    ensures c == d && s == t && x == y
  {
    hide SnapshotBytes, DecodeSnapshot;
    SnapshotReadBack(c, s, x);
    SnapshotReadBack(d, t, y);
    var data := SnapshotBytes(c, s) + x;
    assert x == data[|SnapshotBytes(c, s)|..];
    assert y == data[|SnapshotBytes(d, t)|..];
  }
}
