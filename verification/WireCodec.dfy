/**
  The client protocol: requests written by the Python gateway and read by the C++ engine, replies
  written by the engine and read by the gateway.

  Python's `struct.error`, `IndexError` and `ValueError` are the result `None`; so is a C++ read
  that would leave the message.
 */
module WireCodec {
  import opened Bytes
  import opened Types
  import opened Codec

  const MSG_TX_REQUEST: byte := 0x01
  const MSG_CREATE_ACCOUNT: byte := 0x02
  const MSG_TX_RESPONSE: byte := 0x81
  const MSG_CREATE_RESPONSE: byte := 0x82

  // ---- Transaction requests -------------------------------------------------------------------

  /** The strings of a request in wire order. */
  function RequestStrings(r: TransactionRequest): (ss: seq<Text>)
    ensures |ss| == 6
  {
    [r.debitAccountId, r.creditAccountId, r.idempotencyKey, r.description, r.currency, r.stripeChargeId]
  }

  predicate Encodable(r: TransactionRequest) {
    IsInt64(r.amountMinor) && AllShort(RequestStrings(r))
  }

  /** Everything behind the message type byte. */
  function RequestFields(r: TransactionRequest): seq<byte>
    requires IsInt64(r.amountMinor)
  {
    r.correlationId + (I64(r.amountMinor) + StringFields(RequestStrings(r)))
  }

  /** `_write_string` */
  function PyWriteString(s: Text): Option<seq<byte>> {
    if Short(s) then Some(U32(|s|) + s) else None
  }

  /** The encoding half of `send_transaction`: fails exactly when a field does not fit its format. */
  method PyEncodeTransaction(r: TransactionRequest) returns (result: Option<seq<byte>>)
    ensures result == if Encodable(r) then Some([MSG_TX_REQUEST] + RequestFields(r)) else None
  {
    hide U32, I64;
    var debit := PyWriteString(r.debitAccountId);
    var credit := PyWriteString(r.creditAccountId);
    var key := PyWriteString(r.idempotencyKey);
    var description := PyWriteString(r.description);
    var currency := PyWriteString(r.currency);
    var charge := PyWriteString(r.stripeChargeId);
    assert RequestStrings(r)[0] == r.debitAccountId && RequestStrings(r)[1] == r.creditAccountId;
    assert RequestStrings(r)[2] == r.idempotencyKey && RequestStrings(r)[3] == r.description;
    assert RequestStrings(r)[4] == r.currency && RequestStrings(r)[5] == r.stripeChargeId;
    if !IsInt64(r.amountMinor) || debit.None? || credit.None? || key.None? || description.None?
       || currency.None? || charge.None? {
      return None;
    }
    var msg := [MSG_TX_REQUEST] + r.correlationId + I64(r.amountMinor);
    ghost var head := msg;
    msg := msg + debit.value;
    msg := msg + credit.value;
    msg := msg + key.value;
    msg := msg + description.value;
    msg := msg + currency.value;
    msg := msg + charge.value;
    hide *;
    Regrouped(head, debit.value, credit.value, key.value, description.value, currency.value, charge.value);
    RequestJoined(r);
    result := Some(msg);
  }

  lemma Regrouped(h: seq<byte>, a: seq<byte>, b: seq<byte>, c: seq<byte>, d: seq<byte>, e: seq<byte>, f: seq<byte>)
    ensures h + a + b + c + d + e + f == h + (a + (b + (c + (d + (e + f)))))
  {}

  lemma RequestJoined(r: TransactionRequest)
    requires Encodable(r)
    ensures [MSG_TX_REQUEST] + RequestFields(r) ==
            [MSG_TX_REQUEST] + r.correlationId + I64(r.amountMinor)
            + (StringField(r.debitAccountId) + (StringField(r.creditAccountId) + (StringField(r.idempotencyKey)
            + (StringField(r.description) + (StringField(r.currency) + StringField(r.stripeChargeId))))))
  {
    hide I64, StringField, StringFields;
    SixFields(r.debitAccountId, r.creditAccountId, r.idempotencyKey, r.description, r.currency, r.stripeChargeId);
  }

  lemma SixFields(a: Text, b: Text, c: Text, d: Text, e: Text, f: Text)
    ensures StringFields([a, b, c, d, e, f]) ==
            StringField(a) + (StringField(b) + (StringField(c) + (StringField(d) + (StringField(e) + StringField(f)))))
  {
    hide StringField;
    assert [a, b, c, d, e, f][1..] == [b, c, d, e, f] && [b, c, d, e, f][1..] == [c, d, e, f];
    assert [c, d, e, f][1..] == [d, e, f] && [d, e, f][1..] == [e, f] && [e, f][1..] == [f] && [f][1..] == [];
    assert StringFields([f]) == StringField(f);
    assert StringFields([e, f]) == StringField(e) + StringFields([f]);
    assert StringFields([d, e, f]) == StringField(d) + StringFields([e, f]);
    assert StringFields([c, d, e, f]) == StringField(c) + StringFields([d, e, f]);
    assert StringFields([b, c, d, e, f]) == StringField(b) + StringFields([c, d, e, f]);
  }

  /** The message byte by byte: type 1, correlation id, amount, and the six strings in wire order. */
  lemma RequestLayout(r: TransactionRequest)
    requires Encodable(r)
    ensures var msg := [MSG_TX_REQUEST] + RequestFields(r);
            && msg[0] == 0x01 && msg[1..17] == r.correlationId && msg[17..25] == I64(r.amountMinor)
            && msg[25..] ==
               StringField(r.debitAccountId) + (StringField(r.creditAccountId) + (StringField(r.idempotencyKey)
               + (StringField(r.description) + (StringField(r.currency) + StringField(r.stripeChargeId)))))
  {
    hide I64, StringField, StringFields;
    SixFields(r.debitAccountId, r.creditAccountId, r.idempotencyKey, r.description, r.currency, r.stripeChargeId);
    assert ([MSG_TX_REQUEST] + RequestFields(r))[25..] == StringFields(RequestStrings(r));
  }

  /** A correlation id, an amount and six strings, read from `off` on. */
  function DecodeFields(data: seq<byte>, off: nat): Reading<TransactionRequest> {
    if |data| < off + 24 then None
    else
      match ReadStrings(data, off + 24, 6)
      case None => None
      case Some((ss, end)) =>
        ReadStringsLength(data, off + 24, 6);
        var amount := ReadI64(data, off + 16).value.0;
        Some((TransactionRequest(data[off..off + 16], ss[2], ss[3], ss[0], ss[1], amount, ss[4], ss[5]), end))
  }

  /** What `deserialize_request` reads behind the type byte, and the offset at which it is done. */
  function DecodeRequest(data: seq<byte>): Reading<TransactionRequest> {
    DecodeFields(data, 1)
  }

  /** `read_string`: advances the offset past the string. */
  method ReadStringAt(data: seq<byte>, start: nat) returns (s: Text, offset: nat)
    requires ReadString(data, start).Some?
    ensures ReadString(data, start) == Some((s, offset))
  {
    offset := start;
    var len := Unsigned(data[offset..offset + 4]);
    offset := offset + 4;
    s := data[offset..offset + len];
    offset := offset + len;
  }

  /** Decodes field by field; the code itself never compares the offset with the message size. */
  method DeserializeRequest(data: seq<byte>) returns (req: TransactionRequest, offset: nat)
    requires DecodeRequest(data).Some?
    ensures DecodeRequest(data) == Some((req, offset))
  {
    hide ReadString;
    offset := 1;
    var corr := data[offset..offset + 16];
    offset := offset + 16;
    U64Of(data[offset..offset + 8]);
    var amount := Signed64(Unsigned(data[offset..offset + 8]));
    offset := offset + 8;
    SixReads(data, offset);
    var debit, credit, key, description, currency, charge;
    debit, offset := ReadStringAt(data, offset);
    credit, offset := ReadStringAt(data, offset);
    key, offset := ReadStringAt(data, offset);
    description, offset := ReadStringAt(data, offset);
    currency, offset := ReadStringAt(data, offset);
    charge, offset := ReadStringAt(data, offset);
    req := TransactionRequest(corr, key, description, debit, credit, amount, currency, charge);
  }

  /** Six strings in a row are read one after the other. */
  lemma {:induction false} SixReads(data: seq<byte>, off: nat)
    requires ReadStrings(data, off, 6).Some?
    ensures ReadString(data, off).Some?
    ensures var o1 := ReadString(data, off).value.1;
            && ReadString(data, o1).Some?
            && var o2 := ReadString(data, o1).value.1;
            && ReadString(data, o2).Some?
            && var o3 := ReadString(data, o2).value.1;
            && ReadString(data, o3).Some?
            && var o4 := ReadString(data, o3).value.1;
            && ReadString(data, o4).Some?
            && var o5 := ReadString(data, o4).value.1;
            && ReadString(data, o5).Some?
            && ReadStrings(data, off, 6) ==
               Some(([ReadString(data, off).value.0, ReadString(data, o1).value.0, ReadString(data, o2).value.0,
                      ReadString(data, o3).value.0, ReadString(data, o4).value.0, ReadString(data, o5).value.0],
                     ReadString(data, o5).value.1))
  {
    hide ReadString;
    var (s0, o1) := ReadString(data, off).value;
    assert ReadStrings(data, o1, 5).Some?;
    var (s1, o2) := ReadString(data, o1).value;
    assert ReadStrings(data, o2, 4).Some?;
    var (s2, o3) := ReadString(data, o2).value;
    assert ReadStrings(data, o3, 3).Some?;
    var (s3, o4) := ReadString(data, o3).value;
    assert ReadStrings(data, o4, 2).Some?;
    var (s4, o5) := ReadString(data, o4).value;
    assert ReadStrings(data, o5, 1).Some?;
    var (s5, o6) := ReadString(data, o5).value;
    assert ReadStrings(data, o6, 0) == Some(([], o6));
    assert [s5] + [] == [s5];
    assert ReadStrings(data, o5, 1) == Some(([s5], o6));
    assert [s4] + [s5] == [s4, s5];
    assert ReadStrings(data, o4, 2) == Some(([s4, s5], o6));
    assert [s3] + [s4, s5] == [s3, s4, s5];
    assert ReadStrings(data, o3, 3) == Some(([s3, s4, s5], o6));
    assert [s2] + [s3, s4, s5] == [s2, s3, s4, s5];
    assert ReadStrings(data, o2, 4) == Some(([s2, s3, s4, s5], o6));
    assert [s1] + [s2, s3, s4, s5] == [s1, s2, s3, s4, s5];
    assert ReadStrings(data, o1, 5) == Some(([s1, s2, s3, s4, s5], o6));
    assert [s0] + [s1, s2, s3, s4, s5] == [s0, s1, s2, s3, s4, s5];
  }

  /** The fields of a request are read exactly where they were written. */
  lemma FieldsExact(data: seq<byte>, off: nat, r: TransactionRequest, next: nat)
    ensures DecodeFields(data, off) == Some((r, next)) <==>
            Encodable(r) && At(data, off, RequestFields(r)) && next == off + |RequestFields(r)|
  {
    hide ReadStrings, StringFields, I64, ReadI64;
    var ss := RequestStrings(r);
    I64Exact(data, off + 16, r.amountMinor, off + 24);
    if IsInt64(r.amountMinor) {
      AtConcat(data, off, r.correlationId, I64(r.amountMinor) + StringFields(ss));
      AtConcat(data, off + 16, I64(r.amountMinor), StringFields(ss));
    }
    if |data| >= off + 24 {
      StringsExact(data, off + 24, ss, next);
      ReadStringsLength(data, off + 24, 6);
      ReadI64Enough(data, off + 16);
      if ReadStrings(data, off + 24, 6).Some? {
        var got := ReadStrings(data, off + 24, 6).value.0;
        assert got == [got[0], got[1], got[2], got[3], got[4], got[5]];
      }
    }
  }

  lemma ReadI64Enough(data: seq<byte>, off: nat)
    requires off + 8 <= |data|
    ensures ReadI64(data, off).Some? && ReadI64(data, off).value.1 == off + 8
  {}

  /**
    The engine's decoder yields a request exactly when its encoding stands behind the type byte. On
    a message the gateway encoded it recovers every field and stops at the end of the message.
   */
  lemma RequestRoundTrip(data: seq<byte>, r: TransactionRequest, next: nat)
    ensures DecodeRequest(data) == Some((r, next)) <==>
            Encodable(r) && At(data, 1, RequestFields(r)) && next == 1 + |RequestFields(r)|
    ensures Encodable(r) ==>
              var msg := [MSG_TX_REQUEST] + RequestFields(r);
              DecodeRequest(msg) == Some((r, |msg|))
  {
    hide DecodeFields, RequestFields;
    FieldsExact(data, 1, r, next);
    if Encodable(r) {
      var msg := [MSG_TX_REQUEST] + RequestFields(r);
      assert msg[1..1 + |RequestFields(r)|] == RequestFields(r);
      FieldsExact(msg, 1, r, |msg|);
    }
  }

  /** No encoded request is the beginning of another: a byte string holds at most one request. */
  lemma RequestsPrefixFree(a: TransactionRequest, b: TransactionRequest, x: seq<byte>, y: seq<byte>)
    requires Encodable(a) && Encodable(b) && RequestFields(a) + x == RequestFields(b) + y
    ensures a == b && x == y
  {
    hide DecodeFields, RequestFields;
    var data := RequestFields(a) + x;
    assert data[0..|RequestFields(a)|] == RequestFields(a);
    assert data[0..|RequestFields(b)|] == RequestFields(b);
    FieldsExact(data, 0, a, |RequestFields(a)|);
    FieldsExact(data, 0, b, |RequestFields(b)|);
    assert x == data[|RequestFields(a)|..] == y;
  }

  // ---- Transaction responses ------------------------------------------------------------------

  function ResponseBytes(resp: TransactionResponse): seq<byte>
    requires IsInt64(resp.latencyUs)
  {
    [MSG_TX_RESPONSE] + (resp.correlationId + (resp.transactionId +
      ([StatusByte(resp.status)] + (I64(resp.latencyUs) + StringField(resp.message)))))
  }

  /** The message byte by byte: type 0x81, both ids, the status, the latency and the text. */
  lemma ResponseLayout(resp: TransactionResponse)
    requires IsInt64(resp.latencyUs)
    ensures var msg := ResponseBytes(resp);
            && msg[0] == 0x81 && msg[1..17] == resp.correlationId && msg[17..33] == resp.transactionId
            && msg[33] == StatusByte(resp.status) && msg[34..42] == I64(resp.latencyUs)
            && msg[42..] == StringField(resp.message)
  {
    hide I64, StringField, StatusByte;
  }

  /** `serialize_response` */
  method SerializeResponse(resp: TransactionResponse) returns (bytes: seq<byte>)
    requires IsInt64(resp.latencyUs)
    ensures bytes == ResponseBytes(resp)
  {
    hide I64, StringField;
    var buf := new Buffer();
    buf.PushBack(MSG_TX_RESPONSE);
    buf.WriteBytes(resp.correlationId);
    buf.WriteBytes(resp.transactionId);
    buf.PushBack(StatusByte(resp.status));
    buf.WriteBytes(I64(resp.latencyUs));
    buf.WriteString(resp.message);
    return buf.bytes;
  }

  /** A Python slice: out-of-range bounds are clamped, not an error. */
  function PySlice(data: seq<byte>, lo: nat, hi: nat): (r: seq<byte>)
    requires lo <= hi
  {
    var h := if hi <= |data| then hi else |data|;
    if lo <= h then data[lo..h] else []
  }

  /** `_read_string`: only the length field is checked against the data. */
  function PyReadString(data: seq<byte>, off: nat): Reading<Text> {
    if off + 4 > |data| then None
    else
      var n := Unsigned(data[off..off + 4]);
      Some((PySlice(data, off + 4, off + 4 + n), off + 4 + n))
  }

  lemma PyReadWritten(data: seq<byte>, off: nat, s: Text)
    requires Short(s) && At(data, off, StringField(s))
    ensures PyReadString(data, off) == Some((s, off + |StringField(s)|))
  {
    hide U32, Unsigned;
    AtConcat(data, off, U32(|s|), s);
    U32Inverse(|s|);
  }

  datatype PyTransactionReply = PyTransactionReply(
    transactionId: seq<byte>,
    status: byte,
    latencyUs: int,
    message: Text)

  /** The parsing half of `send_transaction`. */
  function PyParseTransaction(response: seq<byte>): Option<PyTransactionReply> {
    if |response| == 0 || response[0] != MSG_TX_RESPONSE then None
    else if |PySlice(response, 17, 33)| != 16 || |response| <= 33 then None
    else
      match ReadI64(response, 34)
      case None => None
      case Some((latency, off)) =>
        match PyReadString(response, off)
        case None => None
        case Some((message, _)) => Some(PyTransactionReply(PySlice(response, 17, 33), response[33], latency, message))
  }

  /** The gateway recovers every field of a reply the engine wrote, whatever follows it in the buffer. */
  lemma ResponseRoundTrip(resp: TransactionResponse, rest: seq<byte>)
    requires IsInt64(resp.latencyUs) && Short(resp.message)
    ensures PyParseTransaction(ResponseBytes(resp) + rest) ==
            Some(PyTransactionReply(resp.transactionId, StatusByte(resp.status), resp.latencyUs, resp.message))
    ensures StatusOfByte(StatusByte(resp.status)) == Some(resp.status)
    ensures PyParseTransaction(ResponseBytes(resp) + rest).value.status == 0 <==> resp.status.Ok?
  {
    StatusBytes(StatusByte(resp.status), resp.status);
    hide I64, StringField, ReadI64, PyReadString;
    var data := ResponseBytes(resp) + rest;
    assert data[17..33] == resp.transactionId && data[33] == StatusByte(resp.status);
    assert data[34..42] == I64(resp.latencyUs);
    I64Exact(data, 34, resp.latencyUs, 42);
    assert data[42..42 + |StringField(resp.message)|] == StringField(resp.message);
    PyReadWritten(data, 42, resp.message);
  }

  /** Two replies that parse to the same status byte report the same status. */
  lemma StatusTold(a: TransactionResponse, b: TransactionResponse)
    requires IsInt64(a.latencyUs) && Short(a.message) && IsInt64(b.latencyUs) && Short(b.message)
    ensures PyParseTransaction(ResponseBytes(a)).Some? && PyParseTransaction(ResponseBytes(b)).Some?
    ensures PyParseTransaction(ResponseBytes(a)).value.status == PyParseTransaction(ResponseBytes(b)).value.status <==>
              a.status == b.status
  {
    hide ResponseBytes, PyParseTransaction, StatusByte, StatusOfByte;
    ResponseRoundTrip(a, []);
    ResponseRoundTrip(b, []);
    assert ResponseBytes(a) + [] == ResponseBytes(a) && ResponseBytes(b) + [] == ResponseBytes(b);
  }

  // ---- Account creation -----------------------------------------------------------------------

  function CreateFields(r: CreateAccountRequest): seq<byte> {
    r.correlationId + (StringField(r.name) + [TypeByte(r.kind)])
  }

  /** Both messages of a creation byte by byte: type, correlation id, and the fields in wire order. */
  lemma CreateLayout(r: CreateAccountRequest, resp: CreateAccountResponse)
    ensures var msg := [MSG_CREATE_ACCOUNT] + CreateFields(r);
            msg[0] == 0x02 && msg[1..17] == r.correlationId && msg[17..] == StringField(r.name) + [TypeByte(r.kind)]
    ensures var msg := CreateResponseBytes(resp);
            && msg[0] == 0x82 && msg[1..17] == resp.correlationId && msg[17] == StatusByte(resp.status)
            && msg[18..] == StringField(resp.accountId) + StringField(resp.message)
  {
    hide StringField, StatusByte, TypeByte;
  }

  /** The encoding half of `create_account`; the account type is any Python integer. */
  method PyEncodeCreateAccount(corr: Uuid, name: Text, accountType: int) returns (result: Option<seq<byte>>)
    ensures result == if Short(name) && 0 <= accountType < 256
                      then Some([MSG_CREATE_ACCOUNT] + (corr + (StringField(name) + [Byte(accountType)])))
                      else None
  {
    hide U32;
    var msg := [MSG_CREATE_ACCOUNT] + corr;
    var field := PyWriteString(name);
    if field.None? || accountType < 0 || accountType >= 256 {
      return None;
    }
    msg := msg + field.value;
    msg := msg + [Byte(accountType)];
    assert msg == [MSG_CREATE_ACCOUNT] + (corr + (StringField(name) + [Byte(accountType)]));
    result := Some(msg);
  }

  /** What `deserialize_create_account` reads; a type byte outside the five is not part of this model. */
  function DecodeCreate(data: seq<byte>): Reading<CreateAccountRequest> {
    if |data| < 17 then None
    else
      match ReadString(data, 17)
      case None => None
      case Some((name, off)) =>
        if off >= |data| || TypeOfByte(data[off]).None? then None
        else Some((CreateAccountRequest(data[1..17], name, TypeOfByte(data[off]).value), off + 1))
  }

  method DeserializeCreateAccount(data: seq<byte>) returns (req: CreateAccountRequest, offset: nat)
    requires DecodeCreate(data).Some?
    ensures DecodeCreate(data) == Some((req, offset))
  {
    offset := 1;
    var corr := data[offset..offset + 16];
    offset := offset + 16;
    var name;
    name, offset := ReadStringAt(data, offset);
    var typeByte := data[offset];
    offset := offset + 1;
    req := CreateAccountRequest(corr, name, TypeOfByte(typeByte).value);
  }

  /**
    The decoder yields a request exactly when its encoding stands behind the type byte; messages of
    the gateway round-trip.
   */
  lemma CreateRoundTrip(data: seq<byte>, r: CreateAccountRequest, next: nat)
    ensures DecodeCreate(data) == Some((r, next)) <==>
            Short(r.name) && At(data, 1, CreateFields(r)) && next == 1 + |CreateFields(r)|
    ensures Short(r.name) ==>
              var msg := [MSG_CREATE_ACCOUNT] + CreateFields(r);
              DecodeCreate(msg) == Some((r, |msg|))
  {
    CreateExact(data, r, next);
    if Short(r.name) {
      hide CreateFields, DecodeCreate;
      var msg := [MSG_CREATE_ACCOUNT] + CreateFields(r);
      assert msg[1..1 + |CreateFields(r)|] == CreateFields(r);
      CreateExact(msg, r, |msg|);
    }
  }

  lemma CreateExact(data: seq<byte>, r: CreateAccountRequest, next: nat)
    ensures DecodeCreate(data) == Some((r, next)) <==>
            Short(r.name) && At(data, 1, CreateFields(r)) && next == 1 + |CreateFields(r)|
  {
    hide StringField, ReadString, TypeOfByte, TypeByte;
    var field := StringField(r.name);
    AtConcat(data, 1, r.correlationId, field + [TypeByte(r.kind)]);
    AtConcat(data, 17, field, [TypeByte(r.kind)]);
    StringExact(data, 17, r.name, 17 + |field|);
    match ReadString(data, 17) {
      case None =>
      case Some((name, off)) =>
        StringExact(data, 17, name, off);
        if off < |data| {
          TypeBytes(data[off], r.kind);
        }
    }
  }

  function CreateResponseBytes(resp: CreateAccountResponse): seq<byte> {
    [MSG_CREATE_RESPONSE] + (resp.correlationId + ([StatusByte(resp.status)] +
      (StringField(resp.accountId) + StringField(resp.message))))
  }

  /** `serialize_create_account_response` */
  method SerializeCreateResponse(resp: CreateAccountResponse) returns (bytes: seq<byte>)
    ensures bytes == CreateResponseBytes(resp)
  {
    hide StringField;
    var buf := new Buffer();
    buf.PushBack(MSG_CREATE_RESPONSE);
    buf.WriteBytes(resp.correlationId);
    buf.PushBack(StatusByte(resp.status));
    buf.WriteString(resp.accountId);
    buf.WriteString(resp.message);
    return buf.bytes;
  }

  datatype PyCreateReply = PyCreateReply(accountId: Text, status: byte, message: Text)

  /** The parsing half of `create_account`. */
  function PyParseCreate(response: seq<byte>): Option<PyCreateReply> {
    if |response| == 0 || response[0] != MSG_CREATE_RESPONSE || |response| <= 17 then None
    else
      match PyReadString(response, 18)
      case None => None
      case Some((accountId, off)) =>
        match PyReadString(response, off)
        case None => None
        case Some((message, _)) => Some(PyCreateReply(accountId, response[17], message))
  }

  lemma CreateResponseRoundTrip(resp: CreateAccountResponse, rest: seq<byte>)
    requires Short(resp.accountId) && Short(resp.message)
    ensures PyParseCreate(CreateResponseBytes(resp) + rest) ==
            Some(PyCreateReply(resp.accountId, StatusByte(resp.status), resp.message))
    ensures StatusOfByte(StatusByte(resp.status)) == Some(resp.status)
    ensures PyParseCreate(CreateResponseBytes(resp) + rest).value.status == 0 <==> resp.status.Ok?
  {
    StatusBytes(StatusByte(resp.status), resp.status);
    hide StringField, PyReadString;
    var data := CreateResponseBytes(resp) + rest;
    var id, msg := StringField(resp.accountId), StringField(resp.message);
    assert data[17] == StatusByte(resp.status);
    assert data[18..18 + |id|] == id;
    PyReadWritten(data, 18, resp.accountId);
    assert data[18 + |id|..18 + |id| + |msg|] == msg;
    PyReadWritten(data, 18 + |id|, resp.message);
  }
}
