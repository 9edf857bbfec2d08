/** The records that travel between the threads, the log and the clients. */
module Types {
  import opened Bytes

  datatype Option<+T> = None | Some(value: T)

  /** The contents of a `std::string`. */
  type Text = seq<byte>

  type Uuid = b: seq<byte> | |b| == 16 witness seq(16, _ => 0)

  const NIL_UUID: Uuid := [0, 0, 0, 0, 0, 0, 0, 0, 0, 0, 0, 0, 0, 0, 0, 0]

  /** A source string literal as bytes. */
  function Ascii(s: string): (r: Text)
    ensures |r| == |s|
    ensures forall i :: 0 <= i < |s| ==> r[i] as int == s[i] as int % 256
  {
    seq(|s|, i requires 0 <= i < |s| => Byte(s[i] as int))
  }

  datatype AccountType = Asset | Liability | Equity | Revenue | Expense

  function TypeByte(t: AccountType): byte {
    match t
    case Asset => 0
    case Liability => 1
    case Equity => 2
    case Revenue => 3
    case Expense => 4
  }

  function TypeOfByte(b: byte): Option<AccountType> {
    if b == 0 then Some(Asset)
    else if b == 1 then Some(Liability)
    else if b == 2 then Some(Equity)
    else if b == 3 then Some(Revenue)
    else if b == 4 then Some(Expense)
    else None
  }

  datatype TxStatus = Ok | InsufficientFunds | AccountNotFound | InvariantViolated | InternalError

  function StatusByte(s: TxStatus): byte {
    match s
    case Ok => 0
    case InsufficientFunds => 1
    case AccountNotFound => 2
    case InvariantViolated => 3
    case InternalError => 4
  }

  function StatusOfByte(b: byte): Option<TxStatus> {
    if b == 0 then Some(Ok)
    else if b == 1 then Some(InsufficientFunds)
    else if b == 2 then Some(AccountNotFound)
    else if b == 3 then Some(InvariantViolated)
    else if b == 4 then Some(InternalError)
    else None
  }

  /** The byte determines the status, and zero is success. */
  lemma StatusBytes(b: byte, s: TxStatus)
    ensures StatusOfByte(b) == Some(s) <==> b == StatusByte(s)
    ensures StatusByte(s) == 0 <==> s.Ok?
  {}

  lemma TypeBytes(b: byte, t: AccountType)
    ensures TypeOfByte(b) == Some(t) <==> b == TypeByte(t)
  {}

  /** The numbers of the two enumerations, as the clients know them. */
  lemma EnumNumbers()
    ensures TypeByte(Asset) == 0 && TypeByte(Liability) == 1 && TypeByte(Equity) == 2
    ensures TypeByte(Revenue) == 3 && TypeByte(Expense) == 4
    ensures StatusByte(Ok) == 0 && StatusByte(InsufficientFunds) == 1 && StatusByte(AccountNotFound) == 2
    ensures StatusByte(InvariantViolated) == 3 && StatusByte(InternalError) == 4
  {}

  datatype AccountInfo = AccountInfo(id: Text, name: Text, kind: AccountType, balance: int)

  datatype TransactionRequest = TransactionRequest(
    correlationId: Uuid,
    idempotencyKey: Text,
    description: Text,
    debitAccountId: Text,
    creditAccountId: Text,
    amountMinor: int,
    currency: Text,
    stripeChargeId: Text)

  datatype TransactionResponse = TransactionResponse(
    correlationId: Uuid,
    transactionId: Uuid,
    status: TxStatus,
    message: Text,
    latencyUs: int)

  datatype CreateAccountRequest = CreateAccountRequest(correlationId: Uuid, name: Text, kind: AccountType)

  datatype CreateAccountResponse = CreateAccountResponse(
    correlationId: Uuid,
    accountId: Text,
    status: TxStatus,
    message: Text)
}
