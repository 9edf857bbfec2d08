/** The account table: validation, transfers, sums over accounts, and the table a log describes. */
module Accounts {
  import opened Types
  import opened RecordCodec

  type Table = map<Text, AccountInfo>

  // ---- Transfers ------------------------------------------------------------------------------

  /** `validate_transaction` */
  function Validate(accounts: Table, req: TransactionRequest): TxStatus {
    if req.amountMinor <= 0 then InternalError
    else if req.debitAccountId !in accounts || req.creditAccountId !in accounts then AccountNotFound
    else if accounts[req.debitAccountId].kind.Asset? && accounts[req.debitAccountId].balance < req.amountMinor
    then InsufficientFunds
    else Ok
  }

  function Adjust(accounts: Table, id: Text, delta: int): Table
    requires id in accounts
  {
    accounts[id := accounts[id].(balance := accounts[id].balance + delta)]
  }

  /** `apply_transaction`: the debited balance goes down, then the credited one goes up. */
  function Transfer(accounts: Table, debit: Text, credit: Text, amount: int): (r: Table)
    requires debit in accounts && credit in accounts
    ensures r.Keys == accounts.Keys
  {
    Adjust(Adjust(accounts, debit, -amount), credit, amount)
  }

  function Insert(accounts: Table, info: AccountInfo): Table {
    accounts[info.id := info]
  }

  /** What a transfer does to every single account. */
  lemma TransferEffect(accounts: Table, debit: Text, credit: Text, amount: int, id: Text)
    requires debit in accounts && credit in accounts && id in accounts
    ensures Transfer(accounts, debit, credit, amount)[id] ==
            accounts[id].(balance := accounts[id].balance
                                     - (if id == debit then amount else 0)
                                     + (if id == credit then amount else 0))
  {}

  predicate AssetsCovered(accounts: Table) {
    forall id :: id in accounts && accounts[id].kind.Asset? ==> accounts[id].balance >= 0
  }

  /**
    What can be paid is accepted: a positive amount between existing accounts passes if and only if
    the debit would not leave an asset account below zero.
   */
  lemma AcceptedExactly(accounts: Table, req: TransactionRequest)
    requires req.amountMinor > 0 && req.debitAccountId in accounts && req.creditAccountId in accounts
    ensures var after := Adjust(accounts, req.debitAccountId, -req.amountMinor)[req.debitAccountId];
            Validate(accounts, req).Ok? <==> (after.kind.Asset? ==> after.balance >= 0)
    ensures AssetsCovered(accounts) ==>
              (Validate(accounts, req).Ok? <==>
               AssetsCovered(Adjust(accounts, req.debitAccountId, -req.amountMinor)))
  {
    var table := Adjust(accounts, req.debitAccountId, -req.amountMinor);
    assert table[req.debitAccountId].kind == accounts[req.debitAccountId].kind;
  }

  /** When each answer is given: the amount is looked at first, then the accounts, then the cover. */
  lemma RefusedExactly(accounts: Table, req: TransactionRequest)
    requires AssetsCovered(accounts)
    ensures var status, exist := Validate(accounts, req),
                                 req.debitAccountId in accounts && req.creditAccountId in accounts;
            && (status.InternalError? <==> req.amountMinor <= 0)
            && (status.AccountNotFound? <==> req.amountMinor > 0 && !exist)
            && (status.InsufficientFunds? <==>
                  && req.amountMinor > 0 && exist
                  && !AssetsCovered(Adjust(accounts, req.debitAccountId, -req.amountMinor)))
            && !status.InvariantViolated?
  {
    if req.amountMinor > 0 && req.debitAccountId in accounts && req.creditAccountId in accounts {
      AcceptedExactly(accounts, req);
    }
  }

  lemma TransferKeepsCover(accounts: Table, req: TransactionRequest)
    requires AssetsCovered(accounts) && Validate(accounts, req).Ok?
    ensures AssetsCovered(Transfer(accounts, req.debitAccountId, req.creditAccountId, req.amountMinor))
  {}

  // ---- Sums -----------------------------------------------------------------------------------

  ghost function Sum(accounts: Table, ids: set<Text>): int
    requires ids <= accounts.Keys
    decreases |ids|
  {
    if ids == {} then 0
    else
      var id :| id in ids;
      accounts[id].balance + Sum(accounts, ids - {id})
  }

  /** The order in which accounts are added up does not matter. */
  lemma {:induction false} SumWithout(accounts: Table, ids: set<Text>, id: Text)
    requires ids <= accounts.Keys && id in ids
    ensures Sum(accounts, ids) == accounts[id].balance + Sum(accounts, ids - {id})
    decreases |ids|
  {
    var pick :| pick in ids && Sum(accounts, ids) == accounts[pick].balance + Sum(accounts, ids - {pick});
    if pick != id {
      SumWithout(accounts, ids - {pick}, id);
      SumWithout(accounts, ids - {id}, pick);
      assert ids - {pick} - {id} == ids - {id} - {pick};
    }
  }

  lemma {:induction false} SumSame(a: Table, b: Table, ids: set<Text>)
    requires ids <= a.Keys && ids <= b.Keys
    requires forall id :: id in ids ==> a[id].balance == b[id].balance
    ensures Sum(a, ids) == Sum(b, ids)
    decreases |ids|
  {
    if ids != {} {
      var id :| id in ids;
      SumWithout(a, ids, id);
      SumWithout(b, ids, id);
      SumSame(a, b, ids - {id});
    }
  }

  lemma {:induction false} SumAdjust(accounts: Table, id: Text, delta: int, ids: set<Text>)
    requires id in accounts && ids <= accounts.Keys
    ensures Sum(Adjust(accounts, id, delta), ids) == Sum(accounts, ids) + if id in ids then delta else 0
  {
    var after := Adjust(accounts, id, delta);
    if id in ids {
      SumWithout(accounts, ids, id);
      SumWithout(after, ids, id);
      SumSame(accounts, after, ids - {id});
    } else {
      SumSame(accounts, after, ids);
    }
  }

  /** A transfer moves a sum by the amount leaving and the amount entering the summed accounts. */
  lemma {:induction false} SumTransfer(accounts: Table, debit: Text, credit: Text, amount: int, ids: set<Text>)
    requires debit in accounts && credit in accounts && ids <= accounts.Keys
    ensures Sum(Transfer(accounts, debit, credit, amount), ids) ==
            Sum(accounts, ids) - (if debit in ids then amount else 0) + (if credit in ids then amount else 0)
  {
    SumAdjust(accounts, debit, -amount, ids);
    SumAdjust(Adjust(accounts, debit, -amount), credit, amount, ids);
  }

  lemma {:induction false} SumUnion(accounts: Table, a: set<Text>, b: set<Text>)
    requires a <= accounts.Keys && b <= accounts.Keys && a !! b
    ensures Sum(accounts, a + b) == Sum(accounts, a) + Sum(accounts, b)
    decreases |a|
  {
    if a == {} {
      assert a + b == b;
    } else {
      var id :| id in a;
      SumWithout(accounts, a, id);
      SumWithout(accounts, a + b, id);
      assert a + b - {id} == (a - {id}) + b;
      SumUnion(accounts, a - {id}, b);
    }
  }

  // ---- The table a log describes --------------------------------------------------------------

  function ZeroBalances(accounts: Table): (r: Table)
    ensures r.Keys == accounts.Keys
  {
    map id | id in accounts :: accounts[id].(balance := 0)
  }

  predicate Covers(accounts: Table, log: seq<WalRecord>) {
    forall i :: 0 <= i < |log| ==>
      log[i].request.debitAccountId in accounts && log[i].request.creditAccountId in accounts
  }

  /** Folding the transfers of a log, oldest first, over a table. */
  function Fold(accounts: Table, log: seq<WalRecord>): (r: Table)
    requires Covers(accounts, log)
    ensures r.Keys == accounts.Keys
    decreases |log|
  {
    if log == [] then accounts
    else
      var last := log[|log| - 1].request;
      Transfer(Fold(accounts, log[..|log| - 1]), last.debitAccountId, last.creditAccountId, last.amountMinor)
  }

  /** The amounts committed in total. */
  function Committed(log: seq<WalRecord>): int
    decreases |log|
  {
    if log == [] then 0 else Committed(log[..|log| - 1]) + log[|log| - 1].request.amountMinor
  }

  predicate AllPositive(log: seq<WalRecord>) {
    forall i :: 0 <= i < |log| ==> log[i].request.amountMinor > 0
  }

  /** An account no transaction mentions can be added before or after the fold. */
  lemma {:induction false} FoldInsert(accounts: Table, log: seq<WalRecord>, info: AccountInfo)
    requires Covers(accounts, log) && info.id !in accounts
    ensures Covers(Insert(accounts, info), log)
    ensures Fold(Insert(accounts, info), log) == Insert(Fold(accounts, log), info)
    decreases |log|
  {
    if log != [] {
      FoldInsert(accounts, log[..|log| - 1], info);
    }
  }

  lemma {:induction false} ZeroSum(accounts: Table, ids: set<Text>)
    requires ids <= accounts.Keys
    ensures Sum(ZeroBalances(accounts), ids) == 0
    decreases |ids|
  {
    if ids != {} {
      var id :| id in ids;
      SumWithout(ZeroBalances(accounts), ids, id);
      ZeroSum(accounts, ids - {id});
    }
  }

  /**
    Double entry: the balances always add up to zero, and the sum over any set of accounts stays
    within the total committed.
   */
  lemma {:induction false} FoldSums(accounts: Table, log: seq<WalRecord>, ids: set<Text>)
    requires Covers(accounts, log) && AllPositive(log) && ids <= accounts.Keys
    ensures Sum(Fold(ZeroBalances(accounts), log), accounts.Keys) == 0
    ensures -Committed(log) <= Sum(Fold(ZeroBalances(accounts), log), ids) <= Committed(log)
    decreases |log|
  {
    if log == [] {
      ZeroSum(accounts, accounts.Keys);
      ZeroSum(accounts, ids);
    } else {
      var before := log[..|log| - 1];
      var last := log[|log| - 1].request;
      FoldSums(accounts, before, ids);
      var table := Fold(ZeroBalances(accounts), before);
      SumTransfer(table, last.debitAccountId, last.creditAccountId, last.amountMinor, accounts.Keys);
      SumTransfer(table, last.debitAccountId, last.creditAccountId, last.amountMinor, ids);
    }
  }

  lemma {:induction false} FoldSnoc(accounts: Table, log: seq<WalRecord>, w: WalRecord)
    requires Covers(accounts, log + [w])
    ensures Covers(accounts, log)
    ensures w.request.debitAccountId in accounts && w.request.creditAccountId in accounts
    ensures Fold(accounts, log + [w]) ==
            Transfer(Fold(accounts, log), w.request.debitAccountId, w.request.creditAccountId, w.request.amountMinor)
  {
    assert (log + [w])[|log|] == w;
    assert (log + [w])[..|log|] == log;
    forall i | 0 <= i < |log|
      ensures log[i].request.debitAccountId in accounts && log[i].request.creditAccountId in accounts
    {
      assert (log + [w])[i] == log[i];
    }
  }

  /** A transfer does not see the balances: it changes neither ids, names nor kinds. */
  lemma ZeroTransfer(accounts: Table, debit: Text, credit: Text, amount: int)
    requires debit in accounts && credit in accounts
    ensures ZeroBalances(Transfer(accounts, debit, credit, amount)) == ZeroBalances(accounts)
  {}
}
