/**
  The engine's accounting check: what `invariant_ok` means, when it holds, and that computing it
  never leaves 64 bits.
 */
module Residual {
  import opened Masks
  import opened Bytes
  import opened Types
  import opened Codec
  import opened RecordCodec
  import opened Accounts

  predicate AssetSide(k: AccountType) { k.Asset? || k.Expense? }

  predicate EquitySide(k: AccountType) { k.Equity? || k.Revenue? }

  ghost function AssetIds(accounts: Table): set<Text> {
    set id | id in accounts && AssetSide(accounts[id].kind)
  }

  ghost function LiabilityIds(accounts: Table): set<Text> {
    set id | id in accounts && accounts[id].kind.Liability?
  }

  ghost function EquityIds(accounts: Table): set<Text> {
    set id | id in accounts && EquitySide(accounts[id].kind)
  }

  /** Assets minus liabilities minus equity. */
  ghost function Residue(accounts: Table): int {
    Sum(accounts, AssetIds(accounts)) - Sum(accounts, LiabilityIds(accounts)) - Sum(accounts, EquityIds(accounts))
  }

  /** The groups by account type, and the residue over them, written out. */
  lemma {:induction false} SidesWrittenOut(accounts: Table)
    ensures AssetIds(accounts) == set id | id in accounts && (accounts[id].kind.Asset? || accounts[id].kind.Expense?)
    ensures LiabilityIds(accounts) == set id | id in accounts && accounts[id].kind.Liability?
    ensures EquityIds(accounts) == set id | id in accounts && (accounts[id].kind.Equity? || accounts[id].kind.Revenue?)
    ensures Residue(accounts) == Sum(accounts, AssetIds(accounts)) - Sum(accounts, LiabilityIds(accounts))
                                 - Sum(accounts, EquityIds(accounts))
  {}

  lemma {:induction false} SidesAddUp(accounts: Table)
    ensures Sum(accounts, accounts.Keys) ==
            Sum(accounts, AssetIds(accounts)) + Sum(accounts, LiabilityIds(accounts))
            + Sum(accounts, EquityIds(accounts))
  {
    var a, l, e := AssetIds(accounts), LiabilityIds(accounts), EquityIds(accounts);
    SumUnion(accounts, a, l);
    SumUnion(accounts, a + l, e);
    forall id | id in accounts.Keys
      ensures id in a + l + e
    {
      match accounts[id].kind {
        case Asset =>
        case Liability =>
        case Equity =>
        case Revenue =>
        case Expense =>
      }
    }
    assert a + l + e == accounts.Keys;
  }

  /** When all balances add up to zero, the residue is twice the asset side: the check asks for an empty asset side. */
  lemma {:induction false} ResidueIsTwiceAssets(accounts: Table)
    requires Sum(accounts, accounts.Keys) == 0
    ensures Residue(accounts) == 2 * Sum(accounts, AssetIds(accounts))
    ensures Residue(accounts) == 0 <==> Sum(accounts, AssetIds(accounts)) == 0
  {
    SidesAddUp(accounts);
  }

  /** A transfer within one side leaves the residue alone; across the sides it moves it by twice the amount. */
  lemma ResidueAfterTransfer(accounts: Table, debit: Text, credit: Text, amount: int)
    requires debit in accounts && credit in accounts
    ensures Residue(Transfer(accounts, debit, credit, amount)) - Residue(accounts) ==
            (if AssetSide(accounts[credit].kind) then amount else -amount)
            - (if AssetSide(accounts[debit].kind) then amount else -amount)
  {
    var after := Transfer(accounts, debit, credit, amount);
    var a, l, e := AssetIds(accounts), LiabilityIds(accounts), EquityIds(accounts);
    assert AssetIds(after) == a && LiabilityIds(after) == l && EquityIds(after) == e;
    SumTransfer(accounts, debit, credit, amount, a);
    SumTransfer(accounts, debit, credit, amount, l);
    SumTransfer(accounts, debit, credit, amount, e);
    OneSide(accounts, debit);
    OneSide(accounts, credit);
  }

  /** How far a transfer between two accounts moves the residue, for every pair of account types. */
  lemma ResidueByKinds(accounts: Table, debit: Text, credit: Text, amount: int)
    requires debit in accounts && credit in accounts && debit != credit
    ensures var moved := Residue(Transfer(accounts, debit, credit, amount)) - Residue(accounts);
            match accounts[debit].kind
            case Asset =>
              (match accounts[credit].kind
               case Asset => moved == 0 case Expense => moved == 0
               case Liability => moved == -2 * amount case Equity => moved == -2 * amount
               case Revenue => moved == -2 * amount)
            case Expense =>
              (match accounts[credit].kind
               case Asset => moved == 0 case Expense => moved == 0
               case Liability => moved == -2 * amount case Equity => moved == -2 * amount
               case Revenue => moved == -2 * amount)
            case Liability =>
              (match accounts[credit].kind
               case Asset => moved == 2 * amount case Expense => moved == 2 * amount
               case Liability => moved == 0 case Equity => moved == 0 case Revenue => moved == 0)
            case Equity =>
              (match accounts[credit].kind
               case Asset => moved == 2 * amount case Expense => moved == 2 * amount
               case Liability => moved == 0 case Equity => moved == 0 case Revenue => moved == 0)
            case Revenue =>
              (match accounts[credit].kind
               case Asset => moved == 2 * amount case Expense => moved == 2 * amount
               case Liability => moved == 0 case Equity => moved == 0 case Revenue => moved == 0)
  {
    hide Residue, Transfer;
    ResidueAfterTransfer(accounts, debit, credit, amount);
  }

  lemma OneSide(accounts: Table, id: Text)
    requires id in accounts
    ensures id in AssetIds(accounts) <==> AssetSide(accounts[id].kind)
    ensures id !in AssetIds(accounts) ==> (id in LiabilityIds(accounts) <==> id !in EquityIds(accounts))
    ensures id in AssetIds(accounts) ==> id !in LiabilityIds(accounts) && id !in EquityIds(accounts)
  {
    match accounts[id].kind {
      case Asset =>
      case Liability =>
      case Equity =>
      case Revenue =>
      case Expense =>
    }
  }

  /** Exactly the transfers between accounts of one side preserve a passing check. */
  lemma FlagPreserved(accounts: Table, req: TransactionRequest)
    requires Validate(accounts, req).Ok? && Residue(accounts) == 0
    ensures Residue(Transfer(accounts, req.debitAccountId, req.creditAccountId, req.amountMinor)) == 0 <==>
            (AssetSide(accounts[req.debitAccountId].kind) <==> AssetSide(accounts[req.creditAccountId].kind))
  {
    ResidueAfterTransfer(accounts, req.debitAccountId, req.creditAccountId, req.amountMinor);
  }

  /** What the transactions of a log moved to the asset side, net of what they moved away from it. */
  function Flow(accounts: Table, log: seq<WalRecord>): int
    requires Covers(accounts, log)
    decreases |log|
  {
    if log == [] then 0
    else
      var last := log[|log| - 1].request;
      Flow(accounts, log[..|log| - 1])
      + (if AssetSide(accounts[last.creditAccountId].kind) then last.amountMinor else 0)
      - (if AssetSide(accounts[last.debitAccountId].kind) then last.amountMinor else 0)
  }

  /** Folded over zero balances, a log leaves exactly its net flow on the asset side. */
  lemma {:induction false} FlowIsAssets(accounts: Table, log: seq<WalRecord>)
    requires Covers(accounts, log)
    ensures Sum(Fold(ZeroBalances(accounts), log), AssetIds(accounts)) == Flow(accounts, log)
    decreases |log|
  {
    var assets := AssetIds(accounts);
    if log == [] {
      ZeroSum(accounts, assets);
    } else {
      var before := log[..|log| - 1];
      var last := log[|log| - 1].request;
      FlowIsAssets(accounts, before);
      var table := Fold(ZeroBalances(accounts), before);
      SumTransfer(table, last.debitAccountId, last.creditAccountId, last.amountMinor, assets);
    }
  }

  // ---- 64-bit sums ----------------------------------------------------------------------------

  const HALF: int := 0x4000_0000_0000_0000

  /** Every set of balances adds up to less than 2^62 in magnitude. */
  ghost predicate Bounded(accounts: Table) {
    forall ids: set<Text> :: ids <= accounts.Keys ==> -HALF < Sum(accounts, ids) < HALF
  }

  /** Less than 2^62 committed in total keeps every set of balances below that bound. */
  lemma {:induction false} CommittedBound(accounts: Table, log: seq<WalRecord>)
    requires Covers(accounts, log) && AllPositive(log) && Committed(log) < HALF
    ensures Bounded(Fold(ZeroBalances(accounts), log))
  {
    var table := Fold(ZeroBalances(accounts), log);
    forall ids: set<Text> | ids <= table.Keys
      ensures -HALF < Sum(table, ids) < HALF
    {
      FoldSums(accounts, log, ids);
    }
  }

  /** Both updates of a transfer, and the value between them, stay in 64 bits. */
  lemma {:induction false} TransferInRange(accounts: Table, log: seq<WalRecord>, debit: Text, credit: Text, amount: int)
    requires Covers(accounts, log) && AllPositive(log) && amount > 0 && Committed(log) + amount < HALF
    requires debit in accounts && credit in accounts
    ensures var table := Fold(ZeroBalances(accounts), log);
            && IsInt64(table[debit].balance - amount)
            && IsInt64(Adjust(table, debit, -amount)[credit].balance + amount)
  {
    var table := Fold(ZeroBalances(accounts), log);
    FoldSums(accounts, log, {debit});
    FoldSums(accounts, log, {credit});
    SumWithout(table, {debit}, debit);
    SumWithout(table, {credit}, credit);
    assert {debit} - {debit} == {} && {credit} - {credit} == {};
  }

  /** A loop has visited `seen` and added up the accounts of one group. */
  ghost predicate PartialSum(accounts: Table, group: set<Text>, seen: set<Text>, total: int) {
    group * seen <= accounts.Keys && total == Sum(accounts, group * seen)
  }

  lemma PartialStep(accounts: Table, group: set<Text>, seen: set<Text>, total: int, id: Text)
    requires PartialSum(accounts, group, seen, total) && id in accounts && id !in seen
    ensures PartialSum(accounts, group, seen + {id}, if id in group then total + accounts[id].balance else total)
  {
    if id in group {
      assert group * (seen + {id}) - {id} == group * seen;
      SumWithout(accounts, group * (seen + {id}), id);
    } else {
      assert group * (seen + {id}) == group * seen;
    }
  }

  /** The three running totals of a loop that has visited `seen`. */
  ghost predicate Progress(accounts: Table, seen: set<Text>, assets: int, liabilities: int, equity: int) {
    && PartialSum(accounts, AssetIds(accounts), seen, assets)
    && PartialSum(accounts, LiabilityIds(accounts), seen, liabilities)
    && PartialSum(accounts, EquityIds(accounts), seen, equity)
  }

  lemma ProgressStart(accounts: Table)
    ensures Progress(accounts, {}, 0, 0, 0)
  {
    assert AssetIds(accounts) * {} == {} && LiabilityIds(accounts) * {} == {} && EquityIds(accounts) * {} == {};
  }

  /** One account more, whichever it is; no running total leaves 64 bits. */
  lemma ProgressStep(accounts: Table, seen: set<Text>, assets: int, liabilities: int, equity: int, id: Text)
    requires Bounded(accounts) && Progress(accounts, seen, assets, liabilities, equity)
    requires id in accounts && id !in seen
    ensures var info := accounts[id];
            var a := if AssetSide(info.kind) then assets + info.balance else assets;
            var l := if info.kind.Liability? then liabilities + info.balance else liabilities;
            var e := if EquitySide(info.kind) then equity + info.balance else equity;
            Progress(accounts, seen + {id}, a, l, e) && IsInt64(a) && IsInt64(l) && IsInt64(e)
  {
    PartialStep(accounts, AssetIds(accounts), seen, assets, id);
    PartialStep(accounts, LiabilityIds(accounts), seen, liabilities, id);
    PartialStep(accounts, EquityIds(accounts), seen, equity, id);
  }

  lemma {:induction false} PartialDone(accounts: Table, group: set<Text>, total: int)
    requires group <= accounts.Keys && PartialSum(accounts, group, accounts.Keys, total)
    ensures total == Sum(accounts, group)
  {
    assert group * accounts.Keys == group;
  }

  lemma {:induction false} ProgressDone(accounts: Table, assets: int, liabilities: int, equity: int)
    requires Progress(accounts, accounts.Keys, assets, liabilities, equity)
    ensures assets == Sum(accounts, AssetIds(accounts)) && liabilities == Sum(accounts, LiabilityIds(accounts))
    ensures equity == Sum(accounts, EquityIds(accounts))
    ensures assets - liabilities - equity == Residue(accounts)
  {
    PartialDone(accounts, AssetIds(accounts), assets);
    PartialDone(accounts, LiabilityIds(accounts), liabilities);
    PartialDone(accounts, EquityIds(accounts), equity);
  }

  /** The switch inside both loops over the accounts. */
  method Tally(info: AccountInfo, assets: int, liabilities: int, equity: int) returns (a: int, l: int, e: int)
    ensures a == if AssetSide(info.kind) then assets + info.balance else assets
    ensures l == if info.kind.Liability? then liabilities + info.balance else liabilities
    ensures e == if EquitySide(info.kind) then equity + info.balance else equity
  {
    a, l, e := assets, liabilities, equity;
    match info.kind {
      case Asset => a := a + info.balance;
      case Liability => l := l + info.balance;
      case Equity => e := e + info.balance;
      case Revenue => e := e + info.balance;
      case Expense => a := a + info.balance;
    }
  }

  /** `check_invariant`: one pass over the accounts in any order. */
  method CheckInvariant(accounts: Table) returns (ok: bool)
    requires Bounded(accounts)
    ensures ok <==> Residue(accounts) == 0
  {
    hide Bounded, Progress, Sum, Residue;
    var assets, liabilities, equity := 0, 0, 0;
    var rest := accounts.Keys;
    ghost var seen := {};
    ProgressStart(accounts);
    while rest != {}
      invariant rest + seen == accounts.Keys && rest !! seen
      invariant Progress(accounts, seen, assets, liabilities, equity)
      invariant IsInt64(assets) && IsInt64(liabilities) && IsInt64(equity)
      decreases |rest|
    {
      var id :| id in rest;
      var info := accounts[id];
      ProgressStep(accounts, seen, assets, liabilities, equity, id);
      assets, liabilities, equity := Tally(info, assets, liabilities, equity);
      rest := rest - {id};
      seen := seen + {id};
    }
    assert seen == accounts.Keys;
    ProgressDone(accounts, assets, liabilities, equity);
    ok := assets - liabilities - equity == 0;
  }

  /** `listed` names every account exactly once. */
  ghost predicate Lists(listed: seq<AccountInfo>, order: seq<Text>, accounts: Table, ids: set<Text>) {
    && |listed| == |order|
    && (forall i, j :: 0 <= i < j < |order| ==> order[i] != order[j])
    && (forall i :: 0 <= i < |order| ==> order[i] in accounts && order[i] in ids && listed[i] == accounts[order[i]])
    && (forall id :: id in ids ==> id in order)
  }

  /** Exactly the accounts of `ids`, each once and as it stands in the table. */
  lemma {:induction false} ListsExactly(listed: seq<AccountInfo>, order: seq<Text>, accounts: Table, ids: set<Text>)
    requires ids <= accounts.Keys
    ensures Lists(listed, order, accounts, ids) <==>
              && multiset(order) == multiset(ids) && |listed| == |order|
              && forall i :: 0 <= i < |order| ==> order[i] in accounts && listed[i] == accounts[order[i]]
  {
    OnceEach(order);
    if Lists(listed, order, accounts, ids) {
      forall id: Text
        ensures multiset(order)[id] == multiset(ids)[id]
      {
        assert id in order <==> id in ids;
        assert id in multiset(order) <==> id in order;
      }
    }
    if multiset(order) == multiset(ids) {
      forall id: Text
        ensures id in order <==> id in ids
        ensures multiset(order)[id] <= 1
      {
        assert id in order <==> id in multiset(order);
        assert id in ids <==> id in multiset(ids);
      }
      forall i | 0 <= i < |order|
        ensures order[i] in ids
      {
        assert order[i] in order;
      }
    }
  }

  /** A list without repetitions is one that holds everything at most once. */
  lemma {:induction false} OnceEach(order: seq<Text>)
    ensures (forall i, j :: 0 <= i < j < |order| ==> order[i] != order[j]) <==>
            (forall id :: multiset(order)[id] <= 1)
    decreases |order|
  {
    if order != [] {
      var last, front := order[|order| - 1], order[..|order| - 1];
      OnceEach(front);
      assert order == front + [last];
      assert last in front <==> multiset(front)[last] > 0;
      assert multiset(order)[last] == multiset(front)[last] + 1;
      assert forall id :: multiset(order)[id] >= multiset(front)[id];
      if forall i, j :: 0 <= i < j < |order| ==> order[i] != order[j] {
        assert last !in front;
      }
      if forall id :: multiset(order)[id] <= 1 {
        assert last !in front;
      }
    }
  }

  /** `get_balance_snapshot`: the listing and the three totals of one pass, in any order. */
  method GetBalanceSnapshot(accounts: Table) returns (snap: Snapshot, ghost order: seq<Text>)
    requires Bounded(accounts)
    ensures Lists(snap.accounts, order, accounts, accounts.Keys)
    ensures snap.totalAssets == Sum(accounts, AssetIds(accounts))
    ensures snap.totalLiabilities == Sum(accounts, LiabilityIds(accounts))
    ensures snap.totalEquity == Sum(accounts, EquityIds(accounts))
    ensures snap.invariantOk <==> Residue(accounts) == 0
    ensures IsInt64(snap.totalAssets) && IsInt64(snap.totalLiabilities) && IsInt64(snap.totalEquity)
  {
    var listed := [];
    order := [];
    var assets, liabilities, equity := 0, 0, 0;
    var rest := accounts.Keys;
    PassStart(accounts);
    hide *;
    while rest != {}
      invariant InPass(accounts, rest, listed, order, assets, liabilities, equity)
      invariant rest <= accounts.Keys
      decreases |rest|
    {
      var id :| id in rest;
      var info := accounts[id];
      PassStep(accounts, rest, listed, order, assets, liabilities, equity, id);
      listed := listed + [info];
      order := order + [id];
      assets, liabilities, equity := Tally(info, assets, liabilities, equity);
      rest := rest - {id};
    }
    PassEnd(accounts, listed, order, assets, liabilities, equity);
    snap := Snapshot(listed, assets, liabilities, equity, assets - liabilities - equity == 0);
  }

  /** Everything but `rest` has been listed and added up. */
  ghost predicate InPass(accounts: Table, rest: set<Text>, listed: seq<AccountInfo>, order: seq<Text>,
                         assets: int, liabilities: int, equity: int)
  {
    && rest <= accounts.Keys
    && Lists(listed, order, accounts, accounts.Keys - rest)
    && Progress(accounts, accounts.Keys - rest, assets, liabilities, equity)
    && IsInt64(assets) && IsInt64(liabilities) && IsInt64(equity)
  }

  lemma PassStart(accounts: Table)
    ensures InPass(accounts, accounts.Keys, [], [], 0, 0, 0)
  {
    assert accounts.Keys - accounts.Keys == {};
    ProgressStart(accounts);
    ListsNothing(accounts);
  }

  lemma PassStep(accounts: Table, rest: set<Text>, listed: seq<AccountInfo>, order: seq<Text>,
                 assets: int, liabilities: int, equity: int, id: Text)
    requires Bounded(accounts) && InPass(accounts, rest, listed, order, assets, liabilities, equity) && id in rest
    ensures var info := accounts[id];
            InPass(accounts, rest - {id}, listed + [info], order + [id],
                   if AssetSide(info.kind) then assets + info.balance else assets,
                   if info.kind.Liability? then liabilities + info.balance else liabilities,
                   if EquitySide(info.kind) then equity + info.balance else equity)
  {
    hide Lists, Progress, Bounded;
    var seen := accounts.Keys - rest;
    assert accounts.Keys - (rest - {id}) == seen + {id};
    ListsOneMore(listed, order, accounts, seen, id);
    ProgressStep(accounts, seen, assets, liabilities, equity, id);
  }

  lemma {:induction false} PassEnd(accounts: Table, listed: seq<AccountInfo>, order: seq<Text>,
                                   assets: int, liabilities: int, equity: int)
    requires InPass(accounts, {}, listed, order, assets, liabilities, equity)
    ensures Lists(listed, order, accounts, accounts.Keys)
    ensures assets == Sum(accounts, AssetIds(accounts)) && liabilities == Sum(accounts, LiabilityIds(accounts))
    ensures equity == Sum(accounts, EquityIds(accounts)) && assets - liabilities - equity == Residue(accounts)
    ensures IsInt64(assets) && IsInt64(liabilities) && IsInt64(equity)
  {
    assert accounts.Keys - {} == accounts.Keys;
    ProgressDone(accounts, assets, liabilities, equity);
  }

  lemma ListsNothing(accounts: Table)
    ensures Lists([], [], accounts, {})
  {}

  lemma ListsOneMore(listed: seq<AccountInfo>, order: seq<Text>, accounts: Table, ids: set<Text>, id: Text)
    requires Lists(listed, order, accounts, ids) && id in accounts && id !in ids
    ensures Lists(listed + [accounts[id]], order + [id], accounts, ids + {id})
  {}

  /** The snapshot of a bounded table fits its message, as far as its texts and the number of accounts do. */
  lemma SnapshotSerializable(accounts: Table, snap: Snapshot, order: seq<Text>)
    requires Bounded(accounts) && Lists(snap.accounts, order, accounts, accounts.Keys) && |snap.accounts| < TWO_32
    requires forall id :: id in accounts ==> Short(accounts[id].id) && Short(accounts[id].name)
    requires IsInt64(snap.totalAssets) && IsInt64(snap.totalLiabilities) && IsInt64(snap.totalEquity)
    ensures SnapshotFits(snap)
  {
    hide Bounded;
    forall i | 0 <= i < |snap.accounts|
      ensures AccountFits(snap.accounts[i])
    {
      BalanceInRange(accounts, order[i]);
    }
  }

  lemma BalanceInRange(accounts: Table, id: Text)
    requires Bounded(accounts) && id in accounts
    ensures IsInt64(accounts[id].balance)
  {
    SumWithout(accounts, {id}, id);
    assert {id} - {id} == {};
  }

  /** Neither subtraction of the final check leaves 64 bits. */
  ghost predicate CheckInRange(accounts: Table) {
    && IsInt64(Sum(accounts, AssetIds(accounts)) - Sum(accounts, LiabilityIds(accounts)))
    && IsInt64(Residue(accounts))
  }

  /** That is so when all balances add up to zero and every set of them to less than 2^62. */
  lemma {:induction false} ResidueInRange(accounts: Table)
    requires Bounded(accounts)
    requires Sum(accounts, accounts.Keys) == 0
    ensures CheckInRange(accounts)
  {
    ResidueIsTwiceAssets(accounts);
  }
}
