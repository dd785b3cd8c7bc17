/**
 * Transaction application on plain values: what `consensus/transaction/apply.py`,
 * `fees.py` and `block/reward.py` make of a ledger, and the conservation laws.
 * The imperative version with its account objects is in module TransactionApply.
 */
module Ledgers {
  import opened Common
  import opened Sums

  type Address = Bytes

  const STORAGE_ADDRESS: Address := ZERO32

  /** The balance and counter of an account; `data` stands for its other fields. */
  datatype Acct = Acct(balance: int, counter: nat, data: nat)

  type Ledger = map<Address, Acct>

  /** What a handler writes: the account at `address` gets this balance and data. */
  datatype Write = Write(address: Address, balance: int, data: nat)

  /**
   * TRANSFER; a code with no handler; a code whose handler writes and then succeeds or fails. `asked` is
   * what the entry check wants beside the base fee, the amount and the execution fee; a credit-funding
   * code has None and is exempt from that check and from the guard on the base fee.
   */
  datatype Code = Transfer | Plain | Handled(writes: seq<Write>, succeeds: bool, asked: Option<int>)

  datatype Transaction = Transaction(chainId: int, sender: Address, recipient: Address, amount: int, counter: nat, code: Code)

  /** The storage fees that the block charges for one transaction; None where the expression cannot be sized. */
  datatype Fees = Fees(bloom: nat, operator: nat, transaction: Option<nat>, newAccount: Option<nat>, receipt: Option<nat>)

  datatype Receipt = Receipt(transactionFee: int, dataFee: int, storageFee: int, success: bool)

  const BASE_FEE := 1

  // ---------------------------------------------------------------- fee settlement

  datatype FeeSettlement = FeeSettlement(transactionFee: int, dataFee: int, storageFee: int,
                                         transferAmount: int, affordable: bool)
  {
    function Total(): int { transactionFee + dataFee + storageFee + transferAmount }
  }

  /** `settle_fees`: all in full with the transfer, or the fees alone in order until the balance is gone. */
  method SettleFees(balance: int, transactionFee: nat, dataFee: nat, storageFee: nat, transferAmount: int)
      returns (s: FeeSettlement)
    ensures s == Settlement(balance, transactionFee, dataFee, storageFee, transferAmount)
  {
    var owed := transactionFee + dataFee + storageFee;
    if balance >= owed + transferAmount {
      return FeeSettlement(transactionFee, dataFee, storageFee, transferAmount, true);
    }
    var remaining := Max(0, balance);
    var dues := [transactionFee, dataFee, storageFee];
    var paid: seq<int> := [];
    for i := 0 to 3
      invariant |paid| == i && remaining >= 0
      invariant i >= 1 ==> paid[0] == Min(Max(0, balance), transactionFee)
      invariant i == 0 ==> remaining == Max(0, balance)
      invariant i == 1 ==> remaining == Max(0, balance) - paid[0]
      invariant i >= 2 ==> paid[1] == Min(Max(0, balance) - paid[0], dataFee)
      invariant i == 2 ==> remaining == Max(0, balance) - paid[0] - paid[1]
      invariant i == 3 ==> paid[2] == Min(Max(0, balance) - paid[0] - paid[1], storageFee)
    {
      var part := Min(remaining, dues[i]);
      paid := paid + [part];
      remaining := remaining - part;
    }
    return FeeSettlement(paid[0], paid[1], paid[2], 0, false);
  }

  function Settlement(balance: int, transactionFee: nat, dataFee: nat, storageFee: nat, transferAmount: int): FeeSettlement
  {
    if balance >= transactionFee + dataFee + storageFee + transferAmount then
      FeeSettlement(transactionFee, dataFee, storageFee, transferAmount, true)
    else
      var first := Min(Max(0, balance), transactionFee);
      var second := Min(Max(0, balance) - first, dataFee);
      var third := Min(Max(0, balance) - first - second, storageFee);
      FeeSettlement(first, second, third, 0, false)
  }

  /** The rule of `fees.py`: a failure pays min(balance, owed), each fee only after the ones before it are paid in full. */
  lemma {:induction false} SettlementRule(balance: nat, transactionFee: nat, dataFee: nat, storageFee: nat, transferAmount: int)
    ensures var s := Settlement(balance, transactionFee, dataFee, storageFee, transferAmount);
      var owed := transactionFee + dataFee + storageFee;
      && (s.affordable <==> balance >= owed + transferAmount)
      && (s.affordable ==> s.Total() == owed + transferAmount && s.storageFee == storageFee)
      && (!s.affordable ==> s.Total() == Min(balance, owed) && s.transferAmount == 0)
      && 0 <= s.transactionFee <= transactionFee && 0 <= s.dataFee <= dataFee && 0 <= s.storageFee <= storageFee
      && (s.dataFee > 0 ==> s.transactionFee == transactionFee)
      && (s.storageFee > 0 ==> s.transactionFee == transactionFee && s.dataFee == dataFee)
      && s.Total() <= balance
  {
  }

  // ------------------------------------------------------------- one transaction

  function Touched(l: Ledger, a: Address, delta: int): Ledger
    requires a in l
  {
    l[a := l[a].(balance := l[a].balance + delta)]
  }

  function WithAccount(l: Ledger, a: Address): Ledger { if a in l then l else l[a := Acct(0, 0, 0)] }

  function Written(l: Ledger, writes: seq<Write>): Ledger
  {
    if writes == [] then l
    else
      var w := writes[|writes| - 1];
      var before := WithAccount(Written(l, writes[..|writes| - 1]), w.address);
      before[w.address := Acct(w.balance, before[w.address].counter, w.data)]
  }

  /** The ledger after the code's own effect, before any fee. */
  function Effect(l: Ledger, tx: Transaction): Ledger
  {
    match tx.code
    case Transfer => Touched(WithAccount(l, tx.recipient), tx.recipient, tx.amount)
    case Plain => WithAccount(l, tx.recipient)
    case Handled(writes, _, _) => Written(l, writes)
  }

  /** The amount that leaves the sender on success. */
  function Moved(tx: Transaction): int { if tx.code == Transfer then tx.amount else 0 }

  /** `_CREDIT_FUNDING_CODES`. */
  predicate Exempt(tx: Transaction) { tx.code.Handled? && tx.code.asked.None? }

  /** The balance that lets a transaction past the entry check. */
  predicate Admitted(tx: Transaction, balance: int)
  {
    Exempt(tx) || balance >= BASE_FEE + if tx.code.Handled? then tx.code.asked.value else tx.amount
  }

  /** A ledger in which the transaction does not raise. */
  predicate Applicable(l: Ledger, tx: Transaction, chainId: int)
  {
    && tx.chainId == chainId
    && STORAGE_ADDRESS in l
    && tx.sender in l && (Exempt(tx) || l[tx.sender].balance >= BASE_FEE)
  }

  /** A transaction raises unless it is for this chain and its sender has an account that can pay the base fee of 1. */
  lemma {:induction false} ApplicableIff(l: Ledger, tx: Transaction, chainId: int)
    ensures Applicable(l, tx, chainId) <==>
              && tx.chainId == chainId && STORAGE_ADDRESS in l && tx.sender in l
              && (l[tx.sender].balance >= 1 || (tx.code.Handled? && tx.code.asked.None?))
  {
  }

  predicate CounterMatches(l: Ledger, tx: Transaction)
    requires tx.sender in l
  {
    tx.counter == l[tx.sender].counter
  }

  /** The counter matches, the sender passes the entry check, and the handler did not fail. */
  predicate Ran(l: Ledger, tx: Transaction)
    requires tx.sender in l
  {
    && CounterMatches(l, tx)
    && Admitted(tx, l[tx.sender].balance)
    && (tx.code.Handled? ==> tx.code.succeeds)
  }

  predicate IsNew(l: Ledger, tx: Transaction) { !tx.code.Handled? && tx.recipient !in l }

  function OrZero(fee: Option<nat>): nat { if fee.Some? then fee.value else 0 }

  lemma {:induction false} EffectKeeps(l: Ledger, tx: Transaction)
    ensures l.Keys <= Effect(l, tx).Keys
    ensures forall a :: a in l ==> Effect(l, tx)[a].counter == l[a].counter
  {
    if tx.code.Handled? {
      WrittenKeeps(l, tx.code.writes);
    }
  }

  lemma {:induction false} WrittenKeeps(l: Ledger, writes: seq<Write>)
    ensures l.Keys <= Written(l, writes).Keys
    ensures forall a :: a in l ==> Written(l, writes)[a].counter == l[a].counter
  {
    if writes != [] {
      WrittenKeeps(l, writes[..|writes| - 1]);
    }
  }

  /** The sender's balance when the fees are checked. */
  function CheckedBalance(l: Ledger, tx: Transaction): int
    requires tx.sender in l
  {
    EffectKeeps(l, tx);
    Effect(l, tx)[tx.sender].balance
  }

  /** Enough is left for the bloom fee, so the operator inserts are priced too. */
  predicate BloomCovered(l: Ledger, tx: Transaction, fees: Fees)
    requires tx.sender in l
  {
    Ran(l, tx) && CheckedBalance(l, tx) >= BASE_FEE + Moved(tx) + fees.bloom
  }

  /** The storage fee owed, paid in full or not. */
  function OwedStorage(l: Ledger, tx: Transaction, fees: Fees): nat
    requires tx.sender in l
  {
    fees.bloom
    + (if BloomCovered(l, tx, fees) then fees.operator else 0)
    + OrZero(fees.transaction)
    + (if Ran(l, tx) && IsNew(l, tx) then OrZero(fees.newAccount) else 0)
    + OrZero(fees.receipt)
  }

  /** Exactly when a transaction succeeds. */
  predicate Succeeds(l: Ledger, tx: Transaction, fees: Fees)
    requires tx.sender in l
  {
    && Ran(l, tx)
    && fees.transaction.Some? && fees.receipt.Some? && (IsNew(l, tx) ==> fees.newAccount.Some?)
    && CheckedBalance(l, tx) >= BASE_FEE + Moved(tx) + OwedStorage(l, tx, fees)
  }

  lemma {:induction false} SuccessIsAffordable(l: Ledger, tx: Transaction, fees: Fees)
    requires tx.sender in l
    ensures Succeeds(l, tx, fees) ==>
              && CheckedBalance(l, tx) >= BASE_FEE + Moved(tx) + OwedStorage(l, tx, fees)
              && CounterMatches(l, tx)
  {
  }

  /** Take `total` from the sender, count the transaction, and give the storage fee to the storage account. */
  function Charged(l: Ledger, sender: Address, total: int, storageFee: int, counted: bool): Ledger
    requires sender in l && STORAGE_ADDRESS in l
  {
    var s := l[sender];
    var paid := l[sender := Acct(s.balance - total, s.counter + (if counted then 1 else 0), s.data)];
    Touched(paid, STORAGE_ADDRESS, storageFee)
  }

  function ReceiptOf(l: Ledger, tx: Transaction, fees: Fees): Receipt
    requires tx.sender in l
  {
    var owed := OwedStorage(l, tx, fees);
    if Succeeds(l, tx, fees) then Receipt(BASE_FEE, 0, owed, true)
    else
      var s := Settlement(l[tx.sender].balance, BASE_FEE, 0, owed, 0);
      Receipt(s.transactionFee, s.dataFee, s.storageFee, false)
  }

  /** The final settlement is what the receipt shows, and takes exactly that and the moved amount. */
  lemma {:induction false} SettlementIsReceipt(l: Ledger, tx: Transaction, fees: Fees)
    requires tx.sender in l
    ensures var (success, owed, r) := (Succeeds(l, tx, fees), OwedStorage(l, tx, fees), ReceiptOf(l, tx, fees));
      var s := Settlement(if success then CheckedBalance(l, tx) else l[tx.sender].balance, BASE_FEE, 0, owed,
                          if success then Moved(tx) else 0);
      && r == Receipt(s.transactionFee, s.dataFee, s.storageFee, success)
      && s.Total() == r.transactionFee + r.dataFee + r.storageFee + if success then Moved(tx) else 0
  {
    hide OwedStorage, Ran;
  }

  /** The ledger after one applicable transaction: its effect on success, nothing but fees and counter on failure. */
  function Applied(l: Ledger, tx: Transaction, fees: Fees): Ledger
    requires tx.sender in l && STORAGE_ADDRESS in l
  {
    var r := ReceiptOf(l, tx, fees);
    EffectKeeps(l, tx);
    if r.success then
      Charged(Effect(l, tx), tx.sender, r.transactionFee + r.dataFee + r.storageFee + Moved(tx), r.storageFee, true)
    else
      Charged(l, tx.sender, r.transactionFee + r.dataFee + r.storageFee, r.storageFee, CounterMatches(l, tx))
  }

  // ------------------------------------------------------------------ the laws

  ghost function Supply(l: Ledger): int { Sum(l.Keys, a => if a in l then l[a].balance else 0) }

  lemma {:induction false} SupplyUpdate(l: Ledger, a: Address, acct: Acct)
    ensures Supply(l[a := acct]) == Supply(l) - (if a in l then l[a].balance else 0) + acct.balance
  {
    var after := l[a := acct];
    var f := (x: Address) => if x in l then l[x].balance else 0;
    var g := (x: Address) => if x in after then after[x].balance else 0;
    var rest := l.Keys - {a};
    assert after.Keys == rest + {a};
    SumAdd(rest, a, g);
    SumCongruent(rest, f, g);
    if a in l {
      SumPick(l.Keys, a, f);
    } else {
      assert rest == l.Keys;
    }
  }

  lemma {:induction false} SupplyCharged(l: Ledger, sender: Address, total: int, storageFee: int, counted: bool)
    requires sender in l && STORAGE_ADDRESS in l
    ensures Supply(Charged(l, sender, total, storageFee, counted)) == Supply(l) - total + storageFee
  {
    var s := l[sender];
    var paid := l[sender := Acct(s.balance - total, s.counter + (if counted then 1 else 0), s.data)];
    SupplyUpdate(l, sender, paid[sender]);
    SupplyUpdate(paid, STORAGE_ADDRESS, Touched(paid, STORAGE_ADDRESS, storageFee)[STORAGE_ADDRESS]);
  }

  /**
   * One application lowers the supply by exactly the receipt's transaction and data fee:
   * always for a handler-free code, and for a code with a handler whenever it fails.
   */
  lemma {:induction false} SupplyAfterTransaction(l: Ledger, tx: Transaction, fees: Fees, chainId: int)
    requires Applicable(l, tx, chainId)
    requires tx.code.Handled? ==> !ReceiptOf(l, tx, fees).success
    ensures var r := ReceiptOf(l, tx, fees);
      Supply(Applied(l, tx, fees)) == Supply(l) - (r.transactionFee + r.dataFee)
  {
    hide Supply, Charged, Succeeds, OwedStorage;
    var r := ReceiptOf(l, tx, fees);
    EffectKeeps(l, tx);
    if r.success {
      var total := r.transactionFee + r.dataFee + r.storageFee + Moved(tx);
      SupplyCharged(Effect(l, tx), tx.sender, total, r.storageFee, true);
      SupplyUpdate(l, tx.recipient, Acct(0, 0, 0));
      var present := WithAccount(l, tx.recipient);
      SupplyUpdate(present, tx.recipient, Effect(l, tx)[tx.recipient]);
      assert present[tx.recipient := present[tx.recipient]] == present;
    } else {
      SupplyCharged(l, tx.sender, r.transactionFee + r.dataFee + r.storageFee, r.storageFee, CounterMatches(l, tx));
    }
  }

  /** The sender is never driven negative, whatever the code; only a credit-funding code admits one that is. */
  lemma {:induction false} SenderStaysNonNegative(l: Ledger, tx: Transaction, fees: Fees, chainId: int)
    requires Applicable(l, tx, chainId)
    ensures tx.sender in Applied(l, tx, fees)
    ensures l[tx.sender].balance >= 0 || !Exempt(tx) ==> Applied(l, tx, fees)[tx.sender].balance >= 0
    ensures Applied(l, tx, fees)[tx.sender].balance >= Min(0, l[tx.sender].balance)
  {
    EffectKeeps(l, tx);
  }

  ghost predicate NoneNegative(l: Ledger) { forall a :: a in l ==> l[a].balance >= 0 }

  /** A TRANSFER that takes more from its recipient than the recipient has: its amount is negative. */
  predicate Overdraws(l: Ledger, tx: Transaction, fees: Fees)
    requires tx.sender in l
  {
    && tx.code == Transfer && tx.recipient != tx.sender && Succeeds(l, tx, fees)
    && (if tx.recipient in l then l[tx.recipient].balance else 0) + tx.amount
       + (if tx.recipient == STORAGE_ADDRESS then OwedStorage(l, tx, fees) else 0) < 0
  }

  /** A handler-free transaction keeps every balance non-negative exactly when it does not overdraw its recipient. */
  lemma {:induction false} BalancesStayNonNegativeIff(l: Ledger, tx: Transaction, fees: Fees, chainId: int)
    requires Applicable(l, tx, chainId) && NoneNegative(l) && !tx.code.Handled?
    ensures NoneNegative(Applied(l, tx, fees)) <==> !Overdraws(l, tx, fees)
    ensures tx.amount >= 0 ==> !Overdraws(l, tx, fees)
  {
    hide OwedStorage;
    var after := Applied(l, tx, fees);
    SenderStaysNonNegative(l, tx, fees, chainId);
    if Overdraws(l, tx, fees) {
      assert tx.recipient in after && after[tx.recipient].balance < 0;
    }
  }

  /** A TRANSFER with a negative amount takes from its recipient: nothing refuses it. */
  lemma {:induction false} NegativeAmountOverdraws(sender: Address, recipient: Address)
    requires sender != recipient && STORAGE_ADDRESS !in {sender, recipient}
    ensures var l := map[sender := Acct(100, 0, 0), recipient := Acct(5, 0, 0), STORAGE_ADDRESS := Acct(0, 0, 0)];
      var tx := Transaction(0, sender, recipient, -50, 0, Transfer);
      var fees := Fees(0, 0, Some(0), Some(0), Some(0));
      && Applicable(l, tx, 0) && NoneNegative(l)
      && Applied(l, tx, fees)[sender].balance == 149 && Applied(l, tx, fees)[recipient].balance == -45
  {
  }

  /** Over any run of handler-free transactions without negative amounts no balance becomes negative. */
  lemma {:induction false} RunStaysNonNegative(l: Ledger, chainId: int, txs: seq<(Transaction, Fees)>)
    requires STORAGE_ADDRESS in l && NoneNegative(l)
    requires forall i :: 0 <= i < |txs| ==> !txs[i].0.code.Handled? && txs[i].0.amount >= 0
    ensures NoneNegative(Run(l, chainId, txs).0)
  {
    hide Applied, Overdraws, NoneNegative;
    if txs != [] {
      RunStaysNonNegative(l, chainId, txs[..|txs| - 1]);
      var before := Run(l, chainId, txs[..|txs| - 1]).0;
      var (tx, fees) := txs[|txs| - 1];
      if Applicable(before, tx, chainId) {
        BalancesStayNonNegativeIff(before, tx, fees, chainId);
      }
    }
  }

  /** Exact rollback: a failed transaction moves no amount and touches no account but the sender and the storage account. */
  lemma {:induction false} FailureTouchesOnlyFees(l: Ledger, tx: Transaction, fees: Fees, chainId: int)
    requires Applicable(l, tx, chainId) && !ReceiptOf(l, tx, fees).success
    ensures var (r, after) := (ReceiptOf(l, tx, fees), Applied(l, tx, fees));
      && after.Keys == l.Keys
      && (forall a :: a in l && a != tx.sender && a != STORAGE_ADDRESS ==> after[a] == l[a])
      && (tx.sender != STORAGE_ADDRESS ==>
            && after[tx.sender].balance == l[tx.sender].balance - r.transactionFee - r.storageFee
            && after[STORAGE_ADDRESS] == l[STORAGE_ADDRESS].(balance := l[STORAGE_ADDRESS].balance + r.storageFee))
      && (tx.sender == STORAGE_ADDRESS ==> after[tx.sender].balance == l[tx.sender].balance - r.transactionFee)
      && after[tx.sender].data == l[tx.sender].data
      && after[tx.sender].counter == l[tx.sender].counter + (if CounterMatches(l, tx) then 1 else 0)
  {
  }

  /** Success means that every fee was paid in full and, for a TRANSFER, that exactly the amount moved. */
  lemma {:induction false} SuccessPaysInFull(l: Ledger, tx: Transaction, fees: Fees, chainId: int)
    requires Applicable(l, tx, chainId) && ReceiptOf(l, tx, fees).success
    ensures var (r, after) := (ReceiptOf(l, tx, fees), Applied(l, tx, fees));
      && r.storageFee == OwedStorage(l, tx, fees)
      && r.storageFee == fees.bloom + fees.operator + fees.transaction.value
                         + (if IsNew(l, tx) then fees.newAccount.value else 0) + fees.receipt.value
      && (tx.code == Transfer && tx.recipient !in {tx.sender, STORAGE_ADDRESS} ==>
            && tx.recipient in after
            && after[tx.recipient].balance == (if tx.recipient in l then l[tx.recipient].balance else 0) + tx.amount)
      && (tx.code == Transfer && tx.sender !in {tx.recipient, STORAGE_ADDRESS} ==>
            after[tx.sender].balance == l[tx.sender].balance - tx.amount - r.transactionFee - r.storageFee)
  {
    EffectKeeps(l, tx);
  }

  /** The balance that the fee checks see, from the code alone. */
  lemma {:induction false} CheckedBalanceIs(l: Ledger, tx: Transaction)
    requires tx.sender in l
    ensures tx.code == Transfer ==>
              CheckedBalance(l, tx) == l[tx.sender].balance + if tx.recipient == tx.sender then tx.amount else 0
    ensures tx.code == Plain ==> CheckedBalance(l, tx) == l[tx.sender].balance
    ensures tx.code.Handled? ==>
              tx.sender in Written(l, tx.code.writes) && CheckedBalance(l, tx) == Written(l, tx.code.writes)[tx.sender].balance
  {
    EffectKeeps(l, tx);
  }

  /** The whole receipt, from the sender's account, the transaction and the fees. */
  lemma {:induction false} ReceiptRule(l: Ledger, tx: Transaction, fees: Fees, checked: int)
    requires tx.sender in l && checked == CheckedBalance(l, tx)
    ensures var (sender, handled, r) := (l[tx.sender], tx.code.Handled?, ReceiptOf(l, tx, fees));
      var ran :=
        && tx.counter == sender.counter
        && (if !handled then sender.balance >= 1 + tx.amount
            else tx.code.succeeds && (tx.code.asked.Some? ==> sender.balance >= 1 + tx.code.asked.value));
      var (isNew, moved) := (!handled && tx.recipient !in l, if tx.code == Transfer then tx.amount else 0);
      var owed := fees.bloom
        + (if ran && checked >= 1 + moved + fees.bloom then fees.operator else 0)
        + (if fees.transaction.Some? then fees.transaction.value else 0)
        + (if ran && isNew && fees.newAccount.Some? then fees.newAccount.value else 0)
        + (if fees.receipt.Some? then fees.receipt.value else 0);
      && (r.success <==>
            && ran && fees.transaction.Some? && fees.receipt.Some? && (isNew ==> fees.newAccount.Some?)
            && checked >= 1 + moved + owed)
      && (r.success ==> r.transactionFee == 1 && r.dataFee == 0 && r.storageFee == owed)
      && (!r.success ==>
            && r.dataFee == 0 && 0 <= r.transactionFee <= 1 && 0 <= r.storageFee <= owed
            && r.transactionFee + r.storageFee == Min(Max(0, sender.balance), 1 + owed)
            && (r.storageFee > 0 ==> r.transactionFee == 1))
  {
  }

  /** The whole ledger after one transaction, under every aliasing of sender, recipient and storage account. */
  lemma {:induction false} BalancesAfter(l: Ledger, tx: Transaction, fees: Fees, chainId: int)
    requires Applicable(l, tx, chainId)
    ensures var (r, after) := (ReceiptOf(l, tx, fees), Applied(l, tx, fees));
      var before := if r.success && tx.code.Handled? then Written(l, tx.code.writes) else l;
      var moved := if r.success && tx.code == Transfer then tx.amount else 0;
      && after.Keys == before.Keys + (if r.success && !tx.code.Handled? then {tx.recipient} else {})
      && (forall a :: a in after ==>
            && after[a].balance == (if a in before then before[a].balance else 0)
                 + (if a == tx.recipient then moved else 0)
                 - (if a == tx.sender then r.transactionFee + r.dataFee + r.storageFee + moved else 0)
                 + (if a == STORAGE_ADDRESS then r.storageFee else 0)
            && after[a].data == if a in before then before[a].data else 0)
  {
    hide ReceiptOf, CounterMatches;
    EffectKeeps(l, tx);
  }

  /** After a handler's writes an account shows the last of them, and the counter that it had. */
  lemma {:induction false} WrittenIsLast(l: Ledger, writes: seq<Write>, i: nat)
    requires i < |writes| && forall j :: i < j < |writes| ==> writes[j].address != writes[i].address
    ensures writes[i].address in Written(l, writes)
    ensures Written(l, writes)[writes[i].address]
         == Acct(writes[i].balance, if writes[i].address in l then l[writes[i].address].counter else 0, writes[i].data)
  {
    var n := |writes| - 1;
    WrittenKeeps(l, writes[..n]);
    WrittenCounter(l, writes[..n], writes[i].address);
    if i < n {
      assert forall j :: 0 <= j < n ==> writes[..n][j] == writes[j];
      WrittenIsLast(l, writes[..n], i);
    }
  }

  lemma {:induction false} WrittenCounter(l: Ledger, writes: seq<Write>, a: Address)
    ensures a in Written(l, writes) ==> Written(l, writes)[a].counter == if a in l then l[a].counter else 0
    ensures (forall j :: 0 <= j < |writes| ==> writes[j].address != a) ==>
              (a in Written(l, writes) <==> a in l) && (a in l ==> Written(l, writes)[a] == l[a])
  {
    if writes != [] {
      var rest := writes[..|writes| - 1];
      assert forall j :: 0 <= j < |rest| ==> rest[j] == writes[j];
      WrittenKeeps(l, rest);
      WrittenCounter(l, rest, a);
    }
  }

  /** A transaction counts once, if it carries its sender's counter; every other one fails and counts nothing. */
  lemma {:induction false} CounterRule(l: Ledger, tx: Transaction, fees: Fees, chainId: int)
    requires Applicable(l, tx, chainId)
    ensures tx.counter != l[tx.sender].counter ==> !ReceiptOf(l, tx, fees).success
    ensures l.Keys <= Applied(l, tx, fees).Keys
    ensures forall a :: a in l ==>
              Applied(l, tx, fees)[a].counter
              == l[a].counter + if a == tx.sender && tx.counter == l[a].counter then 1 else 0
  {
    hide OwedStorage;
    EffectKeeps(l, tx);
    assert ReceiptOf(l, tx, fees).success ==> Ran(l, tx);
  }

  // ---------------------------------------------------------------- a whole block

  /** A run of the transaction loop: a transaction that raises leaves no receipt and the block goes on. */
  function Run(l: Ledger, chainId: int, txs: seq<(Transaction, Fees)>): (r: (Ledger, seq<Receipt>))
    requires STORAGE_ADDRESS in l
    ensures l.Keys <= r.0.Keys
  {
    if txs == [] then (l, [])
    else
      var (before, receipts) := Run(l, chainId, txs[..|txs| - 1]);
      var (tx, fees) := txs[|txs| - 1];
      EffectKeeps(before, tx);
      if Applicable(before, tx, chainId) then (Applied(before, tx, fees), receipts + [ReceiptOf(before, tx, fees)])
      else (before, receipts)
  }

  lemma {:induction false} RunOfOneMore(l: Ledger, chainId: int, txs: seq<(Transaction, Fees)>, i: nat)
    requires STORAGE_ADDRESS in l && i < |txs|
    ensures var before := Run(l, chainId, txs[..i]);
      Run(l, chainId, txs[..i + 1]) ==
      if Applicable(before.0, txs[i].0, chainId) then
        (Applied(before.0, txs[i].0, txs[i].1), before.1 + [ReceiptOf(before.0, txs[i].0, txs[i].1)])
      else before
  {
    hide Applicable, Applied, ReceiptOf;
    assert txs[..i + 1][..i] == txs[..i];
  }

  /** Number i of the run is applied, and its receipt says success. */
  ghost predicate SucceedsAt(l: Ledger, chainId: int, txs: seq<(Transaction, Fees)>, i: nat)
    requires STORAGE_ADDRESS in l && i < |txs|
  {
    var before := Run(l, chainId, txs[..i]).0;
    Applicable(before, txs[i].0, chainId) && ReceiptOf(before, txs[i].0, txs[i].1).success
  }

  lemma {:induction false} CountersOnlyRise(l: Ledger, chainId: int, txs: seq<(Transaction, Fees)>, i: nat, j: nat, a: Address)
    requires STORAGE_ADDRESS in l && i <= j <= |txs| && a in Run(l, chainId, txs[..i]).0
    ensures a in Run(l, chainId, txs[..j]).0
    ensures Run(l, chainId, txs[..i]).0[a].counter <= Run(l, chainId, txs[..j]).0[a].counter
    decreases j - i
  {
    hide Run, Applicable, Applied, ReceiptOf;
    if i < j {
      CountersOnlyRise(l, chainId, txs, i, j - 1, a);
      RunOfOneMore(l, chainId, txs, j - 1);
      var (before, (tx, fees)) := (Run(l, chainId, txs[..j - 1]).0, txs[j - 1]);
      if Applicable(before, tx, chainId) {
        CounterRule(before, tx, fees, chainId);
      }
    }
  }

  /** A success carries the sender's counter and leaves the next one. */
  lemma {:induction false} SuccessCounts(l: Ledger, chainId: int, txs: seq<(Transaction, Fees)>, i: nat)
    requires STORAGE_ADDRESS in l && i < |txs| && SucceedsAt(l, chainId, txs, i)
    ensures var a := txs[i].0.sender;
      && a in Run(l, chainId, txs[..i]).0 && Run(l, chainId, txs[..i]).0[a].counter == txs[i].0.counter
      && a in Run(l, chainId, txs[..i + 1]).0 && Run(l, chainId, txs[..i + 1]).0[a].counter == txs[i].0.counter + 1
  {
    hide Run, Applied, ReceiptOf;
    RunOfOneMore(l, chainId, txs, i);
    CounterRule(Run(l, chainId, txs[..i]).0, txs[i].0, txs[i].1, chainId);
  }

  /**
   * No replay: the successes of one sender carry strictly increasing counters, none below the counter
   * that the sender starts the block with, so no transaction succeeds twice.
   */
  lemma {:induction false} NoReplay(l: Ledger, chainId: int, txs: seq<(Transaction, Fees)>, i: nat, j: nat)
    requires STORAGE_ADDRESS in l && i <= j < |txs| && txs[i].0.sender == txs[j].0.sender
    requires var before := Run(l, chainId, txs[..i]).0;
      Applicable(before, txs[i].0, chainId) && ReceiptOf(before, txs[i].0, txs[i].1).success
    requires var before := Run(l, chainId, txs[..j]).0;
      Applicable(before, txs[j].0, chainId) && ReceiptOf(before, txs[j].0, txs[j].1).success
    ensures txs[i].0.sender in l ==> l[txs[i].0.sender].counter <= txs[i].0.counter
    ensures i < j ==> txs[i].0.counter < txs[j].0.counter && txs[i].0 != txs[j].0
  {
    hide Run, Applicable, ReceiptOf;
    var a := txs[i].0.sender;
    SuccessCounts(l, chainId, txs, i);
    if a in l {
      RunOfNone(l, chainId);
      assert txs[..0] == [];
      CountersOnlyRise(l, chainId, txs, 0, i, a);
    }
    if i < j {
      SuccessCounts(l, chainId, txs, j);
      CountersOnlyRise(l, chainId, txs, i + 1, j, a);
    }
  }

  lemma {:induction false} RunOfNone(l: Ledger, chainId: int)
    requires STORAGE_ADDRESS in l
    ensures Run(l, chainId, []) == (l, [])
  {
  }

  function PaidFees(receipts: seq<Receipt>): int
  {
    if receipts == [] then 0
    else PaidFees(receipts[..|receipts| - 1])
         + receipts[|receipts| - 1].transactionFee + receipts[|receipts| - 1].dataFee
  }

  /** `validator_reward`. */
  function ValidatorReward(receipts: seq<Receipt>): int { Max(PaidFees(receipts), 1) }

  function Rewarded(l: Ledger, validator: Address, receipts: seq<Receipt>): Ledger
  {
    Touched(WithAccount(l, validator), validator, ValidatorReward(receipts))
  }

  /** The validator receives the fees of all receipts, and at least 1; nobody else changes. */
  lemma {:induction false} RewardGoesToValidator(l: Ledger, validator: Address, receipts: seq<Receipt>)
    ensures var after := Rewarded(l, validator, receipts);
      && after.Keys == l.Keys + {validator}
      && (forall a :: a in l && a != validator ==> after[a] == l[a])
      && after[validator].balance == (if validator in l then l[validator].balance else 0) + Max(PaidFees(receipts), 1)
      && after[validator].counter == (if validator in l then l[validator].counter else 0)
      && after[validator].data == (if validator in l then l[validator].data else 0)
  {
    hide PaidFees;
  }

  lemma {:induction false} SupplyAfterRun(l: Ledger, chainId: int, txs: seq<(Transaction, Fees)>)
    requires STORAGE_ADDRESS in l
    requires forall i :: 0 <= i < |txs| ==> !txs[i].0.code.Handled?
    ensures Supply(Run(l, chainId, txs).0) == Supply(l) - PaidFees(Run(l, chainId, txs).1)
  {
    if txs != [] {
      SupplyAfterRun(l, chainId, txs[..|txs| - 1]);
      var (before, receipts) := Run(l, chainId, txs[..|txs| - 1]);
      var (tx, fees) := txs[|txs| - 1];
      if Applicable(before, tx, chainId) {
        SupplyAfterTransaction(before, tx, fees, chainId);
        var all := receipts + [ReceiptOf(before, tx, fees)];
        assert all[..|all| - 1] == receipts;
      }
    }
  }

  /** A block of handler-free transactions changes the supply by exactly max(0, 1 - fees). */
  lemma {:induction false} SupplyAfterBlock(l: Ledger, chainId: int, txs: seq<(Transaction, Fees)>, validator: Address)
    requires STORAGE_ADDRESS in l
    requires forall i :: 0 <= i < |txs| ==> !txs[i].0.code.Handled?
    ensures Supply(Rewarded(Run(l, chainId, txs).0, validator, Run(l, chainId, txs).1))
         == Supply(l) + Max(0, 1 - PaidFees(Run(l, chainId, txs).1))
  {
    SupplyAfterRun(l, chainId, txs);
    RewardAddsToSupply(Run(l, chainId, txs).0, validator, Run(l, chainId, txs).1);
  }

  lemma {:induction false} RewardAddsToSupply(l: Ledger, validator: Address, receipts: seq<Receipt>)
    ensures Supply(Rewarded(l, validator, receipts)) == Supply(l) + ValidatorReward(receipts)
  {
    var present := WithAccount(l, validator);
    SupplyUpdate(l, validator, Acct(0, 0, 0));
    SupplyUpdate(present, validator, Rewarded(l, validator, receipts)[validator]);
  }
}
