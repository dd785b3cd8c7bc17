/**
 * `_apply_tx_effects` for a top-level transaction, on mutable account objects: the
 * account cache over the trie, the snapshot of clones, the rollback that re-reads
 * the accounts, settlement and write-back. Proved against `Ledgers.Applied`.
 */
module TransactionApply {
  import opened Common
  import opened Ledgers

  lemma {:induction false} ChargedCommutes(l: Ledger, sender: Address, total: int, storageFee: int, counted: bool,
                                           other: Address, v: Acct)
    requires sender in l && STORAGE_ADDRESS in l && other != sender && other != STORAGE_ADDRESS
    ensures Charged(l[other := v], sender, total, storageFee, counted)
         == Charged(l, sender, total, storageFee, counted)[other := v]
  {
  }

  lemma {:induction false} ChargedInTwo(l: Ledger, sender: Address, total: int, storageFee: int, counted: bool)
    requires sender in l && STORAGE_ADDRESS in l
    ensures Charged(l, sender, total, storageFee, counted)
         == Touched(l[sender := var a := l[sender]; Acct(a.balance - total, a.counter + (if counted then 1 else 0), a.data)],
                    STORAGE_ADDRESS, storageFee)
  {
  }

  class Account {
    var balance: int
    var counter: nat
    var data: nat

    constructor (a: Acct)
      ensures Value() == a
    {
      balance, counter, data := a.balance, a.counter, a.data;
    }

    function Value(): Acct
      reads this
    {
      Acct(balance, counter, data)
    }
  }

  /** The block's own fields that a snapshot covers. */
  datatype Own = Own(pendingExprs: seq<Digest>, globalLoaned: int, globalDefaulted: int, globalLoanCount: int,
                     storageVotes: int, storageClaimCount: int)

  class Block {
    const chainId: int
    const trie: Ledger
    var cache: map<Address, Account>
    var involved: set<Address>
    var transactions: seq<Transaction>
    var receipts: seq<Receipt>
    var own: Own

    /** No account object is cached under two addresses. */
    ghost predicate Valid()
      reads this`cache
    {
      forall a, b :: a in cache && b in cache && a != b ==> cache[a] != cache[b]
    }

    /** The accounts as `get_account` shows them: the cache over the trie. */
    ghost function State(): Ledger
      reads this`cache, cache.Values
    {
      map a | a in cache.Keys + trie.Keys :: if a in cache then cache[a].Value() else trie[a]
    }

    /** The account of an address is this cached object. */
    ghost predicate Holds(address: Address, account: Account)
      reads this`cache
    {
      address in cache && cache[address] == account
    }

    lemma {:induction false} Shown(address: Address, account: Account)
      requires Holds(address, account)
      ensures address in State() && State()[address] == account.Value()
    {
    }

    constructor (chainId: int, trie: Ledger, own: Own)
      ensures Valid() && State() == trie && this.chainId == chainId && this.trie == trie
      ensures transactions == [] && receipts == [] && this.own == own
    {
      this.chainId, this.trie, this.own := chainId, trie, own;
      cache, involved, transactions, receipts := map[], {}, [], [];
    }

    /** `Accounts.get_account`: the cached object, or one loaded from the trie. */
    method GetAccount(address: Address) returns (account: Account?)
      requires Valid()
      modifies this`cache
      ensures Valid() && State() == old(State())
      ensures account == null <==> address !in State()
      ensures account != null ==> Holds(address, account)
      ensures forall a :: a in old(cache) ==> a in cache && cache[a] == old(cache[a])
      ensures forall o :: o in cache.Values ==> o in old(cache.Values) || fresh(o)
    {
      if address in cache {
        return cache[address];
      }
      if address !in trie {
        return null;
      }
      account := new Account(trie[address]);
      cache := cache[address := account];
    }

    /** `Accounts.set_account`. */
    method SetAccount(address: Address, account: Account)
      requires Valid()
      requires forall a :: a in cache && a != address ==> cache[a] != account
      modifies this`cache, this`involved
      ensures Valid() && State() == old(State())[address := account.Value()]
      ensures cache == old(cache)[address := account]
    {
      cache := cache[address := account];
      involved := involved + {address};
    }

    /** `account.balance += delta` on a cached account. */
    method AddBalance(address: Address, account: Account, delta: int)
      requires Valid() && Holds(address, account)
      modifies account
      ensures Valid() && address in old(State()) && State() == Touched(old(State()), address, delta)
    {
      account.balance := account.balance + delta;
      assert forall a :: a in cache && a != address ==> cache[a].Value() == old(cache[a].Value());
    }

    /** `snapshot`: a clone of every cached account, the involved addresses and the block's own fields. */
    method Snapshot() returns (saved: map<Address, Account>, savedInvolved: set<Address>, savedOwn: Own)
      requires Valid()
      ensures savedInvolved == involved && savedOwn == own
      ensures saved.Keys == cache.Keys
      ensures forall a :: a in saved ==> fresh(saved[a]) && saved[a].Value() == cache[a].Value()
      ensures forall a, b :: a in saved && b in saved && a != b ==> saved[a] != saved[b]
    {
      saved, savedInvolved, savedOwn := map[], involved, own;
      var rest := cache.Keys;
      while rest != {}
        invariant rest <= cache.Keys && saved.Keys == cache.Keys - rest
        invariant forall a :: a in saved ==> fresh(saved[a]) && saved[a].Value() == cache[a].Value()
        invariant forall a, b :: a in saved && b in saved && a != b ==> saved[a] != saved[b]
        decreases |rest|
      {
        var a :| a in rest;
        var clone := new Account(cache[a].Value());
        saved := saved[a := clone];
        rest := rest - {a};
      }
    }

    /** The writes of a handler, on the objects it gets from the cache. */
    method RunHandler(writes: seq<Write>)
      requires Valid()
      modifies this`cache, this`involved, cache.Values
      ensures Valid() && State() == Written(old(State()), writes)
      ensures forall a :: a in old(cache) ==> a in cache && cache[a] == old(cache[a])
      ensures forall o :: o in cache.Values ==> o in old(cache.Values) || fresh(o)
    {
      for i := 0 to |writes|
        invariant Valid() && State() == Written(old(State()), writes[..i])
        invariant forall a :: a in old(cache) ==> a in cache && cache[a] == old(cache[a])
        invariant forall o :: o in cache.Values ==> o in old(cache.Values) || fresh(o)
      {
        assert writes[..i + 1][..i] == writes[..i];
        WriteAccount(writes[i]);
      }
      assert writes[..|writes|] == writes;
    }

    method WriteAccount(w: Write)
      requires Valid()
      modifies this`cache, this`involved, cache.Values
      ensures Valid()
      ensures State() == WithAccount(old(State()), w.address)[w.address :=
                Acct(w.balance, WithAccount(old(State()), w.address)[w.address].counter, w.data)]
      ensures forall a :: a in old(cache) ==> a in cache && cache[a] == old(cache[a])
      ensures forall o :: o in cache.Values ==> o in old(cache.Values) || fresh(o)
    {
      var account := GetAccount(w.address);
      if account == null {
        var created := new Account(Acct(w.balance, 0, w.data));
        SetAccount(w.address, created);
      } else {
        Overwrite(w.address, account, w.balance, w.data);
      }
    }

    method Overwrite(address: Address, account: Account, balance: int, data: nat)
      requires Valid() && Holds(address, account)
      modifies account, this`involved
      ensures Valid() && address in old(State())
      ensures State() == old(State())[address := Acct(balance, old(State())[address].counter, data)]
    {
      account.balance := balance;
      account.data := data;
      assert forall a :: a in cache && a != address ==> cache[a].Value() == old(cache[a].Value());
      involved := involved + {address};
    }

    /** What a snapshot stands for: its clones over the trie. */
    ghost predicate Stands(saved: map<Address, Account>, l: Ledger)
      reads saved.Values
    {
      && (forall a, b :: a in saved && b in saved && a != b ==> saved[a] != saved[b])
      && l == map a | a in saved.Keys + trie.Keys :: if a in saved then saved[a].Value() else trie[a]
    }

    /** `_rollback`: restore the cache and read the accounts again. */
    method Rollback(saved: map<Address, Account>, savedInvolved: set<Address>, savedOwn: Own, address: Address, ghost l: Ledger)
        returns (sender: Account, storage: Account)
      requires Stands(saved, l) && address in l && STORAGE_ADDRESS in l
      modifies this`cache, this`involved, this`own
      ensures Valid() && State() == l && involved == savedInvolved && own == savedOwn
      ensures Holds(address, sender) && Holds(STORAGE_ADDRESS, storage)
      ensures forall o :: o in cache.Values ==> o in saved.Values || fresh(o)
    {
      cache := saved;
      involved := savedInvolved;
      own := savedOwn;
      assert State() == l;
      var s := GetAccount(address);
      var t := GetAccount(STORAGE_ADDRESS);
      return s, t;
    }

    /** An account object created for a recipient that has none; it is not in the cache yet. */
    ghost predicate Pending(address: Address, account: Account)
      reads this`cache
    {
      address !in cache && address !in trie && account !in cache.Values
    }

    /** The state once a pending recipient is written. */
    ghost function StateWith(address: Address, account: Account?, isNew: bool): Ledger
      reads this`cache, cache.Values, account
    {
      if isNew && account != null then State()[address := account.Value()] else State()
    }

    /** `_get_or_create_recipient_account`. */
    method GetOrCreate(tx: Transaction, sender: Account, storage: Account) returns (account: Account, isNew: bool)
      requires Valid() && Holds(tx.sender, sender) && Holds(STORAGE_ADDRESS, storage)
      modifies this`cache
      ensures Valid() && State() == old(State())
      ensures forall a :: a in old(cache) ==> a in cache && cache[a] == old(cache[a])
      ensures forall o :: o in cache.Values ==> o in old(cache.Values) || fresh(o)
      ensures isNew <==> tx.recipient !in State()
      ensures if isNew then Pending(tx.recipient, account) && fresh(account) && account.Value() == Acct(0, 0, 0)
              else Holds(tx.recipient, account)
    {
      if tx.recipient == tx.sender {
        return sender, false;
      }
      if tx.recipient == STORAGE_ADDRESS {
        return storage, false;
      }
      var found := GetAccount(tx.recipient);
      if found == null {
        account := new Account(Acct(0, 0, 0));
        return account, true;
      }
      return found, false;
    }

    /** The match on the transaction code; a handler leaves `handled` in the block's own fields. */
    method RunCode(tx: Transaction, handled: Own, started: bool, amount: int, sender: Account, storage: Account)
        returns (ran: bool, recipient: Account?, isNew: bool)
      requires Valid() && Holds(tx.sender, sender) && Holds(STORAGE_ADDRESS, storage)
      requires amount == if started then tx.amount else 0
      modifies this`cache, this`involved, this`own, cache.Values
      ensures own == if started && tx.code.Handled? then handled else old(own)
      ensures Valid()
      ensures forall a :: a in old(cache) ==> a in cache && cache[a] == old(cache[a])
      ensures forall o :: o in cache.Values ==> o in old(cache.Values) || fresh(o)
      ensures ran <==> started && (tx.code.Handled? ==> tx.code.succeeds)
      ensures isNew <==> !tx.code.Handled? && tx.recipient !in old(State())
      ensures if isNew then recipient != null && Pending(tx.recipient, recipient) && fresh(recipient)
              else recipient != null ==> Holds(tx.recipient, recipient)
      ensures ran ==> StateWith(tx.recipient, recipient, isNew) == Effect(old(State()), tx)
    {
      match tx.code
      case Transfer =>
        var account: Account;
        account, isNew := GetOrCreate(tx, sender, storage);
        if isNew {
          account.balance := account.balance + amount;
        } else {
          AddBalance(tx.recipient, account, amount);
        }
        return started, account, isNew;
      case Plain =>
        recipient, isNew := GetOrCreate(tx, sender, storage);
        return started, recipient, isNew;
      case Handled(writes, succeeds, _) =>
        if started {
          RunHandler(writes);
          own := handled;
        }
        return started && succeeds, null, false;
    }

    /** Balance deductions and the write-back of the accounts. */
    method WriteBack(tx: Transaction, sender: Account, storage: Account, recipient: Account?, isNew: bool,
                     total: int, storageFee: int, counted: bool)
      requires Valid() && Holds(tx.sender, sender) && Holds(STORAGE_ADDRESS, storage)
      requires if isNew then recipient != null && Pending(tx.recipient, recipient)
               else recipient != null ==> Holds(tx.recipient, recipient)
      modifies this`cache, this`involved, sender, storage
      ensures Valid()
      ensures tx.sender in old(State()) && STORAGE_ADDRESS in old(State())
      ensures State() == Charged(old(StateWith(tx.recipient, recipient, isNew)), tx.sender, total, storageFee, counted)
      ensures forall o :: o in cache.Values ==> o in old(cache.Values) || o == recipient
    {
      hide State, Valid, Charged;
      ghost var l := State();
      Shown(tx.sender, sender);
      Shown(STORAGE_ADDRESS, storage);
      Charge(tx.sender, sender, total, counted);
      AddBalance(STORAGE_ADDRESS, storage, storageFee);
      ChargedInTwo(l, tx.sender, total, storageFee, counted);
      if recipient != null {
        if isNew {
          ghost var v := recipient.Value();
          SetAccount(tx.recipient, recipient);
          ChargedCommutes(l, tx.sender, total, storageFee, counted, tx.recipient, v);
        } else {
          SetAgain(tx.recipient, recipient);
        }
      }
      SetAgain(tx.sender, sender);
      SetAgain(STORAGE_ADDRESS, storage);
    }

    /** `set_account` of an account that the cache already holds. */
    method SetAgain(address: Address, account: Account)
      requires Valid() && Holds(address, account)
      modifies this`cache, this`involved
      ensures Valid() && State() == old(State()) && cache == old(cache)
    {
      cache := cache[address := account];
      involved := involved + {address};
      assert cache == old(cache);
    }

    /** `sender.balance -= total; sender.counter += 1`. */
    method Charge(address: Address, account: Account, total: int, counted: bool)
      requires Valid() && Holds(address, account)
      modifies account
      ensures Valid() && address in old(State())
      ensures State() == old(State())[address := var a := old(State())[address];
                           Acct(a.balance - total, a.counter + (if counted then 1 else 0), a.data)]
    {
      account.balance := account.balance - total;
      if counted {
        account.counter := account.counter + 1;
      }
      assert forall a :: a in cache && a != address ==> cache[a].Value() == old(cache[a].Value());
    }

    /** Up to point 1: run the code under a snapshot, and undo it when it fails. */
    method Execute(tx: Transaction, handled: Own, sender0: Account, storage0: Account, ghost l: Ledger)
        returns (success: bool, sender: Account, storage: Account, recipient: Account?, isNew: bool,
                 saved: map<Address, Account>, savedInvolved: set<Address>, savedOwn: Own)
      requires Valid() && State() == l && STORAGE_ADDRESS in l
      requires Holds(tx.sender, sender0) && Holds(STORAGE_ADDRESS, storage0)
      modifies this`cache, this`involved, this`own, cache.Values
      ensures savedOwn == old(own) && own == if success && tx.code.Handled? then handled else old(own)
      ensures Valid() && tx.sender in l && (success <==> Ran(l, tx))
      ensures Holds(tx.sender, sender) && Holds(STORAGE_ADDRESS, storage)
      ensures StateWith(tx.recipient, recipient, isNew) == if success then Effect(l, tx) else l
      ensures isNew <==> Ran(l, tx) && IsNew(l, tx)
      ensures if isNew then recipient != null && Pending(tx.recipient, recipient) && fresh(recipient)
              else recipient != null ==> Holds(tx.recipient, recipient)
      ensures Stands(saved, l)
      ensures forall o :: o in cache.Values || o in saved.Values ==> o in old(cache.Values) || fresh(o)
    {
      hide Effect;
      sender, storage := sender0, storage0;
      var amount := tx.amount;
      success := true;
      var matched := tx.counter == sender.counter;
      if !matched {
        success, amount := false, 0;
      }
      if !Admitted(tx, sender.balance) {
        success, amount := false, 0;
      }
      assert l[tx.sender] == sender.Value();
      saved, savedInvolved, savedOwn := Snapshot();
      assert Stands(saved, l);
      success, recipient, isNew := RunCode(tx, handled, success, amount, sender, storage);
      assert Stands(saved, l);
      if !success {
        sender, storage := Rollback(saved, savedInvolved, savedOwn, tx.sender, l);
        recipient, isNew := null, false;
      }
    }

    /** The sender's own object shows the balance that the fee checks use. */
    lemma {:induction false} SenderSeen(tx: Transaction, sender: Account, recipient: Account?, isNew: bool, l: Ledger, ran: bool)
      requires Valid() && Holds(tx.sender, sender) && tx.sender in l
      requires StateWith(tx.recipient, recipient, isNew) == if ran then Effect(l, tx) else l
      requires isNew && recipient != null ==> Pending(tx.recipient, recipient)
      ensures sender.balance == if ran then CheckedBalance(l, tx) else l[tx.sender].balance
    {
      hide Effect;
      assert sender.Value() == StateWith(tx.recipient, recipient, isNew)[tx.sender];
    }

    /** From the fee checks to point 2: the final status, and the handler's writes undone on a late failure. */
    method CheckFees(tx: Transaction, fees: Fees, ran: bool, sender0: Account, storage0: Account,
                     recipient0: Account?, isNew0: bool, saved: map<Address, Account>, savedInvolved: set<Address>,
                     savedOwn: Own, ghost l: Ledger)
        returns (success: bool, owed: nat, sender: Account, storage: Account, recipient: Account?, isNew: bool)
      requires Valid() && Applicable(l, tx, chainId) && (ran <==> Ran(l, tx))
      requires Holds(tx.sender, sender0) && Holds(STORAGE_ADDRESS, storage0)
      requires StateWith(tx.recipient, recipient0, isNew0) == if ran then Effect(l, tx) else l
      requires isNew0 <==> Ran(l, tx) && IsNew(l, tx)
      requires if isNew0 then recipient0 != null && Pending(tx.recipient, recipient0)
               else recipient0 != null ==> Holds(tx.recipient, recipient0)
      requires Stands(saved, l) && (!ran ==> own == savedOwn)
      modifies this`cache, this`involved, this`own
      ensures own == (if success then old(own) else savedOwn) && (success ==> ran)
      ensures Valid() && (success <==> Succeeds(l, tx, fees)) && owed == OwedStorage(l, tx, fees)
      ensures Holds(tx.sender, sender) && Holds(STORAGE_ADDRESS, storage)
      ensures StateWith(tx.recipient, recipient, isNew) == if success then Effect(l, tx) else l
      ensures sender.balance == if success then CheckedBalance(l, tx) else l[tx.sender].balance
      ensures if isNew then recipient != null && Pending(tx.recipient, recipient)
              else recipient != null ==> Holds(tx.recipient, recipient)
      ensures recipient == null || recipient == recipient0
      ensures forall o :: o in cache.Values ==> o in old(cache.Values) || o in saved.Values || fresh(o)
    {
      hide Effect, Charged, CheckedBalance, Ran, IsNew, CounterMatches;
      SenderSeen(tx, sender0, recipient0, isNew0, l, ran);
      sender, storage, recipient, isNew := sender0, storage0, recipient0, isNew0;
      var amount := if ran && tx.code == Transfer then tx.amount else 0;
      success, owed := PriceFees(sender.balance, ran, amount, isNew, fees);
      if !success && ran {
        sender, storage := Rollback(saved, savedInvolved, savedOwn, tx.sender, l);
        recipient, isNew := null, false;
        assert sender.Value() == State()[tx.sender];
      }
    }

    /** From the fee checks on: settlement, the receipt and the write-back. */
    method Finish(tx: Transaction, fees: Fees, ran: bool, matched: bool, sender0: Account, storage0: Account,
                  recipient0: Account?, isNew0: bool, saved: map<Address, Account>, savedInvolved: set<Address>,
                  savedOwn: Own, ghost l: Ledger)
        returns (receipt: Receipt)
      requires Valid() && Applicable(l, tx, chainId) && (ran <==> Ran(l, tx)) && (matched <==> CounterMatches(l, tx))
      requires Holds(tx.sender, sender0) && Holds(STORAGE_ADDRESS, storage0)
      requires StateWith(tx.recipient, recipient0, isNew0) == if ran then Effect(l, tx) else l
      requires isNew0 <==> Ran(l, tx) && IsNew(l, tx)
      requires if isNew0 then recipient0 != null && Pending(tx.recipient, recipient0)
               else recipient0 != null ==> Holds(tx.recipient, recipient0)
      requires Stands(saved, l) && (!ran ==> own == savedOwn)
      modifies this`cache, this`involved, this`own, cache.Values, saved.Values
      ensures own == (if receipt.success then old(own) else savedOwn) && (receipt.success ==> ran)
      ensures Valid() && State() == Applied(l, tx, fees) && receipt == ReceiptOf(l, tx, fees)
      ensures forall o :: o in cache.Values ==> o in old(cache.Values) || o in saved.Values || o == recipient0 || fresh(o)
    {
      hide Effect, Charged, CheckedBalance, Ran, IsNew, CounterMatches, OwedStorage, Succeeds, StateWith, State, Settlement, ReceiptOf;
      SuccessIsAffordable(l, tx, fees);
      SettlementIsReceipt(l, tx, fees);
      EffectKeeps(l, tx);
      var success, owed, sender, storage, recipient, isNew :=
        CheckFees(tx, fees, ran, sender0, storage0, recipient0, isNew0, saved, savedInvolved, savedOwn, l);
      var amount := if success && tx.code == Transfer then tx.amount else 0;
      var s := SettleFees(sender.balance, BASE_FEE, 0, owed, amount);
      // A success is affordable, and a failure is already rolled back: no third rollback here.
      receipt := Receipt(s.transactionFee, s.dataFee, s.storageFee, success);
      assert receipt == ReceiptOf(l, tx, fees);
      label before:
      assert sender in cache.Values && storage in cache.Values;
      WriteBack(tx, sender, storage, recipient, isNew, s.Total(), s.storageFee, matched);
      forall o | o in cache.Values
        ensures o in old(cache.Values) || o in saved.Values || o == recipient0 || fresh(o)
      {
        assert o in old@before(cache.Values) || o == recipient;
      }
    }

    /** The guards that raise, and the two accounts that every transaction needs. */
    method Admit(tx: Transaction) returns (admitted: Result<(Account, Account)>)
      requires Valid() && STORAGE_ADDRESS in State()
      modifies this`cache, this`involved
      ensures Valid() && State() == old(State())
      ensures admitted.Ok? <==> Applicable(State(), tx, chainId)
      ensures admitted.Ok? ==> Holds(tx.sender, admitted.value.0) && Holds(STORAGE_ADDRESS, admitted.value.1)
      ensures admitted.Ok? ==> tx.sender in State() && State()[tx.sender] == admitted.value.0.Value()
      ensures forall o :: o in cache.Values ==> o in old(cache.Values) || fresh(o)
    {
      hide State, Valid;
      if tx.chainId != chainId {
        return Err("invalid transaction chain id");
      }
      involved := {};
      var sender := GetAccount(tx.sender);
      if sender == null {
        return Err("missing sender account");
      }
      assert tx.sender in cache && cache[tx.sender] == sender;
      Shown(tx.sender, sender);
      var storage := GetAccount(STORAGE_ADDRESS);
      if sender.balance < BASE_FEE && !Exempt(tx) {
        return Err("insufficient balance for transaction fee");
      }
      return Ok((sender, storage));
    }

    /**
     * `_apply_tx_effects` for a top-level transaction; an Err is one of its exceptions. A handler leaves
     * `handled` in the block's own fields, which stays only when the transaction succeeds.
     */
    method Apply(tx: Transaction, fees: Fees, handled: Own) returns (outcome: Result<Receipt>)
      requires Valid() && STORAGE_ADDRESS in State()
      modifies this, cache.Values
      ensures Valid()
      ensures outcome.Ok? <==>
                && tx.chainId == chainId && tx.sender in old(State())
                && (old(State())[tx.sender].balance >= 1 || (tx.code.Handled? && tx.code.asked.None?))
      ensures own == if outcome.Ok? && outcome.value.success && tx.code.Handled? then handled else old(own)
      ensures outcome.Err? ==> State() == old(State()) && transactions == old(transactions) && receipts == old(receipts)
      ensures outcome.Ok? ==>
                && outcome.value == ReceiptOf(old(State()), tx, fees)
                && State() == Applied(old(State()), tx, fees)
                && transactions == old(transactions) + [tx]
                && receipts == old(receipts) + [outcome.value]
      ensures forall o :: o in cache.Values ==> o in old(cache.Values) || fresh(o)
    {
      hide Applied, ReceiptOf, Ran, IsNew, Effect, State, StateWith, Valid, Stands, Pending, Applicable;
      ghost var l := State();
      ApplicableIff(l, tx, chainId);
      var admitted := Admit(tx);
      if admitted.Err? {
        return Err(admitted.reason);
      }
      var (sender, storage) := admitted.value;
      var matched := tx.counter == sender.counter;
      var ran, sender1, storage1, recipient, isNew, saved, savedInvolved, savedOwn := Execute(tx, handled, sender, storage, l);
      var receipt := Finish(tx, fees, ran, matched, sender1, storage1, recipient, isNew, saved, savedInvolved, savedOwn, l);
      Record(tx, receipt);
      return Ok(receipt);
    }

    method Record(tx: Transaction, receipt: Receipt)
      modifies this`transactions, this`receipts
      ensures transactions == old(transactions) + [tx] && receipts == old(receipts) + [receipt]
    {
      transactions := transactions + [tx];
      receipts := receipts + [receipt];
    }

    /** `_award_validator_reward`. */
    method AwardValidatorReward(validator: Address, amount: int)
      requires Valid()
      modifies this`cache, this`involved, cache.Values
      ensures Valid()
      ensures State() == if amount <= 0 then old(State())
                         else Touched(WithAccount(old(State()), validator), validator, amount)
    {
      if amount <= 0 {
        return;
      }
      var account := GetAccount(validator);
      if account == null {
        var created := new Account(Acct(amount, 0, 0));
        SetAccount(validator, created);
      } else {
        AddBalance(validator, account, amount);
        SetAgain(validator, account);
      }
    }

    /** The worker's transaction loop: a transaction that raises is passed over. */
    method ApplyAll(txs: seq<(Transaction, Fees)>, handled: nat -> Own)
      requires Valid() && STORAGE_ADDRESS in State() && receipts == [] && transactions == []
      modifies this, cache.Values
      ensures Valid() && (State(), receipts) == Run(old(State()), chainId, txs)
      ensures |transactions| == |receipts|
      ensures forall o :: o in cache.Values ==> o in old(cache.Values) || fresh(o)
    {
      hide Applied, ReceiptOf, State, Valid;
      ghost var l := State();
      RunOfNone(l, chainId);
      for i := 0 to |txs|
        invariant Valid() && STORAGE_ADDRESS in State() && |transactions| == |receipts|
        invariant (State(), receipts) == Run(l, chainId, txs[..i])
        invariant forall o :: o in cache.Values ==> o in old(cache.Values) || fresh(o)
      {
        RunOfOneMore(l, chainId, txs, i);
        var _ := Apply(txs[i].0, txs[i].1, handled(i));
      }
      assert txs[..|txs|] == txs;
    }

    /** The transactions of a block and the reward of its validator. */
    method ApplyBlock(txs: seq<(Transaction, Fees)>, handled: nat -> Own, validator: Address)
      requires Valid() && STORAGE_ADDRESS in State() && receipts == [] && transactions == []
      modifies this, cache.Values
      ensures Valid() && receipts == Run(old(State()), chainId, txs).1
      ensures var (before, after) := (Run(old(State()), chainId, txs).0, State());
        && after.Keys == before.Keys + {validator}
        && (forall a :: a in before && a != validator ==> after[a] == before[a])
        && after[validator].balance
           == (if validator in before then before[validator].balance else 0) + Max(PaidFees(receipts), 1)
        && after[validator].counter == (if validator in before then before[validator].counter else 0)
      ensures (forall i :: 0 <= i < |txs| ==> !txs[i].0.code.Handled?) ==>
                Supply(State()) == Supply(old(State())) + Max(0, 1 - PaidFees(receipts))
    {
      hide State, Valid, Run, PaidFees, Supply;
      if forall i :: 0 <= i < |txs| ==> !txs[i].0.code.Handled? {
        SupplyAfterBlock(State(), chainId, txs, validator);
      }
      ApplyAll(txs, handled);
      RewardGoesToValidator(State(), validator, receipts);
      AwardValidatorReward(validator, ValidatorReward(receipts));
    }
  }

  /** The fee checks between point 1 and point 2, on the balance that the code left. */
  method PriceFees(balance: int, ran: bool, amount: int, isNew: bool, fees: Fees) returns (success: bool, storageFee: nat)
    ensures storageFee == fees.bloom
              + (if ran && balance >= BASE_FEE + amount + fees.bloom then fees.operator else 0)
              + OrZero(fees.transaction) + (if isNew then OrZero(fees.newAccount) else 0) + OrZero(fees.receipt)
    ensures success <==>
              && ran
              && fees.transaction.Some? && fees.receipt.Some? && (isNew ==> fees.newAccount.Some?)
              && balance >= BASE_FEE + amount + storageFee
  {
    success, storageFee := ran, fees.bloom;
    if balance < BASE_FEE + amount + storageFee {
      success := false;
    }
    storageFee := storageFee + if success then fees.operator else 0;
    if balance < BASE_FEE + amount + storageFee {
      success := false;
    }
    if fees.transaction.None? {
      success := false;
    } else {
      storageFee := storageFee + fees.transaction.value;
      if balance < BASE_FEE + amount + storageFee {
        success := false;
      }
    }
    if isNew {
      if fees.newAccount.None? {
        success := false;
      } else {
        storageFee := storageFee + fees.newAccount.value;
      }
    }
    if fees.receipt.None? {
      success := false;
    } else {
      storageFee := storageFee + fees.receipt.value;
    }
    if success && balance < BASE_FEE + amount + storageFee {
      success := false;
    }
  }
}
