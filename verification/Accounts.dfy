/**
 The account ledger and mempool (src/transaction_engine.rs, `TransactionEngine`).
 Submitting and executing are each one atomic step.  An account is filed under
 its own address, so the address is not repeated inside it.
 */
module Accounts {

  import opened Words
  import opened Outcomes
  import opened Sums
  import opened Transactions

  datatype AccountState = AccountState(balance: u128, nonce: u64)

  const NEW_ACCOUNT: AccountState := AccountState(0, 0)

  type Ledger = map<string, AccountState>

  datatype ExecutionResult = ExecutionResult(txHash: string, status: TransactionStatus, error: Option<TxError>)

  datatype State = State(
    accounts: Ledger,
    mempool: seq<Transaction>,
    transactions: seq<Transaction>,
    executed: seq<ExecutionResult>)

  // ---------------------------------------------------------------- steps on values

  function AccountOf(accounts: Ledger, address: string): AccountState {
    if address in accounts then accounts[address] else NEW_ACCOUNT
  }

  /** `get_or_create_account`, as far as it changes the ledger. */
  function Touch(accounts: Ledger, address: string): Ledger {
    accounts[address := AccountOf(accounts, address)]
  }

  /** `u64::saturating_add(1)` */
  function Bump(nonce: u64): u64 {
    if nonce == U64_MAX then nonce else nonce + 1
  }

  function Needed(tx: Transaction): u128 {
    SatAdd128(TotalOutput(tx), tx.fee)
  }

  function Credit(accounts: Ledger, output: TransactionOutput): Ledger {
    var account := AccountOf(accounts, output.recipient);
    accounts[output.recipient := account.(balance := SatAdd128(account.balance, output.amount))]
  }

  /** The recipients of the first n outputs credited in turn. */
  function CreditOutputs(accounts: Ledger, outputs: seq<TransactionOutput>, n: nat): Ledger
    requires n <= |outputs|
  {
    if n == 0 then accounts else Credit(CreditOutputs(accounts, outputs, n - 1), outputs[n - 1])
  }

  /** The sender's account as it is written back, after all recipients. */
  function Debited(account: AccountState, tx: Transaction): AccountState
    requires account.balance >= Needed(tx)
  {
    AccountState(account.balance - Needed(tx), Bump(account.nonce))
  }

  /** `execute_tx_internal`: the new ledger, and whether the transaction went through. */
  function Transfer(accounts: Ledger, tx: Transaction): (Ledger, bool) {
    var touched := Touch(accounts, tx.sender);
    var sender := touched[tx.sender];
    if sender.balance < Needed(tx) then (touched, false)
    else (CreditOutputs(touched, tx.outputs, |tx.outputs|)[tx.sender := Debited(sender, tx)], true)
  }

  /** `submit_transaction` */
  function Submit(st: State, tx: Transaction): (State, Result<string, TxError>) {
    if Validate(tx).Err? then (st, Err(Validate(tx).error))
    else
      var touched := st.(accounts := Touch(st.accounts, tx.sender));
      if touched.accounts[tx.sender].balance < Needed(tx) then (touched, Err(InsufficientBalance))
      else (touched.(mempool := st.mempool + [tx]), Ok(tx.hash))
  }

  /** The first position of a transaction with this hash; the length when there is none. */
  function Position(mempool: seq<Transaction>, txHash: string): (i: nat)
    ensures i <= |mempool|
    ensures i < |mempool| ==> mempool[i].hash == txHash
    ensures forall j :: 0 <= j < i ==> mempool[j].hash != txHash
  {
    if mempool == [] then 0 else if mempool[0].hash == txHash then 0 else 1 + Position(mempool[1..], txHash)
  }

  function Outcome(tx: Transaction, ok: bool): ExecutionResult {
    if ok then ExecutionResult(tx.hash, Confirmed, None)
    else ExecutionResult(tx.hash, Failed, Some(InsufficientBalance))
  }

  /** `execute_transaction` */
  function Execute(st: State, txHash: string): (State, Result<ExecutionResult, TxError>) {
    var i := Position(st.mempool, txHash);
    if i == |st.mempool| then (st, Err(NotInMempool))
    else
      var tx := st.mempool[i];
      var (accounts, ok) := Transfer(st.accounts, tx);
      var result := Outcome(tx, ok);
      (State(accounts, st.mempool[..i] + st.mempool[i + 1..], st.transactions + [tx.(status := result.status)],
             st.executed + [result]), Ok(result))
  }

  // ---------------------------------------------------------------- the engine

  class TransactionEngine {
    var accounts: Ledger
    var mempool: seq<Transaction>
    var transactions: seq<Transaction>
    var executed: seq<ExecutionResult>

    ghost function Model(): State
      reads this
    {
      State(accounts, mempool, transactions, executed)
    }

    constructor ()
      ensures Model() == State(map[], [], [], [])
    {
      accounts, mempool, transactions, executed := map[], [], [], [];
    }

    method GetOrCreateAccount(address: string) returns (account: AccountState)
      modifies this`accounts
      ensures accounts == Touch(old(accounts), address) && account == accounts[address]
    {
      if address !in accounts {
        accounts := accounts[address := NEW_ACCOUNT];
      }
      account := accounts[address];
    }

    method SubmitTransaction(tx: Transaction) returns (r: Result<string, TxError>)
      modifies this
      ensures (Model(), r) == Submit(old(Model()), tx)
    {
      var valid := Validate(tx);
      if valid.Err? {
        return Err(valid.error);
      }
      var sender := GetOrCreateAccount(tx.sender);
      if sender.balance < SatAdd128(TotalOutput(tx), tx.fee) {
        return Err(InsufficientBalance);
      }
      mempool := mempool + [tx];
      return Ok(tx.hash);
    }

    method ExecuteTransaction(txHash: string) returns (r: Result<ExecutionResult, TxError>)
      modifies this
      ensures (Model(), r) == Execute(old(Model()), txHash)
    {
      var i := Position(mempool, txHash);
      if i == |mempool| {
        return Err(NotInMempool);
      }
      var tx := mempool[i];
      mempool := mempool[..i] + mempool[i + 1..];
      var ok := ExecuteTxInternal(tx);
      var result := Outcome(tx, ok);
      transactions := transactions + [tx.(status := result.status)];
      executed := executed + [result];
      return Ok(result);
    }

    method ExecuteTxInternal(tx: Transaction) returns (ok: bool)
      modifies this`accounts
      ensures (accounts, ok) == Transfer(old(accounts), tx)
    {
      var sender := GetOrCreateAccount(tx.sender);
      var needed := SatAdd128(TotalOutput(tx), tx.fee);
      if sender.balance < needed {
        return false;
      }
      sender := sender.(balance := sender.balance - needed);
      sender := sender.(nonce := Bump(sender.nonce));
      ghost var touched := accounts;
      for k := 0 to |tx.outputs|
        invariant accounts == CreditOutputs(touched, tx.outputs, k)
      {
        var output := tx.outputs[k];
        var recipient := GetOrCreateAccount(output.recipient);
        recipient := recipient.(balance := SatAdd128(recipient.balance, output.amount));
        accounts := accounts[output.recipient := recipient];
      }
      accounts := accounts[tx.sender := sender];
      return true;
    }
  }

  // ---------------------------------------------------------------- which transaction is executed

  /** A known hash executes the earliest waiting transaction with it, which alone leaves the mempool. */
  lemma ExecuteTakesFirst(st: State, txHash: string)
    ensures var (st', r) := Execute(st, txHash);
            && (r.Ok? <==> exists tx :: tx in st.mempool && tx.hash == txHash)
            && (r.Ok? ==> r.value.txHash == txHash && r.value.status == st'.transactions[|st.transactions|].status)
            && (r.Err? ==> st' == st && r.error == NotInMempool)
    ensures Execute(st, txHash).1.Ok? ==>
      exists i :: && 0 <= i < |st.mempool| && st.mempool[i].hash == txHash
                  && (forall j :: 0 <= j < i ==> st.mempool[j].hash != txHash)
                  && multiset(Execute(st, txHash).0.mempool) == multiset(st.mempool) - multiset{st.mempool[i]}
                  && Execute(st, txHash).0.accounts == Transfer(st.accounts, st.mempool[i]).0
  {
    var i := Position(st.mempool, txHash);
    if i < |st.mempool| {
      assert st.mempool[i] in st.mempool;
      assert st.mempool == st.mempool[..i] + [st.mempool[i]] + st.mempool[i + 1..];
      assert multiset(st.mempool[..i] + st.mempool[i + 1..]) == multiset(st.mempool) - multiset{st.mempool[i]};
    }
  }

  // ---------------------------------------------------------------- who can pay

  function BalanceOf(accounts: Ledger, a: string): nat {
    if a in accounts then accounts[a].balance else 0
  }

  /** What a transaction costs its sender: the wrapped sum of its outputs and the fee, cut at the u128 maximum. */
  function Cost(tx: Transaction): nat {
    var sum := SumOutputs(tx.outputs) % 0x1_0000_0000_0000_0000_0000_0000_0000_0000 + tx.fee;
    if sum > 0xFFFF_FFFF_FFFF_FFFF_FFFF_FFFF_FFFF_FFFF then 0xFFFF_FFFF_FFFF_FFFF_FFFF_FFFF_FFFF_FFFF else sum
  }

  lemma CostFits(tx: Transaction)
    ensures SumOutputs(tx.outputs) + tx.fee < U128_MOD ==> Cost(tx) == SumOutputs(tx.outputs) + tx.fee
  {
  }

  /** A submission is taken exactly when it is valid and the sender's balance covers its cost, and then waits last. */
  lemma SubmitOutcome(st: State, tx: Transaction)
    ensures var (st', r) := Submit(st, tx);
            && (Validate(tx).Err? ==> r == Err(Validate(tx).error) && st' == st)
            && (Validate(tx).Ok? ==>
                  && r == (if BalanceOf(st.accounts, tx.sender) >= Cost(tx) then Ok(tx.hash)
                           else Err(InsufficientBalance))
                  && st'.mempool == (if r.Ok? then st.mempool + [tx] else st.mempool)
                  && st'.transactions == st.transactions && st'.executed == st.executed
                  && st'.accounts == if tx.sender in st.accounts then st.accounts
                                     else st.accounts[tx.sender := AccountState(0, 0)])
  {
  }

  /**
   The earliest waiting transaction with the hash is confirmed exactly when its
   sender's balance covers its cost, and fails for want of balance otherwise.
   */
  lemma ExecuteOutcome(st: State, txHash: string, i: nat)
    requires i < |st.mempool| && st.mempool[i].hash == txHash
    requires forall j :: 0 <= j < i ==> st.mempool[j].hash != txHash
    ensures var tx, (st', r) := st.mempool[i], Execute(st, txHash);
            var confirmed := BalanceOf(st.accounts, tx.sender) >= Cost(tx);
            && r == Ok(if confirmed then ExecutionResult(txHash, Confirmed, None)
                       else ExecutionResult(txHash, Failed, Some(InsufficientBalance)))
            && st'.executed == st.executed + [r.value]
            && st'.transactions == st.transactions + [tx.(status := r.value.status)]
            && st'.mempool == st.mempool[..i] + st.mempool[i + 1..]
    ensures SumOutputs(st.mempool[i].outputs) + st.mempool[i].fee < U128_MOD ==>
      (Execute(st, txHash).1.value.status == Confirmed <==>
        BalanceOf(st.accounts, st.mempool[i].sender) >= SumOutputs(st.mempool[i].outputs) + st.mempool[i].fee)
  {
    CostFits(st.mempool[i]);
    EarliestPosition(st.mempool, txHash, i);
  }

  lemma EarliestPosition(mempool: seq<Transaction>, txHash: string, i: nat)
    requires i < |mempool| && mempool[i].hash == txHash && forall j :: 0 <= j < i ==> mempool[j].hash != txHash
    ensures Position(mempool, txHash) == i
  {
  }

  /** The sender of a confirmed transaction pays its cost, and nobody else pays. */
  lemma ConfirmedCost(accounts: Ledger, tx: Transaction)
    ensures Transfer(accounts, tx).1 <==> BalanceOf(accounts, tx.sender) >= Cost(tx)
    ensures Transfer(accounts, tx).1 ==>
      BalanceOf(Transfer(accounts, tx).0, tx.sender) + Cost(tx) == BalanceOf(accounts, tx.sender)
  {
  }

  // ---------------------------------------------------------------- conservation of one execution

  ghost function Balances(accounts: Ledger): map<string, nat> {
    map a | a in accounts :: accounts[a].balance
  }

  ghost function Total(accounts: Ledger): nat {
    SumMap(Balances(accounts))
  }

  /** All balances but the sender's. */
  ghost function TotalOthers(accounts: Ledger, sender: string): nat {
    SumMap(Balances(accounts) - {sender})
  }

  /** What the first n outputs pay to an address. */
  function PaidTo(outputs: seq<TransactionOutput>, a: string, n: nat): nat
    requires n <= |outputs|
  {
    if n == 0 then 0 else PaidTo(outputs, a, n - 1) + if outputs[n - 1].recipient == a then outputs[n - 1].amount else 0
  }

  function PaidUpTo(outputs: seq<TransactionOutput>, n: nat): nat
    requires n <= |outputs|
  {
    if n == 0 then 0 else PaidUpTo(outputs, n - 1) + outputs[n - 1].amount
  }

  lemma {:induction false} PaidUpToIsSum(outputs: seq<TransactionOutput>, n: nat)
    requires n <= |outputs|
    ensures PaidUpTo(outputs, n) == SumOutputs(outputs[..n])
  {
    if n > 0 {
      assert outputs[..n][..n - 1] == outputs[..n - 1];
      PaidUpToIsSum(outputs, n - 1);
    }
  }

  lemma {:induction false} PaidToBelow(outputs: seq<TransactionOutput>, a: string, n: nat)
    requires n <= |outputs|
    ensures PaidTo(outputs, a, n) <= PaidUpTo(outputs, n)
  {
    if n > 0 {
      PaidToBelow(outputs, a, n - 1);
    }
  }

  lemma SplitTotal(accounts: Ledger, sender: string)
    requires sender in accounts
    ensures Total(accounts) == accounts[sender].balance + TotalOthers(accounts, sender)
  {
    SumMapRemove(Balances(accounts), sender);
  }

  /** What does not fit a u128. */
  function Over(x: nat): nat {
    if x > U128_MAX then x - U128_MAX else 0
  }

  function Recipients(outputs: seq<TransactionOutput>): set<string> {
    set output | output in outputs :: output.recipient
  }

  /** By how much the first n outputs overfill an account. */
  function ExcessOf(accounts: Ledger, outputs: seq<TransactionOutput>, a: string, n: nat): nat
    requires n <= |outputs|
  {
    Over(AccountOf(accounts, a).balance + PaidTo(outputs, a, n))
  }

  /** The same for every recipient but the sender. */
  ghost function Excesses(accounts: Ledger, outputs: seq<TransactionOutput>, sender: string, n: nat): map<string, nat>
    requires n <= |outputs|
  {
    map a | a in Recipients(outputs) - {sender} :: ExcessOf(accounts, outputs, a, n)
  }

  lemma OverStep(balance: u128, paid: nat, amount: u128)
    ensures Over(Min(balance + paid, U128_MAX) + amount) + Over(balance + paid) == Over(balance + paid + amount)
  {
  }

  /** One more output moves only its own recipient's excess, by what it overfills the account as it is by then. */
  lemma ExcessStep(accounts: Ledger, outputs: seq<TransactionOutput>, a: string, n: nat)
    requires 0 < n <= |outputs|
    ensures ExcessOf(accounts, outputs, a, n) == ExcessOf(accounts, outputs, a, n - 1)
      + if outputs[n - 1].recipient == a
        then Over(Min(AccountOf(accounts, a).balance + PaidTo(outputs, a, n - 1), U128_MAX) + outputs[n - 1].amount)
        else 0
  {
    OverStep(AccountOf(accounts, a).balance, PaidTo(outputs, a, n - 1), outputs[n - 1].amount);
  }

  /** What is cut from the n-th output: nothing when it pays the sender. */
  function CutAt(accounts: Ledger, outputs: seq<TransactionOutput>, sender: string, n: nat): nat
    requires 0 < n <= |outputs|
  {
    var output := outputs[n - 1];
    if output.recipient == sender then 0
    else Over(AccountOf(CreditOutputs(accounts, outputs, n - 1), output.recipient).balance + output.amount)
  }

  function CutUpTo(accounts: Ledger, outputs: seq<TransactionOutput>, sender: string, n: nat): nat
    requires n <= |outputs|
  {
    if n == 0 then 0 else CutUpTo(accounts, outputs, sender, n - 1) + CutAt(accounts, outputs, sender, n)
  }

  lemma CutIsOneExcess(accounts: Ledger, outputs: seq<TransactionOutput>, sender: string, a: string, n: nat)
    requires 0 < n <= |outputs| && a != sender
    ensures ExcessOf(accounts, outputs, a, n) == ExcessOf(accounts, outputs, a, n - 1)
      + if outputs[n - 1].recipient == a then CutAt(accounts, outputs, sender, n) else 0
  {
    ExcessStep(accounts, outputs, a, n);
    var _ := CreditsByAccount(accounts, outputs, a, n - 1);
  }

  lemma ExcessesMove(accounts: Ledger, outputs: seq<TransactionOutput>, sender: string, n: nat, cut: nat,
                     before: map<string, nat>, after: map<string, nat>)
    requires 0 < n <= |outputs| && cut == CutAt(accounts, outputs, sender, n)
    requires before == Excesses(accounts, outputs, sender, n - 1) && after == Excesses(accounts, outputs, sender, n)
    ensures before.Keys == Recipients(outputs) - {sender} == after.Keys
    ensures forall a :: a in before ==> after[a] == before[a] + if a == outputs[n - 1].recipient then cut else 0
  {
    forall a | a in before
      ensures after[a] == before[a] + if a == outputs[n - 1].recipient then cut else 0
    {
      CutIsOneExcess(accounts, outputs, sender, a, n);
    }
  }

  lemma ExcessMoves(accounts: Ledger, outputs: seq<TransactionOutput>, sender: string, n: nat) returns (cut: nat)
    requires 0 < n <= |outputs|
    ensures cut == CutAt(accounts, outputs, sender, n)
    ensures SumMap(Excesses(accounts, outputs, sender, n)) == SumMap(Excesses(accounts, outputs, sender, n - 1)) + cut
  {
    cut := CutAt(accounts, outputs, sender, n);
    var before, after := Excesses(accounts, outputs, sender, n - 1), Excesses(accounts, outputs, sender, n);
    ExcessesMove(accounts, outputs, sender, n, cut, before, after);
    RecipientListed(outputs, n);
    OneKeyGrows(before, after, outputs[n - 1].recipient, cut);
  }

  lemma RecipientListed(outputs: seq<TransactionOutput>, n: nat)
    requires 0 < n <= |outputs|
    ensures outputs[n - 1].recipient in Recipients(outputs)
  {
    assert outputs[n - 1] in outputs;
  }

  /** Whatever the order of the outputs, what is cut from them is what they overfill. */
  lemma {:induction false} CutIsExcess(accounts: Ledger, outputs: seq<TransactionOutput>, sender: string, n: nat)
    returns (sum: nat)
    requires n <= |outputs|
    ensures sum == CutUpTo(accounts, outputs, sender, n) == SumMap(Excesses(accounts, outputs, sender, n))
    decreases n
  {
    if n == 0 {
      AllZero(Excesses(accounts, outputs, sender, 0));
      sum := 0;
    } else {
      sum := CutIsExcess(accounts, outputs, sender, n - 1);
      var cut := ExcessMoves(accounts, outputs, sender, n);
      sum := sum + cut;
    }
  }

  /** Crediting anybody but the sender adds the amount to the others' total, less what is cut at the maximum. */
  lemma CreditMovesOthers(accounts: Ledger, output: TransactionOutput, sender: string) returns (cut: nat)
    ensures TotalOthers(Credit(accounts, output), sender) + cut
      == TotalOthers(accounts, sender) + if output.recipient == sender then 0 else output.amount
    ensures cut > 0 ==> TotalOthers(Credit(accounts, output), sender) >= U128_MAX
    ensures TotalOthers(Credit(accounts, output), sender) >= TotalOthers(accounts, sender)
    ensures cut == if output.recipient == sender then 0
                   else Over(AccountOf(accounts, output.recipient).balance + output.amount)
  {
    var r := output.recipient;
    var before, after := Balances(accounts) - {sender}, Balances(Credit(accounts, output)) - {sender};
    if r == sender {
      assert after == before;
      cut := 0;
    } else {
      var balance := SatAdd128(At(before, r), output.amount);
      cut := At(before, r) + output.amount - balance;
      assert after == before[r := balance];
      SumMapSet(before, r, balance);
      SumMapRemove(after, r);
    }
  }

  /** All outputs credited in turn: something is cut only if the others' total has reached the maximum. */
  lemma {:induction false} CreditsMoveOthers(accounts: Ledger, outputs: seq<TransactionOutput>, sender: string, n: nat)
    returns (after: Ledger, cut: nat)
    requires n <= |outputs|
    ensures after == CreditOutputs(accounts, outputs, n)
    ensures TotalOthers(after, sender) + PaidTo(outputs, sender, n) + cut
      == TotalOthers(accounts, sender) + PaidUpTo(outputs, n)
    ensures cut > 0 ==> TotalOthers(after, sender) >= U128_MAX
    ensures cut == CutUpTo(accounts, outputs, sender, n)
    decreases n
  {
    if n == 0 {
      after, cut := accounts, 0;
    } else {
      var mid, c := CreditsMoveOthers(accounts, outputs, sender, n - 1);
      var output := outputs[n - 1];
      var d := CreditMovesOthers(mid, output, sender);
      after, cut := Credit(mid, output), c + d;
    }
  }

  lemma TouchKeepsBalances(accounts: Ledger, a: string)
    ensures Total(Touch(accounts, a)) == Total(accounts)
    ensures forall b :: AccountOf(Touch(accounts, a), b) == AccountOf(accounts, b)
  {
    if a in accounts {
      assert Touch(accounts, a) == accounts;
    } else {
      assert Balances(Touch(accounts, a)) == Balances(accounts)[a := 0];
      SumMapInsert(Balances(accounts), a, 0);
    }
  }

  /** What the outputs of a transaction pay back to its own sender. */
  function PaidToSelf(tx: Transaction): nat {
    PaidTo(tx.outputs, tx.sender, |tx.outputs|)
  }

  /** The no-overflow condition on a transaction's amounts. */
  predicate AmountsFit(tx: Transaction) {
    SumOutputs(tx.outputs) + tx.fee < U128_MOD
  }

  /** What the outputs pay to everybody else, as an unbounded sum. */
  function PaidToOthers(tx: Transaction): nat {
    PaidToBelow(tx.outputs, tx.sender, |tx.outputs|);
    PaidUpToIsSum(tx.outputs, |tx.outputs|);
    assert tx.outputs[..|tx.outputs|] == tx.outputs;
    SumOutputs(tx.outputs) - PaidToSelf(tx)
  }

  /** By how much a transaction overfills the accounts it pays, its sender's aside. */
  ghost function Excess(accounts: Ledger, tx: Transaction): nat {
    SumMap(Excesses(accounts, tx.outputs, tx.sender, |tx.outputs|))
  }

  /**
   The books of every confirmed transaction, on every ledger: the sender is
   charged `Needed`, and the others receive what they are paid less what overfills
   their accounts, which is nothing until they together hold the u128 maximum.
   */
  lemma TransferBooks(accounts: Ledger, tx: Transaction) returns (cut: nat)
    requires Transfer(accounts, tx).1
    ensures cut == Excess(accounts, tx)
    ensures Total(Transfer(accounts, tx).0) + Needed(tx) + cut == Total(accounts) + PaidToOthers(tx)
    ensures cut > 0 ==> TotalOthers(Transfer(accounts, tx).0, tx.sender) >= U128_MAX
    ensures TotalOthers(Transfer(accounts, tx).0, tx.sender) <= Total(Transfer(accounts, tx).0)
    ensures AccountOf(accounts, tx.sender).balance + TotalOthers(accounts, tx.sender) == Total(accounts)
    ensures TotalOthers(Transfer(accounts, tx).0, tx.sender) + cut
      == TotalOthers(accounts, tx.sender) + PaidToOthers(tx)
  {
    var credited;
    credited, cut := CreditedOthers(accounts, tx);
    var after := credited[tx.sender := Debited(AccountOf(accounts, tx.sender), tx)];
    SenderAside(accounts, tx.sender);
    SplitTotal(after, tx.sender);
    SameOthers(after, credited, tx.sender);
  }

  lemma SameOthers(a: Ledger, b: Ledger, sender: string)
    requires Balances(a) - {sender} == Balances(b) - {sender}
    ensures TotalOthers(a, sender) == TotalOthers(b, sender)
  {
  }

  lemma SenderAside(accounts: Ledger, sender: string)
    ensures AccountOf(accounts, sender).balance + TotalOthers(accounts, sender) == Total(accounts)
    ensures TotalOthers(Touch(accounts, sender), sender) == TotalOthers(accounts, sender)
  {
    TouchKeepsBalances(accounts, sender);
    SplitTotal(Touch(accounts, sender), sender);
    SameOthers(Touch(accounts, sender), accounts, sender);
  }

  lemma SameExcess(accounts: Ledger, tx: Transaction)
    ensures SumMap(Excesses(Touch(accounts, tx.sender), tx.outputs, tx.sender, |tx.outputs|)) == Excess(accounts, tx)
  {
    TouchKeepsBalances(accounts, tx.sender);
    assert Excesses(Touch(accounts, tx.sender), tx.outputs, tx.sender, |tx.outputs|)
      == Excesses(accounts, tx.outputs, tx.sender, |tx.outputs|);
  }

  /** The ledger before the sender's account is written back. */
  lemma CreditedOthers(accounts: Ledger, tx: Transaction) returns (credited: Ledger, cut: nat)
    ensures credited == CreditOutputs(Touch(accounts, tx.sender), tx.outputs, |tx.outputs|)
    ensures TotalOthers(credited, tx.sender) + cut == TotalOthers(accounts, tx.sender) + PaidToOthers(tx)
    ensures cut == Excess(accounts, tx)
    ensures cut > 0 ==> TotalOthers(credited, tx.sender) >= U128_MAX
  {
    SenderAside(accounts, tx.sender);
    SameExcess(accounts, tx);
    PaidUpToIsSum(tx.outputs, |tx.outputs|);
    assert tx.outputs[..|tx.outputs|] == tx.outputs;
    credited, cut := CreditsMoveOthers(Touch(accounts, tx.sender), tx.outputs, tx.sender, |tx.outputs|);
    var _ := CutIsExcess(Touch(accounts, tx.sender), tx.outputs, tx.sender, |tx.outputs|);
  }

  /** The sender is charged exactly what the others are promised and the fee. */
  predicate Balanced(tx: Transaction) {
    PaidToOthers(tx) + tx.fee == Needed(tx)
  }

  /**
   A confirmed transaction costs the ledger exactly its fee if and only if it is
   balanced, on every ledger whose total fits u128; the one ledger total at which
   a free transaction can meet the law by being cut is the u128 maximum itself.
   */
  lemma LossIsFeeIffBalanced(accounts: Ledger, tx: Transaction)
    requires Total(accounts) < U128_MOD && Transfer(accounts, tx).1
    ensures Balanced(tx) ==> Total(Transfer(accounts, tx).0) + tx.fee == Total(accounts)
    ensures Total(Transfer(accounts, tx).0) + tx.fee == Total(accounts) && (Total(accounts) < U128_MAX || tx.fee > 0)
      ==> Balanced(tx)
  {
    var cut := TransferBooks(accounts, tx);
  }

  /**
   Below that total, in terms of the amounts alone: the loss is the fee if and
   only if what the others are paid is the wrapped sum of all outputs.  When
   nothing is paid to the sender, this says that the sum does not wrap.
   */
  lemma LossIsFeeIffUnwrapped(accounts: Ledger, tx: Transaction)
    requires Total(accounts) < U128_MAX && Transfer(accounts, tx).1
    ensures Total(Transfer(accounts, tx).0) + tx.fee == Total(accounts) <==>
      SumOutputs(tx.outputs) - PaidToSelf(tx) == TotalOutput(tx)
    ensures PaidToSelf(tx) == 0 ==>
      (Total(Transfer(accounts, tx).0) + tx.fee == Total(accounts) <==> SumOutputs(tx.outputs) < U128_MOD)
  {
    LossIsFeeIffBalanced(accounts, tx);
    SplitTotal(Touch(accounts, tx.sender), tx.sender);
    TouchKeepsBalances(accounts, tx.sender);
    assert PaidToOthers(tx) == SumOutputs(tx.outputs) - PaidToSelf(tx);
  }

  /**
   On every ledger a confirmed transaction costs exactly its fee if and only if the
   sender is charged the fee and what the others are paid less what overfills
   their accounts; while the total is below the u128 maximum, if and only if what
   the others are paid is the wrapped sum of all outputs.
   */
  lemma LossIsFeeIff(accounts: Ledger, tx: Transaction)
    requires Transfer(accounts, tx).1
    ensures Total(Transfer(accounts, tx).0) + tx.fee == Total(accounts) <==>
      Needed(tx) + Excess(accounts, tx) == PaidToOthers(tx) + tx.fee
    ensures Total(accounts) < U128_MAX ==>
      (Total(Transfer(accounts, tx).0) + tx.fee == Total(accounts) <==> PaidToOthers(tx) == TotalOutput(tx))
  {
    var cut := TransferBooks(accounts, tx);
    if Total(accounts) < U128_MAX {
      LossIsFeeIffUnwrapped(accounts, tx);
    }
  }

  /** While the amounts fit, the sum of all balances falls by the fee and by whatever the outputs pay to the sender. */
  lemma TransferConserves(accounts: Ledger, tx: Transaction)
    requires Total(accounts) < U128_MOD && AmountsFit(tx) && Transfer(accounts, tx).1
    ensures Total(Transfer(accounts, tx).0) + tx.fee + PaidToSelf(tx) == Total(accounts)
  {
    NeededIsExact(tx);
    var cut := TransferBooks(accounts, tx);
    assert PaidToOthers(tx) == SumOutputs(tx.outputs) - PaidToSelf(tx);
  }

  lemma {:induction false} NothingPaidIff(outputs: seq<TransactionOutput>, a: string, n: nat)
    requires n <= |outputs| && forall i :: 0 <= i < |outputs| ==> outputs[i].amount > 0
    ensures PaidTo(outputs, a, n) == 0 <==> forall i :: 0 <= i < n ==> outputs[i].recipient != a
  {
    if n > 0 {
      NothingPaidIff(outputs, a, n - 1);
    }
  }

  /** For a validated transaction the loss is exactly the fee if and only if no output pays the sender. */
  lemma LossIsFeeIffUnpaid(accounts: Ledger, tx: Transaction)
    requires Total(accounts) < U128_MOD && AmountsFit(tx) && Transfer(accounts, tx).1 && Validate(tx).Ok?
    ensures Total(Transfer(accounts, tx).0) + tx.fee == Total(accounts) <==>
      forall i :: 0 <= i < |tx.outputs| ==> tx.outputs[i].recipient != tx.sender
  {
    TransferConserves(accounts, tx);
    NothingPaidIff(tx.outputs, tx.sender, |tx.outputs|);
  }

  /** Crediting, account by account: nonces stay, and balances that fit grow by what is paid. */
  lemma {:induction false} CreditsByAccount(accounts: Ledger, outputs: seq<TransactionOutput>, a: string, n: nat)
    returns (after: Ledger)
    requires n <= |outputs|
    ensures after == CreditOutputs(accounts, outputs, n)
    ensures AccountOf(after, a).nonce == AccountOf(accounts, a).nonce
    ensures AccountOf(after, a).balance == Min(AccountOf(accounts, a).balance + PaidTo(outputs, a, n), U128_MAX)
    decreases n
  {
    if n == 0 {
      after := accounts;
    } else {
      var mid := CreditsByAccount(accounts, outputs, a, n - 1);
      after := Credit(mid, outputs[n - 1]);
    }
  }

  /** What a confirmed transaction does to each single account, repeated recipients included. */
  lemma TransferByAccount(accounts: Ledger, tx: Transaction, a: string)
    requires Transfer(accounts, tx).1
    ensures var before, after := AccountOf(accounts, a), AccountOf(Transfer(accounts, tx).0, a);
            if a == tx.sender then
              after.balance + Needed(tx) == before.balance && after.nonce == Bump(before.nonce)
            else
              && after.balance == Min(before.balance + PaidTo(tx.outputs, a, |tx.outputs|), U128_MAX)
              && after.nonce == before.nonce
  {
    var touched := Touch(accounts, tx.sender);
    TouchKeepsBalances(accounts, tx.sender);
    var credited := CreditsByAccount(touched, tx.outputs, a, |tx.outputs|);
  }

  /** A failed execution changes no balance and no nonce. */
  lemma FailedTransferChangesNothing(accounts: Ledger, tx: Transaction)
    requires !Transfer(accounts, tx).1
    ensures Total(Transfer(accounts, tx).0) == Total(accounts)
    ensures forall a :: AccountOf(Transfer(accounts, tx).0, a) == AccountOf(accounts, a)
  {
    TouchKeepsBalances(accounts, tx.sender);
  }

  // ---------------------------------------------------------------- runs

  datatype Event = SubmitTransaction(tx: Transaction) | ExecuteTransaction(txHash: string)

  function Step(st: State, ev: Event): State {
    match ev
    case SubmitTransaction(tx) => Submit(st, tx).0
    case ExecuteTransaction(h) => Execute(st, h).0
  }

  /** From any initial ledger, with nothing submitted yet. */
  function Run(ledger: Ledger, evs: seq<Event>): State {
    if evs == [] then State(ledger, [], [], []) else Step(Run(ledger, evs[..|evs| - 1]), evs[|evs| - 1])
  }

  /** How many submissions were taken. */
  function Submitted(ledger: Ledger, evs: seq<Event>): nat {
    if evs == [] then 0
    else
      var init, last := evs[..|evs| - 1], evs[|evs| - 1];
      Submitted(ledger, init) + if last.SubmitTransaction? && Submit(Run(ledger, init), last.tx).1.Ok? then 1 else 0
  }

  predicate ConfirmedBy(tx: Transaction, a: string) {
    tx.status == Confirmed && tx.sender == a
  }

  function ConfirmedCount(txs: seq<Transaction>, a: string): nat {
    if txs == [] then 0
    else ConfirmedCount(txs[..|txs| - 1], a) + if ConfirmedBy(txs[|txs| - 1], a) then 1 else 0
  }

  /** Fees and payments to self of the confirmed transactions. */
  function Burned(txs: seq<Transaction>): nat {
    if txs == [] then 0
    else
      var last := txs[|txs| - 1];
      Burned(txs[..|txs| - 1]) + if last.status == Confirmed then last.fee + PaidToSelf(last) else 0
  }

  /** Each execution is recorded with its transaction and its final status. */
  ghost predicate Logged(st: State) {
    && |st.transactions| == |st.executed|
    && forall i :: 0 <= i < |st.executed| ==>
         && st.executed[i].txHash == st.transactions[i].hash
         && st.executed[i].status == st.transactions[i].status
         && (st.executed[i].status == Confirmed || st.executed[i].status == Failed)
  }

  lemma StepLogs(st: State, ev: Event)
    requires Logged(st)
    ensures Logged(Step(st, ev))
    ensures var st' := Step(st, ev);
            |st'.mempool| + |st'.executed| == |st.mempool| + |st.executed|
              + if ev.SubmitTransaction? && Submit(st, ev.tx).1.Ok? then 1 else 0
  {
  }

  /** Every submission that was taken is either waiting or executed. */
  lemma {:induction false} RunCounts(ledger: Ledger, evs: seq<Event>)
    ensures Logged(Run(ledger, evs))
    ensures Submitted(ledger, evs) == |Run(ledger, evs).mempool| + |Run(ledger, evs).executed|
  {
    if evs != [] {
      RunCounts(ledger, evs[..|evs| - 1]);
      StepLogs(Run(ledger, evs[..|evs| - 1]), evs[|evs| - 1]);
    }
  }

  lemma CountSnoc(txs: seq<Transaction>, tx: Transaction, a: string)
    ensures ConfirmedCount(txs + [tx], a) == ConfirmedCount(txs, a) + if ConfirmedBy(tx, a) then 1 else 0
  {
    assert (txs + [tx])[..|txs|] == txs;
  }

  /** One step confirms at most one transaction of an address, and moves its nonce exactly then. */
  lemma StepNonce(st: State, ev: Event, a: string) returns (confirmed: bool)
    ensures ConfirmedCount(Step(st, ev).transactions, a)
      == ConfirmedCount(st.transactions, a) + if confirmed then 1 else 0
    ensures AccountOf(Step(st, ev).accounts, a).nonce ==
      if confirmed then Bump(AccountOf(st.accounts, a).nonce) else AccountOf(st.accounts, a).nonce
  {
    confirmed := false;
    match ev {
      case SubmitTransaction(tx) =>
        TouchKeepsBalances(st.accounts, tx.sender);
      case ExecuteTransaction(h) =>
        var i := Position(st.mempool, h);
        if i < |st.mempool| {
          var tx := st.mempool[i];
          var ok := Transfer(st.accounts, tx).1;
          CountSnoc(st.transactions, tx.(status := Outcome(tx, ok).status), a);
          confirmed := ok && tx.sender == a;
          if ok {
            TransferByAccount(st.accounts, tx, a);
          } else {
            FailedTransferChangesNothing(st.accounts, tx);
          }
        }
    }
  }

  /** Along every run a nonce grows by the number of confirmed transactions its address sent (and saturates). */
  lemma {:induction false} NonceCountsConfirmed(ledger: Ledger, evs: seq<Event>, a: string)
    returns (nonce: u64, count: nat)
    ensures nonce == AccountOf(Run(ledger, evs).accounts, a).nonce
    ensures count == ConfirmedCount(Run(ledger, evs).transactions, a)
    ensures nonce == Min(AccountOf(ledger, a).nonce + count, U64_MAX)
  {
    if evs == [] {
      nonce, count := AccountOf(ledger, a).nonce, 0;
    } else {
      nonce, count := NonceCountsConfirmed(ledger, evs[..|evs| - 1], a);
      var confirmed := StepNonce(Run(ledger, evs[..|evs| - 1]), evs[|evs| - 1], a);
      if confirmed {
        nonce, count := Bump(nonce), count + 1;
      }
    }
  }

  ghost predicate AllFit(txs: seq<Transaction>) {
    forall i :: 0 <= i < |txs| ==> AmountsFit(txs[i])
  }

  lemma BurnedSnoc(txs: seq<Transaction>, tx: Transaction, status: TransactionStatus)
    ensures Burned(txs + [tx.(status := status)])
      == Burned(txs) + if status == Confirmed then tx.fee + PaidToSelf(tx) else 0
  {
    var done := tx.(status := status);
    assert (txs + [done])[..|txs|] == txs;
    assert PaidToSelf(done) == PaidToSelf(tx);
  }

  /** One execution, and what it burns. */
  lemma TransferBurns(accounts: Ledger, tx: Transaction) returns (burned: nat)
    requires Total(accounts) < U128_MOD && AmountsFit(tx)
    ensures burned == if Transfer(accounts, tx).1 then tx.fee + PaidToSelf(tx) else 0
    ensures Total(Transfer(accounts, tx).0) + burned == Total(accounts)
  {
    burned := 0;
    if Transfer(accounts, tx).1 {
      TransferConserves(accounts, tx);
      burned := tx.fee + PaidToSelf(tx);
    } else {
      FailedTransferChangesNothing(accounts, tx);
    }
  }

  lemma StepBurns(st: State, ev: Event)
    requires Total(st.accounts) < U128_MOD && AllFit(st.mempool)
    requires ev.SubmitTransaction? ==> AmountsFit(ev.tx)
    ensures var st' := Step(st, ev);
            && AllFit(st'.mempool)
            && Total(st'.accounts) + Burned(st'.transactions) == Total(st.accounts) + Burned(st.transactions)
            && Total(st'.accounts) <= Total(st.accounts)
  {
    match ev {
      case SubmitTransaction(tx) =>
        TouchKeepsBalances(st.accounts, tx.sender);
      case ExecuteTransaction(h) =>
        var i := Position(st.mempool, h);
        if i < |st.mempool| {
          var tx := st.mempool[i];
          var burned := TransferBurns(st.accounts, tx);
          BurnedSnoc(st.transactions, tx, Outcome(tx, Transfer(st.accounts, tx).1).status);
        }
    }
  }

  /** Along every run: what has left the ledger is the fees and self-payments of confirmed transactions. */
  lemma {:induction false} RunConserves(ledger: Ledger, evs: seq<Event>)
    requires Total(ledger) < U128_MOD
    requires forall i :: 0 <= i < |evs| && evs[i].SubmitTransaction? ==> AmountsFit(evs[i].tx)
    ensures var st := Run(ledger, evs);
            && AllFit(st.mempool)
            && Total(st.accounts) + Burned(st.transactions) == Total(ledger)
  {
    if evs != [] {
      RunConserves(ledger, evs[..|evs| - 1]);
      StepBurns(Run(ledger, evs[..|evs| - 1]), evs[|evs| - 1]);
    }
  }

  // ---------------------------------------------------------------- runs of any amounts

  /** What the senders of the confirmed transactions were charged. */
  function Charged(txs: seq<Transaction>): nat {
    if txs == [] then 0
    else
      var last := txs[|txs| - 1];
      Charged(txs[..|txs| - 1]) + if last.status == Confirmed then Needed(last) else 0
  }

  /** What the confirmed transactions paid to others than their senders. */
  function Delivered(txs: seq<Transaction>): nat {
    if txs == [] then 0
    else
      var last := txs[|txs| - 1];
      Delivered(txs[..|txs| - 1]) + if last.status == Confirmed then PaidToOthers(last) else 0
  }

  lemma BooksSnoc(txs: seq<Transaction>, tx: Transaction, status: TransactionStatus)
    ensures var all := txs + [tx.(status := status)];
            && Charged(all) == Charged(txs) + (if status == Confirmed then Needed(tx) else 0)
            && Delivered(all) == Delivered(txs) + (if status == Confirmed then PaidToOthers(tx) else 0)
  {
    var done := tx.(status := status);
    assert (txs + [done])[..|txs|] == txs;
    assert PaidToSelf(done) == PaidToSelf(tx);
  }

  /** One execution, successful or not. */
  lemma ExecutionBooks(accounts: Ledger, tx: Transaction) returns (cut: nat, charged: nat, delivered: nat)
    ensures charged == if Transfer(accounts, tx).1 then Needed(tx) else 0
    ensures delivered == if Transfer(accounts, tx).1 then PaidToOthers(tx) else 0
    ensures Total(Transfer(accounts, tx).0) + charged + cut == Total(accounts) + delivered
    ensures cut > 0 ==> Total(Transfer(accounts, tx).0) >= U128_MAX
  {
    cut, charged, delivered := 0, 0, 0;
    if Transfer(accounts, tx).1 {
      cut := TransferBooks(accounts, tx);
      charged, delivered := Needed(tx), PaidToOthers(tx);
    } else {
      FailedTransferChangesNothing(accounts, tx);
    }
  }

  /** What a step adds to the books: charged, delivered, and a cut that only happens at the u128 maximum. */
  ghost predicate StepBalances(st: State, st': State, cut: nat) {
    && Total(st'.accounts) + Charged(st'.transactions) + Delivered(st.transactions) + cut
       == Total(st.accounts) + Delivered(st'.transactions) + Charged(st.transactions)
    && (cut > 0 ==> Total(st'.accounts) >= U128_MAX)
  }

  lemma ExecuteBooks(st: State, h: string) returns (cut: nat)
    ensures StepBalances(st, Execute(st, h).0, cut)
  {
    cut := 0;
    var i := Position(st.mempool, h);
    if i < |st.mempool| {
      var tx := st.mempool[i];
      var charged, delivered;
      cut, charged, delivered := ExecutionBooks(st.accounts, tx);
      BooksSnoc(st.transactions, tx, Outcome(tx, Transfer(st.accounts, tx).1).status);
    }
  }

  lemma StepBooks(st: State, ev: Event) returns (cut: nat)
    ensures StepBalances(st, Step(st, ev), cut)
  {
    match ev {
      case SubmitTransaction(tx) =>
        cut := 0;
        TouchKeepsBalances(st.accounts, tx.sender);
      case ExecuteTransaction(h) =>
        cut := ExecuteBooks(st, h);
    }
  }

  /** The ledger total reaches the u128 maximum at some point of the run. */
  ghost predicate ReachesMaximum(ledger: Ledger, evs: seq<Event>) {
    exists n :: 0 <= n <= |evs| && Total(Run(ledger, evs[..n]).accounts) >= U128_MAX
  }

  /**
   Along every run, from any ledger and whatever the amounts: the ledger moves by
   what was delivered less what was charged, until its total reaches the u128
   maximum; only then can a credit be cut.
   */
  lemma {:induction false} RunBooks(ledger: Ledger, evs: seq<Event>) returns (cut: nat)
    ensures var st := Run(ledger, evs);
            Total(st.accounts) + Charged(st.transactions) + cut == Total(ledger) + Delivered(st.transactions)
    ensures cut > 0 ==> ReachesMaximum(ledger, evs)
  {
    cut := 0;
    if evs != [] {
      var init := evs[..|evs| - 1];
      var c := RunBooks(ledger, init);
      var d := StepBooks(Run(ledger, init), evs[|evs| - 1]);
      cut := c + d;
      if c > 0 {
        var n :| 0 <= n <= |init| && Total(Run(ledger, init[..n]).accounts) >= U128_MAX;
        assert evs[..n] == init[..n];
      } else if d > 0 {
        assert evs[..|evs|] == evs;
      }
    }
  }

  // ---------------------------------------------------------------- a transaction that mints

  const HALF: u128 := U128_MOD / 2

  /** Two outputs of 2^127 each: their u128 sum is zero, so nothing is charged. */
  const MINTING: Transaction :=
    Transaction("h", "s", [TransactionInput("", 0, "")], [TransactionOutput("a", HALF), TransactionOutput("b", HALF)],
                0, 0, Pending)

  const MINTED: Ledger :=
    map["s" := AccountState(0, 1), "a" := AccountState(HALF, 0), "b" := AccountState(HALF, 0)]

  lemma MintingIsFree()
    ensures PaidToSelf(MINTING) == 0 && SumOutputs(MINTING.outputs) == U128_MOD
    ensures Validate(MINTING) == Ok(()) && Needed(MINTING) == 0
  {
    var outputs := MINTING.outputs;
    assert outputs[..1] == [TransactionOutput("a", HALF)] && outputs[..1][..0] == [];
    assert SumOutputs(outputs[..1]) == HALF;
    assert PaidTo(outputs, "s", 1) == PaidTo(outputs, "s", 0) == 0;
  }

  lemma MintedBalances()
    ensures Balances(map[]) == map[] && Balances(MINTED) == map["s" := 0, "a" := HALF, "b" := HALF]
  {
  }

  lemma SumOfThree<K>(a: K, b: K, c: K, x: nat, y: nat, z: nat)
    requires a != b && b != c && a != c
    ensures SumMap(map[a := x, b := y, c := z]) == x + y + z
  {
    var none: map<K, nat> := map[];
    SumMapInsert(none, a, x);
    SumMapInsert(none[a := x], b, y);
    SumMapInsert(none[a := x][b := y], c, z);
    assert map[a := x, b := y, c := z] == none[a := x][b := y][c := z];
  }

  lemma MintingTransfer()
    ensures Transfer(map["s" := NEW_ACCOUNT], MINTING) == (MINTED, true)
  {
    MintingIsFree();
    var start := map["s" := NEW_ACCOUNT];
    assert Touch(start, "s") == start;
    var once := start["a" := AccountState(HALF, 0)];
    var outputs := MINTING.outputs;
    assert CreditOutputs(start, outputs, 0) == start && Credit(start, outputs[0]) == once;
    assert CreditOutputs(start, outputs, 1) == once;
    assert CreditOutputs(start, outputs, 2) == Credit(once, outputs[1]) == once["b" := AccountState(HALF, 0)];
    assert Debited(NEW_ACCOUNT, MINTING) == AccountState(0, 1);
    assert once["b" := AccountState(HALF, 0)]["s" := AccountState(0, 1)] == MINTED;
  }

  /** Submitted to an empty ledger and executed, it is confirmed, and the total rises from 0 to 2^128 for a fee of 0. */
  lemma WrappedOutputsMint()
    ensures PaidToSelf(MINTING) == 0
    ensures var st := Run(map[], [SubmitTransaction(MINTING), ExecuteTransaction("h")]);
            && st.accounts == MINTED && st.transactions == [MINTING.(status := Confirmed)]
            && Total(map[]) == 0 && Total(st.accounts) == U128_MOD
  {
    MintingIsFree();
    MintingTransfer();
    MintedBalances();
    SumOfThree("s", "a", "b", 0, HALF, HALF);
    var evs := [SubmitTransaction(MINTING), ExecuteTransaction("h")];
    assert evs[..1] == [SubmitTransaction(MINTING)] && evs[..1][..0] == [];
    var submitted := State(map["s" := NEW_ACCOUNT], [MINTING], [], []);
    assert Run(map[], evs[..1]) == submitted by {
      assert Run(map[], []) == State(map[], [], [], []);
    }
    assert Run(map[], evs) == Execute(submitted, "h").0;
    assert Position(submitted.mempool, "h") == 0;
    assert Outcome(MINTING, true).status == Confirmed;
  }
}
