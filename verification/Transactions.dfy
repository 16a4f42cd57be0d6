/**
 Transactions and their validation against the unspent-output set
 (src/transaction_engine.rs, `Transaction`).  Strings are byte strings.
 */
module Transactions {

  import opened Words
  import opened Outcomes
  import opened OutpointKeys
  import opened Hex
  import opened UtxoSet

  datatype TransactionInput = TransactionInput(prevTxHash: string, outputIndex: u32, signature: string)

  datatype TransactionOutput = TransactionOutput(recipient: string, amount: u128)

  datatype TransactionStatus = Pending | Confirmed | Failed | Finalized

  datatype Transaction = Transaction(
    hash: string,
    sender: string,
    inputs: seq<TransactionInput>,
    outputs: seq<TransactionOutput>,
    fee: u128,
    timestamp: u64,
    status: TransactionStatus)

  datatype TxError =
    | EmptySender
    | NoInputs
    | NoOutputs
    | ZeroOutput
    | OutputExceedsInput
    | InputSpent(i: nat)
    | InputZero(i: nat)
    | InputAboveSupply(i: nat)
    | InputForeign(i: nat)
    | BadSignatureLength(i: nat)
    | BadSignature(i: nat)
    | InputNotFound(i: nat)
    | InsufficientInput
    | InsufficientBalance
    | NotInMempool

  /** One SLVR in MIST, as src/block_builder.rs:238-239 has it; the defining crate is not part of this model. */
  const MIST_PER_SLVR: nat := 100_000_000
  const MAX_SUPPLY: nat := 21_000_000 * MIST_PER_SLVR

  function SumOutputs(outputs: seq<TransactionOutput>): nat {
    if outputs == [] then 0 else SumOutputs(outputs[..|outputs| - 1]) + outputs[|outputs| - 1].amount
  }

  /** `total_output`: a u128 sum, which wraps. */
  function TotalOutput(tx: Transaction): u128 {
    SumOutputs(tx.outputs) % U128_MOD
  }

  /** The stand-in amount the basic check assumes for input i. */
  function StandInAmount(i: nat): nat {
    if i == 0 then MIST_PER_SLVR
    else if i == 1 then 2 * MIST_PER_SLVR
    else if i == 2 then 5 * MIST_PER_SLVR
    else if i == 3 then 10 * MIST_PER_SLVR
    else Min(MIST_PER_SLVR * (i + 1), U128_MAX)
  }

  predicate CountsAsInput(input: TransactionInput, i: nat) {
    && |input.prevTxHash| == 128
    && IsHex(input.prevTxHash)
    && input.signature != []
    && StandInAmount(i) <= MAX_SUPPLY
    && |input.signature| in {128, 132, 5120}
    && IsHex(input.signature)
  }

  /** `total_input`, over the first n inputs. */
  function StandInTotal(inputs: seq<TransactionInput>, n: nat): u128
    requires n <= |inputs|
  {
    if n == 0 then 0
    else
      var t := StandInTotal(inputs, n - 1);
      if CountsAsInput(inputs[n - 1], n - 1) then SatAdd128(t, StandInAmount(n - 1)) else t
  }

  /**
   What input i adds to the stand-in total: 1, 2, 5 and 10 coins for the first four
   and i + 1 coins after them, so long as that is within the supply, provided its
   hash is 64 bytes in hexadecimal and its signature one of three lengths of it.
   */
  ghost function StandInWorth(input: TransactionInput, i: nat): nat {
    if
      && |input.prevTxHash| == 128
      && (forall j :: 0 <= j < 128 ==> IsHexDigit(input.prevTxHash[j]))
      && (|input.signature| == 128 || |input.signature| == 132 || |input.signature| == 5120)
      && (forall j :: 0 <= j < |input.signature| ==> IsHexDigit(input.signature[j]))
      && i < 21_000_000
    then 100_000_000 * (if i == 0 then 1 else if i == 1 then 2 else if i == 2 then 5 else if i == 3 then 10 else i + 1)
    else 0
  }

  ghost function StandInWorths(inputs: seq<TransactionInput>, n: nat): nat
    requires n <= |inputs|
  {
    if n == 0 then 0 else StandInWorths(inputs, n - 1) + StandInWorth(inputs[n - 1], n - 1)
  }

  lemma StandInIs(input: TransactionInput, i: nat)
    ensures (if CountsAsInput(input, i) then StandInAmount(i) else 0) == StandInWorth(input, i)
  {
    DecodeIff(input.prevTxHash);
    DecodeIff(input.signature);
  }

  lemma {:induction false} StandInTotalIs(inputs: seq<TransactionInput>, n: nat)
    requires n <= |inputs|
    ensures StandInTotal(inputs, n) == Min(StandInWorths(inputs, n), U128_MAX)
  {
    if n > 0 {
      StandInTotalIs(inputs, n - 1);
      StandInIs(inputs[n - 1], n - 1);
    }
  }

  /** `Transaction::validate` */
  function Validate(tx: Transaction): Result<(), TxError> {
    if tx.sender == [] then Err(EmptySender)
    else if tx.inputs == [] then Err(NoInputs)
    else if tx.outputs == [] then Err(NoOutputs)
    else if exists i :: 0 <= i < |tx.outputs| && tx.outputs[i].amount == 0 then Err(ZeroOutput)
    else if TotalOutput(tx) > StandInTotal(tx.inputs, |tx.inputs|) then Err(OutputExceedsInput)
    else Ok(())
  }

  /** The basic check passes exactly when all parts are there, every output pays, and the outputs are covered. */
  lemma ValidateIff(tx: Transaction)
    ensures Validate(tx) == Ok(()) <==>
      && tx.sender != [] && tx.inputs != [] && tx.outputs != []
      && (forall i :: 0 <= i < |tx.outputs| ==> tx.outputs[i].amount > 0)
      && SumOutputs(tx.outputs) % U128_MOD <= StandInWorths(tx.inputs, |tx.inputs|)
    ensures tx.sender == [] ==> Validate(tx) == Err(EmptySender)
    ensures tx.sender != [] && tx.inputs == [] ==> Validate(tx) == Err(NoInputs)
    ensures tx.sender != [] && tx.inputs != [] && tx.outputs == [] ==> Validate(tx) == Err(NoOutputs)
    ensures tx.sender != [] && tx.inputs != [] && (exists i :: 0 <= i < |tx.outputs| && tx.outputs[i].amount == 0) ==>
      Validate(tx) == Err(ZeroOutput)
    ensures tx.sender != [] && tx.inputs != [] && tx.outputs != [] && Validate(tx).Err? ==>
      (forall i :: 0 <= i < |tx.outputs| ==> tx.outputs[i].amount > 0) ==> Validate(tx) == Err(OutputExceedsInput)
  {
    StandInTotalIs(tx.inputs, |tx.inputs|);
  }

  /** What the output set says against input i, if anything. */
  function InputFault(tx: Transaction, utxos: map<string, UTXOEntry>, i: nat): Option<TxError>
    requires i < |tx.inputs|
  {
    var input := tx.inputs[i];
    var key := Key(input.prevTxHash, input.outputIndex);
    if key !in utxos then Some(InputNotFound(i))
    else
      var utxo := utxos[key];
      if utxo.spent then Some(InputSpent(i))
      else if utxo.amount == 0 then Some(InputZero(i))
      else if utxo.amount > MAX_SUPPLY then Some(InputAboveSupply(i))
      else if utxo.recipient != tx.sender then Some(InputForeign(i))
      else if |input.signature| != 128 then Some(BadSignatureLength(i))
      else if !IsHex(input.signature) then Some(BadSignature(i))
      else None
  }

  /**
   The output set has nothing against input i: its outpoint is there, unspent, with
   an amount from 1 to the supply of 21 million coins, for the sender, and the
   signature is 64 bytes in hexadecimal.
   */
  ghost predicate InputOk(tx: Transaction, utxos: map<string, UTXOEntry>, i: nat)
    requires i < |tx.inputs|
  {
    var input := tx.inputs[i];
    var key := input.prevTxHash + ":" + Decimal(input.outputIndex);
    && key in utxos
    && !utxos[key].spent
    && 1 <= utxos[key].amount <= 2_100_000_000_000_000
    && utxos[key].recipient == tx.sender
    && |input.signature| == 128
    && forall j :: 0 <= j < 128 ==> IsHexDigit(input.signature[j])
  }

  /** The error for input i: the first requirement it misses. */
  ghost predicate InputError(tx: Transaction, utxos: map<string, UTXOEntry>, i: nat, error: TxError)
    requires i < |tx.inputs|
  {
    var input := tx.inputs[i];
    var key := input.prevTxHash + ":" + Decimal(input.outputIndex);
    match error
    case InputNotFound(n) => n == i && key !in utxos
    case InputSpent(n) => n == i && key in utxos && utxos[key].spent
    case InputZero(n) => n == i && key in utxos && !utxos[key].spent && utxos[key].amount == 0
    case InputAboveSupply(n) =>
      n == i && key in utxos && !utxos[key].spent && utxos[key].amount > 2_100_000_000_000_000
    case InputForeign(n) =>
      n == i && key in utxos && !utxos[key].spent && 1 <= utxos[key].amount <= 2_100_000_000_000_000
      && utxos[key].recipient != tx.sender
    case BadSignatureLength(n) =>
      n == i && key in utxos && !utxos[key].spent && 1 <= utxos[key].amount <= 2_100_000_000_000_000
      && utxos[key].recipient == tx.sender && |input.signature| != 128
    case BadSignature(n) =>
      n == i && key in utxos && !utxos[key].spent && 1 <= utxos[key].amount <= 2_100_000_000_000_000
      && utxos[key].recipient == tx.sender && |input.signature| == 128
      && exists j :: 0 <= j < 128 && !IsHexDigit(input.signature[j])
    case _ => false
  }

  lemma FaultIff(tx: Transaction, utxos: map<string, UTXOEntry>, i: nat)
    requires i < |tx.inputs|
    ensures InputFault(tx, utxos, i) == None <==> InputOk(tx, utxos, i)
    ensures InputFault(tx, utxos, i).Some? ==> InputError(tx, utxos, i, InputFault(tx, utxos, i).value)
  {
    DecodeIff(tx.inputs[i].signature);
  }

  lemma FaultsIff(tx: Transaction, utxos: map<string, UTXOEntry>)
    ensures forall i :: 0 <= i < |tx.inputs| ==> (InputFault(tx, utxos, i) == None <==> InputOk(tx, utxos, i))
    ensures forall i :: 0 <= i < |tx.inputs| && InputFault(tx, utxos, i).Some? ==>
      InputError(tx, utxos, i, InputFault(tx, utxos, i).value)
  {
    forall i | 0 <= i < |tx.inputs|
      ensures InputFault(tx, utxos, i) == None <==> InputOk(tx, utxos, i)
      ensures InputFault(tx, utxos, i).Some? ==> InputError(tx, utxos, i, InputFault(tx, utxos, i).value)
    {
      FaultIff(tx, utxos, i);
    }
  }

  function InputAmount(tx: Transaction, utxos: map<string, UTXOEntry>, i: nat): nat
    requires i < |tx.inputs|
  {
    var key := Key(tx.inputs[i].prevTxHash, tx.inputs[i].outputIndex);
    if key in utxos then utxos[key].amount else 0
  }

  /** The amounts behind the first n inputs. */
  function InputTotal(tx: Transaction, utxos: map<string, UTXOEntry>, n: nat): nat
    requires n <= |tx.inputs|
  {
    if n == 0 then 0 else InputTotal(tx, utxos, n - 1) + InputAmount(tx, utxos, n - 1)
  }

  /**
   `Transaction::validate_with_utxo_set`: success means that every input is an
   unspent output of the sender and that together they cover outputs and fee.
   */
  method ValidateWithUtxoSet(tx: Transaction, utxos: map<string, UTXOEntry>) returns (r: Result<(), TxError>)
    ensures r.Ok? <==> Spendable(tx, utxos)
    ensures r.Ok? <==>
      && Validate(tx).Ok?
      && (forall i :: 0 <= i < |tx.inputs| ==> InputOk(tx, utxos, i))
      && Min(InputTotal(tx, utxos, |tx.inputs|), U128_MAX) >= Min(SumOutputs(tx.outputs) % U128_MOD + tx.fee, U128_MAX)
    ensures Validate(tx).Err? ==> r == Validate(tx)
    ensures Validate(tx).Ok? && r.Err? ==>
      || (r.error == InsufficientInput && forall i :: 0 <= i < |tx.inputs| ==> InputOk(tx, utxos, i))
      || exists i :: 0 <= i < |tx.inputs| && InputError(tx, utxos, i, r.error)
                     && forall j :: 0 <= j < i ==> InputOk(tx, utxos, j)
  {
    FaultsIff(tx, utxos);
    r := Validate(tx);
    if r.Err? {
      return;
    }
    var totalInput: u128 := 0;
    for i := 0 to |tx.inputs|
      invariant forall j :: 0 <= j < i ==> InputFault(tx, utxos, j) == None
      invariant totalInput == Min(InputTotal(tx, utxos, i), U128_MAX)
    {
      var fault := InputFault(tx, utxos, i);
      if fault.Some? {
        return Err(fault.value);
      }
      totalInput := SatAdd128(totalInput, InputAmount(tx, utxos, i));
    }
    if totalInput < SatAdd128(TotalOutput(tx), tx.fee) {
      return Err(InsufficientInput);
    }
  }

  ghost predicate FaultFree(tx: Transaction, utxos: map<string, UTXOEntry>) {
    forall i :: 0 <= i < |tx.inputs| ==> InputFault(tx, utxos, i) == None
  }

  ghost predicate Spendable(tx: Transaction, utxos: map<string, UTXOEntry>) {
    && Validate(tx).Ok?
    && FaultFree(tx, utxos)
    && Min(InputTotal(tx, utxos, |tx.inputs|), U128_MAX) >= SatAdd128(TotalOutput(tx), tx.fee)
  }

  // ---------------------------------------------------------------- spending what was validated

  ghost predicate DistinctOutpoints(inputs: seq<TransactionInput>) {
    forall i, j :: 0 <= i < j < |inputs| ==>
      (inputs[i].prevTxHash, inputs[i].outputIndex) != (inputs[j].prevTxHash, inputs[j].outputIndex)
  }

  /** `spend_utxo` on the first n inputs in turn; false once one of them fails. */
  function SpendInputs(st: State, inputs: seq<TransactionInput>, n: nat): (State, bool)
    requires n <= |inputs|
  {
    if n == 0 then (st, true)
    else
      var (mid, ok) := SpendInputs(st, inputs, n - 1);
      if !ok then (mid, false)
      else
        var (next, r) := Spend(mid, inputs[n - 1].prevTxHash, inputs[n - 1].outputIndex);
        (next, r.Ok?)
  }

  function InputKey(tx: Transaction, i: nat): string
    requires i < |tx.inputs|
  {
    Key(tx.inputs[i].prevTxHash, tx.inputs[i].outputIndex)
  }

  lemma InputKeysDiffer(tx: Transaction, i: nat, j: nat)
    requires i < j < |tx.inputs| && DistinctOutpoints(tx.inputs)
    ensures InputKey(tx, i) != InputKey(tx, j)
  {
    if InputKey(tx, i) == InputKey(tx, j) {
      var a, b := tx.inputs[i], tx.inputs[j];
      KeyInjective(a.prevTxHash, a.outputIndex, b.prevTxHash, b.outputIndex);
      assert false;
    }
  }

  ghost predicate Unlisted(tx: Transaction, k: string, n: nat)
    requires n <= |tx.inputs|
  {
    forall i :: 0 <= i < n ==> InputKey(tx, i) != k
  }

  /** The state after the first n inputs have been spent: no other entry changed, and the index is intact. */
  ghost predicate SpentPrefix(tx: Transaction, st: State, mid: State, n: nat)
    requires n <= |tx.inputs|
  {
    && mid.utxos.Keys == st.utxos.Keys
    && (forall k :: k in st.utxos && Unlisted(tx, k, n) ==> mid.utxos[k] == st.utxos[k])
    && IndexOk(mid)
  }

  /** Each of the first n inputs is fault-free and differs from all before it. */
  ghost predicate Ready(tx: Transaction, utxos: map<string, UTXOEntry>, n: nat)
    requires n <= |tx.inputs|
  {
    n > 0 ==>
      && Ready(tx, utxos, n - 1)
      && InputFault(tx, utxos, n - 1) == None
      && Unlisted(tx, InputKey(tx, n - 1), n - 1)
  }

  lemma {:induction false} AllReady(tx: Transaction, utxos: map<string, UTXOEntry>, n: nat)
    requires n <= |tx.inputs| && DistinctOutpoints(tx.inputs) && FaultFree(tx, utxos)
    ensures Ready(tx, utxos, n)
  {
    if n > 0 {
      AllReady(tx, utxos, n - 1);
      NextInputUnlisted(tx, n);
    }
  }

  lemma {:induction false} ReadyInputsSpend(tx: Transaction, st: State, n: nat) returns (after: State, total: nat)
    requires IndexOk(st) && n <= |tx.inputs| && Ready(tx, st.utxos, n)
    ensures SpendInputs(st, tx.inputs, n) == (after, true)
    ensures SpentPrefix(tx, st, after, n)
    ensures total == InputTotal(tx, st.utxos, n)
    ensures Balance(after, tx.sender) + total == Balance(st, tx.sender)
    decreases n
  {
    if n == 0 {
      after, total := st, 0;
    } else {
      var mid, t := ReadyInputsSpend(tx, st, n - 1);
      after := SpendNextInput(tx, st, mid, n);
      SpendInputsStep(st, tx.inputs, n, mid, after);
      total := AddInput(tx, st.utxos, n, t);
    }
  }

  lemma AddInput(tx: Transaction, utxos: map<string, UTXOEntry>, n: nat, before: nat) returns (total: nat)
    requires 0 < n <= |tx.inputs| && before == InputTotal(tx, utxos, n - 1)
    ensures total == InputTotal(tx, utxos, n) == before + InputAmount(tx, utxos, n - 1)
  {
    total := InputTotal(tx, utxos, n);
  }

  /** Distinct validated inputs are all spent, and the sender's balance falls by exactly their amounts. */
  lemma DistinctInputsSpend(tx: Transaction, st: State, n: nat) returns (after: State, total: nat)
    requires IndexOk(st) && n <= |tx.inputs| && DistinctOutpoints(tx.inputs) && FaultFree(tx, st.utxos)
    ensures SpendInputs(st, tx.inputs, n) == (after, true)
    ensures SpentPrefix(tx, st, after, n)
    ensures total == InputTotal(tx, st.utxos, n)
    ensures Balance(after, tx.sender) + total == Balance(st, tx.sender)
  {
    AllReady(tx, st.utxos, n);
    after, total := ReadyInputsSpend(tx, st, n);
  }

  lemma SpendInputsStep(st: State, inputs: seq<TransactionInput>, n: nat, mid: State, next: State)
    requires 0 < n <= |inputs| && SpendInputs(st, inputs, n - 1) == (mid, true)
    requires Spend(mid, inputs[n - 1].prevTxHash, inputs[n - 1].outputIndex) == (next, Ok(()))
    ensures SpendInputs(st, inputs, n) == (next, true)
  {
  }

  lemma NextInputUnlisted(tx: Transaction, n: nat)
    requires 0 < n <= |tx.inputs| && DistinctOutpoints(tx.inputs)
    ensures Unlisted(tx, InputKey(tx, n - 1), n - 1)
  {
    forall i | 0 <= i < n - 1
      ensures InputKey(tx, i) != InputKey(tx, n - 1)
    {
      InputKeysDiffer(tx, i, n - 1);
    }
  }

  lemma SpendNextInput(tx: Transaction, st: State, mid: State, n: nat) returns (next: State)
    requires 0 < n <= |tx.inputs| && SpentPrefix(tx, st, mid, n - 1)
    requires InputFault(tx, st.utxos, n - 1) == None && Unlisted(tx, InputKey(tx, n - 1), n - 1)
    ensures Spend(mid, tx.inputs[n - 1].prevTxHash, tx.inputs[n - 1].outputIndex) == (next, Ok(()))
    ensures SpentPrefix(tx, st, next, n)
    ensures Balance(next, tx.sender) + InputAmount(tx, st.utxos, n - 1) == Balance(mid, tx.sender)
  {
    var input := tx.inputs[n - 1];
    var key := InputKey(tx, n - 1);
    assert key in mid.utxos && mid.utxos[key] == st.utxos[key] && !mid.utxos[key].spent;
    next := Spend(mid, input.prevTxHash, input.outputIndex).0;
    SpendKeepsPrefix(tx, st, mid, n);
    SpendLowersOneBalance(mid, input.prevTxHash, input.outputIndex, tx.sender);
  }

  lemma SpendKeepsPrefix(tx: Transaction, st: State, mid: State, n: nat)
    requires 0 < n <= |tx.inputs| && SpentPrefix(tx, st, mid, n - 1)
    ensures SpentPrefix(tx, st, Spend(mid, tx.inputs[n - 1].prevTxHash, tx.inputs[n - 1].outputIndex).0, n)
  {
    var input := tx.inputs[n - 1];
    var next := Spend(mid, input.prevTxHash, input.outputIndex).0;
    SpendKeepsIndex(mid, input.prevTxHash, input.outputIndex);
    forall k | k in st.utxos && Unlisted(tx, k, n)
      ensures next.utxos[k] == st.utxos[k]
    {
      assert Unlisted(tx, k, n - 1) && InputKey(tx, n - 1) != k;
    }
  }

  /**
   What a successful validation is worth: the inputs can all be spent in turn
   exactly when no outpoint is listed twice, and then the sender's unspent
   balance falls by at least outputs plus fee.
   */
  lemma ValidatedInputsSpendIff(tx: Transaction, st: State)
    requires IndexOk(st) && Spendable(tx, st.utxos)
    ensures SpendInputs(st, tx.inputs, |tx.inputs|).1 <==> DistinctOutpoints(tx.inputs)
    ensures DistinctOutpoints(tx.inputs) ==>
      Balance(SpendInputs(st, tx.inputs, |tx.inputs|).0, tx.sender) + SatAdd128(TotalOutput(tx), tx.fee)
        <= Balance(st, tx.sender)
    ensures DistinctOutpoints(tx.inputs) && SumOutputs(tx.outputs) + tx.fee < U128_MOD ==>
      Balance(SpendInputs(st, tx.inputs, |tx.inputs|).0, tx.sender) + SumOutputs(tx.outputs) + tx.fee
        <= Balance(st, tx.sender)
  {
    if DistinctOutpoints(tx.inputs) {
      var after, total := DistinctInputsSpend(tx, st, |tx.inputs|);
      if SumOutputs(tx.outputs) + tx.fee < U128_MOD {
        NeededIsExact(tx);
      }
    } else {
      var i, j :| 0 <= i < j < |tx.inputs|
        && (tx.inputs[i].prevTxHash, tx.inputs[i].outputIndex) == (tx.inputs[j].prevTxHash, tx.inputs[j].outputIndex);
      RepeatedInputFails(tx, st, i, j, |tx.inputs|);
    }
  }

  lemma NeededIsExact(tx: Transaction)
    requires SumOutputs(tx.outputs) + tx.fee < U128_MOD
    ensures SatAdd128(TotalOutput(tx), tx.fee) == SumOutputs(tx.outputs) + tx.fee
  {
  }

  /** Once an outpoint has been spent, every later attempt on it fails. */
  lemma {:induction false} SpentStaysSpent(st: State, inputs: seq<TransactionInput>, i: nat, n: nat)
    requires i < n <= |inputs| && SpendInputs(st, inputs, n).1
    ensures var key := Key(inputs[i].prevTxHash, inputs[i].outputIndex);
            var mid := SpendInputs(st, inputs, n).0;
            key in mid.utxos && mid.utxos[key].spent
  {
    if i < n - 1 {
      SpentStaysSpent(st, inputs, i, n - 1);
    }
  }

  lemma {:induction false} RepeatedInputFails(tx: Transaction, st: State, i: nat, j: nat, n: nat)
    requires i < j < n <= |tx.inputs| && InputKey(tx, i) == InputKey(tx, j)
    ensures !SpendInputs(st, tx.inputs, n).1
    decreases n
  {
    if n - 1 > j {
      RepeatedInputFails(tx, st, i, j, n - 1);
    } else if SpendInputs(st, tx.inputs, j).1 {
      SpentStaysSpent(st, tx.inputs, i, j);
    }
  }

  /** Whatever input the set knows has a 128-character hash, so its 16-character prefix can be taken for the log. */
  lemma KnownInputHasLongHash(evs: seq<Event>, h: string, i: u32)
    requires Key(h, i) in Run(evs).utxos
    ensures |h| == 128
  {
    EntriesWereAdded(evs, Key(h, i));
    var n :| 0 <= n < |evs| && TakesEntry(evs[n]) && KeyOf(evs[n].entry) == Key(h, i);
    KeyInjective(h, i, evs[n].entry.txHash, evs[n].entry.outputIndex);
  }
}
