/**
 When the balances of the unspent-output set add up to its total unspent amount:
 counting every key as often as it is filed (src/transaction_engine.rs, `UTXOSet`).
 */
module UtxoBalances {

  import opened Arithmetic
  import opened Words
  import opened Sums
  import opened OutpointKeys
  import opened UtxoSet

  // ---------------------------------------------------------------- counting keys in lists

  /** How often a key stands in a list. */
  function Occurrences(keys: seq<string>, k: string): nat {
    if keys == [] then 0
    else Occurrences(keys[..|keys| - 1], k) + if keys[|keys| - 1] == k then 1 else 0
  }

  function Times(n: nat, amount: nat): nat {
    n * amount
  }

  lemma TimesSplits(n: nat, a: nat, b: nat, amount: nat)
    requires n == a + b
    ensures Times(n, amount) == Times(a, amount) + Times(b, amount)
  {
    Distribute(a, b, amount);
  }

  lemma TimesAtLeastOnce(n: nat, amount: nat)
    requires n > 0
    ensures amount <= Times(n, amount)
    ensures amount == Times(n, amount) <==> amount == 0 || n == 1
  {
    MulMono(1, n, amount);
    if n > 1 {
      MulMono(2, n, amount);
    }
  }

  /** What one list holds of each entry: its unspent amount as often as it is filed there. */
  ghost function Held(utxos: map<string, UTXOEntry>, keys: seq<string>): map<string, nat> {
    map k | k in utxos :: Times(Occurrences(keys, k), UnspentAmount(utxos[k]))
  }

  lemma OccurrencesSnoc(keys: seq<string>, last: string, k: string)
    ensures Occurrences(keys + [last], k) == Occurrences(keys, k) + if last == k then 1 else 0
  {
    assert (keys + [last])[..|keys|] == keys;
  }

  lemma HeldSnoc(utxos: map<string, UTXOEntry>, keys: seq<string>, last: string)
    requires last in utxos
    ensures SumMap(Held(utxos, keys + [last])) == SumMap(Held(utxos, keys)) + UnspentAmount(utxos[last])
  {
    forall k | k in utxos
      ensures Held(utxos, keys + [last])[k]
        == Held(utxos, keys)[k] + if k == last then UnspentAmount(utxos[last]) else 0
    {
      OccurrencesSnoc(keys, last, k);
      Distribute(Occurrences(keys, k), 1, UnspentAmount(utxos[k]));
    }
    OneKeyGrows(Held(utxos, keys), Held(utxos, keys + [last]), last, UnspentAmount(utxos[last]));
  }

  /** The balance of a list is the sum of what it holds. */
  lemma {:induction false} ListBalance(utxos: map<string, UTXOEntry>, keys: seq<string>)
    requires forall k :: k in keys ==> k in utxos
    ensures SumAmounts(Unspent(utxos, keys)) == SumMap(Held(utxos, keys))
  {
    if keys == [] {
      AllZero(Held(utxos, keys));
    } else {
      var init, last := keys[..|keys| - 1], keys[|keys| - 1];
      assert keys == init + [last];
      ListBalance(utxos, init);
      HeldSnoc(utxos, init, last);
      AppendToList(utxos, init, last);
    }
  }

  // ---------------------------------------------------------------- over all addresses

  ghost function Filings(index: map<string, seq<string>>, k: string): map<string, nat> {
    map a | a in index :: Occurrences(index[a], k)
  }

  /** How often a key is filed under any address. */
  ghost function Filed(index: map<string, seq<string>>, k: string): nat {
    SumMap(Filings(index, k))
  }

  ghost function Weighted(utxos: map<string, UTXOEntry>, index: map<string, seq<string>>): map<string, nat> {
    map k | k in utxos :: Times(Filed(index, k), UnspentAmount(utxos[k]))
  }

  ghost function ListBalances(utxos: map<string, UTXOEntry>, index: map<string, seq<string>>): map<string, nat> {
    map a | a in index :: SumAmounts(Unspent(utxos, index[a]))
  }

  lemma FiledWithout(index: map<string, seq<string>>, a: string, k: string)
    requires a in index
    ensures Filed(index, k) == Occurrences(index[a], k) + Filed(index - {a}, k)
  {
    SumMapRemove(Filings(index, k), a);
    assert Filings(index, k) - {a} == Filings(index - {a}, k);
  }

  lemma WeightSplits(utxos: map<string, UTXOEntry>, index: map<string, seq<string>>, a: string, k: string)
    requires a in index && k in utxos
    ensures Weighted(utxos, index)[k] == Held(utxos, index[a])[k] + Weighted(utxos, index - {a})[k]
  {
    FiledWithout(index, a, k);
    TimesSplits(Filed(index, k), Occurrences(index[a], k), Filed(index - {a}, k), UnspentAmount(utxos[k]));
  }

  lemma WeightedWithout(utxos: map<string, UTXOEntry>, index: map<string, seq<string>>, a: string)
    requires a in index
    ensures SumMap(Weighted(utxos, index)) == SumMap(Held(utxos, index[a])) + SumMap(Weighted(utxos, index - {a}))
  {
    var held, rest, all := Held(utxos, index[a]), Weighted(utxos, index - {a}), Weighted(utxos, index);
    forall k | k in utxos
      ensures all[k] == held[k] + rest[k]
    {
      WeightSplits(utxos, index, a, k);
    }
    SumsAdd(held, rest, all);
  }

  lemma ListBalancesWithout(utxos: map<string, UTXOEntry>, index: map<string, seq<string>>, a: string)
    requires a in index
    ensures SumMap(ListBalances(utxos, index))
      == SumAmounts(Unspent(utxos, index[a])) + SumMap(ListBalances(utxos, index - {a}))
  {
    SumMapRemove(ListBalances(utxos, index), a);
    assert ListBalances(utxos, index) - {a} == ListBalances(utxos, index - {a});
  }

  lemma NothingFiled(utxos: map<string, UTXOEntry>)
    ensures SumMap(ListBalances(utxos, map[])) == 0 == SumMap(Weighted(utxos, map[]))
  {
    forall k | k in utxos
      ensures Weighted(utxos, map[])[k] == 0
    {
      assert Filings(map[], k) == map[];
    }
    AllZero(Weighted(utxos, map[]));
    AllZero(ListBalances(utxos, map[]));
  }

  /** Only entries are filed. */
  ghost predicate OnlyEntries(utxos: map<string, UTXOEntry>, index: map<string, seq<string>>) {
    forall a, k :: a in index && k in index[a] ==> k in utxos
  }

  /** All list balances together count every entry as often as it is filed. */
  lemma {:induction false} BalancesCountFilings(utxos: map<string, UTXOEntry>, index: map<string, seq<string>>)
    returns (sum: nat)
    requires OnlyEntries(utxos, index)
    ensures sum == SumMap(ListBalances(utxos, index)) == SumMap(Weighted(utxos, index))
    decreases |index|
  {
    if index == map[] {
      NothingFiled(utxos);
      sum := 0;
    } else {
      var a :| a in index;
      var rest := BalancesCountFilings(utxos, index - {a});
      ListBalance(utxos, index[a]);
      WeightedWithout(utxos, index, a);
      ListBalancesWithout(utxos, index, a);
      sum := SumAmounts(Unspent(utxos, index[a])) + rest;
    }
  }

  // ---------------------------------------------------------------- along runs

  lemma FilingsAt(index: map<string, seq<string>>, a: string, k: string)
    ensures At(Filings(index, k), a) == Occurrences(KeysOf(index, a), k)
  {
  }

  /** Replacing one address's list moves the count of a key by what the lists differ in it. */
  lemma OneListChanges(index: map<string, seq<string>>, a: string, keys: seq<string>, k: string)
    ensures Filed(index[a := keys], k) + Occurrences(KeysOf(index, a), k) == Filed(index, k) + Occurrences(keys, k)
  {
    FilingsAt(index, a, k);
    assert Filings(index[a := keys], k) == Filings(index, k)[a := Occurrences(keys, k)];
    SumMapSet(Filings(index, k), a, Occurrences(keys, k));
  }

  lemma AddFilesOnce(st: State, e: UTXOEntry, k: string)
    requires ValidEntry(e)
    ensures Filed(Add(st, e).0.addressUtxos, k) == Filed(st.addressUtxos, k) + if KeyOf(e) == k then 1 else 0
  {
    var keys := KeysOf(st.addressUtxos, e.recipient);
    OneListChanges(st.addressUtxos, e.recipient, keys + [KeyOf(e)], k);
    OccurrencesSnoc(keys, KeyOf(e), k);
  }

  /** A key is filed as often as its outpoint was added. */
  lemma {:induction false} FiledAsAdded(evs: seq<Event>, h: string, i: u32)
    ensures Filed(Run(evs).addressUtxos, Key(h, i)) == Adds(evs, h, i)
  {
    if evs == [] {
      assert Filings(EMPTY.addressUtxos, Key(h, i)) == map[];
    } else {
      var init := evs[..|evs| - 1];
      FiledAsAdded(init, h, i);
      match evs[|evs| - 1] {
        case AddUtxo(e) =>
          if ValidEntry(e) {
            AddFilesOnce(Run(init), e, Key(h, i));
            if KeyOf(e) == Key(h, i) {
              KeyInjective(e.txHash, e.outputIndex, h, i);
            }
          }
        case SpendUtxo(_, _) =>
      }
    }
  }

  /** An entry is under its own key, has an amount and was added. */
  ghost predicate EntryOk(evs: seq<Event>, k: string, e: UTXOEntry) {
    k == KeyOf(e) && e.amount > 0 && Adds(evs, e.txHash, e.outputIndex) > 0
  }

  lemma {:induction false} RunKeepsEntry(evs: seq<Event>, k: string)
    requires k in Run(evs).utxos
    ensures EntryOk(evs, k, Run(evs).utxos[k])
  {
    var init, last := evs[..|evs| - 1], evs[|evs| - 1];
    if k in Run(init).utxos {
      RunKeepsEntry(init, k);
    }
  }

  lemma StepFilesEntries(st: State, ev: Event)
    requires OnlyEntries(st.utxos, st.addressUtxos)
    ensures OnlyEntries(Step(st, ev).0.utxos, Step(st, ev).0.addressUtxos)
  {
  }

  lemma {:induction false} RunFilesEntries(evs: seq<Event>)
    ensures OnlyEntries(Run(evs).utxos, Run(evs).addressUtxos)
  {
    if evs != [] {
      RunFilesEntries(evs[..|evs| - 1]);
      StepFilesEntries(Run(evs[..|evs| - 1]), evs[|evs| - 1]);
    }
  }

  ghost function Counted(evs: seq<Event>): map<string, nat> {
    Weighted(Run(evs).utxos, Run(evs).addressUtxos)
  }

  lemma EntryCounted(evs: seq<Event>, k: string)
    requires k in Run(evs).utxos
    ensures var e := Run(evs).utxos[k];
            && Amounts(Run(evs))[k] <= Counted(evs)[k]
            && (Amounts(Run(evs))[k] == Counted(evs)[k] <==> e.spent || Adds(evs, e.txHash, e.outputIndex) == 1)
  {
    RunKeepsEntry(evs, k);
    var e := Run(evs).utxos[k];
    FiledAsAdded(evs, e.txHash, e.outputIndex);
    TimesAtLeastOnce(Adds(evs, e.txHash, e.outputIndex), UnspentAmount(e));
  }

  /**
   At the end of a run the balances of all addresses add up to the total unspent
   amount if and only if every entry that is still unspent was added exactly once.
   */
  lemma BalancesAddUpIff(evs: seq<Event>)
    ensures SumsAgree(Run(evs)) <==>
      forall k :: k in Run(evs).utxos && !Run(evs).utxos[k].spent ==>
        Adds(evs, Run(evs).utxos[k].txHash, Run(evs).utxos[k].outputIndex) == 1
  {
    RunFilesEntries(evs);
    var st := Run(evs);
    var _ := BalancesCountFilings(st.utxos, st.addressUtxos);
    assert Balances(st) == ListBalances(st.utxos, st.addressUtxos);
    forall k | k in st.utxos
      ensures Amounts(st)[k] <= Counted(evs)[k]
      ensures Amounts(st)[k] == Counted(evs)[k] <==>
        st.utxos[k].spent || Adds(evs, st.utxos[k].txHash, st.utxos[k].outputIndex) == 1
    {
      EntryCounted(evs, k);
    }
    EqualSumsIff(Amounts(st), Counted(evs));
  }
}
