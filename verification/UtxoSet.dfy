/**
 The unspent-output set (src/transaction_engine.rs, `UTXOSet`): a primary map
 from outpoint keys to entries, and an index from addresses to lists of keys.
 */
module UtxoSet {

  import opened Words
  import opened Outcomes
  import opened Sums
  import opened OutpointKeys
  import opened Hex

  datatype UTXOEntry = UTXOEntry(
    txHash: string,
    outputIndex: u32,
    recipient: string,
    amount: u128,
    blockHeight: u64,
    spent: bool)

  datatype UtxoError = ZeroAmount | BadHashLength | BadHashFormat | AlreadySpent | NotFound

  datatype State = State(utxos: map<string, UTXOEntry>, addressUtxos: map<string, seq<string>>)

  const EMPTY: State := State(map[], map[])

  // ---------------------------------------------------------------- operations on values

  function KeyOf(e: UTXOEntry): string {
    Key(e.txHash, e.outputIndex)
  }

  function KeysOf(index: map<string, seq<string>>, address: string): seq<string> {
    if address in index then index[address] else []
  }

  /** The entries `add_utxo` takes. */
  predicate ValidEntry(e: UTXOEntry) {
    e.amount > 0 && |e.txHash| == 128 && IsHex(e.txHash)
  }

  function Add(st: State, e: UTXOEntry): (State, Result<(), UtxoError>) {
    if e.amount == 0 then (st, Err(ZeroAmount))
    else if |e.txHash| != 128 then (st, Err(BadHashLength))
    else if !IsHex(e.txHash) then (st, Err(BadHashFormat))
    else (State(st.utxos[KeyOf(e) := e],
                st.addressUtxos[e.recipient := KeysOf(st.addressUtxos, e.recipient) + [KeyOf(e)]]), Ok(()))
  }

  function Spend(st: State, txHash: string, outputIndex: u32): (State, Result<(), UtxoError>) {
    var key := Key(txHash, outputIndex);
    if key !in st.utxos then (st, Err(NotFound))
    else if st.utxos[key].spent then (st, Err(AlreadySpent))
    else (st.(utxos := st.utxos[key := st.utxos[key].(spent := true)]), Ok(()))
  }

  /** The unspent entries filed under these keys, in order. */
  function Unspent(utxos: map<string, UTXOEntry>, keys: seq<string>): seq<UTXOEntry> {
    if keys == [] then []
    else
      var k := keys[|keys| - 1];
      Unspent(utxos, keys[..|keys| - 1]) + if k in utxos && !utxos[k].spent then [utxos[k]] else []
  }

  function AddressUtxos(st: State, address: string): seq<UTXOEntry> {
    Unspent(st.utxos, KeysOf(st.addressUtxos, address))
  }

  function SumAmounts(es: seq<UTXOEntry>): nat {
    if es == [] then 0 else SumAmounts(es[..|es| - 1]) + es[|es| - 1].amount
  }

  /** The unspent balance of an address, as an unbounded number. */
  function Balance(st: State, address: string): nat {
    SumAmounts(AddressUtxos(st, address))
  }

  // ---------------------------------------------------------------- what the calls answer and change

  /** An entry is taken exactly when it has an amount and a hash of 64 bytes in hexadecimal. */
  lemma AddOutcome(st: State, e: UTXOEntry)
    ensures var (st', r) := Add(st, e);
            && (e.amount == 0 ==> r == Err(ZeroAmount))
            && (e.amount > 0 && |e.txHash| != 128 ==> r == Err(BadHashLength))
            && (e.amount > 0 && |e.txHash| == 128 && (exists i :: 0 <= i < 128 && !IsHexDigit(e.txHash[i])) ==>
                  r == Err(BadHashFormat))
            && (e.amount > 0 && |e.txHash| == 128 && (forall i :: 0 <= i < 128 ==> IsHexDigit(e.txHash[i])) ==>
                  && r == Ok(())
                  && ValidEntry(e)
                  && st'.utxos == st.utxos[e.txHash + ":" + Decimal(e.outputIndex) := e])
            && (r.Err? ==> st' == st && !ValidEntry(e))
  {
    DecodeIff(e.txHash);
  }

  /** A spend flags an entry that is there and not yet spent, and changes nothing else. */
  lemma SpendOutcome(st: State, h: string, i: u32)
    ensures var key, (st', r) := h + ":" + Decimal(i), Spend(st, h, i);
            && (key !in st.utxos ==> r == Err(NotFound))
            && (key in st.utxos && st.utxos[key].spent ==> r == Err(AlreadySpent))
            && (r.Err? ==> st' == st)
            && (key in st.utxos && !st.utxos[key].spent ==>
                  var e := st.utxos[key];
                  && r == Ok(())
                  && st' == State(st.utxos[key := UTXOEntry(e.txHash, e.outputIndex, e.recipient, e.amount,
                                                            e.blockHeight, true)], st.addressUtxos))
  {
  }

  // ---------------------------------------------------------------- the set

  class UTXOSet {
    var utxos: map<string, UTXOEntry>
    var addressUtxos: map<string, seq<string>>

    ghost function Model(): State
      reads this
    {
      State(utxos, addressUtxos)
    }

    constructor ()
      ensures Model() == EMPTY
    {
      utxos, addressUtxos := map[], map[];
    }

    method AddUtxo(utxo: UTXOEntry) returns (r: Result<(), UtxoError>)
      modifies this
      ensures (Model(), r) == Add(old(Model()), utxo)
    {
      var key := Key(utxo.txHash, utxo.outputIndex);
      if utxo.amount == 0 {
        return Err(ZeroAmount);
      }
      if |utxo.txHash| != 128 {
        return Err(BadHashLength);
      }
      if !IsHex(utxo.txHash) {
        return Err(BadHashFormat);
      }
      utxos := utxos[key := utxo];
      if utxo.recipient !in addressUtxos {
        addressUtxos := addressUtxos[utxo.recipient := []];
      }
      addressUtxos := addressUtxos[utxo.recipient := addressUtxos[utxo.recipient] + [key]];
      assert addressUtxos
        == old(addressUtxos)[utxo.recipient := KeysOf(old(addressUtxos), utxo.recipient) + [key]];
      return Ok(());
    }

    method SpendUtxo(txHash: string, outputIndex: u32) returns (r: Result<(), UtxoError>)
      modifies this`utxos
      ensures (Model(), r) == Spend(old(Model()), txHash, outputIndex)
    {
      var key := Key(txHash, outputIndex);
      if key in utxos {
        if utxos[key].spent {
          return Err(AlreadySpent);
        }
        utxos := utxos[key := utxos[key].(spent := true)];
        return Ok(());
      } else {
        return Err(NotFound);
      }
    }

    method GetAddressUtxos(address: string) returns (result: seq<UTXOEntry>)
      ensures result == AddressUtxos(Model(), address)
    {
      if address !in addressUtxos {
        return [];
      }
      result := [];
      var keys := addressUtxos[address];
      for i := 0 to |keys|
        invariant result == Unspent(utxos, keys[..i])
      {
        assert keys[..i + 1][..i] == keys[..i];
        if keys[i] in utxos {
          if !utxos[keys[i]].spent {
            result := result + [utxos[keys[i]]];
          }
        }
      }
      assert keys[..|keys|] == keys;
    }

    /** The u128 sum of the address's unspent amounts; it wraps when they do not fit. */
    method GetAddressBalance(address: string) returns (balance: u128)
      ensures balance == Balance(Model(), address) % U128_MOD
    {
      var es := GetAddressUtxos(address);
      balance := SumAmounts(es) % U128_MOD;
    }
  }

  // ---------------------------------------------------------------- the index refines the map

  ghost predicate KeyOk(st: State, k: string) {
    && k in st.utxos
    && k == KeyOf(st.utxos[k])
    && |st.utxos[k].txHash| == 128
    && st.utxos[k].amount > 0
    && st.utxos[k].recipient in st.addressUtxos
    && k in st.addressUtxos[st.utxos[k].recipient]
  }

  /** Every entry is filed once, under its own key and its own recipient, and nothing else is filed. */
  ghost predicate IndexOk(st: State) {
    && (forall k :: k in st.utxos ==> KeyOk(st, k))
    && (forall a :: a in st.addressUtxos ==> Distinct(st.addressUtxos[a]))
    && (forall a, k :: a in st.addressUtxos && k in st.addressUtxos[a] ==>
          k in st.utxos && st.utxos[k].recipient == a)
  }

  lemma AddKeepsIndex(st: State, e: UTXOEntry)
    requires IndexOk(st) && KeyOf(e) !in st.utxos
    ensures IndexOk(Add(st, e).0)
  {
    var st' := Add(st, e).0;
    if st' != st {
      var keys := KeysOf(st.addressUtxos, e.recipient);
      assert KeyOf(e) !in keys;
      forall k | k in st'.utxos
        ensures KeyOk(st', k)
      {
        if k != KeyOf(e) { assert KeyOk(st, k); }
      }
    }
  }

  lemma SpendKeepsIndex(st: State, h: string, i: u32)
    requires IndexOk(st)
    ensures IndexOk(Spend(st, h, i).0)
  {
    var st' := Spend(st, h, i).0;
    forall k | k in st'.utxos
      ensures KeyOk(st', k)
    {
      assert KeyOk(st, k);
    }
  }

  lemma {:induction false} UnspentMembers(utxos: map<string, UTXOEntry>, keys: seq<string>, e: UTXOEntry)
    ensures e in Unspent(utxos, keys) <==> exists k :: k in keys && k in utxos && utxos[k] == e && !e.spent
  {
    if keys != [] {
      var init, last := keys[..|keys| - 1], keys[|keys| - 1];
      UnspentMembers(utxos, init, e);
      assert keys == init + [last];
    }
  }

  lemma {:induction false} UnspentDistinct(utxos: map<string, UTXOEntry>, keys: seq<string>)
    requires Distinct(keys) && forall k :: k in keys && k in utxos ==> k == KeyOf(utxos[k])
    ensures Distinct(Unspent(utxos, keys))
  {
    if keys != [] {
      var init, last := keys[..|keys| - 1], keys[|keys| - 1];
      UnspentDistinct(utxos, init);
      if last in utxos {
        UnspentMembers(utxos, init, utxos[last]);
      }
    }
  }

  /** The index lists each unspent entry of an address exactly once, and nothing else. */
  lemma IndexListsExactly(st: State, address: string)
    requires IndexOk(st)
    ensures Distinct(AddressUtxos(st, address))
    ensures forall e :: e in AddressUtxos(st, address) <==>
      exists k :: k in st.utxos && st.utxos[k] == e && !e.spent && e.recipient == address
  {
    var keys := KeysOf(st.addressUtxos, address);
    forall k | k in keys && k in st.utxos
      ensures k == KeyOf(st.utxos[k])
    {
      assert KeyOk(st, k);
    }
    UnspentDistinct(st.utxos, keys);
    forall e: UTXOEntry
      ensures e in AddressUtxos(st, address) <==>
        exists k :: k in st.utxos && st.utxos[k] == e && !e.spent && e.recipient == address
    {
      UnspentMembers(st.utxos, keys, e);
      if k :| k in st.utxos && st.utxos[k] == e && !e.spent && e.recipient == address {
        assert KeyOk(st, k);
      }
    }
  }

  // ---------------------------------------------------------------- balances

  function UnspentAmount(e: UTXOEntry): nat {
    if e.spent then 0 else e.amount
  }

  lemma {:induction false} UnspentUntouched(u: map<string, UTXOEntry>, v: map<string, UTXOEntry>, keys: seq<string>)
    requires forall k :: k in keys ==> (k in u <==> k in v) && (k in u ==> u[k] == v[k])
    ensures Unspent(u, keys) == Unspent(v, keys)
  {
    if keys != [] {
      UnspentUntouched(u, v, keys[..|keys| - 1]);
    }
  }

  lemma SumAmountsSnoc(es: seq<UTXOEntry>, e: UTXOEntry)
    ensures SumAmounts(es + [e]) == SumAmounts(es) + e.amount
  {
    assert (es + [e])[..|es|] == es;
  }

  /** Marking one listed key as spent takes its amount out of the list. */
  lemma {:induction false} SpendInList(u: map<string, UTXOEntry>, keys: seq<string>, key: string)
    requires Distinct(keys) && key in keys && key in u && !u[key].spent
    ensures SumAmounts(Unspent(u[key := u[key].(spent := true)], keys)) + u[key].amount == SumAmounts(Unspent(u, keys))
  {
    var v := u[key := u[key].(spent := true)];
    var init, last := keys[..|keys| - 1], keys[|keys| - 1];
    if last == key {
      UnspentUntouched(u, v, init);
      SumAmountsSnoc(Unspent(u, init), u[key]);
      assert Unspent(v, keys) == Unspent(u, init);
    } else {
      SpendInList(u, init, key);
      if last in u && !u[last].spent {
        SumAmountsSnoc(Unspent(u, init), u[last]);
        SumAmountsSnoc(Unspent(v, init), u[last]);
      } else {
        assert Unspent(u, keys) == Unspent(u, init) && Unspent(v, keys) == Unspent(v, init);
      }
    }
  }

  /** A successful spend lowers the balance of the entry's recipient by its amount, and no other balance. */
  lemma SpendLowersOneBalance(st: State, h: string, i: u32, address: string)
    requires IndexOk(st) && Spend(st, h, i).1.Ok?
    ensures var e := st.utxos[Key(h, i)];
            Balance(Spend(st, h, i).0, address) + (if address == e.recipient then e.amount else 0)
              == Balance(st, address)
  {
    var key := Key(h, i);
    var st' := Spend(st, h, i).0;
    var keys := KeysOf(st.addressUtxos, address);
    assert KeyOk(st, key);
    if address == st.utxos[key].recipient {
      SpendInList(st.utxos, keys, key);
    } else {
      UnspentUntouched(st.utxos, st'.utxos, keys);
    }
  }

  /** Filing one more key adds the entry's amount if it is unspent. */
  lemma AppendToList(u: map<string, UTXOEntry>, keys: seq<string>, key: string)
    requires key in u
    ensures SumAmounts(Unspent(u, keys + [key])) == SumAmounts(Unspent(u, keys)) + UnspentAmount(u[key])
  {
    assert (keys + [key])[..|keys|] == keys;
    if u[key].spent {
      assert Unspent(u, keys + [key]) == Unspent(u, keys);
    } else {
      SumAmountsSnoc(Unspent(u, keys), u[key]);
    }
  }

  /** Adding a fresh entry raises the balance of its recipient by its amount, and no other balance. */
  lemma AddRaisesOneBalance(st: State, e: UTXOEntry, address: string)
    requires IndexOk(st) && KeyOf(e) !in st.utxos && Add(st, e).1.Ok?
    ensures Balance(Add(st, e).0, address)
      == Balance(st, address) + if address == e.recipient then UnspentAmount(e) else 0
  {
    var st' := Add(st, e).0;
    var keys := KeysOf(st.addressUtxos, address);
    UnspentUntouched(st.utxos, st'.utxos, keys);
    if address == e.recipient {
      AppendToList(st'.utxos, keys, KeyOf(e));
    }
  }

  ghost function Amounts(st: State): map<string, nat> {
    map k | k in st.utxos :: UnspentAmount(st.utxos[k])
  }

  /** The total unspent amount, over the primary map. */
  ghost function TotalUnspent(st: State): nat {
    SumMap(Amounts(st))
  }

  ghost function Balances(st: State): map<string, nat> {
    map a | a in st.addressUtxos :: Balance(st, a)
  }

  /** When only one address's balance changes, the sum changes by as much. */
  lemma OneBalanceMoves(st: State, st': State, a: string)
    requires st'.addressUtxos.Keys == st.addressUtxos.Keys + {a}
    requires forall b :: b in st.addressUtxos && b != a ==> Balance(st', b) == Balance(st, b)
    ensures SumMap(Balances(st')) + Balance(st, a) == SumMap(Balances(st)) + Balance(st', a)
  {
    OneKeyChanges(Balances(st), Balances(st'), a);
    NothingFiledIsZero(st, a);
  }

  lemma NothingFiledIsZero(st: State, a: string)
    ensures At(Balances(st), a) == Balance(st, a)
  {
  }

  lemma SpendMovesSums(st: State, h: string, i: u32)
    requires IndexOk(st) && Spend(st, h, i).1.Ok?
    ensures var st', e := Spend(st, h, i).0, st.utxos[Key(h, i)];
            && TotalUnspent(st') + e.amount == TotalUnspent(st)
            && SumMap(Balances(st')) + e.amount == SumMap(Balances(st))
  {
    var key := Key(h, i);
    var st', e := Spend(st, h, i).0, st.utxos[key];
    assert KeyOk(st, key);
    assert Amounts(st') == Amounts(st)[key := 0];
    SumMapSet(Amounts(st), key, 0);
    forall a ensures Balance(st', a) + (if a == e.recipient then e.amount else 0) == Balance(st, a) {
      SpendLowersOneBalance(st, h, i, a);
    }
    OneBalanceMoves(st, st', e.recipient);
  }

  lemma AddMovesTotal(st: State, e: UTXOEntry)
    requires KeyOf(e) !in st.utxos && Add(st, e).1.Ok?
    ensures TotalUnspent(Add(st, e).0) == TotalUnspent(st) + UnspentAmount(e)
  {
    assert Amounts(Add(st, e).0) == Amounts(st)[KeyOf(e) := UnspentAmount(e)];
    SumMapInsert(Amounts(st), KeyOf(e), UnspentAmount(e));
  }

  lemma AddMovesBalances(st: State, e: UTXOEntry)
    requires IndexOk(st) && KeyOf(e) !in st.utxos && Add(st, e).1.Ok?
    ensures SumMap(Balances(Add(st, e).0)) == SumMap(Balances(st)) + UnspentAmount(e)
  {
    var st' := Add(st, e).0;
    AddRaisesOneBalance(st, e, e.recipient);
    forall a | a in st.addressUtxos && a != e.recipient
      ensures Balance(st', a) == Balance(st, a)
    {
      AddRaisesOneBalance(st, e, a);
    }
    OneBalanceMoves(st, st', e.recipient);
  }

  // ---------------------------------------------------------------- runs

  datatype Event = AddUtxo(entry: UTXOEntry) | SpendUtxo(txHash: string, outputIndex: u32)

  function Step(st: State, ev: Event): (State, Result<(), UtxoError>) {
    match ev
    case AddUtxo(e) => Add(st, e)
    case SpendUtxo(h, i) => Spend(st, h, i)
  }

  function Run(evs: seq<Event>): State {
    if evs == [] then EMPTY else Step(Run(evs[..|evs| - 1]), evs[|evs| - 1]).0
  }

  ghost predicate TakesEntry(ev: Event) {
    ev.AddUtxo? && ValidEntry(ev.entry)
  }

  /** No outpoint is added twice; entries that `add_utxo` refuses do not count. */
  ghost predicate AddedOnce(evs: seq<Event>) {
    forall i, j :: 0 <= i < j < |evs| && TakesEntry(evs[i]) && TakesEntry(evs[j]) ==>
      (evs[i].entry.txHash, evs[i].entry.outputIndex) != (evs[j].entry.txHash, evs[j].entry.outputIndex)
  }

  lemma {:induction false} EntriesWereAdded(evs: seq<Event>, k: string)
    requires k in Run(evs).utxos
    ensures exists i :: 0 <= i < |evs| && TakesEntry(evs[i]) && KeyOf(evs[i].entry) == k
  {
    var init, last := evs[..|evs| - 1], evs[|evs| - 1];
    if TakesEntry(last) && KeyOf(last.entry) == k {
    } else {
      EntriesWereAdded(init, k);
      var i :| 0 <= i < |init| && TakesEntry(init[i]) && KeyOf(init[i].entry) == k;
      assert evs[i] == init[i];
    }
  }

  lemma NextAddIsFresh(evs: seq<Event>)
    requires evs != [] && AddedOnce(evs) && TakesEntry(evs[|evs| - 1])
    ensures KeyOf(evs[|evs| - 1].entry) !in Run(evs[..|evs| - 1]).utxos
  {
    var init, e := evs[..|evs| - 1], evs[|evs| - 1].entry;
    if KeyOf(e) in Run(init).utxos {
      EntriesWereAdded(init, KeyOf(e));
      var i :| 0 <= i < |init| && TakesEntry(init[i]) && KeyOf(init[i].entry) == KeyOf(e);
      assert evs[i] == init[i];
      KeyInjective(evs[i].entry.txHash, evs[i].entry.outputIndex, e.txHash, e.outputIndex);
    }
  }

  /** The balances of all addresses add up to the total unspent amount. */
  ghost predicate SumsAgree(st: State) {
    SumMap(Balances(st)) == TotalUnspent(st)
  }

  lemma AddRefines(st: State, e: UTXOEntry)
    requires IndexOk(st) && SumsAgree(st) && (ValidEntry(e) ==> KeyOf(e) !in st.utxos)
    ensures IndexOk(Add(st, e).0) && SumsAgree(Add(st, e).0)
  {
    if ValidEntry(e) {
      AddKeepsIndex(st, e);
      AddMovesTotal(st, e);
      AddMovesBalances(st, e);
    }
  }

  lemma SpendRefines(st: State, h: string, i: u32)
    requires IndexOk(st) && SumsAgree(st)
    ensures IndexOk(Spend(st, h, i).0) && SumsAgree(Spend(st, h, i).0)
  {
    SpendKeepsIndex(st, h, i);
    if Spend(st, h, i).1.Ok? {
      SpendMovesSums(st, h, i);
    }
  }

  /** In every reachable state the index refines the map and the balances add up to the total unspent amount. */
  lemma {:induction false} RunRefines(evs: seq<Event>)
    requires AddedOnce(evs)
    ensures IndexOk(Run(evs)) && SumsAgree(Run(evs))
  {
    if evs == [] {
      assert Balances(EMPTY) == map[] && Amounts(EMPTY) == map[];
    } else {
      var init := evs[..|evs| - 1];
      RunRefines(init);
      match evs[|evs| - 1] {
        case AddUtxo(e) =>
          if ValidEntry(e) {
            NextAddIsFresh(evs);
          }
          AddRefines(Run(init), e);
        case SpendUtxo(h, i) =>
          SpendRefines(Run(init), h, i);
      }
    }
  }

  /** What has been filed under an address stays filed, in its place. */
  lemma {:induction false} IndexOnlyGrows(evs: seq<Event>, n: nat, a: string)
    requires n <= |evs|
    ensures KeysOf(Run(evs[..n]).addressUtxos, a) <= KeysOf(Run(evs).addressUtxos, a)
  {
    if n == |evs| {
      assert evs[..n] == evs;
    } else {
      var init := evs[..|evs| - 1];
      assert init[..n] == evs[..n];
      IndexOnlyGrows(init, n, a);
    }
  }

  lemma RunPrefix(evs: seq<Event>, i: nat)
    requires i < |evs|
    ensures Run(evs[..i + 1]) == Step(Run(evs[..i]), evs[i]).0
  {
    assert evs[..i + 1][..i] == evs[..i];
  }

  lemma AddFiles(st: State, e: UTXOEntry)
    requires ValidEntry(e)
    ensures KeysOf(Add(st, e).0.addressUtxos, e.recipient) == KeysOf(st.addressUtxos, e.recipient) + [KeyOf(e)]
  {
  }

  /** A taken entry is filed under its recipient, behind what was filed there before. */
  lemma TakenIsFiled(evs: seq<Event>, i: nat) returns (before: seq<string>, after: seq<string>)
    requires i < |evs| && TakesEntry(evs[i])
    ensures before == KeysOf(Run(evs[..i]).addressUtxos, evs[i].entry.recipient)
    ensures after == KeysOf(Run(evs).addressUtxos, evs[i].entry.recipient)
    ensures before + [KeyOf(evs[i].entry)] <= after
  {
    var e := evs[i].entry;
    RunPrefix(evs, i);
    AddFiles(Run(evs[..i]), e);
    IndexOnlyGrows(evs, i + 1, e.recipient);
    before, after := KeysOf(Run(evs[..i]).addressUtxos, e.recipient), KeysOf(Run(evs).addressUtxos, e.recipient);
  }

  lemma FiledTwiceBreaksIndex(st: State, a: string, b: string, p: nat, q: nat)
    requires p < |KeysOf(st.addressUtxos, a)| && q < |KeysOf(st.addressUtxos, b)|
    requires KeysOf(st.addressUtxos, a)[p] == KeysOf(st.addressUtxos, b)[q]
    requires a != b || p < q
    ensures !IndexOk(st)
  {
    var key := KeysOf(st.addressUtxos, a)[p];
    assert key in st.addressUtxos[a] && key in st.addressUtxos[b];
    if a == b {
      assert !Distinct(st.addressUtxos[a]);
    } else if key in st.utxos && st.utxos[key].recipient == a {
      assert b in st.addressUtxos && key in st.addressUtxos[b] && st.utxos[key].recipient != b;
    } else {
      assert a in st.addressUtxos && key in st.addressUtxos[a];
    }
  }

  /** An outpoint that is added twice is filed twice, for one recipient or for two. */
  lemma AddedTwiceBreaksIndex(evs: seq<Event>, i: nat, j: nat)
    requires i < j < |evs| && TakesEntry(evs[i]) && TakesEntry(evs[j])
    requires KeyOf(evs[i].entry) == KeyOf(evs[j].entry)
    ensures !IndexOk(Run(evs))
  {
    var d, e := evs[i].entry, evs[j].entry;
    var before, after := TakenIsFiled(evs, i);
    var before', after' := TakenIsFiled(evs, j);
    if d.recipient == e.recipient {
      assert evs[..j][..i] == evs[..i];
      var _, _ := TakenIsFiled(evs[..j], i);
      assert |before| < |before'|;
    }
    assert after[|before|] == KeyOf(d) && after'[|before'|] == KeyOf(e);
    FiledTwiceBreaksIndex(Run(evs), d.recipient, e.recipient, |before|, |before'|);
  }

  /** The index refines the primary map at the end of a run if and only if no outpoint was added twice. */
  lemma RefinesIffAddedOnce(evs: seq<Event>)
    ensures IndexOk(Run(evs)) <==> AddedOnce(evs)
  {
    if AddedOnce(evs) {
      RunRefines(evs);
    } else {
      var i, j :| 0 <= i < j < |evs| && TakesEntry(evs[i]) && TakesEntry(evs[j])
        && (evs[i].entry.txHash, evs[i].entry.outputIndex) == (evs[j].entry.txHash, evs[j].entry.outputIndex);
      AddedTwiceBreaksIndex(evs, i, j);
    }
  }

  /** How often an outpoint was successfully spent along a run. */
  function Spends(evs: seq<Event>, h: string, i: u32): nat {
    if evs == [] then 0
    else
      var init, last := evs[..|evs| - 1], evs[|evs| - 1];
      Spends(init, h, i) + if last == SpendUtxo(h, i) && Spend(Run(init), h, i).1.Ok? then 1 else 0
  }

  /** How often an outpoint was added along a run. */
  ghost function Adds(evs: seq<Event>, h: string, i: u32): nat {
    if evs == [] then 0
    else
      var last := evs[|evs| - 1];
      Adds(evs[..|evs| - 1], h, i)
      + if TakesEntry(last) && last.entry.txHash == h && last.entry.outputIndex == i then 1 else 0
  }

  function StillSpendable(st: State, h: string, i: u32): nat {
    if Key(h, i) in st.utxos && !st.utxos[Key(h, i)].spent then 1 else 0
  }

  /** Over every run an outpoint is spent at most as often as it was added, the spend still possible included. */
  lemma {:induction false} SpendsWithinAdds(evs: seq<Event>, h: string, i: u32)
    ensures Spends(evs, h, i) + StillSpendable(Run(evs), h, i) <= Adds(evs, h, i)
    ensures Spends(evs, h, i) > 0 ==> Key(h, i) in Run(evs).utxos
  {
    if evs != [] {
      SpendsWithinAdds(evs[..|evs| - 1], h, i);
      match evs[|evs| - 1] {
        case AddUtxo(e) =>
          if KeyOf(e) == Key(h, i) {
            KeyInjective(e.txHash, e.outputIndex, h, i);
          }
        case SpendUtxo(g, j) =>
          if Key(g, j) == Key(h, i) {
            KeyInjective(g, j, h, i);
          }
      }
    }
  }

  // ---------------------------------------------------------------- when an outpoint is spent, and spent again

  /** The event adds this outpoint. */
  predicate AddsOutpoint(ev: Event, h: string, i: u32) {
    ev.AddUtxo? && ValidEntry(ev.entry) && ev.entry.txHash == h && ev.entry.outputIndex == i
  }

  predicate Touches(ev: Event, h: string, i: u32) {
    AddsOutpoint(ev, h, i) || ev == SpendUtxo(h, i)
  }

  /** Event p adds the outpoint unspent, and no event from there to n adds or spends it. */
  ghost predicate OpenedAt(evs: seq<Event>, h: string, i: u32, p: nat, n: nat)
    requires n <= |evs|
  {
    && p < n && AddsOutpoint(evs[p], h, i) && !evs[p].entry.spent
    && forall j :: p < j < n ==> !Touches(evs[j], h, i)
  }

  ghost predicate Open(evs: seq<Event>, h: string, i: u32) {
    exists p :: OpenedAt(evs, h, i, p, |evs|)
  }

  /** An event that does not touch an outpoint leaves its entry alone. */
  lemma UntouchedStays(st: State, ev: Event, h: string, i: u32)
    requires !Touches(ev, h, i)
    ensures StillSpendable(Step(st, ev).0, h, i) == StillSpendable(st, h, i)
  {
    match ev {
      case AddUtxo(e) =>
        if KeyOf(e) == Key(h, i) {
          KeyInjective(e.txHash, e.outputIndex, h, i);
        }
      case SpendUtxo(g, j) =>
        if Key(g, j) == Key(h, i) {
          KeyInjective(g, j, h, i);
        }
    }
  }

  lemma TouchDecides(st: State, ev: Event, h: string, i: u32)
    requires Touches(ev, h, i)
    ensures StillSpendable(Step(st, ev).0, h, i) == if AddsOutpoint(ev, h, i) && !ev.entry.spent then 1 else 0
  {
  }

  lemma OpenSnoc(evs: seq<Event>, h: string, i: u32)
    requires evs != []
    ensures var init, last := evs[..|evs| - 1], evs[|evs| - 1];
            Open(evs, h, i) <==>
              if Touches(last, h, i) then AddsOutpoint(last, h, i) && !last.entry.spent else Open(init, h, i)
  {
    var n := |evs| - 1;
    var init, last := evs[..n], evs[n];
    if Touches(last, h, i) {
      if AddsOutpoint(last, h, i) && !last.entry.spent {
        assert OpenedAt(evs, h, i, n, |evs|);
      }
    } else {
      if Open(init, h, i) {
        var p :| OpenedAt(init, h, i, p, n);
        assert OpenedAt(evs, h, i, p, |evs|);
      }
      if Open(evs, h, i) {
        var p :| OpenedAt(evs, h, i, p, |evs|);
        assert OpenedAt(init, h, i, p, n);
      }
    }
  }

  /**
   At the end of a run an outpoint can be spent if and only if the last event on
   it added it unspent.
   */
  lemma {:induction false} SpendableIffOpen(evs: seq<Event>, h: string, i: u32)
    ensures StillSpendable(Run(evs), h, i) == 1 <==> Open(evs, h, i)
  {
    if evs != [] {
      var init, last := evs[..|evs| - 1], evs[|evs| - 1];
      SpendableIffOpen(init, h, i);
      OpenSnoc(evs, h, i);
      if Touches(last, h, i) {
        TouchDecides(Run(init), last, h, i);
      } else {
        UntouchedStays(Run(init), last, h, i);
      }
    }
  }

  /** Event s spends the outpoint: the event on it before s added it unspent. */
  ghost predicate SpendsAt(evs: seq<Event>, h: string, i: u32, s: nat) {
    s < |evs| && evs[s] == SpendUtxo(h, i) && exists p :: OpenedAt(evs, h, i, p, s)
  }

  lemma SpendsAtPrefix(evs: seq<Event>, n: nat, h: string, i: u32, s: nat)
    requires s < n <= |evs|
    ensures SpendsAt(evs[..n], h, i, s) <==> SpendsAt(evs, h, i, s)
  {
    if SpendsAt(evs, h, i, s) {
      var p :| OpenedAt(evs, h, i, p, s);
      assert OpenedAt(evs[..n], h, i, p, s);
    }
    if SpendsAt(evs[..n], h, i, s) {
      var p :| OpenedAt(evs[..n], h, i, p, s);
      assert OpenedAt(evs, h, i, p, s);
    }
  }

  /** A spend succeeds exactly at such an event. */
  lemma LastSpendSucceedsIff(evs: seq<Event>, h: string, i: u32)
    requires evs != [] && evs[|evs| - 1] == SpendUtxo(h, i)
    ensures Spend(Run(evs[..|evs| - 1]), h, i).1.Ok? <==> SpendsAt(evs, h, i, |evs| - 1)
  {
    var n := |evs| - 1;
    SpendableIffOpen(evs[..n], h, i);
    if Open(evs[..n], h, i) {
      var p :| OpenedAt(evs[..n], h, i, p, n);
      assert OpenedAt(evs, h, i, p, n);
    }
    if SpendsAt(evs, h, i, n) {
      var p :| OpenedAt(evs, h, i, p, n);
      assert OpenedAt(evs[..n], h, i, p, n);
    }
  }

  ghost function SpendingEvents(evs: seq<Event>, h: string, i: u32): set<nat> {
    set s | 0 <= s < |evs| && SpendsAt(evs, h, i, s)
  }

  lemma SpendingEventsSnoc(evs: seq<Event>, h: string, i: u32)
    requires evs != []
    ensures var n := |evs| - 1;
            SpendingEvents(evs, h, i)
              == SpendingEvents(evs[..n], h, i) + if SpendsAt(evs, h, i, n) then {n} else {}
  {
    var n := |evs| - 1;
    forall s | 0 <= s < n
      ensures SpendsAt(evs[..n], h, i, s) <==> SpendsAt(evs, h, i, s)
    {
      SpendsAtPrefix(evs, n, h, i, s);
    }
  }

  /** Over every run the spends of an outpoint are the calls whose preceding event on it added it unspent. */
  lemma {:induction false} SpendsAreCounted(evs: seq<Event>, h: string, i: u32)
    ensures Spends(evs, h, i) == |SpendingEvents(evs, h, i)|
  {
    if evs == [] {
      assert SpendingEvents(evs, h, i) == {};
    } else {
      var n := |evs| - 1;
      SpendsAreCounted(evs[..n], h, i);
      SpendingEventsSnoc(evs, h, i);
      if evs[n] == SpendUtxo(h, i) {
        LastSpendSucceedsIff(evs, h, i);
      }
    }
  }

  lemma TwoMembers(s: set<nat>)
    ensures |s| >= 2 <==> exists a, b :: a in s && b in s && a < b
  {
    if |s| >= 2 {
      var a :| a in s;
      assert |s - {a}| == |s| - 1;
      var b :| b in s - {a};
      if b < a {
        assert b in s && a in s;
      }
    }
    if a, b :| a in s && b in s && a < b {
      assert {a, b} <= s;
      Subset({a, b}, s);
      assert |{a, b}| == 2;
    }
  }

  lemma Subset<T>(a: set<T>, b: set<T>)
    requires a <= b
    ensures |a| <= |b|
  {
    assert b == a + (b - a);
  }

  /**
   An outpoint is spent twice if and only if two spends of it each have an unspent
   addition before them, with nothing on that outpoint in between.
   */
  lemma SpentTwiceIff(evs: seq<Event>, h: string, i: u32)
    ensures Spends(evs, h, i) >= 2 <==> exists s, t :: s < t && SpendsAt(evs, h, i, s) && SpendsAt(evs, h, i, t)
  {
    SpendsAreCounted(evs, h, i);
    TwoMembers(SpendingEvents(evs, h, i));
    if s, t :| s < t && SpendsAt(evs, h, i, s) && SpendsAt(evs, h, i, t) {
      assert s in SpendingEvents(evs, h, i) && t in SpendingEvents(evs, h, i);
    }
  }

  /** The two additions behind two spends are different events. */
  lemma TwoAdditions(evs: seq<Event>, h: string, i: u32, s: nat, t: nat) returns (p: nat, q: nat)
    requires s < t && SpendsAt(evs, h, i, s) && SpendsAt(evs, h, i, t)
    ensures p < s < q < t && AddsOutpoint(evs[p], h, i) && AddsOutpoint(evs[q], h, i)
  {
    p :| OpenedAt(evs, h, i, p, s);
    q :| OpenedAt(evs, h, i, q, t);
    assert Touches(evs[s], h, i);
  }

  /** So an outpoint that is added once is spent at most once, and is then marked. */
  lemma SpentAtMostOnce(evs: seq<Event>, h: string, i: u32)
    requires AddedOnce(evs)
    ensures Spends(evs, h, i) <= 1
    ensures Spends(evs, h, i) == 1 ==> Key(h, i) in Run(evs).utxos && Run(evs).utxos[Key(h, i)].spent
  {
    SpentTwiceIff(evs, h, i);
    if s, t :| s < t && SpendsAt(evs, h, i, s) && SpendsAt(evs, h, i, t) {
      var p, q := TwoAdditions(evs, h, i, s, t);
      assert TakesEntry(evs[p]) && TakesEntry(evs[q]);
      assert false;
    }
    AddedOnceCounts(evs, h, i);
    SpendsWithinAdds(evs, h, i);
  }

  lemma {:induction false} AddedOnceCounts(evs: seq<Event>, h: string, i: u32)
    requires AddedOnce(evs)
    ensures Adds(evs, h, i) <= 1
    ensures Adds(evs, h, i) == 1 ==>
      exists n :: 0 <= n < |evs| && TakesEntry(evs[n]) && evs[n].entry.txHash == h && evs[n].entry.outputIndex == i
  {
    if evs != [] {
      AddedOnceCounts(evs[..|evs| - 1], h, i);
    }
  }

  /** Added again, any entry can be spent again. */
  lemma ReaddedIsSpentTwice(e: UTXOEntry)
    requires ValidEntry(e) && !e.spent
    ensures var evs := [AddUtxo(e), SpendUtxo(e.txHash, e.outputIndex), AddUtxo(e), SpendUtxo(e.txHash, e.outputIndex)];
            Spends(evs, e.txHash, e.outputIndex) == 2
  {
    var h, i := e.txHash, e.outputIndex;
    var evs := [AddUtxo(e), SpendUtxo(h, i), AddUtxo(e), SpendUtxo(h, i)];
    assert OpenedAt(evs, h, i, 0, 1) && OpenedAt(evs, h, i, 2, 3);
    assert SpendsAt(evs, h, i, 1) && SpendsAt(evs, h, i, 3);
    assert SpendingEvents(evs, h, i) == {1, 3};
    SpendsAreCounted(evs, h, i);
  }
}
