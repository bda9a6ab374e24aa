/** The token ledger of `UnityWallet`: a token is minted to a public key with a
    value, and spends are appended to its transaction list.  Balances, current
    owners and the depth of a transaction chain are all read off that list.

    Public keys and transaction ids are BigInts and are modelled as `int`; the
    id of a transaction (`getTxId`, a hash of the whole record) is the
    parameter `txId`, and signing is the parameter `sign`. */
module UnityWallet {
  import opened NtruVdf

  datatype Option<T> = None | Some(value: T)

  datatype Result<T, E> = Ok(value: T) | Err(error: E)

  /** `config.data.value`: a BigInt, or anything else (a Number, a string,
      or missing altogether). */
  datatype Amount = BigInt(n: int) | NotBigInt

  /** A config's `type` field.  The code only ever compares it with
      `"spend"`, so every other value is `OtherType`. */
  datatype TypeField = NoType | SpendType | OtherType

  /** A transaction's `config`. */
  datatype Config = Config(kind: TypeField, from: int, to: int, value: Amount)

  datatype TxData = TxData(config: Config, timestamp: int)

  /** A transaction.  `prevTxId == 0` stands for every falsy id (`null`,
      `undefined`, `0n`); hashed ids are never zero. */
  datatype Transaction = Transaction(tokenId: int, prevTxId: int, data: TxData, signature: int)

  /** The `{ tokenId, prevTxId, data }` record that is signed. */
  datatype TxMessage = TxMessage(tokenId: int, prevTxId: int, data: TxData)

  datatype Token = Token(pubKey: int, value: int, timestamp: int, output: VdfOutput,
                         transactions: seq<Transaction>)

  // ---------------------------------------------------------------------
  // Balances

  /** `tx.data.config.type === "spend"`. */
  predicate IsSpend(tx: Transaction) { tx.data.config.kind == SpendType }

  /** `filter(keep).reduce((sum, tx) => sum + tx.data.config.data.value, 0n)`.
      A summed value that is not a BigInt makes the BigInt addition throw (or,
      for a string, turns the sum into a string); either way there is no
      number, `None`. */
  function SumOf(txs: seq<Transaction>, keep: Transaction -> bool): (r: Option<int>)
    ensures r.Some? <==> forall t :: t in txs && keep(t) ==> t.data.config.value.BigInt?
  {
    if txs == [] then Some(0)
    else
      var init := SumOf(txs[..|txs| - 1], keep);
      var last := txs[|txs| - 1];
      assert txs == txs[..|txs| - 1] + [last];
      if !keep(last) then init
      else if init.Some? && last.data.config.value.BigInt? then
        Some(init.value + last.data.config.value.n)
      else None
  }

  /** The filter of `getReceivedValue`: spends paid to `key`. */
  function PaidTo(key: int): Transaction -> bool
  {
    tx => IsSpend(tx) && tx.data.config.to == key
  }

  /** The filter of `getSpentValue`: spends paid from `key`. */
  function PaidFrom(key: int): Transaction -> bool
  {
    tx => IsSpend(tx) && tx.data.config.from == key
  }

  /** `getReceivedValue(token, pubKey)` (crypto.js:76-80). */
  function ReceivedValue(token: Token, key: int): (r: Option<int>)
    ensures r.Some? <==>
      forall t :: t in token.transactions && IsSpend(t) && t.data.config.to == key ==>
        t.data.config.value.BigInt?
  {
    SumOf(token.transactions, PaidTo(key))
  }

  /** `getSpentValue(token, pubKey)` (crypto.js:82-86). */
  function SpentValue(token: Token, key: int): (r: Option<int>)
    ensures r.Some? <==>
      forall t :: t in token.transactions && IsSpend(t) && t.data.config.from == key ==>
        t.data.config.value.BigInt?
  {
    SumOf(token.transactions, PaidFrom(key))
  }

  /** `getSpendableValue(token, pubKey)` (crypto.js:88-91): the minter's base
      is the minted value, everyone else's is what they received. */
  function SpendableValue(token: Token, key: int): (r: Option<int>)
    ensures r.Some? <==>
      (key == token.pubKey || ReceivedValue(token, key).Some?) && SpentValue(token, key).Some?
  {
    Net(BaseValue(token, key), SpentValue(token, key))
  }

  /** What `key` has to spend from before its spends are subtracted. */
  function BaseValue(token: Token, key: int): Option<int>
  {
    if key == token.pubKey then Some(token.value) else ReceivedValue(token, key)
  }

  /** `received - spent`, when both are numbers. */
  function Net(received: Option<int>, spent: Option<int>): Option<int>
  {
    if received.Some? && spent.Some? then Some(received.value - spent.value) else None
  }

  function AddTo(o: Option<int>, v: int): Option<int>
  {
    if o.Some? then Some(o.value + v) else None
  }

  /** The sum over a list with one more transaction at the end. */
  lemma SumOfSnoc(txs: seq<Transaction>, tx: Transaction, keep: Transaction -> bool)
    ensures SumOf(txs + [tx], keep) ==
      if !keep(tx) then SumOf(txs, keep)
      else if tx.data.config.value.BigInt? then AddTo(SumOf(txs, keep), tx.data.config.value.n)
      else None
  {
    assert (txs + [tx])[..|txs + [tx]| - 1] == txs;
  }

  function Append(token: Token, tx: Transaction): Token
  {
    token.(transactions := token.transactions + [tx])
  }

  /** Appending a spend of `v` from `a` to `b` adds `v` to what `a` spent and to
      what `b` received, and leaves every other key's totals alone. */
  lemma {:induction false} SpendUpdatesTotals(token: Token, tx: Transaction, key: int)
    requires IsSpend(tx) && tx.data.config.value.BigInt?
    ensures SpentValue(Append(token, tx), key) ==
      (if key == tx.data.config.from then AddTo(SpentValue(token, key), tx.data.config.value.n)
       else SpentValue(token, key))
    ensures ReceivedValue(Append(token, tx), key) ==
      (if key == tx.data.config.to then AddTo(ReceivedValue(token, key), tx.data.config.value.n)
       else ReceivedValue(token, key))
  {
    SumOfSnoc(token.transactions, tx, PaidFrom(key));
    SumOfSnoc(token.transactions, tx, PaidTo(key));
  }

  /** A spend of `v` from `a` to `b != a` moves `v` from `a`'s spendable value
      to `b`'s, except that a receipt by the minter is not counted; every other
      key keeps its spendable value. */
  lemma TransferMovesValue(token: Token, tx: Transaction, key: int)
    requires IsSpend(tx) && tx.data.config.value.BigInt?
    requires tx.data.config.from != tx.data.config.to
    ensures var after := SpendableValue(Append(token, tx), key);
      var v := tx.data.config.value.n;
      if key == tx.data.config.from then after == AddTo(SpendableValue(token, key), -v)
      else if key == tx.data.config.to && key != token.pubKey then
        after == AddTo(SpendableValue(token, key), v)
      else after == SpendableValue(token, key)
  {
    SpendUpdatesTotals(token, tx, key);
    var c := tx.data.config;
    if key == c.from {
      SenderPays(token, tx, key);
    } else if key == c.to && key != token.pubKey {
      RecipientGains(token, tx, key);
    } else {
      OthersUnchanged(token, tx, key);
    }
  }

  lemma SenderPays(token: Token, tx: Transaction, key: int)
    requires tx.data.config.value.BigInt?
    requires key == tx.data.config.from && key != tx.data.config.to
    requires SpentValue(Append(token, tx), key) == AddTo(SpentValue(token, key), tx.data.config.value.n)
    requires ReceivedValue(Append(token, tx), key) == ReceivedValue(token, key)
    ensures SpendableValue(Append(token, tx), key) == AddTo(SpendableValue(token, key), -tx.data.config.value.n)
  {
    var after := Append(token, tx);
    assert BaseValue(after, key) == BaseValue(token, key);
    NetOfMoreSpent(BaseValue(token, key), SpentValue(token, key), tx.data.config.value.n);
  }

  lemma RecipientGains(token: Token, tx: Transaction, key: int)
    requires tx.data.config.value.BigInt?
    requires key == tx.data.config.to && key != tx.data.config.from && key != token.pubKey
    requires SpentValue(Append(token, tx), key) == SpentValue(token, key)
    requires ReceivedValue(Append(token, tx), key) == AddTo(ReceivedValue(token, key), tx.data.config.value.n)
    ensures SpendableValue(Append(token, tx), key) == AddTo(SpendableValue(token, key), tx.data.config.value.n)
  {
    var after := Append(token, tx);
    assert BaseValue(after, key) == AddTo(BaseValue(token, key), tx.data.config.value.n);
    NetOfMoreReceived(BaseValue(token, key), SpentValue(token, key), tx.data.config.value.n);
  }

  lemma OthersUnchanged(token: Token, tx: Transaction, key: int)
    requires key != tx.data.config.from && (key != tx.data.config.to || key == token.pubKey)
    requires SpentValue(Append(token, tx), key) == SpentValue(token, key)
    requires key != token.pubKey ==> ReceivedValue(Append(token, tx), key) == ReceivedValue(token, key)
    ensures SpendableValue(Append(token, tx), key) == SpendableValue(token, key)
  {
    var after := Append(token, tx);
    assert BaseValue(after, key) == BaseValue(token, key);
  }

  lemma NetOfMoreSpent(received: Option<int>, spent: Option<int>, v: int)
    ensures Net(received, AddTo(spent, v)) == AddTo(Net(received, spent), -v)
  {
  }

  lemma NetOfMoreReceived(received: Option<int>, spent: Option<int>, v: int)
    ensures Net(AddTo(received, v), spent) == AddTo(Net(received, spent), v)
  {
  }

  /** A transaction whose `type` is not `"spend"` is invisible to all three
      queries; this includes a config without a `type`, which `genTransaction`
      validates as a spend. */
  lemma {:induction false} NonSpendLeavesBalances(token: Token, tx: Transaction, key: int)
    requires !IsSpend(tx)
    ensures ReceivedValue(Append(token, tx), key) == ReceivedValue(token, key)
    ensures SpentValue(Append(token, tx), key) == SpentValue(token, key)
    ensures SpendableValue(Append(token, tx), key) == SpendableValue(token, key)
  {
    SumOfSnoc(token.transactions, tx, PaidFrom(key));
    SumOfSnoc(token.transactions, tx, PaidTo(key));
  }

  // ---------------------------------------------------------------------
  // Current owners

  /** The iteration order of `new Set(s)`: each element at its first occurrence. */
  function Distinct(s: seq<int>): (r: seq<int>)
    ensures forall x :: x in r <==> x in s
    ensures forall i, j :: 0 <= i < j < |r| ==> r[i] != r[j]
  {
    if s == [] then []
    else
      var init := Distinct(s[..|s| - 1]);
      var last := s[|s| - 1];
      assert s == s[..|s| - 1] + [last];
      if last in init then init else init + [last]
  }

  /** `[...toSet].filter(to => !fromSet.has(to))`. */
  function Leaves(tos: seq<int>, froms: set<int>): (r: seq<int>)
    ensures forall x :: x in r <==> x in tos && x !in froms
    ensures (forall i, j :: 0 <= i < j < |tos| ==> tos[i] != tos[j]) ==>
      forall i, j :: 0 <= i < j < |r| ==> r[i] != r[j]
  {
    if tos == [] then []
    else
      var rest := Leaves(tos[1..], froms);
      assert tos == [tos[0]] + tos[1..];
      if tos[0] in froms then rest else [tos[0]] + rest
  }

  /** The `to` of every transaction, in order. */
  function Recipients(txs: seq<Transaction>): seq<int>
  {
    seq(|txs|, i requires 0 <= i < |txs| => txs[i].data.config.to)
  }

  /** The set of every transaction's `from`. */
  function Senders(txs: seq<Transaction>): set<int>
  {
    set t | t in txs :: t.data.config.from
  }

  /** A key some transaction pays to and no transaction pays from. */
  predicate IsLeaf(txs: seq<Transaction>, key: int)
  {
    (exists t :: t in txs && t.data.config.to == key) &&
    forall t :: t in txs ==> t.data.config.from != key
  }

  /** `getCurrentOwners(token)` (crypto.js:131-136), for every type of
      transaction alike.  The owners are the leaf keys, each once, or the
      minter when there is none; the list is never empty. */
  function CurrentOwners(token: Token): (owners: seq<int>)
    ensures |owners| > 0
    ensures (exists k :: IsLeaf(token.transactions, k)) ==>
      (forall k :: k in owners <==> IsLeaf(token.transactions, k)) &&
      forall i, j :: 0 <= i < j < |owners| ==> owners[i] != owners[j]
    ensures (forall k :: !IsLeaf(token.transactions, k)) ==> owners == [token.pubKey]
  {
    var leaves := Leaves(Distinct(Recipients(token.transactions)), Senders(token.transactions));
    LeavesAreLeafKeys(token.transactions);
    if |leaves| > 0 then
      assert leaves[0] in leaves;
      leaves
    else [token.pubKey]
  }

  /** The recipients that are not senders are exactly the leaf keys. */
  lemma LeavesAreLeafKeys(txs: seq<Transaction>)
    ensures forall k :: k in Leaves(Distinct(Recipients(txs)), Senders(txs)) <==> IsLeaf(txs, k)
  {
    var tos := Recipients(txs);
    forall k
      ensures k in Leaves(Distinct(tos), Senders(txs)) <==> IsLeaf(txs, k)
    {
      if k in tos {
        var i :| 0 <= i < |txs| && tos[i] == k;
        assert txs[i] in txs;
      }
      if IsLeaf(txs, k) {
        var t :| t in txs && t.data.config.to == k;
        var i :| 0 <= i < |txs| && txs[i] == t;
        assert tos[i] == k;
      }
    }
  }

  // ---------------------------------------------------------------------
  // Generating a transaction

  datatype TxError = InvalidValue | MissingPrevTxId

  /** Whether `genTransaction` validates the config as a spend: an absent
      `type` defaults to `"spend"`. */
  predicate ValidatedAsSpend(config: Config)
  {
    config.kind != OtherType
  }

  /** What `genTransaction`'s checks guarantee of a transaction it returns. */
  predicate Validated(tx: Transaction)
  {
    ValidatedAsSpend(tx.data.config) ==> tx.data.config.value.BigInt? && tx.prevTxId != 0
  }

  /** `genTransaction(tokenId, prevTxId, privKey, config)` (crypto.js:102-125),
      with the clock reading `timestamp` and the signer `sign` as parameters.
      A spend needs a BigInt value (checked first) and a prevTxId. */
  function GenTransaction(tokenId: int, prevTxId: int, privKey: int, config: Config,
                          timestamp: int, sign: (TxMessage, int) -> int): (r: Result<Transaction, TxError>)
    ensures r == Err(InvalidValue) <==> ValidatedAsSpend(config) && !config.value.BigInt?
    ensures r == Err(MissingPrevTxId) <==>
      ValidatedAsSpend(config) && config.value.BigInt? && prevTxId == 0
    ensures r.Ok? ==>
      r.value.tokenId == tokenId && r.value.prevTxId == prevTxId &&
      r.value.data == TxData(config, timestamp) &&
      r.value.signature == sign(TxMessage(tokenId, prevTxId, r.value.data), privKey)
    ensures r.Ok? ==> Validated(r.value)
  {
    if ValidatedAsSpend(config) && !config.value.BigInt? then Err(InvalidValue)
    else if ValidatedAsSpend(config) && prevTxId == 0 then Err(MissingPrevTxId)
    else
      var data := TxData(config, timestamp);
      Ok(Transaction(tokenId, prevTxId, data, sign(TxMessage(tokenId, prevTxId, data), privKey)))
  }

  /** On a ledger of validated transactions the balance queries always yield
      a number: they never add up a value that is not a BigInt. */
  lemma ValidatedLedgerHasBalances(token: Token, key: int)
    requires forall t :: t in token.transactions ==> Validated(t)
    ensures ReceivedValue(token, key).Some? && SpentValue(token, key).Some?
    ensures SpendableValue(token, key).Some?
  {
  }

  // ---------------------------------------------------------------------
  // Transaction chains

  /** The index of the first transaction whose id is `target`. */
  function IndexOf(txs: seq<Transaction>, txId: Transaction -> int, target: int): (r: Option<nat>)
    ensures r.Some? ==>
      r.value < |txs| && txId(txs[r.value]) == target &&
      forall j :: 0 <= j < r.value ==> txId(txs[j]) != target
    ensures r.None? ==> forall j :: 0 <= j < |txs| ==> txId(txs[j]) != target
  {
    if txs == [] then None
    else if txId(txs[0]) == target then Some(0)
    else
      var rest := IndexOf(txs[1..], txId, target);
      if rest.Some? then Some(rest.value + 1) else None
  }

  /** The transaction `findTransactionById` returns. */
  function Find(txs: seq<Transaction>, txId: Transaction -> int, target: int): Option<Transaction>
  {
    var i := IndexOf(txs, txId, target);
    if i.Some? then Some(txs[i.value]) else None
  }

  /** `findTransactionById(token, targetId)` (crypto.js:68-74): the first
      transaction whose id is `targetId`, or `None` when no id matches. */
  method FindTransactionById(token: Token, txId: Transaction -> int, target: int)
    returns (r: Option<Transaction>)
    ensures r == Find(token.transactions, txId, target)
    ensures r.None? <==> forall t :: t in token.transactions ==> txId(t) != target
  {
    var txs := token.transactions;
    var i := 0;
    while i < |txs|
      invariant 0 <= i <= |txs|
      invariant forall j :: 0 <= j < i ==> txId(txs[j]) != target
    {
      if txId(txs[i]) == target {
        return Some(txs[i]);
      }
      i := i + 1;
    }
    return None;
  }

  /** Every transaction's predecessor, when it is in the list, comes earlier
      in it.  Without this `getDepthByTxId` can loop forever on a cycle. */
  predicate PrevResolvesEarlier(txs: seq<Transaction>, txId: Transaction -> int)
  {
    forall i :: 0 <= i < |txs| && txs[i].prevTxId != 0 ==>
      var j := IndexOf(txs, txId, txs[i].prevTxId);
      j.Some? ==> j.value < i
  }

  function Rank(txs: seq<Transaction>, txId: Transaction -> int, id: int): nat
  {
    var i := IndexOf(txs, txId, id);
    if i.Some? then i.value + 1 else 0
  }

  /** The number of `prevTxId` links followed from `id` before the walk meets a
      falsy `prevTxId` or an id that is not in the list. */
  function ChainDepth(txs: seq<Transaction>, txId: Transaction -> int, id: int): nat
    requires PrevResolvesEarlier(txs, txId)
    decreases Rank(txs, txId, id)
  {
    var i := IndexOf(txs, txId, id);
    if i.None? || txs[i.value].prevTxId == 0 then 0
    else 1 + ChainDepth(txs, txId, txs[i.value].prevTxId)
  }

  /** `getDepthByTxId(token, txId)` (crypto.js:54-66). */
  method GetDepthByTxId(token: Token, txId: Transaction -> int, target: int) returns (depth: nat)
    requires PrevResolvesEarlier(token.transactions, txId)
    ensures depth == ChainDepth(token.transactions, txId, target)
  {
    var txs := token.transactions;
    depth := 0;
    var current := target;
    while true
      invariant depth + ChainDepth(txs, txId, current) == ChainDepth(txs, txId, target)
      decreases Rank(txs, txId, current)
    {
      var found := FindTransactionById(token, txId, current);
      if found.None? || found.value.prevTxId == 0 {
        break;
      }
      current := found.value.prevTxId;
      depth := depth + 1;
    }
  }

  /** A chain is never longer than the position of its first transaction. */
  lemma {:induction false} ChainDepthBound(txs: seq<Transaction>, txId: Transaction -> int, id: int)
    requires PrevResolvesEarlier(txs, txId)
    ensures ChainDepth(txs, txId, id) <= Rank(txs, txId, id) <= |txs|
    decreases Rank(txs, txId, id)
  {
    var i := IndexOf(txs, txId, id);
    if i.Some? && txs[i.value].prevTxId != 0 {
      ChainDepthBound(txs, txId, txs[i.value].prevTxId);
    }
  }

  /** Looking an id up in a list with one more transaction at the end. */
  lemma {:induction false} IndexOfSnoc(txs: seq<Transaction>, tx: Transaction, txId: Transaction -> int, id: int)
    ensures IndexOf(txs + [tx], txId, id) ==
      if IndexOf(txs, txId, id).Some? then IndexOf(txs, txId, id)
      else if txId(tx) == id then Some(|txs|)
      else None
  {
    if txs != [] {
      assert (txs + [tx])[1..] == txs[1..] + [tx];
      IndexOfSnoc(txs[1..], tx, txId, id);
    }
  }

  /** Appending a transaction that no transaction, itself included, names as
      its predecessor keeps every predecessor earlier in the list. */
  lemma AppendKeepsOrder(txs: seq<Transaction>, tx: Transaction, txId: Transaction -> int)
    requires PrevResolvesEarlier(txs, txId)
    requires tx.prevTxId != txId(tx)
    requires forall t :: t in txs ==> t.prevTxId != txId(tx)
    ensures PrevResolvesEarlier(txs + [tx], txId)
  {
    var s := txs + [tx];
    forall i | 0 <= i < |s| && s[i].prevTxId != 0
      ensures var j := IndexOf(s, txId, s[i].prevTxId); j.Some? ==> j.value < i
    {
      IndexOfSnoc(txs, tx, txId, s[i].prevTxId);
      if i < |txs| {
        assert s[i] == txs[i] && txs[i] in txs;
      }
    }
  }

  /** Under the same condition the depth of every id is unchanged, and the new
      transaction, when its id is new, sits one link above its predecessor. */
  lemma {:induction false} AppendKeepsDepth(txs: seq<Transaction>, tx: Transaction,
                                            txId: Transaction -> int, id: int)
    requires PrevResolvesEarlier(txs, txId)
    requires tx.prevTxId != txId(tx)
    requires forall t :: t in txs ==> t.prevTxId != txId(tx)
    requires id != txId(tx)
    ensures PrevResolvesEarlier(txs + [tx], txId)
    ensures ChainDepth(txs + [tx], txId, id) == ChainDepth(txs, txId, id)
    decreases Rank(txs, txId, id)
  {
    AppendKeepsOrder(txs, tx, txId);
    IndexOfSnoc(txs, tx, txId, id);
    var i := IndexOf(txs, txId, id);
    if i.Some? && txs[i.value].prevTxId != 0 {
      assert (txs + [tx])[i.value] == txs[i.value];
      assert txs[i.value] in txs;
      AppendKeepsDepth(txs, tx, txId, txs[i.value].prevTxId);
    }
  }

  lemma DepthOfAppended(txs: seq<Transaction>, tx: Transaction, txId: Transaction -> int)
    requires PrevResolvesEarlier(txs, txId)
    requires tx.prevTxId != txId(tx)
    requires forall t :: t in txs ==> t.prevTxId != txId(tx) && txId(t) != txId(tx)
    ensures PrevResolvesEarlier(txs + [tx], txId)
    ensures ChainDepth(txs + [tx], txId, txId(tx)) ==
      if tx.prevTxId == 0 then 0 else 1 + ChainDepth(txs, txId, tx.prevTxId)
  {
    AppendKeepsOrder(txs, tx, txId);
    IndexOfSnoc(txs, tx, txId, txId(tx));
    assert forall j :: 0 <= j < |txs| ==> txs[j] in txs;
    if tx.prevTxId != 0 {
      AppendKeepsDepth(txs, tx, txId, tx.prevTxId);
    }
  }
}
