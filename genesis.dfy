/**
 The `UtxoStore` of the UTXO pallet (pallets/utxo/src/lib.rs) and how the
 genesis configuration seeds it.

 The store maps an `H256` key to an optional `TransactionOutput`; a key
 never written reads as `None`. At genesis every configured output is
 paired with its hash and the pairs are written in order, so a later
 pair overwrites an earlier one with the same key. The hash
 (`BlakeTwo256::hash_of`) is not modelled: it is the parameter `hashOf`.
 */
module Genesis {
  import opened Wrappers
  import opened Ledger

  type Store = map<H256, TransactionOutput>

  datatype GenesisConfig = GenesisConfig(genesisUtxos: seq<TransactionOutput>)

  /** Reading the store: the output under `key`, or `None`. */
  function UtxoAt(store: Store, key: H256): (r: Option<TransactionOutput>)
    ensures r.Some? <==> key in store
    ensures r.Some? ==> r.value == store[key]
  {
    if key in store then Some(store[key]) else None
  }

  /** Each output paired with its own hash, in order (`.map(|u| (hash_of(&u), u))`). */
  function HashedEntries(outputs: seq<TransactionOutput>, hashOf: TransactionOutput -> H256)
    : (r: seq<(H256, TransactionOutput)>)
    ensures |r| == |outputs|
    ensures forall i :: 0 <= i < |r| ==> r[i] == (hashOf(outputs[i]), outputs[i])
  {
    if outputs == [] then []
    else [(hashOf(outputs[0]), outputs[0])] + HashedEntries(outputs[1..], hashOf)
  }

  /** The entry list the genesis `build` closure returns. */
  function GenesisEntries(config: GenesisConfig, hashOf: TransactionOutput -> H256)
    : (r: seq<(H256, TransactionOutput)>)
    ensures |r| == |config.genesisUtxos|
    ensures forall i :: 0 <= i < |r| ==> r[i].0 == hashOf(r[i].1) && r[i].1 == config.genesisUtxos[i]
  {
    HashedEntries(config.genesisUtxos, hashOf)
  }

  /** No entry after index `i` has the key of entry `i`. */
  ghost predicate LastWithKey(entries: seq<(H256, TransactionOutput)>, i: int)
    requires 0 <= i < |entries|
  {
    forall j :: i < j < |entries| ==> entries[j].0 != entries[i].0
  }

  /**
   Writing the entries into an empty store one after the other. The keys
   are exactly the entries' keys.
   */
  function Insert(entries: seq<(H256, TransactionOutput)>): (store: Store)
    ensures store.Keys == set i | 0 <= i < |entries| :: entries[i].0
  {
    if entries == [] then map[]
    else
      var n := |entries| - 1;
      var prefix, last := entries[..n], entries[n];
      assert (set i | 0 <= i < |entries| :: entries[i].0) == (set i | 0 <= i < n :: prefix[i].0) + {last.0};
      Insert(prefix)[last.0 := last.1]
  }

  /** Each stored pair is one of the entries written. */
  lemma {:induction false} InsertHoldsEntries(entries: seq<(H256, TransactionOutput)>, k: H256)
    requires k in Insert(entries)
    ensures (k, Insert(entries)[k]) in entries
  {
    var n := |entries| - 1;
    if entries[n].0 != k {
      InsertHoldsEntries(entries[..n], k);
    }
  }

  /** A key holds the value of the last entry written under it. */
  lemma {:induction false} InsertLastWriteWins(entries: seq<(H256, TransactionOutput)>, i: nat)
    requires i < |entries| && LastWithKey(entries, i)
    ensures entries[i].0 in Insert(entries) && Insert(entries)[entries[i].0] == entries[i].1
  {
    var n := |entries| - 1;
    if i < n {
      var prefix := entries[..n];
      assert entries[n].0 != entries[i].0;
      assert LastWithKey(prefix, i) by {
        forall j | i < j < n ensures prefix[j].0 != prefix[i].0 {
          assert prefix[j] == entries[j];
        }
      }
      InsertLastWriteWins(prefix, i);
    }
  }

  /**
   The store right after genesis: its keys are exactly the hashes of the
   configured outputs, and each key is the hash of the output it holds.
   */
  function GenesisStore(config: GenesisConfig, hashOf: TransactionOutput -> H256): (store: Store)
    ensures store.Keys == set o | o in config.genesisUtxos :: hashOf(o)
    ensures forall k :: k in store ==> k == hashOf(store[k])
  {
    var utxos := config.genesisUtxos;
    var entries := GenesisEntries(config, hashOf);
    var store := Insert(entries);
    assert store.Keys == set o | o in utxos :: hashOf(o) by {
      forall k | k in store ensures k in set o | o in utxos :: hashOf(o) {
        var i :| 0 <= i < |entries| && entries[i].0 == k;
        assert utxos[i] in utxos;
      }
      forall o | o in utxos ensures hashOf(o) in store {
        var i :| 0 <= i < |utxos| && utxos[i] == o;
        assert entries[i].0 == hashOf(o);
      }
    }
    assert forall k :: k in store ==> k == hashOf(store[k]) by {
      forall k | k in store ensures k == hashOf(store[k]) {
        InsertHoldsEntries(entries, k);
        var i :| 0 <= i < |entries| && entries[i] == (k, store[k]);
      }
    }
    store
  }

  /** No two configured outputs have the same hash. */
  ghost predicate CollisionFree(config: GenesisConfig, hashOf: TransactionOutput -> H256) {
    forall o1, o2 :: o1 in config.genesisUtxos && o2 in config.genesisUtxos && hashOf(o1) == hashOf(o2) ==> o1 == o2
  }

  // ---------------------------------------------------------------------
  // Properties of genesis seeding.

  /** A key no configured output hashes to reads as `None` after genesis. */
  lemma UnseededKeyIsAbsent(config: GenesisConfig, hashOf: TransactionOutput -> H256, key: H256)
    requires forall o :: o in config.genesisUtxos ==> hashOf(o) != key
    ensures UtxoAt(GenesisStore(config, hashOf), key) == None
  {
  }

  /**
   Whatever the hash does, a configured output that no later configured
   output collides with is stored under its hash: the last write wins.
   */
  lemma GenesisLastWriteWins(config: GenesisConfig, hashOf: TransactionOutput -> H256, i: nat)
    requires i < |config.genesisUtxos|
    requires forall j :: i < j < |config.genesisUtxos| ==>
               hashOf(config.genesisUtxos[j]) != hashOf(config.genesisUtxos[i])
    ensures UtxoAt(GenesisStore(config, hashOf), hashOf(config.genesisUtxos[i])) == Some(config.genesisUtxos[i])
  {
    var entries := GenesisEntries(config, hashOf);
    assert LastWithKey(entries, i);
    InsertLastWriteWins(entries, i);
  }

  /** With distinct hashes, every configured output is stored under its hash. */
  lemma GenesisOutputsPresent(config: GenesisConfig, hashOf: TransactionOutput -> H256)
    requires CollisionFree(config, hashOf)
    ensures forall o :: o in config.genesisUtxos ==> UtxoAt(GenesisStore(config, hashOf), hashOf(o)) == Some(o)
  {
    var utxos := config.genesisUtxos;
    var entries := GenesisEntries(config, hashOf);
    var store := GenesisStore(config, hashOf);
    forall o | o in utxos ensures UtxoAt(store, hashOf(o)) == Some(o) {
      var k := hashOf(o);
      assert k in store;
      InsertHoldsEntries(entries, k);
      var i :| 0 <= i < |entries| && entries[i] == (k, store[k]);
      assert utxos[i] in utxos;
    }
  }

  lemma {:induction false} InjectiveImageSize(s: set<TransactionOutput>, f: TransactionOutput -> H256)
    requires forall x, y :: x in s && y in s && f(x) == f(y) ==> x == y
    ensures |set x | x in s :: f(x)| == |s|
    decreases s
  {
    if s != {} {
      var x :| x in s;
      var rest := s - {x};
      InjectiveImageSize(rest, f);
      assert (set y | y in s :: f(y)) == (set y | y in rest :: f(y)) + {f(x)};
      assert f(x) !in (set y | y in rest :: f(y));
    }
  }

  /**
   Identical configured outputs share one entry: with distinct hashes the
   store holds exactly one entry per distinct configured output.
   */
  lemma GenesisStoreSize(config: GenesisConfig, hashOf: TransactionOutput -> H256)
    requires CollisionFree(config, hashOf)
    ensures |GenesisStore(config, hashOf)| == |set o | o in config.genesisUtxos|
  {
    var distinct := set o | o in config.genesisUtxos;
    InjectiveImageSize(distinct, hashOf);
    assert (set o | o in config.genesisUtxos :: hashOf(o)) == (set x | x in distinct :: hashOf(x));
  }
}
