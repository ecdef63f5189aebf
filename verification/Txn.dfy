/** Write batches over a key-value store: a batch maps a key to a new value or to a deletion, and
    committing it overlays the store. */
module Txn {
  import opened Options

  type Batch<K, V> = map<K, Option<V>>

  function Overlay<K, V>(db: map<K, V>, txn: Batch<K, V>): map<K, V> {
    map k | k in db.Keys + txn.Keys && (k in txn ==> txn[k].Some?) :: if k in txn then txn[k].value else db[k]
  }

  lemma OverlayEmpty<K, V>(db: map<K, V>)
    ensures Overlay(db, map[]) == db
  {
  }

  lemma OverlayPut<K, V>(db: map<K, V>, txn: Batch<K, V>, k: K, v: V)
    ensures Overlay(db, txn[k := Some(v)]) == Overlay(db, txn)[k := v]
  {
  }

  lemma OverlayDelete<K, V>(db: map<K, V>, txn: Batch<K, V>, k: K)
    ensures Overlay(db, txn[k := None]) == Overlay(db, txn) - {k}
  {
  }
}
