/** The social-graph indexer: link messages update follow rows and counters through a write batch. */
module SocialGraph {
  import opened Options
  import opened Txn
  import opened B = Bytes
  import opened SocialKeys
  import opened SocialEffects
  import opened SocialHistory

  // ----- the indexer -------------------------------------------------------

  /** Counters in the batch are numbers, never deletions: reading them falls back correctly. */
  predicate CountersLive(txn: Batch<Key, Value>) {
    forall k :: k in txn && k.Count? ==> txn[k].Some? && txn[k].value.Number?
  }

  predicate ValidBatch(txn: Batch<Key, Value>) {
    CountersLive(txn) && forall k :: k in txn ==> ValidKey(k)
  }

  lemma OverlayValid(db: Db, txn: Batch<Key, Value>)
    requires ValidDb(db) && ValidBatch(txn)
    ensures ValidDb(Overlay(db, txn))
  {
  }

  class Indexer {
    var db: Db
    var txn: Batch<Key, Value>

    ghost predicate Valid()
      reads this
    {
      ValidDb(db) && ValidBatch(txn)
    }

    /** The store as it will be once the batch is committed. */
    ghost function View(): Db
      reads this
    {
      Overlay(db, txn)
    }

    constructor (db: Db)
      requires ValidDb(db)
      ensures Valid() && this.db == db && txn == map[]
    {
      this.db, txn := db, map[];
    }

    method GetCount(k: Key) returns (n: nat)
      requires Valid() && k.Count?
      ensures n == CountIn(View(), k)
    {
      if k in txn && txn[k].Some? && txn[k].value.Number? {
        return txn[k].value.n;
      }
      if k in db && db[k].Number? {
        return db[k].n;
      }
      n := 0;
    }

    method Put(k: Key, v: Value)
      requires Valid() && ValidKey(k) && (k.Count? ==> v.Number?)
      modifies this`txn
      ensures Valid() && View() == old(View())[k := v]
    {
      OverlayPut(db, txn, k, v);
      txn := txn[k := Some(v)];
    }

    method Delete(k: Key)
      requires Valid() && ValidKey(k) && !k.Count?
      modifies this`txn
      ensures Valid() && View() == old(View()) - {k}
    {
      OverlayDelete(db, txn, k);
      txn := txn[k := None];
    }

    method IncrementCount(k: Key)
      requires Valid() && k.Count?
      modifies this`txn
      ensures Valid() && View() == Raise(old(View()), k)
    {
      var current := GetCount(k);
      Put(k, Number(current + 1));
    }

    method DecrementCount(k: Key)
      requires Valid() && k.Count?
      modifies this`txn
      ensures Valid() && View() == Lower(old(View()), k)
    {
      var current := GetCount(k);
      if current > 0 {
        Put(k, Number(current - 1));
      }
    }

    method Commit()
      requires Valid()
      modifies this
      ensures Valid() && db == old(View()) && txn == map[]
    {
      OverlayValid(db, txn);
      db := Overlay(db, txn);
      txn := map[];
    }

    /** Commits the batch unless it is empty. */
    method Flush()
      requires Valid()
      modifies this
      ensures Valid() && db == View() == old(View()) && txn == map[]
    {
      if |txn| > 0 {
        Commit();
      }
      assert txn == map[];
      OverlayEmpty(db);
    }

    method ForgetTargets(s: U64, ts: seq<U64>)
      requires Valid()
      modifies this`txn
      ensures Valid() && View() == Forget(old(View()), s, ts)
    {
      for i := 0 to |ts|
        invariant Valid() && View() == Forget(old(View()), s, ts[..i])
      {
        assert ts[..i + 1][..i] == ts[..i];
        Delete(Row(Followers, ts[i], s));
        Delete(Row(Following, s, ts[i]));
        DecrementCount(Count(Followers, ts[i]));
      }
      assert ts[..|ts|] == ts;
    }

    method EnlistTargets(s: U64, ts: seq<U64>)
      requires Valid()
      modifies this`txn
      ensures Valid() && View() == Enlist(old(View()), s, ts)
    {
      for i := 0 to |ts|
        invariant Valid() && View() == Enlist(old(View()), s, ts[..i])
      {
        assert ts[..i + 1][..i] == ts[..i];
        Put(Row(Followers, ts[i], s), Stamp(0));
        Put(Row(Following, s, ts[i]), Stamp(0));
        IncrementCount(Count(Followers, ts[i]));
      }
      assert ts[..|ts|] == ts;
    }

    /** The scan of existing rows reads the committed store only, so the batch must be empty. */
    method ProcessCompactFollowState(s: U64, targets: seq<U64>)
      requires Valid() && txn == map[]
      modifies this`txn
      ensures Valid() && View() == Replaced(old(View()), s, targets)
    {
      OverlayEmpty(db);
      var oldTargets := ReadPage(db, s);
      ForgetTargets(s, oldTargets);
      Put(Count(Following, s), Number(0));
      EnlistTargets(s, targets);
      Put(Count(Following, s), Number(|targets|));
    }

    method AddLink(s: U64, t: U64, stamp: nat)
      requires Valid()
      modifies this`txn
      ensures Valid() && View() == Followed(old(View()), s, t, stamp)
    {
      IncrementCount(Count(Followers, t));
      IncrementCount(Count(Following, s));
      Put(Row(Followers, t, s), Stamp(stamp));
      Put(Row(Following, s, t), Stamp(stamp));
    }

    method RemoveLink(s: U64, t: U64)
      requires Valid()
      modifies this`txn
      ensures Valid() && View() == Unfollowed(old(View()), s, t)
    {
      DecrementCount(Count(Followers, t));
      DecrementCount(Count(Following, s));
      Delete(Row(Followers, t, s));
      Delete(Row(Following, s, t));
    }

    method ProcessLinkMessage(m: Message) returns (ok: bool)
      requires Valid() && (IsCompact(m) ==> txn == map[])
      modifies this`txn
      ensures Valid() && View() == Apply(old(View()), m)
      ensures ok <==> WellFormed(m)
    {
      if m.data.None? {
        return false;
      }
      var data := m.data.value;
      ok := true;
      if data.body.CompactBody? {
        if data.body.kind == "follow" {
          ProcessCompactFollowState(data.fid, data.body.targets);
        }
        return;
      }
      if !data.body.LinkBody? {
        return;
      }
      if data.body.kind != "follow" {
        return;
      }
      if data.body.target.None? {
        return;
      }
      var target, source := data.body.target.value, data.fid;
      match data.msgType {
        case InvalidType =>
          ok := false;
        case LinkAdd =>
          AddLink(source, target, data.timestamp);
        case LinkRemove =>
          RemoveLink(source, target);
        case OtherType =>
      }
    }

    /** `ProcessLinkMessage` for a message that follows the messages already in the view. */
    method ProcessNext(m: Message, ghost start: Db, ghost before: seq<Message>) returns (ok: bool)
      requires Valid() && (IsCompact(m) ==> txn == map[]) && View() == ApplyAll(start, before)
      modifies this`txn
      ensures Valid() && View() == ApplyAll(start, before + [m])
      ensures ok <==> WellFormed(m)
    {
      assert (before + [m])[..|before|] == before;
      ok := ProcessLinkMessage(m);
    }

    /** One message, committed on its own. */
    method ProcessEvent(m: Message) returns (ok: bool)
      requires Valid()
      modifies this
      ensures Valid() && db == Apply(old(db), m) && Tells(old(db), [m], db)
      ensures ok <==> WellFormed(m)
    {
      assert [m][..0] == [] && ApplyAll(db, [m]) == Apply(db, m);
      HistoryTold(db, [m]);
      txn := map[];
      OverlayEmpty(db);
      ok := ProcessLinkMessage(m);
      if !ok {
        return;
      }
      Flush();
    }

    /** Batching is one-at-a-time processing: the same store, unless some message is malformed; then
        processing stops and what is kept is one-at-a-time processing of a prefix. */
    method ProcessBatch(ms: seq<Message>) returns (ok: bool, ghost stopped: nat)
      requires Valid()
      modifies this
      ensures Valid()
      ensures ok <==> AllWellFormed(ms)
      ensures ok ==> db == ApplyAll(old(db), ms) && Tells(old(db), ms, db)
      ensures !ok ==>
        && stopped < |ms| && AllWellFormed(ms[..stopped]) && !WellFormed(ms[stopped])
        && db == ApplyAll(old(db), ms[..Flushed(ms[..stopped])])
        && Tells(old(db), ms[..Flushed(ms[..stopped])], db)
    {
      ok, stopped := RunBatch(ms);
      HistoryTold(old(db), if ok then ms else ms[..Flushed(ms[..stopped])]);
    }

    method RunBatch(ms: seq<Message>) returns (ok: bool, ghost stopped: nat)
      requires Valid()
      modifies this
      ensures Valid()
      ensures ok <==> AllWellFormed(ms)
      ensures ok ==> db == ApplyAll(old(db), ms)
      ensures !ok ==>
        && stopped < |ms| && AllWellFormed(ms[..stopped]) && !WellFormed(ms[stopped])
        && db == ApplyAll(old(db), ms[..Flushed(ms[..stopped])])
    {
      txn := map[];
      OverlayEmpty(db);
      ghost var start := db;
      assert ms[..0] == [];
      for i := 0 to |ms|
        invariant Valid() && AllWellFormed(ms[..i]) && Halfway(start, ms[..i])
      {
        FlushedStep(ms, i);
        ok := ProcessInBatch(ms[i], start, ms[..i]);
        if !ok {
          assert ms[..i][..Flushed(ms[..i])] == ms[..Flushed(ms[..i])];
          return false, i;
        }
      }
      assert ms[..|ms|] == ms;
      Flush();
      ok, stopped := true, |ms|;
    }

    /** Midway through a batch: the view is all of it, the store what was flushed. */
    ghost predicate Halfway(start: Db, done: seq<Message>)
      reads this
    {
      View() == ApplyAll(start, done) && db == ApplyAll(start, done[..Flushed(done)])
    }

    /** One message of a batch; before a compact one the batch so far is committed. */
    method ProcessInBatch(m: Message, ghost start: Db, ghost before: seq<Message>) returns (ok: bool)
      requires Valid() && Halfway(start, before)
      modifies this
      ensures Valid() && (ok <==> WellFormed(m))
      ensures ok ==> Halfway(start, before + [m])
      ensures !ok ==> db == ApplyAll(start, before[..Flushed(before)])
    {
      ghost var longer := before + [m];
      assert longer[..|before|] == before && longer[|longer| - 1] == m;
      if IsCompact(m) {
        Flush();
        assert longer[..Flushed(longer)] == before;
      } else {
        assert longer[..Flushed(longer)] == before[..Flushed(before)];
      }
      ok := ProcessNext(m, start, before);
    }
  }

  /** The paged scan of a source's following rows in the committed store. */
  method ReadPage(db: Db, s: U64) returns (targets: seq<U64>)
    requires ValidDb(db)
    ensures targets == OldTargets(db, s)
  {
    var stop := IncrementPrefix(RowPrefix(Following, s));
    ghost var rows := From(Others(db, Following, s), 0);
    ScanIsRows(db, Following, s, None);
    RowKeysDecode(Following, s, rows);
    targets := Decode(Scan(db, RowPrefix(Following, s), stop), PAGE, rows);
  }

  method Decode(keys: seq<Bytes>, page: nat, ghost rows: seq<U64>) returns (targets: seq<U64>)
    requires |keys| == |rows| && forall i :: 0 <= i < |rows| ==> OtherOf(keys[i]) == Some(rows[i])
    requires page > 0
    ensures targets == if |rows| <= page then rows else rows[..page]
  {
    targets := [];
    var count := 0;
    for i := 0 to |keys|
      invariant targets == rows[..i] && count == i < page
    {
      if OtherOf(keys[i]).Some? {
        targets := targets + [OtherOf(keys[i]).value];
      }
      count := count + 1;
      if count >= page {
        break;
      }
    }
  }
}
