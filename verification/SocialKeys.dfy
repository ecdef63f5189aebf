/** The social graph's keys in the store, and what a range scan over them yields. */
module SocialKeys {
  import opened Options
  import opened Orders
  import opened B = Bytes

  datatype Table = Followers | Following

  /** `Row(Followers, a, b)`: b follows a. `Row(Following, a, b)`: a follows b. The store is shared;
      `Foreign` stands for every key of another component. */
  datatype Key =
    | Count(table: Table, fid: U64)
    | Row(table: Table, owner: U64, other: U64)
    | SchemaVersion
    | Checkpoint
    | Foreign(bytes: Bytes)

  /** 8-byte numbers, 4-byte timestamps, anything else. */
  datatype Value = Number(n: nat) | Stamp(t: nat) | Blob(bytes: Bytes)

  type Db = map<Key, Value>

  const PREFIX: Byte := 0xE0

  predicate ValidKey(k: Key) {
    k.Foreign? ==> k.bytes == [] || k.bytes[0] != PREFIX
  }

  predicate ValidDb(db: Db) {
    forall k :: k in db ==> ValidKey(k)
  }

  function RowTag(t: Table): Byte {
    if t.Followers? then 0x03 else 0x04
  }

  function RowPrefix(t: Table, owner: U64): (p: Bytes)
    ensures |p| == 10
  {
    [PREFIX, RowTag(t)] + Be64(owner)
  }

  function Encode(k: Key): Bytes {
    match k
    case Count(t, fid) => [PREFIX, if t.Followers? then 0x01 else 0x02] + Be64(fid)
    case Row(t, owner, other) => RowPrefix(t, owner) + Be64(other)
    case SchemaVersion => [PREFIX, 0xFE]
    case Checkpoint => [PREFIX, 0xFF]
    case Foreign(bytes) => bytes
  }

  lemma CountInjective(t: Table, a: U64, u: Table, b: U64)
    requires Encode(Count(t, a)) == Encode(Count(u, b))
    ensures t == u && a == b
  {
    var s, r := Encode(Count(t, a)), Encode(Count(u, b));
    assert s[1] == r[1] && s[2..] == Be64(a) && r[2..] == Be64(b);
    Be64Order(a, b);
  }

  lemma PrefixInjective(t: Table, a: U64, u: Table, b: U64)
    requires RowPrefix(t, a) == RowPrefix(u, b)
    ensures t == u && a == b
  {
    var s, r := RowPrefix(t, a), RowPrefix(u, b);
    assert s[1] == r[1] && s[2..] == Be64(a) && r[2..] == Be64(b);
    Be64Order(a, b);
  }

  lemma RowInjective(t: Table, a: U64, x: U64, u: Table, b: U64, y: U64)
    requires Encode(Row(t, a, x)) == Encode(Row(u, b, y))
    ensures t == u && a == b && x == y
  {
    var s, r := Encode(Row(t, a, x)), Encode(Row(u, b, y));
    assert s[..10] == RowPrefix(t, a) && r[..10] == RowPrefix(u, b);
    PrefixInjective(t, a, u, b);
    assert s[10..] == Be64(x) && r[10..] == Be64(y);
    Be64Order(x, y);
  }

  /** Different keys have different bytes, so a map over keys is a byte store. */
  lemma EncodeInjective(k: Key, j: Key)
    requires ValidKey(k) && ValidKey(j)
    ensures Encode(k) == Encode(j) <==> k == j
  {
    if Encode(k) == Encode(j) {
      if k.Count? && j.Count? {
        CountInjective(k.table, k.fid, j.table, j.fid);
      } else if k.Row? && j.Row? {
        RowInjective(k.table, k.owner, k.other, j.table, j.owner, j.other);
      } else if !k.Foreign? && !j.Foreign? {
        assert |Encode(k)| == |Encode(j)| && Encode(k)[1] == Encode(j)[1];
      }
    }
  }

  function Others(db: Db, t: Table, owner: U64): set<U64> {
    set x: U64 | 0 <= x < U64_LIMIT && Row(t, owner, x) in db
  }

  // ----- range scans -------------------------------------------------------

  predicate Within(s: Bytes, lo: Bytes, hi: Bytes) {
    !Less(s, lo) && Less(s, hi)
  }

  /** The store's iterator: keys from `lo` inclusive to `hi` exclusive, in byte order. */
  function Scan(db: Db, lo: Bytes, hi: Bytes): (r: seq<Bytes>)
    ensures Ascending(r, Less) && Elements(r) == set k | k in db && Within(Encode(k), lo, hi) :: Encode(k)
  {
    InOrder(set k | k in db && Within(Encode(k), lo, hi) :: Encode(k))
  }

  /** Start of a scan: the bare prefix, or the row key of the first wanted entry. */
  function StartKey(t: Table, owner: U64, from: Option<U64>): Bytes {
    if from.Some? then Encode(Row(t, owner, from.value)) else RowPrefix(t, owner)
  }

  function Lowest(from: Option<U64>): U64 {
    if from.Some? then from.value else 0
  }

  lemma {:induction false} IncrementedHead(p: Bytes, i: nat)
    requires i < |p| && p[i] < 255
    ensures Incremented(p)[..i] == p[..i] && p[i] <= Incremented(p)[i] <= p[i] + 1
  {
    var n := |p| - 1;
    if p[n] == 255 {
      IncrementedHead(p[..n], i);
      assert p[..n][..i] == p[..i];
    }
  }

  lemma RowInRange(t: Table, owner: U64, from: Option<U64>, t': Table, owner': U64, other: U64)
    ensures Within(Encode(Row(t', owner', other)), StartKey(t, owner, from), Incremented(RowPrefix(t, owner)))
       <==> t' == t && owner' == owner && Lowest(from) <= other
  {
    var p, k := RowPrefix(t, owner), Encode(Row(t', owner', other));
    assert p[0] == PREFIX;
    LongKeyInRange(p, k);
    assert k[..10] == RowPrefix(t', owner');
    assert RowPrefix(t', owner')[2..] == Be64(owner') && p[2..] == Be64(owner);
    Be64Order(owner', owner);
    if from.Some? {
      LessSplit(p, [], p, Be64(from.value));
      assert p + [] == p;
      LessTotal(p, p);
      if Within(k, StartKey(t, owner, from), Incremented(p)) {
        StartAbove(p, StartKey(t, owner, from), k);
      }
      LessSplit(p, Be64(other), p, Be64(from.value));
      Be64Order(other, from.value);
    }
  }

  lemma StartAbove(p: Bytes, start: Bytes, k: Bytes)
    requires Less(p, start) && !Less(k, start)
    ensures !Less(k, p)
  {
    if Less(k, p) { LessTransitive(k, p, start); }
  }

  lemma OtherKeysOutOfRange(t: Table, owner: U64, from: Option<U64>, k: Key)
    requires ValidKey(k) && !k.Row?
    ensures !Within(Encode(k), StartKey(t, owner, from), Incremented(RowPrefix(t, owner)))
  {
    var p, start, s := RowPrefix(t, owner), StartKey(t, owner, from), Encode(k);
    var stop := Incremented(p);
    IncrementedHead(p, 1);
    assert stop[0] == stop[..1][0] == p[0] == PREFIX && stop[1] <= 5;
    assert start[0] == PREFIX && start[..10] == p;
    if k.Count? {
      assert s[1] < start[1];
      assert s[1..][0] == s[1] && start[1..][0] == start[1];
      assert Less(s, start);
    } else if k.SchemaVersion? || k.Checkpoint? {
      assert s[1..][0] == s[1] && stop[1..][0] == stop[1];
    }
  }

  /** A scan of an owner's range meets exactly the owner's rows from the start on. */
  lemma KeyInRange(t: Table, owner: U64, from: Option<U64>, k: Key)
    requires ValidKey(k)
    ensures Within(Encode(k), StartKey(t, owner, from), Incremented(RowPrefix(t, owner)))
       <==> k.Row? && k.table == t && k.owner == owner && Lowest(from) <= k.other
  {
    if k.Row? {
      RowInRange(t, owner, from, k.table, k.owner, k.other);
    } else {
      OtherKeysOutOfRange(t, owner, from, k);
    }
  }

  // ----- rows in numeric order ---------------------------------------------

  predicate Below(a: U64, b: U64) {
    a < b
  }

  function Numeric(s: set<U64>): (r: seq<U64>)
    ensures Ascending(r, Below) && Elements(r) == s && |r| == |s|
  {
    assert StrictTotal(Below);
    Sorted(s, Below)
  }

  function AtLeast(s: set<U64>, lowest: U64): set<U64> {
    set x | x in s && lowest <= x
  }

  /** The ids from `lowest` on, ascending. */
  function From(ids: set<U64>, lowest: U64): (r: seq<U64>)
    ensures Ascending(r, Below) && Elements(r) == AtLeast(ids, lowest)
  {
    Numeric(AtLeast(ids, lowest))
  }

  function RowKeys(t: Table, owner: U64, xs: seq<U64>): (r: seq<Bytes>)
    ensures |r| == |xs| && forall i :: 0 <= i < |xs| ==> r[i] == Encode(Row(t, owner, xs[i]))
  {
    seq(|xs|, i requires 0 <= i < |xs| => Encode(Row(t, owner, xs[i])))
  }

  lemma RowKeysAscending(t: Table, owner: U64, xs: seq<U64>)
    requires Ascending(xs, Below)
    ensures Ascending(RowKeys(t, owner, xs), Less)
  {
    forall i, j | 0 <= i < j < |xs| ensures Less(RowKeys(t, owner, xs)[i], RowKeys(t, owner, xs)[j]) {
      assert Below(xs[i], xs[j]);
      Be64Order(xs[i], xs[j]);
      var p := RowPrefix(t, owner);
      LessSplit(p, Be64(xs[i]), p, Be64(xs[j]));
    }
  }

  /** The byte-ordered scan of an owner's range is the numerically ordered list of its rows. */
  lemma ScanIsRows(db: Db, t: Table, owner: U64, from: Option<U64>)
    requires ValidDb(db)
    ensures Scan(db, StartKey(t, owner, from), Incremented(RowPrefix(t, owner)))
         == RowKeys(t, owner, From(Others(db, t, owner), Lowest(from)))
  {
    var scan := Scan(db, StartKey(t, owner, from), Incremented(RowPrefix(t, owner)));
    var xs := From(Others(db, t, owner), Lowest(from));
    var rows := RowKeys(t, owner, xs);
    RowKeysAscending(t, owner, xs);
    forall s ensures s in scan <==> s in rows {
      if s in scan { ScannedIsRow(db, t, owner, from, s); }
      if s in rows { RowIsScanned(db, t, owner, from, s); }
    }
    LessStrictTotal();
    AscendingUnique(scan, rows, Less);
  }

  lemma ScannedIsRow(db: Db, t: Table, owner: U64, from: Option<U64>, s: Bytes)
    requires ValidDb(db) && s in Scan(db, StartKey(t, owner, from), Incremented(RowPrefix(t, owner)))
    ensures s in RowKeys(t, owner, From(Others(db, t, owner), Lowest(from)))
  {
    var lo, hi := StartKey(t, owner, from), Incremented(RowPrefix(t, owner));
    assert s in Elements(Scan(db, lo, hi));
    var k :| k in db && Within(Encode(k), lo, hi) && Encode(k) == s;
    KeyInRange(t, owner, from, k);
    assert k.other in Others(db, t, owner);
    RowKeyListed(t, owner, From(Others(db, t, owner), Lowest(from)), k.other);
  }

  lemma RowKeyListed(t: Table, owner: U64, xs: seq<U64>, x: U64)
    requires x in Elements(xs)
    ensures Encode(Row(t, owner, x)) in RowKeys(t, owner, xs)
  {
    var i :| 0 <= i < |xs| && xs[i] == x;
    assert RowKeys(t, owner, xs)[i] == Encode(Row(t, owner, x));
  }

  lemma RowIsScanned(db: Db, t: Table, owner: U64, from: Option<U64>, s: Bytes)
    requires ValidDb(db) && s in RowKeys(t, owner, From(Others(db, t, owner), Lowest(from)))
    ensures s in Scan(db, StartKey(t, owner, from), Incremented(RowPrefix(t, owner)))
  {
    var lo, hi := StartKey(t, owner, from), Incremented(RowPrefix(t, owner));
    var xs := From(Others(db, t, owner), Lowest(from));
    var i :| 0 <= i < |xs| && RowKeys(t, owner, xs)[i] == s;
    assert xs[i] in Elements(xs);
    var k := Row(t, owner, xs[i]);
    KeyInRange(t, owner, from, k);
    assert k in db && Encode(k) in Elements(Scan(db, lo, hi));
  }

  /** Reading the counterpart back from a row key: the last 8 of 18 bytes. */
  function OtherOf(key: Bytes): Option<nat> {
    if |key| == 18 then Some(Val(key[10..18])) else None
  }

  lemma RowKeyDecodes(t: Table, owner: U64, other: U64)
    ensures OtherOf(Encode(Row(t, owner, other))) == Some(other)
  {
    var s := Encode(Row(t, owner, other));
    assert s[10..18] == Be64(other);
    Be64Order(other, other);
  }

  lemma RowKeysDecode(t: Table, owner: U64, xs: seq<U64>)
    ensures forall i :: 0 <= i < |xs| ==> OtherOf(RowKeys(t, owner, xs)[i]) == Some(xs[i])
  {
    forall i | 0 <= i < |xs| ensures OtherOf(RowKeys(t, owner, xs)[i]) == Some(xs[i]) {
      RowKeyDecodes(t, owner, xs[i]);
    }
  }
}
