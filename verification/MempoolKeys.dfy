/** Mempool messages: the key that ranks a message in its pool, and the shards it is routed to. */
module MempoolKeys {
  import opened Orders
  import B = Bytes

  datatype MessageType = KeyAdd | KeyRemove | LendStorage | OtherType

  /** User messages carry data; one without makes the source panic when its key is asked for. */
  datatype Message =
    | User(fid: nat, hash: B.Bytes, time: nat, msgType: MessageType, keyAddBody: bool)
    | Onchain(fid: nat, txHash: B.Bytes, logIndex: nat, time: nat, storageRent: bool)
    | OnchainForMigration(fid: nat, txHash: B.Bytes, logIndex: nat, time: nat, storageRent: bool)
    | Fname(fid: nat, id: nat, time: nat)
    | BlockEvent(forShard: nat, seqnum: nat, time: nat)

  datatype Kind = ValidatorMessage | UserMessage

  datatype Key = Key(kind: Kind, timestamp: nat, identity: B.Bytes)

  /** Validator messages first, then older messages, then by identity. */
  predicate Less(a: Key, b: Key) {
    || (a.kind.ValidatorMessage? && b.kind.UserMessage?)
    || (a.kind == b.kind && a.timestamp < b.timestamp)
    || (a.kind == b.kind && a.timestamp == b.timestamp && B.Less(a.identity, b.identity))
  }

  lemma LessAsymmetric(a: Key, b: Key)
    ensures !(Less(a, b) && Less(b, a)) && !Less(a, a)
  {
    B.LessTotal(a.identity, b.identity);
    B.LessTotal(a.identity, a.identity);
  }

  lemma LessStrictTotal()
    ensures StrictTotal(Less)
  {
    forall a: Key, b: Key ensures !Less(a, a) && (a == b || Less(a, b) || Less(b, a)) {
      B.LessTotal(a.identity, a.identity);
      B.LessTotal(a.identity, b.identity);
    }
    forall a: Key, b: Key, c: Key | Less(a, b) && Less(b, c) ensures Less(a, c) {
      if B.Less(a.identity, b.identity) && B.Less(b.identity, c.identity) {
        B.LessTransitive(a.identity, b.identity, c.identity);
      }
    }
  }

  /** Keys in pool order. */
  function InOrder(keys: set<Key>): (r: seq<Key>)
    ensures Ascending(r, Less) && Elements(r) == keys && |r| == |keys|
  {
    LessStrictTotal();
    Sorted(keys, Less)
  }

  const EPOCH_SECONDS: nat := 1609459200

  function HexDigit(d: nat): B.Byte
    requires d < 16
  {
    if d < 10 then 48 + d else 87 + d
  }

  function Hex(s: B.Bytes): B.Bytes {
    if s == [] then [] else [HexDigit(s[0] / 16), HexDigit(s[0] % 16)] + Hex(s[1..])
  }

  function KeyOf(m: Message): Key {
    match m
    case User(_, hash, time, _, _) => Key(UserMessage, time + EPOCH_SECONDS, Hex(hash))
    case Onchain(_, txHash, logIndex, time, _) => Key(ValidatorMessage, time, Hex(txHash) + B.Decimal(logIndex))
    case OnchainForMigration(_, txHash, logIndex, time, _) =>
      Key(ValidatorMessage, time, Hex(txHash) + B.Decimal(logIndex))
    case Fname(_, id, time) => Key(ValidatorMessage, time, B.Decimal(id))
    case BlockEvent(_, seqnum, time) => Key(ValidatorMessage, time, B.Decimal(seqnum))
  }

  /** Two events of one block are ranked by their numbers exactly when the smaller number is at most
      the larger one cut to as many digits: numbers are compared as text. */
  lemma BlockEventRank(forShard: nat, time: nat, a: nat, b: nat)
    requires a < b
    ensures |B.Decimal(a)| <= |B.Decimal(b)|
    ensures Less(KeyOf(BlockEvent(forShard, a, time)), KeyOf(BlockEvent(forShard, b, time)))
       <==> a <= B.DropDigits(b, |B.Decimal(b)| - |B.Decimal(a)|)
  {
    B.DecimalOrder(a, b);
  }

  /** For instance event 10 is pulled before event 9 of the same block. */
  lemma TenBeforeNine(forShard: nat, time: nat)
    ensures Less(KeyOf(BlockEvent(forShard, 10, time)), KeyOf(BlockEvent(forShard, 9, time)))
  {
    assert B.Decimal(10) == B.Decimal(1) + [48] == [49, 48];
    assert B.Decimal(9) == [57];
  }

  // ----- which messages share a key ----------------------------------------

  /** What a key keeps of a message: the kind of source, its number or hash, and the time. */
  datatype Origin =
    | UserHash(hash: B.Bytes, time: nat)
    | Log(txHash: B.Bytes, logIndex: nat, time: nat)
    | Number(n: nat, time: nat)

  function OriginOf(m: Message): Origin {
    match m
    case User(_, hash, time, _, _) => UserHash(hash, time)
    case Onchain(_, txHash, logIndex, time, _) => Log(txHash, logIndex, time)
    case OnchainForMigration(_, txHash, logIndex, time, _) => Log(txHash, logIndex, time)
    case Fname(_, id, time) => Number(id, time)
    case BlockEvent(_, seqnum, time) => Number(seqnum, time)
  }

  const TX_HASH_BYTES: nat := 32

  /** Transaction hashes have 32 bytes, and numbers 64 bits. */
  predicate WellSized(m: Message) {
    match m
    case User(_, _, _, _, _) => true
    case Onchain(_, txHash, _, _, _) => |txHash| == TX_HASH_BYTES
    case OnchainForMigration(_, txHash, _, _, _) => |txHash| == TX_HASH_BYTES
    case Fname(_, id, _) => id < B.U64_LIMIT
    case BlockEvent(_, seqnum, _) => seqnum < B.U64_LIMIT
  }

  lemma {:induction false} HexLength(s: B.Bytes)
    ensures |Hex(s)| == 2 * |s|
  {
    if s == [] {
    } else {
      HexLength(s[1..]);
    }
  }

  lemma {:induction false} HexInjective(a: B.Bytes, b: B.Bytes)
    ensures Hex(a) == Hex(b) <==> a == b
  {
    HexLength(a);
    HexLength(b);
    if a == [] || b == [] {
    } else {
      HexInjective(a[1..], b[1..]);
      assert Hex(a)[2..] == Hex(a[1..]) && Hex(b)[2..] == Hex(b[1..]);
      if Hex(a) == Hex(b) {
        assert Hex(a)[0] == HexDigit(a[0] / 16) && Hex(b)[0] == HexDigit(b[0] / 16);
        assert Hex(a)[1] == HexDigit(a[0] % 16) && Hex(b)[1] == HexDigit(b[0] % 16);
        assert a[0] == b[0];
        assert a == [a[0]] + a[1..] && b == [b[0]] + b[1..];
      }
    }
  }

  lemma LogIdentity(h: B.Bytes, i: nat, g: B.Bytes, j: nat)
    requires |h| == |g|
    ensures Hex(h) + B.Decimal(i) == Hex(g) + B.Decimal(j) <==> h == g && i == j
  {
    var x, y := Hex(h) + B.Decimal(i), Hex(g) + B.Decimal(j);
    HexLength(h);
    HexLength(g);
    assert x[..2 * |h|] == Hex(h) && x[2 * |h|..] == B.Decimal(i);
    assert y[..2 * |g|] == Hex(g) && y[2 * |g|..] == B.Decimal(j);
    HexInjective(h, g);
    B.DecimalInjective(i, j);
  }

  /** 64 hexadecimal digits and a numeral are longer than any 64-bit numeral. */
  lemma LogIsNoNumber(h: B.Bytes, i: nat, n: nat)
    requires |h| == TX_HASH_BYTES && n < B.U64_LIMIT
    ensures Hex(h) + B.Decimal(i) != B.Decimal(n)
  {
    HexLength(h);
    assert B.Pow10(10) == 10_000_000_000;
    assert B.Pow10(20) == 100_000_000_000_000_000_000;
    B.DecimalWidth(n, 20);
  }

  /** Two messages have one key if and only if they have one origin. So an event and its migration
      twin share a key, and so do a name transfer and a block event of one number and time, for any
      users and shards; nothing else does. */
  lemma SharedKeyIff(a: Message, b: Message)
    requires WellSized(a) && WellSized(b)
    ensures KeyOf(a) == KeyOf(b) <==> OriginOf(a) == OriginOf(b)
  {
    match (OriginOf(a), OriginOf(b))
    case (UserHash(h, _), UserHash(g, _)) => HexInjective(h, g);
    case (Log(h, i, _), Log(g, j, _)) => LogIdentity(h, i, g, j);
    case (Number(n, _), Number(m, _)) => B.DecimalInjective(n, m);
    case (Log(h, i, _), Number(n, _)) => LogIsNoNumber(h, i, n);
    case (Number(n, _), Log(h, i, _)) => LogIsNoNumber(h, i, n);
    case (_, _) =>
  }

  // ----- routing -----------------------------------------------------------

  /** Shard of an fid: 1 to `shards`; `hash` is the first four bytes of SHA-256 as a number. */
  function RouteFid(fid: nat, shards: nat, hash: nat -> nat): (s: nat)
    requires shards > 0
    ensures 1 <= s <= shards
  {
    hash(fid % 0x1_0000_0000) % shards + 1
  }

  function Upto(n: nat): (r: seq<nat>)
    ensures |r| == n && forall i :: 0 <= i < n ==> r[i] == i + 1
  {
    seq(n, i => i + 1)
  }

  function Route(m: Message, shards: nat, usernameFix: bool, hash: nat -> nat): (r: seq<nat>)
    requires shards > 0
    ensures r != [] && |r| <= if shards > 2 then shards else 2
    ensures (m.BlockEvent? ==> m.forShard <= shards) ==> forall i :: 0 <= i < |r| ==> r[i] <= shards
  {
    match m
    case Fname(fid, _, _) => if usernameFix then Upto(shards) else [RouteFid(fid, shards, hash)]
    case OnchainForMigration(_, _, _, _, _) => [0]
    case Onchain(fid, _, _, _, _) => [0, RouteFid(fid, shards, hash)]
    case BlockEvent(forShard, _, _) => [forShard]
    case User(fid, _, _, msgType, _) =>
      if msgType.OtherType? then [RouteFid(fid, shards, hash)] else [0]
  }

  /** Every user has one home among the shards 1 to n, the same for equal fids on disk: its messages go there, except
      loans and keys, which go to shard 0; its on-chain events go to shard 0 and there; its names go there, or
      to all shards 1 to n. */
  lemma OneHome(a: Message, b: Message, shards: nat, usernameFix: bool, hash: nat -> nat) returns (home: nat)
    requires shards > 0 && !a.BlockEvent? && !b.BlockEvent? && a.fid % 0x1_0000_0000 == b.fid % 0x1_0000_0000
    ensures 1 <= home <= shards
    ensures GoesHome(a, home, shards, usernameFix, Route(a, shards, usernameFix, hash))
    ensures GoesHome(b, home, shards, usernameFix, Route(b, shards, usernameFix, hash))
  {
    home := RouteFid(a.fid, shards, hash);
  }

  predicate GoesHome(m: Message, home: nat, shards: nat, usernameFix: bool, r: seq<nat>) {
    match m
    case User(_, _, _, msgType, _) => r == if msgType in {LendStorage, KeyAdd, KeyRemove} then [0] else [home]
    case Onchain(_, _, _, _, _) => r == [0, home]
    case OnchainForMigration(_, _, _, _, _) => r == [0]
    case Fname(_, _, _) =>
      if usernameFix then |r| == shards && forall i :: 0 <= i < shards ==> r[i] == i + 1 else r == [home]
    case BlockEvent(forShard, _, _) => r == [forShard]
  }
}
