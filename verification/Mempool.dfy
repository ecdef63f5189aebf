/** The mempool: per-shard pools ordered by key, filled by polling, drained by block proposals. */
module Mempool {
  import opened Options
  import opened Orders
  import opened MempoolKeys

  datatype Error = Duplicate | GaslessInactive | ShardZeroEvent | AlreadyMerged | RateLimited

  /** Calls made on the two rate limiters, oldest first. */
  datatype LimiterCall = CheckKeyAdd(fid: nat) | CheckQuota(fid: nat) | Reset(fid: nat)

  /** `allow` answers a limiter check from the calls made before; it may be any function. */
  datatype Config = Config(
    capacity: nat, unlimited: bool, quotas: bool, shards: nat, hash: nat -> nat,
    allow: (seq<LimiterCall>, LimiterCall) -> bool)

  /** What the node's stores and network version say at the moment of a step. */
  datatype Env = Env(
    gasless: bool, usernameFix: bool, merged: (nat, Message) -> bool, maxSeqnum: nat -> Option<nat>)

  type Pool = map<Key, Message>

  datatype State = State(pools: map<nat, Pool>, calls: seq<LimiterCall>)

  function PoolOf(s: State, shard: nat): Pool {
    if shard in s.pools then s.pools[shard] else map[]
  }

  // ----- validity ----------------------------------------------------------

  predicate AlreadyMergedEvent(highest: Option<nat>, seqnum: nat) {
    highest.Some? && seqnum <= highest.value
  }

  /** Everything `message_is_valid` checks without spending a token. */
  function Rejected(env: Env, shard: nat, m: Message): Option<Error> {
    if m.User? && (m.msgType.KeyAdd? || m.msgType.KeyRemove?) && !env.gasless then Some(GaslessInactive)
    else if m.BlockEvent? && m.forShard == 0 then Some(ShardZeroEvent)
    else if m.BlockEvent? && AlreadyMergedEvent(env.maxSeqnum(m.forShard), m.seqnum) then Some(AlreadyMerged)
    else if m.User? && env.merged(shard, m) then Some(AlreadyMerged)
    else None
  }

  /** No longer wanted, told by the message and the node: a user message already merged, or for keys before
      gasless signers are active; a block event for shard 0, or not above the highest number of its shard. */
  predicate Stale(env: Env, shard: nat, m: Message) {
    match m
    case User(_, _, _, msgType, _) => env.merged(shard, m) || (!env.gasless && msgType in {KeyAdd, KeyRemove})
    case BlockEvent(forShard, seqnum, _) =>
      forShard == 0 || !(env.maxSeqnum(forShard).None? || env.maxSeqnum(forShard).value < seqnum)
    case _ => false
  }

  lemma RejectedIff(env: Env, shard: nat, m: Message)
    ensures Rejected(env, shard, m).Some? <==> Stale(env, shard, m)
    ensures Rejected(env, shard, m) == Some(GaslessInactive) <==>
      m.User? && m.msgType in {KeyAdd, KeyRemove} && !env.gasless
    ensures Rejected(env, shard, m) == Some(ShardZeroEvent) <==> m.BlockEvent? && m.forShard == 0
    ensures Rejected(env, shard, m) != Some(Duplicate) && Rejected(env, shard, m) != Some(RateLimited)
  {
  }

  /** The token-consuming checks of one message, in order; a denied check ends them. */
  function Charged(cfg: Config, calls: seq<LimiterCall>, m: Message): (bool, seq<LimiterCall>) {
    if !m.User? then (true, calls)
    else if m.keyAddBody && !cfg.allow(calls, CheckKeyAdd(m.fid)) then (false, calls + [CheckKeyAdd(m.fid)])
    else
      var calls := if m.keyAddBody then calls + [CheckKeyAdd(m.fid)] else calls;
      if cfg.quotas then (cfg.allow(calls, CheckQuota(m.fid)), calls + [CheckQuota(m.fid)]) else (true, calls)
  }

  function Admission(cfg: Config, env: Env, s: State, shard: nat, m: Message): (Option<Error>, seq<LimiterCall>) {
    if KeyOf(m) in PoolOf(s, shard) then (Some(Duplicate), s.calls)
    else if Rejected(env, shard, m).Some? then (Rejected(env, shard, m), s.calls)
    else
      var (allowed, calls) := Charged(cfg, s.calls, m);
      (if allowed then None else Some(RateLimited), calls)
  }

  /** The checks a user message is put to: one for a key addition, one for the storage quota where quotas are on. */
  function Dues(cfg: Config, m: Message): seq<LimiterCall> {
    if !m.User? then []
    else (if m.keyAddBody then [CheckKeyAdd(m.fid)] else []) + (if cfg.quotas then [CheckQuota(m.fid)] else [])
  }

  /** All of some calls, made one after the other, are allowed. */
  predicate AllAllowed(cfg: Config, calls: seq<LimiterCall>, dues: seq<LimiterCall>) {
    forall i :: 0 <= i < |dues| ==> cfg.allow(calls + dues[..i], dues[i])
  }

  /** A message is admitted if and only if its key is new to the pool, it is not stale and all its checks are
      allowed; then exactly these are spent. A duplicate or stale one spends nothing, and one turned away
      for rate spends its checks up to the first refused. */
  lemma AdmissionIff(cfg: Config, env: Env, s: State, shard: nat, m: Message)
    ensures var (error, calls) := Admission(cfg, env, s, shard, m);
      && (error.None? <==>
            KeyOf(m) !in PoolOf(s, shard) && !Stale(env, shard, m) && AllAllowed(cfg, s.calls, Dues(cfg, m)))
      && (error.None? ==> calls == s.calls + Dues(cfg, m))
      && (error == Some(Duplicate) <==> KeyOf(m) in PoolOf(s, shard))
      && (error == Some(RateLimited) ==>
            exists n :: Refused(cfg, s.calls, Dues(cfg, m), n) && calls == s.calls + Dues(cfg, m)[..n])
      && (error.Some? && error != Some(RateLimited) ==> calls == s.calls)
  {
    RejectedIff(env, shard, m);
    ChargedIff(cfg, s.calls, m);
  }

  /** Of the dues the `n`th is the first refused. */
  predicate Refused(cfg: Config, calls: seq<LimiterCall>, dues: seq<LimiterCall>, n: int) {
    0 < n <= |dues| && !cfg.allow(calls + dues[..n - 1], dues[n - 1]) && AllAllowed(cfg, calls, dues[..n - 1])
  }

  lemma ChargedIff(cfg: Config, calls: seq<LimiterCall>, m: Message)
    ensures var (allowed, after) := Charged(cfg, calls, m);
      && (allowed <==> AllAllowed(cfg, calls, Dues(cfg, m)))
      && (allowed ==> after == calls + Dues(cfg, m))
      && (!allowed ==> exists n :: Refused(cfg, calls, Dues(cfg, m), n) && after == calls + Dues(cfg, m)[..n])
  {
    var dues := Dues(cfg, m);
    var (allowed, after) := Charged(cfg, calls, m);
    assert calls + [] == calls && dues[..0] == [];
    if m.User? { UserChargedIff(cfg, calls, m, dues, allowed, after); }
  }

  lemma UserChargedIff(cfg: Config, calls: seq<LimiterCall>, m: Message, dues: seq<LimiterCall>, allowed: bool,
                       after: seq<LimiterCall>)
    requires m.User? && dues == Dues(cfg, m) && (allowed, after) == Charged(cfg, calls, m)
    ensures allowed <==> AllAllowed(cfg, calls, dues)
    ensures allowed ==> after == calls + dues
    ensures !allowed ==> exists n :: Refused(cfg, calls, dues, n) && after == calls + dues[..n]
  {
    var add, quota := CheckKeyAdd(m.fid), CheckQuota(m.fid);
    assert calls + [] == calls && dues[..0] == [];
    if m.keyAddBody && !cfg.allow(calls, add) {
      assert dues[0] == add && dues[..1] == [add];
      assert Refused(cfg, calls, dues, 1) && after == calls + dues[..1];
    } else if cfg.quotas {
      var n := |dues|;
      assert dues[n - 1] == quota && dues[..n] == dues;
      assert calls + dues[..n - 1] == if m.keyAddBody then calls + [add] else calls;
      assert after == calls + dues;
      assert AllAllowed(cfg, calls, dues[..n - 1]);
      assert !allowed ==> Refused(cfg, calls, dues, n);
    }
  }

  /** Revocations are spared the key-add limiter, but with storage quotas switched on they too can
      be turned away for rate: exactly when the quota limiter says no. */
  lemma RevocationLimited(cfg: Config, env: Env, s: State, shard: nat, m: Message)
    requires m.User? && m.msgType.KeyRemove? && !m.keyAddBody
    ensures Admission(cfg, env, s, shard, m).0 == Some(RateLimited)
       <==> KeyOf(m) !in PoolOf(s, shard) && Rejected(env, shard, m).None?
            && cfg.quotas && !cfg.allow(s.calls, CheckQuota(m.fid))
  {
  }

  // ----- steps on states ---------------------------------------------------

  function InsertedInto(cfg: Config, env: Env, s: State, shard: nat, m: Message): State {
    var (error, calls) := Admission(cfg, env, s, shard, m);
    if error.Some? then s.(calls := calls)
    else State(s.pools[shard := PoolOf(s, shard)[KeyOf(m) := m]], calls)
  }

  function InsertedAll(cfg: Config, env: Env, s: State, shards: seq<nat>, m: Message): State {
    if shards == [] then s
    else InsertedInto(cfg, env, InsertedAll(cfg, env, s, shards[..|shards| - 1], m), shards[|shards| - 1], m)
  }

  predicate ValidConfig(cfg: Config) {
    cfg.shards > 0
  }

  function Inserted(cfg: Config, env: Env, s: State, m: Message): State
    requires ValidConfig(cfg)
  {
    InsertedAll(cfg, env, s, Route(m, cfg.shards, env.usernameFix, cfg.hash), m)
  }

  /** The error `Insert` reports: the first of those met in its shards. */
  function FirstError(cfg: Config, env: Env, s: State, shards: seq<nat>, m: Message): Option<Error> {
    if shards == [] then None
    else
      var k := |shards| - 1;
      var earlier := FirstError(cfg, env, s, shards[..k], m);
      if earlier.Some? then earlier else Admission(cfg, env, InsertedAll(cfg, env, s, shards[..k], m), shards[k], m).0
  }

  ghost predicate NoErrorBefore(cfg: Config, env: Env, s: State, shards: seq<nat>, m: Message, n: nat)
    requires n <= |shards|
  {
    forall i :: 0 <= i < n ==> ErrorAt(cfg, env, s, shards, m, i).None?
  }

  lemma FirstErrorStep(cfg: Config, env: Env, s: State, shards: seq<nat>, m: Message, n: nat)
    requires n < |shards|
    ensures FirstError(cfg, env, s, shards[..n + 1], m)
         == var earlier := FirstError(cfg, env, s, shards[..n], m);
            if earlier.Some? then earlier else ErrorAt(cfg, env, s, shards, m, n)
  {
    assert shards[..n + 1][..n] == shards[..n] && shards[..n + 1][n] == shards[n];
  }

  /** Each report is the one before it, or the next answer where there was none. */
  predicate Reporting(reports: seq<Option<Error>>, answers: seq<Option<Error>>) {
    && |reports| == |answers| + 1 && reports[0] == None
    && forall k :: 0 <= k < |answers| ==>
         reports[k + 1] == if reports[k].Some? then reports[k] else answers[k]
  }

  lemma {:induction false} NoneReported(reports: seq<Option<Error>>, answers: seq<Option<Error>>, n: nat)
    requires Reporting(reports, answers) && n <= |answers|
    ensures reports[n].None? <==> forall i :: 0 <= i < n ==> answers[i].None?
  {
    if n == 0 {
    } else {
      NoneReported(reports, answers, n - 1);
      assert reports[n] == if reports[n - 1].Some? then reports[n - 1] else answers[n - 1];
    }
  }

  lemma {:induction false} FirstReported(reports: seq<Option<Error>>, answers: seq<Option<Error>>, i: nat, n: nat)
    requires Reporting(reports, answers) && i < n <= |answers|
    requires reports[i].None? && answers[i].Some?
    ensures reports[n] == answers[i]
    decreases n
  {
    if i == n - 1 {
    } else {
      FirstReported(reports, answers, i, n - 1);
      assert reports[n] == reports[n - 1];
    }
  }

  lemma Reports(cfg: Config, env: Env, s: State, shards: seq<nat>, m: Message)
    returns (reports: seq<Option<Error>>, answers: seq<Option<Error>>)
    ensures Reporting(reports, answers) && |answers| == |shards|
    ensures forall n :: 0 <= n <= |shards| ==> reports[n] == FirstError(cfg, env, s, shards[..n], m)
    ensures forall i :: 0 <= i < |shards| ==> answers[i] == ErrorAt(cfg, env, s, shards, m, i)
  {
    reports := seq(|shards| + 1, n requires 0 <= n <= |shards| => FirstError(cfg, env, s, shards[..n], m));
    answers := seq(|shards|, i requires 0 <= i < |shards| => ErrorAt(cfg, env, s, shards, m, i));
    forall k | 0 <= k < |answers|
      ensures reports[k + 1] == if reports[k].Some? then reports[k] else answers[k]
    {
      FirstErrorStep(cfg, env, s, shards, m, k);
      assert reports[k + 1] == FirstError(cfg, env, s, shards[..k + 1], m);
    }
  }

  /** An insertion reports no error if and only if no shard answers with one. */
  lemma NoErrorIff(cfg: Config, env: Env, s: State, shards: seq<nat>, m: Message, n: nat)
    requires n <= |shards|
    ensures FirstError(cfg, env, s, shards[..n], m).None? <==> NoErrorBefore(cfg, env, s, shards, m, n)
  {
    var reports, answers := Reports(cfg, env, s, shards, m);
    NoneReported(reports, answers, n);
  }

  /** Otherwise it reports the answer of the first shard that does. */
  lemma ErrorReported(cfg: Config, env: Env, s: State, shards: seq<nat>, m: Message, i: nat, n: nat)
    requires i < n <= |shards| && ErrorAt(cfg, env, s, shards, m, i).Some? && NoErrorBefore(cfg, env, s, shards, m, i)
    ensures FirstError(cfg, env, s, shards[..n], m) == ErrorAt(cfg, env, s, shards, m, i)
  {
    var reports, answers := Reports(cfg, env, s, shards, m);
    NoneReported(reports, answers, i);
    FirstReported(reports, answers, i, n);
  }

  /** The answer of the `i`th shard, after the message went to the shards before. */
  function ErrorAt(cfg: Config, env: Env, s: State, shards: seq<nat>, m: Message, i: int): Option<Error>
    requires 0 <= i < |shards|
  {
    Admission(cfg, env, InsertedAll(cfg, env, s, shards[..i], m), shards[i], m).0
  }

  /** A committed on-chain event is a storage purchase, however it had entered the pool. */
  predicate Renews(m: Message) {
    (m.Onchain? || m.OnchainForMigration?) && m.storageRent
  }

  /** A storage purchase among the committed messages renews its owner's quota. */
  function Renewals(cfg: Config, ms: seq<Message>): seq<LimiterCall> {
    if ms == [] then []
    else
      var m := ms[|ms| - 1];
      Renewals(cfg, ms[..|ms| - 1]) + (if Renews(m) && cfg.quotas then [Reset(m.fid)] else [])
  }

  /** With quotas on, exactly the owners of committed storage purchases are renewed. */
  lemma {:induction false} RenewedIff(cfg: Config, ms: seq<Message>, call: LimiterCall)
    ensures call in Renewals(cfg, ms) <==>
      cfg.quotas && exists i :: 0 <= i < |ms| && BuysStorage(ms[i], call)
  {
    if ms == [] {
    } else {
      var k := |ms| - 1;
      RenewedIff(cfg, ms[..k], call);
      if i :| 0 <= i < k && BuysStorage(ms[..k][i], call) { assert BuysStorage(ms[i], call); }
      if i :| 0 <= i < |ms| && BuysStorage(ms[i], call) {
        if i < k { assert BuysStorage(ms[..k][i], call); }
      }
    }
  }

  predicate BuysStorage(m: Message, call: LimiterCall) {
    match m
    case Onchain(fid, _, _, _, storageRent) => storageRent && call == Reset(fid)
    case OnchainForMigration(fid, _, _, _, storageRent) => storageRent && call == Reset(fid)
    case _ => false
  }

  function Removed(cfg: Config, s: State, shard: nat, committed: seq<Message>): State {
    if shard in s.pools
    then State(s.pools[shard := s.pools[shard] - KeysOf(committed)], s.calls + Renewals(cfg, committed))
    else s
  }

  function KeysOf(ms: seq<Message>): set<Key> {
    if ms == [] then {} else KeysOf(ms[..|ms| - 1]) + {KeyOf(ms[|ms| - 1])}
  }

  /** Messages a sorted run of keys stands for, without the ones no longer valid. */
  function Live(env: Env, shard: nat, pool: Pool, keys: seq<Key>): seq<Message>
    requires forall k :: k in keys ==> k in pool
  {
    if keys == [] then []
    else
      var rest := Live(env, shard, pool, keys[1..]);
      if Rejected(env, shard, pool[keys[0]]).None? then [pool[keys[0]]] + rest else rest
  }

  /** How many keys must be popped to obtain `max` live messages, or all of them. */
  function PopCount(env: Env, shard: nat, pool: Pool, keys: seq<Key>, max: nat): (n: nat)
    requires forall k :: k in keys ==> k in pool
    ensures n <= |keys|
  {
    if max == 0 || keys == [] then 0
    else 1 + PopCount(env, shard, pool, keys[1..], if Rejected(env, shard, pool[keys[0]]).None? then max - 1 else max)
  }

  function FirstOf(xs: seq<Message>, max: nat): seq<Message> {
    if |xs| <= max then xs else xs[..max]
  }

  /** What is popped yields exactly the first `max` live messages of the whole pool, and no key more
      than needed is popped. */
  lemma {:induction false} PopsFirstLive(env: Env, shard: nat, pool: Pool, keys: seq<Key>, max: nat)
    requires forall k :: k in keys ==> k in pool
    ensures var n := PopCount(env, shard, pool, keys, max);
      && Live(env, shard, pool, keys[..n]) == FirstOf(Live(env, shard, pool, keys), max)
      && (n < |keys| ==> |Live(env, shard, pool, keys[..n])| == max)
      && (n > 0 ==> |Live(env, shard, pool, keys[..n - 1])| < max)
  {
    if max > 0 && keys != [] {
      var live := Rejected(env, shard, pool[keys[0]]).None?;
      var m := if live then max - 1 else max;
      PopsFirstLive(env, shard, pool, keys[1..], m);
      var n := PopCount(env, shard, pool, keys, max);
      assert keys[..n][1..] == keys[1..][..n - 1];
      assert n > 1 ==> keys[..n - 1][1..] == keys[1..][..n - 2];
    }
  }

  /** The live messages of a pool, in pool order. */
  function LiveOf(env: Env, shard: nat, pool: Pool): seq<Message> {
    KeysOfPool(pool);
    Live(env, shard, pool, InOrder(pool.Keys))
  }

  function Pulled(env: Env, s: State, shard: nat, max: nat): State {
    if shard !in s.pools then s
    else
      var pool := s.pools[shard];
      var order := InOrder(pool.Keys);
      KeysOfPool(pool);
      s.(pools := s.pools[shard := pool - Elements(order[..PopCount(env, shard, pool, order, max)])])
  }

  // ----- polling -----------------------------------------------------------

  datatype Request = Add(m: Message) | GetSize

  const POLL_LIMIT: nat := 256

  /** Messages in the pools of shards below `n`. */
  function Size(s: State, n: nat): nat {
    if n == 0 then 0 else Size(s, n - 1) + |PoolOf(s, n - 1)|
  }

  function Handled(cfg: Config, env: Env, s: State, requests: seq<Request>): State
    requires ValidConfig(cfg)
  {
    if requests == [] then s
    else
      var r := requests[|requests| - 1];
      var before := Handled(cfg, env, s, requests[..|requests| - 1]);
      if r.Add? then Inserted(cfg, env, before, r.m) else before
  }

  /** To an added message the first error or none; to a size request the size of every pool. */
  datatype Reply = Outcome(error: Option<Error>) | Sizes(sizes: map<nat, nat>)

  function ReplyTo(cfg: Config, env: Env, s: State, r: Request): Reply
    requires ValidConfig(cfg)
  {
    match r
    case Add(m) => Outcome(FirstError(cfg, env, s, Route(m, cfg.shards, env.usernameFix, cfg.hash), m))
    case GetSize => Sizes(map shard | shard in s.pools :: |s.pools[shard]|)
  }

  function Replies(cfg: Config, env: Env, s: State, requests: seq<Request>): seq<Reply>
    requires ValidConfig(cfg)
  {
    if requests == [] then []
    else
      var before := requests[..|requests| - 1];
      Replies(cfg, env, s, before) + [ReplyTo(cfg, env, Handled(cfg, env, s, before), requests[|requests| - 1])]
  }

  /** A number above all those of a set. */
  ghost function Top(shards: set<nat>): (n: nat)
    ensures forall k :: k in shards ==> k < n
  {
    if shards == {} then 0
    else
      var k :| k in shards;
      var rest := Top(shards - {k});
      assert forall j :: j in shards ==> j == k || j in shards - {k};
      if rest > k then rest else k + 1
  }

  /** Messages in all the pools. */
  ghost function Total(s: State): nat {
    Size(s, Top(s.pools.Keys))
  }

  lemma {:induction false} SizeUpdate(s: State, shard: nat, pool: Pool, calls: seq<LimiterCall>, n: nat)
    ensures Size(State(s.pools[shard := pool], calls), n)
         == Size(s, n) + (if shard < n then |pool| - |PoolOf(s, shard)| else 0)
  {
    if n == 0 {
    } else {
      SizeUpdate(s, shard, pool, calls, n - 1);
    }
  }

  lemma {:induction false} SizeBeyond(s: State, n: nat, m: nat)
    requires n <= m && forall k :: k in s.pools ==> k < n
    ensures Size(s, m) == Size(s, n)
  {
    if m == n {
    } else {
      SizeBeyond(s, n, m - 1);
    }
  }

  /** The total may be taken over any range that covers the pools. */
  lemma TotalIs(s: State, n: nat)
    requires forall k :: k in s.pools ==> k < n
    ensures Total(s) == Size(s, n)
  {
    var top := Top(s.pools.Keys);
    if n <= top {
      SizeBeyond(s, n, top);
    } else {
      SizeBeyond(s, top, n);
    }
  }

  lemma NothingPooled(calls: seq<LimiterCall>)
    ensures Total(State(map[], calls)) == 0
  {
    TotalIs(State(map[], calls), 0);
  }

  /** Changing one pool changes the total by the difference. */
  lemma TotalUpdate(s: State, shard: nat, pool: Pool, calls: seq<LimiterCall>)
    ensures Total(State(s.pools[shard := pool], calls)) == Total(s) - |PoolOf(s, shard)| + |pool|
  {
    var top := Top(s.pools.Keys);
    var n := if shard < top then top else shard + 1;
    TotalIs(s, n);
    TotalIs(State(s.pools[shard := pool], calls), n);
    SizeUpdate(s, shard, pool, calls, n);
  }

  lemma {:induction false} SizeCalls(s: State, calls: seq<LimiterCall>, n: nat)
    ensures Size(s.(calls := calls), n) == Size(s, n)
  {
    if n == 0 {
    } else {
      SizeCalls(s, calls, n - 1);
    }
  }

  /** The capacity gate is judged once per poll, on the total before it. */
  ghost function PollCount(cfg: Config, s: State, queue: seq<Request>): (n: nat)
    ensures n <= |queue| && n <= POLL_LIMIT
  {
    if !(cfg.unlimited || Total(s) < cfg.capacity) then 0
    else if |queue| < POLL_LIMIT then |queue| else POLL_LIMIT
  }

  ghost function Polled(cfg: Config, env: Env, s: State, queue: seq<Request>): State
    requires ValidConfig(cfg)
  {
    Handled(cfg, env, s, queue[..PollCount(cfg, s, queue)])
  }

  /** Validator messages come before user messages, and among their kind older ones before younger ones. */
  predicate NotAfter(a: Message, b: Message) {
    if a.User? == b.User? then a.time <= b.time else b.User?
  }

  ghost predicate OwnKeys(pool: Pool) {
    forall k :: k in pool ==> KeyOf(pool[k]) == k
  }

  /** What a pull of at most `max` messages returns and leaves: messages that are not stale, each once, in
      order; what is neither returned nor left was stale; nothing is left unless `max` are returned, and
      nothing left comes before anything returned. */
  ghost predicate PullLaw(env: Env, shard: nat, max: nat, pool: Pool, messages: seq<Message>, left: Pool) {
    && |messages| <= max && (|messages| < max ==> left == map[])
    && left.Keys <= pool.Keys && (forall k :: k in left ==> left[k] == pool[k])
    && (forall m :: m in messages ==> !Stale(env, shard, m) && KeyOf(m) in pool.Keys - left.Keys && pool[KeyOf(m)] == m)
    && (forall k :: k in pool.Keys - left.Keys ==> pool[k] in messages || Stale(env, shard, pool[k]))
    && (forall i, j :: 0 <= i < j < |messages| ==> messages[i] != messages[j] && NotAfter(messages[i], messages[j]))
    && (forall m, k :: m in messages && k in left ==> NotAfter(m, left[k]))
  }

  lemma KeyOrder(a: Message, b: Message)
    requires Less(KeyOf(a), KeyOf(b))
    ensures NotAfter(a, b) && a != b
  {
    LessAsymmetric(KeyOf(a), KeyOf(b));
  }

  lemma {:induction false} LiveFrom(env: Env, shard: nat, pool: Pool, keys: seq<Key>, m: Message)
    requires forall k :: k in keys ==> k in pool
    ensures m in Live(env, shard, pool, keys) <==>
      exists i :: 0 <= i < |keys| && pool[keys[i]] == m && !Stale(env, shard, m)
  {
    if keys == [] {
    } else {
      var tail := keys[1..];
      LiveFrom(env, shard, pool, tail, m);
      RejectedIff(env, shard, pool[keys[0]]);
      if i :| 0 <= i < |tail| && pool[tail[i]] == m && !Stale(env, shard, m) {
        assert keys[i + 1] == tail[i];
      }
      if i :| 0 <= i < |keys| && pool[keys[i]] == m && !Stale(env, shard, m) {
        if i > 0 { assert tail[i - 1] == keys[i]; }
      }
    }
  }

  lemma {:induction false} LiveOrdered(env: Env, shard: nat, pool: Pool, keys: seq<Key>)
    requires (forall k :: k in keys ==> k in pool) && OwnKeys(pool) && Ascending(keys, Less)
    ensures var live := Live(env, shard, pool, keys);
      forall i, j :: 0 <= i < j < |live| ==> live[i] != live[j] && NotAfter(live[i], live[j])
  {
    if keys == [] {
    } else {
      var rest := Live(env, shard, pool, keys[1..]);
      LiveOrdered(env, shard, pool, keys[1..]);
      forall j | 0 <= j < |rest| ensures pool[keys[0]] != rest[j] && NotAfter(pool[keys[0]], rest[j]) {
        LiveFrom(env, shard, pool, keys[1..], rest[j]);
        var i :| 0 <= i < |keys[1..]| && pool[keys[1..][i]] == rest[j];
        assert Less(keys[0], keys[i + 1]);
        KeyOrder(pool[keys[0]], rest[j]);
      }
    }
  }

  lemma KeysOfPool(pool: Pool)
    ensures forall k :: k in InOrder(pool.Keys) <==> k in pool
  {
    assert forall k :: k in InOrder(pool.Keys) <==> k in Elements(InOrder(pool.Keys));
  }

  // ----- the implementation ------------------------------------------------

  class Mempool {
    const cfg: Config
    var pools: map<nat, Pool>
    var calls: seq<LimiterCall>

    ghost function Now(): State
      reads this
    {
      State(pools, calls)
    }

    constructor (cfg: Config)
      ensures this.cfg == cfg && Now() == State(map[], [])
    {
      this.cfg, pools, calls := cfg, map[], [];
    }

    method MessageExceedsRateLimits(m: Message) returns (exceeds: bool)
      modifies this`calls
      ensures (!exceeds, calls) == Charged(cfg, old(calls), m)
    {
      if !m.User? {
        return false;
      }
      if m.keyAddBody {
        var ok := cfg.allow(calls, CheckKeyAdd(m.fid));
        calls := calls + [CheckKeyAdd(m.fid)];
        if !ok {
          return true;
        }
      }
      if cfg.quotas {
        exceeds := !cfg.allow(calls, CheckQuota(m.fid));
        calls := calls + [CheckQuota(m.fid)];
      } else {
        exceeds := false;
      }
    }

    method MessageIsValid(env: Env, shard: nat, m: Message, atAdmission: bool) returns (error: Option<Error>)
      modifies this`calls
      ensures Rejected(env, shard, m).Some? ==> error == Rejected(env, shard, m) && calls == old(calls)
      ensures Rejected(env, shard, m).None? && !atAdmission ==> error == None && calls == old(calls)
      ensures Rejected(env, shard, m).None? && atAdmission ==>
        (error.None?, calls) == Charged(cfg, old(calls), m) && (error.Some? ==> error == Some(RateLimited))
    {
      if m.User? && (m.msgType.KeyAdd? || m.msgType.KeyRemove?) {
        if !env.gasless {
          return Some(GaslessInactive);
        }
      }
      if m.BlockEvent? {
        if m.forShard == 0 {
          return Some(ShardZeroEvent);
        }
        var highest := env.maxSeqnum(m.forShard);
        if highest.Some? && m.seqnum <= highest.value {
          return Some(AlreadyMerged);
        }
      }
      if m.User? && env.merged(shard, m) {
        return Some(AlreadyMerged);
      }
      if atAdmission {
        var exceeds := MessageExceedsRateLimits(m);
        if exceeds {
          return Some(RateLimited);
        }
      }
      error := None;
    }

    method InsertIntoShard(env: Env, shard: nat, m: Message) returns (error: Option<Error>)
      modifies this
      ensures Now() == InsertedInto(cfg, env, old(Now()), shard, m)
      ensures error == Admission(cfg, env, old(Now()), shard, m).0
      ensures error.None? <==>
        KeyOf(m) !in PoolOf(old(Now()), shard) && !Stale(env, shard, m) && AllAllowed(cfg, old(calls), Dues(cfg, m))
      ensures error.None? ==>
        && calls == old(calls) + Dues(cfg, m)
        && pools == old(pools)[shard := PoolOf(old(Now()), shard)[KeyOf(m) := m]]
      ensures error.Some? ==> pools == old(pools)
    {
      AdmissionIff(cfg, env, Now(), shard, m);
      if shard in pools && KeyOf(m) in pools[shard] {
        return Some(Duplicate);
      }
      error := MessageIsValid(env, shard, m, true);
      if error.None? {
        if shard !in pools {
          pools := pools[shard := map[KeyOf(m) := m]];
        } else {
          pools := pools[shard := pools[shard][KeyOf(m) := m]];
        }
      }
    }

    /** `InsertIntoShard` for the next of the message's shards. */
    method InsertNext(env: Env, shards: seq<nat>, i: nat, m: Message, ghost start: State) returns (error: Option<Error>)
      requires i < |shards| && Now() == InsertedAll(cfg, env, start, shards[..i], m)
      modifies this
      ensures Now() == InsertedAll(cfg, env, start, shards[..i + 1], m)
      ensures FirstError(cfg, env, start, shards[..i + 1], m)
           == var earlier := FirstError(cfg, env, start, shards[..i], m); if earlier.Some? then earlier else error
    {
      assert shards[..i + 1][..i] == shards[..i];
      error := InsertIntoShard(env, shards[i], m);
    }

    method Insert(env: Env, m: Message) returns (error: Option<Error>)
      requires ValidConfig(cfg)
      modifies this
      ensures Now() == Inserted(cfg, env, old(Now()), m)
      ensures error == FirstError(cfg, env, old(Now()), Route(m, cfg.shards, env.usernameFix, cfg.hash), m)
    {
      var shards := Route(m, cfg.shards, env.usernameFix, cfg.hash);
      error := InsertAll(env, shards, m);
    }

    method InsertAll(env: Env, shards: seq<nat>, m: Message) returns (error: Option<Error>)
      modifies this
      ensures Now() == InsertedAll(cfg, env, old(Now()), shards, m)
      ensures error == FirstError(cfg, env, old(Now()), shards, m)
    {
      error := None;
      for i := 0 to |shards|
        invariant Now() == InsertedAll(cfg, env, old(Now()), shards[..i], m)
        invariant error == FirstError(cfg, env, old(Now()), shards[..i], m)
      {
        var e := InsertNext(env, shards, i, m, old(Now()));
        if error.None? {
          error := e;
        }
      }
      assert shards[..|shards|] == shards;
    }

    /** Pops in key order until `max` messages are valid or the pool is empty; no token is spent. */
    method PullMessages(env: Env, shard: nat, max: nat) returns (messages: seq<Message>)
      modifies this
      ensures Now() == Pulled(env, old(Now()), shard, max) && calls == old(calls)
      ensures shard !in old(pools) ==> messages == []
      ensures shard in old(pools) ==> messages == FirstOf(LiveOf(env, shard, old(pools)[shard]), max)
      ensures shard in old(pools) ==> shard in pools && pools == old(pools)[shard := pools[shard]]
      ensures shard in old(pools) && OwnKeys(old(pools)[shard]) ==>
        PullLaw(env, shard, max, old(pools)[shard], messages, pools[shard])
    {
      messages := [];
      if shard !in pools {
        return;
      }
      KeysOfPool(pools[shard]);
      if OwnKeys(pools[shard]) { PullObeys(env, shard, max, pools[shard]); }
      messages := PullInOrder(env, shard, max, InOrder(pools[shard].Keys), pools);
    }

    method PullInOrder(env: Env, shard: nat, max: nat, ghost order: seq<Key>, ghost start: map<nat, Pool>)
      returns (messages: seq<Message>)
      requires pools == start && shard in start && Ascending(order, Less) && Elements(order) == start[shard].Keys
      requires forall k :: k in order ==> k in start[shard]
      modifies this`pools, this`calls
      ensures calls == old(calls)
      ensures pools == start[shard := start[shard] - Elements(order[..PopCount(env, shard, start[shard], order, max)])]
      ensures messages == FirstOf(Live(env, shard, start[shard], order), max)
    {
      messages := [];
      ghost var i := 0;
      PullStarts(env, shard, start, order, max);
      while |messages| < max
        invariant calls == old(calls) && Pulling(env, shard, start, pools, order, i, max, messages)
        decreases |order| - i
      {
        if pools[shard] == map[] {
          Exhausted(start[shard], order, i);
          break;
        }
        messages := PullNext(env, shard, messages, start, order, i, max);
        i := i + 1;
      }
      PullEnds(env, shard, start, pools, order, i, max, messages);
    }

    /** One turn of the pull loop: the next key in order goes, and its message is kept if still valid. */
    method PullNext(env: Env, shard: nat, messages: seq<Message>, ghost start: map<nat, Pool>, ghost order: seq<Key>,
                    ghost i: nat, ghost max: nat)
      returns (more: seq<Message>)
      requires |messages| < max && Pulling(env, shard, start, pools, order, i, max, messages)
      requires pools[shard] != map[]
      modifies this`pools, this`calls
      ensures i < |order| && calls == old(calls)
      ensures Pulling(env, shard, start, pools, order, i + 1, max, more)
    {
      var key, message := PopFirst(shard);
      PullStep(env, shard, start, old(pools), order, i, max, messages, key);
      var error := MessageIsValid(env, shard, message, false);
      more := if error.None? then messages + [message] else messages;
    }

    method PopFirst(shard: nat) returns (key: Key, message: Message)
      requires shard in pools && pools[shard] != map[]
      modifies this`pools
      ensures IsLeast(key, old(pools)[shard].Keys, Less) && message == old(pools)[shard][key]
      ensures pools == old(pools)[shard := old(pools)[shard] - {key}]
    {
      LessStrictTotal();
      key := Least(pools[shard].Keys, Less);
      message := pools[shard][key];
      pools := pools[shard := pools[shard] - {key}];
    }

    /** Sum of the sizes of all pools, in whatever order they come. */
    method TotalMessages() returns (total: nat)
      ensures total == Total(Now())
    {
      var left := pools.Keys;
      total := 0;
      assert pools - left == map[];
      NothingPooled(calls);
      while left != {}
        invariant left <= pools.Keys && total == Total(State(pools - left, calls))
        decreases left
      {
        var shard :| shard in left;
        assert pools - (left - {shard}) == (pools - left)[shard := pools[shard]];
        TotalUpdate(State(pools - left, calls), shard, pools[shard], calls);
        total := total + |pools[shard]|;
        left := left - {shard};
      }
      assert pools - {} == pools;
    }

    /** One poll: the total is taken once, then up to 256 queued requests are handled and answered. */
    method Poll(env: Env, queue: seq<Request>) returns (rest: seq<Request>, replies: seq<Reply>)
      requires ValidConfig(cfg)
      modifies this
      ensures Now() == Polled(cfg, env, old(Now()), queue)
      ensures rest == queue[PollCount(cfg, old(Now()), queue)..]
      ensures !cfg.unlimited && Total(old(Now())) >= cfg.capacity ==> rest == queue && Now() == old(Now())
      ensures cfg.unlimited || Total(old(Now())) < cfg.capacity ==>
        if |queue| < 256 then rest == [] else rest == queue[256..]
      ensures replies == Replies(cfg, env, old(Now()), queue[..PollCount(cfg, old(Now()), queue)])
    {
      var total := TotalMessages();
      ghost var n := PollCount(cfg, Now(), queue);
      rest, replies := queue, [];
      for i := 0 to POLL_LIMIT
        invariant i <= n && rest == queue[i..]
        invariant Now() == Handled(cfg, env, old(Now()), queue[..i])
        invariant replies == Replies(cfg, env, old(Now()), queue[..i])
      {
        if !(cfg.unlimited || total < cfg.capacity) {
          break;
        }
        if rest == [] {
          break;
        }
        assert queue[..i + 1][..i] == queue[..i] && queue[i..][1..] == queue[i + 1..];
        var request := rest[0];
        rest := rest[1..];
        var reply := Handle(env, request);
        replies := replies + [reply];
      }
    }

    method Handle(env: Env, request: Request) returns (reply: Reply)
      requires ValidConfig(cfg)
      modifies this
      ensures Now() == if request.Add? then Inserted(cfg, env, old(Now()), request.m) else old(Now())
      ensures reply == ReplyTo(cfg, env, old(Now()), request)
      ensures request.GetSize? ==>
        && reply.Sizes? && reply.sizes.Keys == pools.Keys
        && forall shard :: shard in pools ==> reply.sizes[shard] == |pools[shard]|
      ensures request.Add? ==>
        var shards := Route(request.m, cfg.shards, env.usernameFix, cfg.hash);
        reply.Outcome? && (reply.error.None? <==> NoErrorBefore(cfg, env, old(Now()), shards, request.m, |shards|))
    {
      if request.Add? {
        var shards := Route(request.m, cfg.shards, env.usernameFix, cfg.hash);
        assert shards[..|shards|] == shards;
        NoErrorIff(cfg, env, Now(), shards, request.m, |shards|);
      }
      match request
      case Add(m) =>
        var error := Insert(env, m);
        reply := Outcome(error);
      case GetSize =>
        reply := Sizes(map shard | shard in pools :: |pools[shard]|);
    }

    method RemoveCommittedTxns(shard: nat, committed: seq<Message>)
      modifies this
      ensures Now() == Removed(cfg, old(Now()), shard, committed)
    {
      if shard in pools {
        assert pools[shard] - {} == pools[shard] && pools[shard := pools[shard]] == pools && committed[..0] == [];
        for i := 0 to |committed|
          invariant shard in pools
          invariant pools == old(pools)[shard := old(pools)[shard] - KeysOf(committed[..i])]
          invariant calls == old(calls) + Renewals(cfg, committed[..i])
        {
          assert committed[..i + 1][..i] == committed[..i];
          assert pools[shard] - {KeyOf(committed[i])} == old(pools)[shard] - KeysOf(committed[..i + 1]);
          pools := pools[shard := pools[shard] - {KeyOf(committed[i])}];
          if Renews(committed[i]) && cfg.quotas {
            calls := calls + [Reset(committed[i].fid)];
          }
        }
        assert committed[..|committed|] == committed;
      }
    }
  }

  /** The first `i` keys in order have been popped. */
  ghost predicate Drained(pool: Pool, order: seq<Key>, i: nat, now: Pool) {
    && Ascending(order, Less) && Elements(order) == pool.Keys && i <= |order|
    && now == pool - Elements(order[..i])
  }

  /** Midway through a pull: `i` keys are popped from one pool, and what they yielded is collected. */
  ghost predicate Pulling(env: Env, shard: nat, start: map<nat, Pool>, pools: map<nat, Pool>, order: seq<Key>,
                          i: nat, max: nat, messages: seq<Message>)
  {
    && shard in start && shard in pools && pools == start[shard := pools[shard]]
    && (forall k :: k in order ==> k in start[shard])
    && Drained(start[shard], order, i, pools[shard])
    && |messages| <= max && Progress(env, shard, start[shard], order, i, max, messages)
  }

  lemma PullStarts(env: Env, shard: nat, start: map<nat, Pool>, order: seq<Key>, max: nat)
    requires shard in start && Ascending(order, Less) && Elements(order) == start[shard].Keys
    requires forall k :: k in order ==> k in start[shard]
    ensures Pulling(env, shard, start, start, order, 0, max, [])
  {
    assert order[..0] == [] && order[0..] == order && start[shard] - {} == start[shard];
    assert start == start[shard := start[shard]];
  }

  lemma PullStep(env: Env, shard: nat, start: map<nat, Pool>, pools: map<nat, Pool>, order: seq<Key>,
                 i: nat, max: nat, messages: seq<Message>, key: Key)
    requires Pulling(env, shard, start, pools, order, i, max, messages) && |messages| < max
    requires IsLeast(key, pools[shard].Keys, Less)
    ensures i < |order|
    ensures var m := pools[shard][key];
      Pulling(env, shard, start, pools[shard := pools[shard] - {key}], order, i + 1, max,
              if Rejected(env, shard, m).None? then messages + [m] else messages)
  {
    LeastRemains(start[shard], order, i, pools[shard], key);
    ProgressStep(env, shard, start[shard], order, i, max, messages);
    UpdateTwice(start, shard, pools[shard], pools[shard] - {key});
  }

  lemma UpdateTwice<K, V>(m: map<K, V>, k: K, a: V, b: V)
    ensures m[k := a][k := b] == m[k := b]
  {
  }

  lemma PullObeys(env: Env, shard: nat, max: nat, pool: Pool)
    requires OwnKeys(pool) && forall k :: k in InOrder(pool.Keys) <==> k in pool
    ensures var order := InOrder(pool.Keys);
      PullLaw(env, shard, max, pool, FirstOf(LiveOf(env, shard, pool), max),
              pool - Elements(order[..PopCount(env, shard, pool, order, max)]))
  {
    var order := InOrder(pool.Keys);
    var n := PopCount(env, shard, pool, order, max);
    PopsFirstLive(env, shard, pool, order, max);
    PoppedObey(env, shard, max, pool, order, n);
  }

  lemma PoppedObey(env: Env, shard: nat, max: nat, pool: Pool, order: seq<Key>, n: nat)
    requires OwnKeys(pool) && Ascending(order, Less) && Elements(order) == pool.Keys && n <= |order|
    requires forall k :: k in order ==> k in pool
    requires |Live(env, shard, pool, order[..n])| <= max
    requires n < |order| ==> |Live(env, shard, pool, order[..n])| == max
    ensures PullLaw(env, shard, max, pool, Live(env, shard, pool, order[..n]), pool - Elements(order[..n]))
  {
    var keys, messages, left := order[..n], Live(env, shard, pool, order[..n]), pool - Elements(order[..n]);
    LiveOrdered(env, shard, pool, keys);
    forall m | m in messages ensures !Stale(env, shard, m) && KeyOf(m) in Elements(keys) && pool[KeyOf(m)] == m {
      LiveFrom(env, shard, pool, keys, m);
      var i :| 0 <= i < |keys| && pool[keys[i]] == m;
      assert keys[i] in Elements(keys);
    }
    forall k | k in Elements(keys) ensures pool[k] in messages || Stale(env, shard, pool[k]) {
      LiveFrom(env, shard, pool, keys, pool[k]);
      var i :| 0 <= i < |keys| && keys[i] == k;
      assert pool[keys[i]] == pool[k];
    }
    forall m, k | m in messages && k in left ensures NotAfter(m, left[k]) {
      LeftLater(pool, order, n, KeyOf(m), k);
      KeyOrder(m, left[k]);
    }
    if n == |order| { assert keys == order; }
  }

  lemma LeftLater(pool: Pool, order: seq<Key>, n: nat, gone: Key, k: Key)
    requires Ascending(order, Less) && Elements(order) == pool.Keys && n <= |order|
    requires gone in Elements(order[..n]) && k in pool && k !in Elements(order[..n])
    ensures Less(gone, k)
  {
    var i :| 0 <= i < n && order[..n][i] == gone;
    assert k in Elements(order);
    var j :| 0 <= j < |order| && order[j] == k;
    assert j >= n && order[i] == gone;
  }

  lemma PullEnds(env: Env, shard: nat, start: map<nat, Pool>, pools: map<nat, Pool>, order: seq<Key>,
                 i: nat, max: nat, messages: seq<Message>)
    requires Pulling(env, shard, start, pools, order, i, max, messages) && (|messages| == max || i == |order|)
    ensures pools == start[shard := start[shard] - Elements(order[..PopCount(env, shard, start[shard], order, max)])]
    ensures messages == FirstOf(Live(env, shard, start[shard], order), max)
  {
    ProgressEnds(env, shard, start[shard], order, i, max, messages);
  }

  lemma Exhausted(pool: Pool, order: seq<Key>, i: nat)
    requires Drained(pool, order, i, map[])
    ensures i == |order|
  {
    LessStrictTotal();
    AscendingDistinct(order, Less);
    AscendingDistinct(order[..i], Less);
    assert forall k :: k in pool ==> k !in pool - Elements(order[..i]);
    assert Elements(order) == Elements(order[..i]);
  }

  lemma NotBefore(order: seq<Key>, i: nat)
    requires Ascending(order, Less) && i < |order|
    ensures order[i] !in order[..i]
  {
    forall j | 0 <= j < i ensures order[..i][j] != order[i] {
      LessAsymmetric(order[i], order[j]);
    }
  }

  lemma LeastRemains(pool: Pool, order: seq<Key>, i: nat, now: Pool, key: Key)
    requires Drained(pool, order, i, now) && IsLeast(key, now.Keys, Less)
    ensures i < |order| && order[i] == key && now[key] == pool[key]
    ensures Drained(pool, order, i + 1, now - {key})
  {
    assert key in Elements(order);
    var j :| 0 <= j < |order| && order[j] == key;
    assert j >= i;
    NotBefore(order, i);
    assert order[i] in Elements(order);
    assert order[i] in now;
    LessAsymmetric(order[i], key);
    ElementsStep(order, i);
  }

  lemma ElementsStep<T>(s: seq<T>, i: nat)
    requires i < |s|
    ensures Elements(s[..i + 1]) == Elements(s[..i]) + {s[i]}
  {
    assert s[..i + 1] == s[..i] + [s[i]];
  }

  /** What has been collected, and what popping on would still take. */
  ghost predicate Progress(env: Env, shard: nat, pool: Pool, order: seq<Key>, i: nat, max: nat, messages: seq<Message>)
    requires (forall k :: k in order ==> k in pool) && i <= |order| && |messages| <= max
  {
    && messages == Live(env, shard, pool, order[..i])
    && PopCount(env, shard, pool, order, max) == i + PopCount(env, shard, pool, order[i..], max - |messages|)
  }

  lemma ProgressStep(env: Env, shard: nat, pool: Pool, order: seq<Key>, i: nat, max: nat, messages: seq<Message>)
    requires (forall k :: k in order ==> k in pool) && i < |order| && |messages| < max
    requires Progress(env, shard, pool, order, i, max, messages)
    ensures var live := Rejected(env, shard, pool[order[i]]).None?;
      Progress(env, shard, pool, order, i + 1, max, if live then messages + [pool[order[i]]] else messages)
  {
    LiveAppend(env, shard, pool, order[..i], order[i]);
    assert order[..i + 1] == order[..i] + [order[i]];
    assert order[i..][0] == order[i] && order[i..][1..] == order[i + 1..];
  }

  lemma ProgressEnds(env: Env, shard: nat, pool: Pool, order: seq<Key>, i: nat, max: nat, messages: seq<Message>)
    requires (forall k :: k in order ==> k in pool) && i <= |order| && |messages| <= max
    requires Progress(env, shard, pool, order, i, max, messages) && (|messages| == max || i == |order|)
    ensures i == PopCount(env, shard, pool, order, max)
    ensures messages == FirstOf(Live(env, shard, pool, order), max)
  {
    PopsFirstLive(env, shard, pool, order, max);
  }

  lemma {:induction false} LiveAppend(env: Env, shard: nat, pool: Pool, keys: seq<Key>, k: Key)
    requires k in pool && forall x :: x in keys ==> x in pool
    ensures Live(env, shard, pool, keys + [k])
         == Live(env, shard, pool, keys) + (if Rejected(env, shard, pool[k]).None? then [pool[k]] else [])
  {
    if keys == [] {
      assert keys + [k] == [k] && [k][1..] == [];
    } else {
      assert (keys + [k])[1..] == keys[1..] + [k];
      LiveAppend(env, shard, pool, keys[1..], k);
    }
  }
}
