/** What holds of the mempool over every run of polls, pulls and removals. */
module MempoolRuns {
  import opened Orders
  import opened MempoolKeys
  import opened Mempool
  import opened Options
  import B = Bytes

  datatype Step =
    | Pull(env: Env, shard: nat, max: nat)
    | Remove(shard: nat, committed: seq<Message>)
    | Poll(env: Env, queue: seq<Request>)

  /** Events are addressed to existing shards; the source panics on others. */
  predicate Addressed(cfg: Config, m: Message) {
    m.BlockEvent? ==> m.forShard <= cfg.shards
  }

  predicate ValidStep(cfg: Config, step: Step) {
    step.Poll? ==> forall i :: 0 <= i < |step.queue| && step.queue[i].Add? ==> Addressed(cfg, step.queue[i].m)
  }

  ghost function After(cfg: Config, s: State, step: Step): State
    requires ValidConfig(cfg)
  {
    match step
    case Pull(env, shard, max) => Pulled(env, s, shard, max)
    case Remove(shard, committed) => Removed(cfg, s, shard, committed)
    case Poll(env, queue) => Polled(cfg, env, s, queue)
  }

  ghost function Run(cfg: Config, steps: seq<Step>): State
    requires ValidConfig(cfg)
  {
    if steps == [] then State(map[], [])
    else After(cfg, Run(cfg, steps[..|steps| - 1]), steps[|steps| - 1])
  }

  // ----- accounting --------------------------------------------------------

  /** Messages accepted while routing one message to several shards. */
  function Accepted(cfg: Config, env: Env, s: State, shards: seq<nat>, m: Message): (n: nat)
    ensures n <= |shards|
  {
    if shards == [] then 0
    else
      var before := InsertedAll(cfg, env, s, shards[..|shards| - 1], m);
      Accepted(cfg, env, s, shards[..|shards| - 1], m)
      + (if Admission(cfg, env, before, shards[|shards| - 1], m).0.None? then 1 else 0)
  }

  lemma InsertSize(cfg: Config, env: Env, s: State, shard: nat, m: Message)
    ensures Total(InsertedInto(cfg, env, s, shard, m))
         == Total(s) + (if Admission(cfg, env, s, shard, m).0.None? then 1 else 0)
  {
    var (error, calls) := Admission(cfg, env, s, shard, m);
    var pool := PoolOf(s, shard);
    TotalUpdate(s, shard, pool[KeyOf(m) := m], calls);
    SizeCalls(s, calls, Top(s.pools.Keys));
    assert pool[KeyOf(m) := m].Keys == pool.Keys + {KeyOf(m)};
  }

  lemma {:induction false} InsertAllSize(cfg: Config, env: Env, s: State, shards: seq<nat>, m: Message)
    ensures Total(InsertedAll(cfg, env, s, shards, m)) == Total(s) + Accepted(cfg, env, s, shards, m)
  {
    if shards == [] {
    } else {
      var k := |shards| - 1;
      InsertAllSize(cfg, env, s, shards[..k], m);
      InsertSize(cfg, env, InsertedAll(cfg, env, s, shards[..k], m), shards[k], m);
    }
  }

  function Widest(cfg: Config): nat {
    if cfg.shards > 2 then cfg.shards else 2
  }

  lemma {:induction false} HandledSize(cfg: Config, env: Env, s: State, requests: seq<Request>)
    requires ValidConfig(cfg)
    ensures Total(s) <= Total(Handled(cfg, env, s, requests)) <= Total(s) + |requests| * Widest(cfg)
  {
    if requests == [] {
    } else {
      var k := |requests| - 1;
      HandledSize(cfg, env, s, requests[..k]);
      assert k * Widest(cfg) + Widest(cfg) == |requests| * Widest(cfg);
      if requests[k].Add? {
        var m := requests[k].m;
        var shards := Route(m, cfg.shards, env.usernameFix, cfg.hash);
        InsertAllSize(cfg, env, Handled(cfg, env, s, requests[..k]), shards, m);
      }
    }
  }

  lemma ShrinkSize(s: State, shard: nat, keys: set<Key>, calls: seq<LimiterCall>)
    requires shard in s.pools
    ensures Total(State(s.pools[shard := s.pools[shard] - keys], calls)) <= Total(s)
  {
    TotalUpdate(s, shard, s.pools[shard] - keys, calls);
    var pool := s.pools[shard];
    assert (pool - keys).Keys == pool.Keys - keys;
    assert pool.Keys == (pool.Keys - keys) + (pool.Keys * keys);
    assert |pool.Keys| >= |pool.Keys - keys|;
  }

  function Bound(cfg: Config): nat {
    if cfg.capacity == 0 then 0 else cfg.capacity - 1 + 256 * Widest(cfg)
  }

  /** Over every run the pools together never hold more than one message less than the capacity plus
      what a single poll can add, which is 256 messages in as many shards as one can be routed to. */
  lemma {:induction false} NeverOverBound(cfg: Config, steps: seq<Step>)
    requires ValidConfig(cfg) && !cfg.unlimited
    ensures Total(Run(cfg, steps)) <= Bound(cfg)
  {
    if steps == [] {
      NothingPooled([]);
    } else {
      var k := |steps| - 1;
      NeverOverBound(cfg, steps[..k]);
      StepBound(cfg, Run(cfg, steps[..k]), steps[k]);
    }
  }

  lemma PullShrinks(env: Env, s: State, shard: nat, max: nat)
    ensures Total(Pulled(env, s, shard, max)) <= Total(s)
  {
    if shard in s.pools {
      KeysOfPool(s.pools[shard]);
      var order := InOrder(s.pools[shard].Keys);
      ShrinkSize(s, shard, Elements(order[..PopCount(env, shard, s.pools[shard], order, max)]), s.calls);
    }
  }

  lemma Widen(a: nat, b: nat, width: nat)
    requires a <= b
    ensures a * width <= b * width
  {
  }

  lemma PollBound(cfg: Config, env: Env, s: State, queue: seq<Request>)
    requires ValidConfig(cfg) && !cfg.unlimited && Total(s) <= Bound(cfg)
    ensures Total(Polled(cfg, env, s, queue)) <= Bound(cfg)
  {
    var n := PollCount(cfg, s, queue);
    if n == 0 {
      assert queue[..n] == [];
    } else {
      HandledSize(cfg, env, s, queue[..n]);
      Widen(n, POLL_LIMIT, Widest(cfg));
    }
  }

  lemma StepBound(cfg: Config, s: State, step: Step)
    requires ValidConfig(cfg) && !cfg.unlimited && Total(s) <= Bound(cfg)
    ensures Total(After(cfg, s, step)) <= Bound(cfg)
  {
    match step
    case Pull(env, shard, max) => PullShrinks(env, s, shard, max);
    case Remove(shard, committed) =>
      if shard in s.pools { ShrinkSize(s, shard, KeysOf(committed), s.calls + Renewals(cfg, committed)); }
    case Poll(env, queue) => PollBound(cfg, env, s, queue);
  }

  // ----- where pools exist --------------------------------------------------

  predicate Within(cfg: Config, s: State) {
    forall shard :: shard in s.pools ==> shard <= cfg.shards
  }

  lemma {:induction false} InsertWithin(cfg: Config, env: Env, s: State, shards: seq<nat>, m: Message)
    requires Within(cfg, s) && forall i :: 0 <= i < |shards| ==> shards[i] <= cfg.shards
    ensures Within(cfg, InsertedAll(cfg, env, s, shards, m))
  {
    if shards == [] {
    } else {
      InsertWithin(cfg, env, s, shards[..|shards| - 1], m);
    }
  }

  lemma {:induction false} HandledWithin(cfg: Config, env: Env, s: State, requests: seq<Request>)
    requires ValidConfig(cfg) && Within(cfg, s)
    requires forall i :: 0 <= i < |requests| && requests[i].Add? ==> Addressed(cfg, requests[i].m)
    ensures Within(cfg, Handled(cfg, env, s, requests))
  {
    if requests == [] {
    } else {
      var k := |requests| - 1;
      HandledWithin(cfg, env, s, requests[..k]);
      if requests[k].Add? {
        var m := requests[k].m;
        InsertWithin(cfg, env, Handled(cfg, env, s, requests[..k]), Route(m, cfg.shards, env.usernameFix, cfg.hash), m);
      }
    }
  }

  /** Over every run of valid steps pools exist only for shards 0 to n, so the total is their sum. */
  lemma {:induction false} OnlyShards(cfg: Config, steps: seq<Step>)
    requires ValidConfig(cfg) && forall i :: 0 <= i < |steps| ==> ValidStep(cfg, steps[i])
    ensures Within(cfg, Run(cfg, steps)) && Total(Run(cfg, steps)) == Size(Run(cfg, steps), cfg.shards + 1)
  {
    if steps == [] {
    } else {
      var k := |steps| - 1;
      OnlyShards(cfg, steps[..k]);
      assert ValidStep(cfg, steps[k]);
      if steps[k].Poll? {
        var s := Run(cfg, steps[..k]);
        HandledWithin(cfg, steps[k].env, s, steps[k].queue[..PollCount(cfg, s, steps[k].queue)]);
      }
    }
    TotalIs(Run(cfg, steps), cfg.shards + 1);
  }

  // ----- the bound is reached ----------------------------------------------

  /** On-chain events and name transfers meet no check but the duplicate one. */
  predicate Unhindered(m: Message) {
    m.Onchain? || m.OnchainForMigration? || m.Fname?
  }

  predicate Absent(s: State, k: Key) {
    forall shard :: shard in s.pools ==> k !in s.pools[shard]
  }

  predicate DistinctShards(shards: seq<nat>) {
    forall i, j :: 0 <= i < j < |shards| ==> shards[i] != shards[j]
  }

  lemma {:induction false} OtherPools(cfg: Config, env: Env, s: State, shards: seq<nat>, m: Message, shard: nat)
    requires shard !in shards
    ensures PoolOf(InsertedAll(cfg, env, s, shards, m), shard) == PoolOf(s, shard)
  {
    if shards == [] {
    } else {
      OtherPools(cfg, env, s, shards[..|shards| - 1], m, shard);
    }
  }

  lemma {:induction false} OtherKeys(cfg: Config, env: Env, s: State, shards: seq<nat>, m: Message, k: Key)
    requires k != KeyOf(m) && Absent(s, k)
    ensures Absent(InsertedAll(cfg, env, s, shards, m), k)
  {
    if shards == [] {
    } else {
      OtherKeys(cfg, env, s, shards[..|shards| - 1], m, k);
    }
  }

  lemma {:induction false} FillShards(cfg: Config, env: Env, s: State, shards: seq<nat>, m: Message)
    requires Unhindered(m) && Absent(s, KeyOf(m)) && DistinctShards(shards)
    ensures Accepted(cfg, env, s, shards, m) == |shards|
  {
    if shards == [] {
    } else {
      var n := |shards| - 1;
      FillShards(cfg, env, s, shards[..n], m);
      assert shards[n] !in shards[..n];
      OtherPools(cfg, env, s, shards[..n], m, shards[n]);
    }
  }

  lemma RouteDistinct(cfg: Config, env: Env, m: Message)
    requires ValidConfig(cfg)
    ensures DistinctShards(Route(m, cfg.shards, env.usernameFix, cfg.hash))
  {
  }

  predicate Fills(cfg: Config, env: Env, s: State, m: Message, width: nat)
    requires ValidConfig(cfg)
  {
    Unhindered(m) && Absent(s, KeyOf(m)) && |Route(m, cfg.shards, env.usernameFix, cfg.hash)| == width
  }

  lemma FillOne(cfg: Config, env: Env, s: State, m: Message, width: nat)
    requires ValidConfig(cfg) && Fills(cfg, env, s, m, width)
    ensures Total(Inserted(cfg, env, s, m)) == Total(s) + width
  {
    var shards := Route(m, cfg.shards, env.usernameFix, cfg.hash);
    RouteDistinct(cfg, env, m);
    FillShards(cfg, env, s, shards, m);
    InsertAllSize(cfg, env, s, shards, m);
  }

  /** Requests for new, distinct, unhindered messages each routed to `width` shards. */
  predicate Filling(cfg: Config, env: Env, s: State, requests: seq<Request>, width: nat)
    requires ValidConfig(cfg)
  {
    && (forall i :: 0 <= i < |requests| ==> requests[i].Add? && Fills(cfg, env, s, requests[i].m, width))
    && (forall i, j :: 0 <= i < j < |requests| ==> KeyOf(requests[i].m) != KeyOf(requests[j].m))
  }

  lemma {:induction false} StillAbsent(cfg: Config, env: Env, s: State, requests: seq<Request>, k: Key)
    requires ValidConfig(cfg) && Absent(s, k)
    requires forall i :: 0 <= i < |requests| ==> requests[i].Add? && KeyOf(requests[i].m) != k
    ensures Absent(Handled(cfg, env, s, requests), k)
  {
    if requests == [] {
    } else {
      var n := |requests| - 1;
      StillAbsent(cfg, env, s, requests[..n], k);
      var m := requests[n].m;
      OtherKeys(cfg, env, Handled(cfg, env, s, requests[..n]), Route(m, cfg.shards, env.usernameFix, cfg.hash), m, k);
    }
  }

  lemma FillingPrefix(cfg: Config, env: Env, s: State, requests: seq<Request>, width: nat)
    requires ValidConfig(cfg) && Filling(cfg, env, s, requests, width) && requests != []
    ensures Filling(cfg, env, s, requests[..|requests| - 1], width)
  {
  }

  /** The last of the requests finds its key still absent, and fills. */
  lemma FillLast(cfg: Config, env: Env, s: State, requests: seq<Request>, width: nat)
    requires ValidConfig(cfg) && Filling(cfg, env, s, requests, width) && requests != []
    ensures Total(Handled(cfg, env, s, requests))
         == Total(Handled(cfg, env, s, requests[..|requests| - 1])) + width
  {
    var n := |requests| - 1;
    var before, m := requests[..n], requests[n].m;
    assert Fills(cfg, env, s, m, width);
    forall i | 0 <= i < n ensures before[i].Add? && KeyOf(before[i].m) != KeyOf(m) {
      assert before[i] == requests[i];
    }
    StillAbsent(cfg, env, s, before, KeyOf(m));
    FillOne(cfg, env, Handled(cfg, env, s, before), m, width);
  }

  lemma {:induction false} FillSize(cfg: Config, env: Env, s: State, requests: seq<Request>, width: nat)
    requires ValidConfig(cfg) && Filling(cfg, env, s, requests, width)
    ensures Total(Handled(cfg, env, s, requests)) == Total(s) + |requests| * width
  {
    if requests == [] {
    } else {
      var n := |requests| - 1;
      FillingPrefix(cfg, env, s, requests, width);
      FillSize(cfg, env, s, requests[..n], width);
      FillLast(cfg, env, s, requests, width);
      OneMore(n, width);
    }
  }

  lemma OneMore(n: nat, width: nat)
    ensures (n + 1) * width == n * width + width
  {
  }

  // Messages later than a pool are new to it.

  predicate Earlier(s: State, t: nat) {
    forall shard, k :: shard in s.pools && k in s.pools[shard] ==> k.timestamp < t
  }

  lemma {:induction false} LatestKey(keys: set<Key>) returns (t: nat)
    ensures forall k :: k in keys ==> k.timestamp < t
    decreases keys
  {
    if keys == {} {
      t := 0;
    } else {
      var k :| k in keys;
      var u := LatestKey(keys - {k});
      t := if u > k.timestamp then u else k.timestamp + 1;
    }
  }

  lemma {:induction false} LatestPool(s: State, shards: set<nat>) returns (t: nat)
    requires shards <= s.pools.Keys
    ensures forall shard, k :: shard in shards && k in s.pools[shard] ==> k.timestamp < t
    decreases shards
  {
    if shards == {} {
      t := 0;
    } else {
      var shard :| shard in shards;
      var u := LatestPool(s, shards - {shard});
      var v := LatestKey(s.pools[shard].Keys);
      t := if u > v then u else v;
    }
  }

  lemma {:induction false} StaysEarlier(cfg: Config, env: Env, s: State, shards: seq<nat>, m: Message, t: nat)
    requires Earlier(s, t) && KeyOf(m).timestamp < t
    ensures Earlier(InsertedAll(cfg, env, s, shards, m), t)
  {
    if shards == [] {
    } else {
      StaysEarlier(cfg, env, s, shards[..|shards| - 1], m, t);
    }
  }

  const NO_HASH: B.Bytes := B.BigEndian(0, TX_HASH_BYTES)

  /** Messages of the widest routing: to two shards, or under the username fix to all of them. */
  function Wide(cfg: Config, time: nat): Message {
    if cfg.shards > 2 then Fname(0, 0, time) else Onchain(0, NO_HASH, 0, time, false)
  }

  function WideQueue(cfg: Config, from: nat, n: nat): (r: seq<Request>)
    ensures |r| == n && forall i :: 0 <= i < n ==> r[i] == Add(Wide(cfg, from + i))
  {
    seq(n, (i: nat) => Add(Wide(cfg, from + i)))
  }

  function WideEnv(): Env {
    Env(true, true, (_, _) => false, _ => None)
  }

  lemma WideFilling(cfg: Config, s: State, from: nat, n: nat)
    requires ValidConfig(cfg) && Earlier(s, from)
    ensures Filling(cfg, WideEnv(), s, WideQueue(cfg, from, n), Widest(cfg))
    ensures ValidStep(cfg, Poll(WideEnv(), WideQueue(cfg, from, n)))
  {
    var q := WideQueue(cfg, from, n);
    forall i | 0 <= i < n ensures Fills(cfg, WideEnv(), s, q[i].m, Widest(cfg)) {
      assert KeyOf(q[i].m).timestamp == from + i;
    }
    forall i, j | 0 <= i < j < n ensures KeyOf(q[i].m) != KeyOf(q[j].m) {
      assert KeyOf(q[i].m).timestamp != KeyOf(q[j].m).timestamp;
    }
  }

  ghost predicate AlwaysWithin(cfg: Config, s: State, n: nat)
    requires ValidConfig(cfg)
  {
    forall env: Env, queue: seq<Request> :: |queue| == n && ValidStep(cfg, Poll(env, queue)) ==>
      Total(Polled(cfg, env, s, queue)) <= cfg.capacity
  }

  function Handling(n: nat): nat {
    if n < POLL_LIMIT then n else POLL_LIMIT
  }

  /** No queue of `n` requests takes a pool past its capacity if and only if the pool is exactly full,
      or has room for as many messages as are handled, each in as many shards as one can go to. */
  lemma WithinCapacityIff(cfg: Config, s: State, n: nat)
    requires ValidConfig(cfg) && !cfg.unlimited
    ensures AlwaysWithin(cfg, s, n)
       <==> (if Total(s) < cfg.capacity
             then Total(s) + Handling(n) * Widest(cfg) <= cfg.capacity
             else Total(s) == cfg.capacity)
  {
    var t := LatestPool(s, s.pools.Keys);
    WideFilling(cfg, s, t, n);
    var queue := WideQueue(cfg, t, n);
    WideFilling(cfg, s, t, Handling(n));
    if Total(s) < cfg.capacity {
      assert queue[..Handling(n)] == WideQueue(cfg, t, Handling(n));
      FillSize(cfg, WideEnv(), s, queue[..Handling(n)], Widest(cfg));
      forall env: Env, q: seq<Request> | |q| == n && ValidStep(cfg, Poll(env, q))
        ensures Total(Polled(cfg, env, s, q)) <= Total(s) + Handling(n) * Widest(cfg)
      {
        HandledSize(cfg, env, s, q[..Handling(n)]);
      }
    }
    assert Total(Polled(cfg, WideEnv(), s, queue))
        == Total(s) + if Total(s) < cfg.capacity then Handling(n) * Widest(cfg) else 0;
  }

  /** The bound is tight: a poll that finds one message less than the capacity and 256 fresh messages
      of the widest routing ends exactly at it. */
  lemma BoundReached(cfg: Config, env: Env, s: State, requests: seq<Request>)
    requires ValidConfig(cfg) && cfg.capacity > 0 && Total(s) == cfg.capacity - 1
    requires |requests| == POLL_LIMIT && Filling(cfg, env, s, requests, Widest(cfg))
    ensures Total(Polled(cfg, env, s, requests)) == Bound(cfg)
  {
    assert requests[..POLL_LIMIT] == requests;
    FillSize(cfg, env, s, requests, Widest(cfg));
  }

  /** A message for one shard only. */
  function Narrow(time: nat): Message {
    OnchainForMigration(0, NO_HASH, 0, time, false)
  }

  lemma PolledOne(cfg: Config, env: Env, s: State, m: Message)
    requires ValidConfig(cfg) && Total(s) < cfg.capacity
    ensures Polled(cfg, env, s, [Add(m)]) == Inserted(cfg, env, s, m)
  {
    var queue := [Add(m)];
    assert PollCount(cfg, s, queue) == 1 && queue[..1] == queue && queue[..|queue| - 1] == [];
    assert Handled(cfg, env, s, []) == s;
    assert queue[|queue| - 1] == Add(m);
    assert Handled(cfg, env, s, queue) == Inserted(cfg, env, s, m);
  }

  ghost predicate Filled(cfg: Config, s: State, n: nat) {
    Total(s) == n && Earlier(s, n)
  }

  lemma ClimbStep(cfg: Config, s: State, n: nat)
    requires ValidConfig(cfg) && n < cfg.capacity && Filled(cfg, s, n)
    ensures Filled(cfg, Polled(cfg, WideEnv(), s, [Add(Narrow(n))]), n + 1)
  {
    var m := Narrow(n);
    PolledOne(cfg, WideEnv(), s, m);
    assert KeyOf(m).timestamp == n;
    assert Absent(s, KeyOf(m));
    FillOne(cfg, WideEnv(), s, m, 1);
    StaysEarlier(cfg, WideEnv(), s, [0], m, n + 1);
  }

  lemma RunLast(cfg: Config, steps: seq<Step>, step: Step)
    requires ValidConfig(cfg)
    ensures Run(cfg, steps + [step]) == After(cfg, Run(cfg, steps), step)
  {
    assert (steps + [step])[..|steps|] == steps;
  }

  lemma ClimbOn(cfg: Config, before: seq<Step>, n: nat) returns (steps: seq<Step>)
    requires ValidConfig(cfg) && n < cfg.capacity && Filled(cfg, Run(cfg, before), n)
    requires forall i :: 0 <= i < |before| ==> ValidStep(cfg, before[i])
    ensures Filled(cfg, Run(cfg, steps), n + 1)
    ensures forall i :: 0 <= i < |steps| ==> ValidStep(cfg, steps[i])
  {
    var step := Poll(WideEnv(), [Add(Narrow(n))]);
    RunLast(cfg, before, step);
    ClimbStep(cfg, Run(cfg, before), n);
    steps := before + [step];
  }

  /** One narrow message per poll, each later than the one before, fills a pool to any size up to the
      last below its capacity. */
  lemma {:induction false} Climb(cfg: Config, n: nat) returns (steps: seq<Step>)
    requires ValidConfig(cfg) && n < cfg.capacity
    ensures Filled(cfg, Run(cfg, steps), n)
    ensures forall i :: 0 <= i < |steps| ==> ValidStep(cfg, steps[i])
  {
    if n == 0 {
      NothingPooled([]);
      steps := [];
    } else {
      var before := Climb(cfg, n - 1);
      steps := ClimbOn(cfg, before, n - 1);
    }
  }

  /** For every limited configuration that admits messages at all, some run ends exactly at the bound. */
  lemma BoundReachable(cfg: Config) returns (steps: seq<Step>)
    requires ValidConfig(cfg) && !cfg.unlimited && cfg.capacity > 0
    ensures forall i :: 0 <= i < |steps| ==> ValidStep(cfg, steps[i])
    ensures Total(Run(cfg, steps)) == Bound(cfg)
  {
    var n := cfg.capacity - 1;
    var before := Climb(cfg, n);
    var s, queue := Run(cfg, before), WideQueue(cfg, n, POLL_LIMIT);
    WideFilling(cfg, s, n, POLL_LIMIT);
    BoundReached(cfg, WideEnv(), s, queue);
    RunLast(cfg, before, Poll(WideEnv(), queue));
    steps := before + [Poll(WideEnv(), queue)];
  }

  // ----- priority ----------------------------------------------------------

  /** Every message lies under its own key, and has a property that all added messages have. */
  ghost predicate KeyedPool(pool: Pool, holds: Message -> bool) {
    forall k :: k in pool ==> KeyOf(pool[k]) == k && holds(pool[k])
  }

  ghost predicate Keyed(s: State, holds: Message -> bool) {
    forall shard :: shard in s.pools ==> KeyedPool(s.pools[shard], holds)
  }

  predicate AddsOnly(step: Step, holds: Message -> bool) {
    step.Poll? ==> forall i :: 0 <= i < |step.queue| && step.queue[i].Add? ==> holds(step.queue[i].m)
  }

  lemma {:induction false} InsertKeyed(cfg: Config, env: Env, s: State, shards: seq<nat>, m: Message,
                                       holds: Message -> bool)
    requires Keyed(s, holds) && holds(m)
    ensures Keyed(InsertedAll(cfg, env, s, shards, m), holds)
  {
    if shards == [] {
    } else {
      InsertKeyed(cfg, env, s, shards[..|shards| - 1], m, holds);
    }
  }

  lemma {:induction false} HandledKeyed(cfg: Config, env: Env, s: State, requests: seq<Request>, holds: Message -> bool)
    requires ValidConfig(cfg) && Keyed(s, holds)
    requires forall i :: 0 <= i < |requests| && requests[i].Add? ==> holds(requests[i].m)
    ensures Keyed(Handled(cfg, env, s, requests), holds)
  {
    if requests == [] {
    } else {
      var k := |requests| - 1;
      HandledKeyed(cfg, env, s, requests[..k], holds);
      if requests[k].Add? {
        var m := requests[k].m;
        var shards := Route(m, cfg.shards, env.usernameFix, cfg.hash);
        InsertKeyed(cfg, env, Handled(cfg, env, s, requests[..k]), shards, m, holds);
      }
    }
  }

  /** Over every run each pooled message lies under its own key, and what holds of all messages ever
      added holds of it. */
  lemma {:induction false} AlwaysKeyed(cfg: Config, steps: seq<Step>, holds: Message -> bool)
    requires ValidConfig(cfg) && forall i :: 0 <= i < |steps| ==> AddsOnly(steps[i], holds)
    ensures Keyed(Run(cfg, steps), holds)
  {
    if steps == [] {
    } else {
      var k := |steps| - 1;
      AlwaysKeyed(cfg, steps[..k], holds);
      assert AddsOnly(steps[k], holds);
      if steps[k].Poll? {
        var s := Run(cfg, steps[..k]);
        HandledKeyed(cfg, steps[k].env, s, steps[k].queue[..PollCount(cfg, s, steps[k].queue)], holds);
      }
    }
  }

  predicate Holds(pool: Pool, origin: Origin) {
    exists k :: k in pool && OriginOf(pool[k]) == origin
  }

  /** After any run a message is refused as a duplicate if and only if the pool holds one of the same
      origin: its own copy, its migration twin, or the name transfer or block event of its number. */
  lemma DuplicateIff(cfg: Config, steps: seq<Step>, env: Env, shard: nat, m: Message)
    requires ValidConfig(cfg) && WellSized(m) && forall i :: 0 <= i < |steps| ==> AddsOnly(steps[i], WellSized)
    ensures Admission(cfg, env, Run(cfg, steps), shard, m).0 == Some(Duplicate)
       <==> Holds(PoolOf(Run(cfg, steps), shard), OriginOf(m))
  {
    AlwaysKeyed(cfg, steps, WellSized);
    var pool := PoolOf(Run(cfg, steps), shard);
    forall k | k in pool ensures k == KeyOf(m) <==> OriginOf(pool[k]) == OriginOf(m) {
      SharedKeyIff(pool[k], m);
    }
  }

  /** After any run, a removal leaves exactly the messages that share no origin with a committed one. */
  lemma RemovedIff(cfg: Config, steps: seq<Step>, shard: nat, committed: seq<Message>, k: Key)
    requires ValidConfig(cfg) && forall i :: 0 <= i < |steps| ==> AddsOnly(steps[i], WellSized)
    requires shard in Run(cfg, steps).pools && k in Run(cfg, steps).pools[shard]
    requires forall i :: 0 <= i < |committed| ==> WellSized(committed[i])
    ensures shard in Removed(cfg, Run(cfg, steps), shard, committed).pools
    ensures k in Removed(cfg, Run(cfg, steps), shard, committed).pools[shard] <==>
      forall i :: 0 <= i < |committed| ==> OriginOf(committed[i]) != OriginOf(Run(cfg, steps).pools[shard][k])
  {
    AlwaysKeyed(cfg, steps, WellSized);
    var pool := Run(cfg, steps).pools[shard];
    assert KeyedPool(pool, WellSized);
    CommittedKeys(committed, k);
    forall i | 0 <= i < |committed| ensures KeyOf(committed[i]) == k <==> OriginOf(committed[i]) == OriginOf(pool[k]) {
      SharedKeyIff(committed[i], pool[k]);
    }
  }

  lemma {:induction false} CommittedKeys(committed: seq<Message>, k: Key)
    ensures k in KeysOf(committed) <==> exists i :: 0 <= i < |committed| && KeyOf(committed[i]) == k
  {
    if committed == [] {
    } else {
      CommittedKeys(committed[..|committed| - 1], k);
    }
  }

  /** After any run, every pull obeys the pull law: what it returns and leaves, and in what order of kind and age. */
  lemma OldestFirst(cfg: Config, steps: seq<Step>, env: Env, shard: nat, max: nat)
    requires ValidConfig(cfg) && shard in Run(cfg, steps).pools
    ensures var s := Run(cfg, steps);
      var messages, after := FirstOf(LiveOf(env, shard, s.pools[shard]), max), Pulled(env, s, shard, max);
      shard in after.pools && PullLaw(env, shard, max, s.pools[shard], messages, after.pools[shard])
  {
    AlwaysKeyed(cfg, steps, _ => true);
    var pool := Run(cfg, steps).pools[shard];
    assert KeyedPool(pool, _ => true);
    assert OwnKeys(pool);
    KeysOfPool(pool);
    PullObeys(env, shard, max, pool);
  }

  /** In particular a pull that returns a user message leaves no validator message in the pool. */
  lemma ValidatorsFirst(cfg: Config, steps: seq<Step>, env: Env, shard: nat, max: nat, m: Message, k: Key)
    requires ValidConfig(cfg) && shard in Run(cfg, steps).pools
    requires m.User? && m in FirstOf(LiveOf(env, shard, Run(cfg, steps).pools[shard]), max)
    requires var s := Pulled(env, Run(cfg, steps), shard, max); shard in s.pools && k in s.pools[shard]
    ensures Pulled(env, Run(cfg, steps), shard, max).pools[shard][k].User?
  {
    OldestFirst(cfg, steps, env, shard, max);
    var left := Pulled(env, Run(cfg, steps), shard, max).pools[shard];
    assert NotAfter(m, left[k]);
  }
}
