/** A read node: decided values arrive in any order, are checked, buffered past a gap and
    committed to the engine strictly by height. */
module ReadValidator {
  import opened Heights
  import opened Orders
  import opened Certificates
  import B = Bytes
  import V = ValidatorSets

  datatype Kind = ShardChunk | Block

  datatype Value = Value(
    kind: Kind, height: Height, hash: B.Bytes, chain: nat, timestamp: nat, version: nat,
    payload: B.Bytes, commits: Commits)

  datatype Config = Config(
    kind: Kind, shard: nat, maxBuffered: nat, sets: seq<V.StoredSet>, verify: Verifier,
    protocolVersion: (nat, nat) -> nat)

  predicate ValidConfig(cfg: Config) {
    cfg.sets != [] && cfg.maxBuffered < B.U32_LIMIT
  }

  predicate VersionOk(cfg: Config, v: Value) {
    v.kind.Block? ==> v.version == cfg.protocolVersion(v.timestamp, v.chain)
  }

  predicate Checked(cfg: Config, v: Value)
    requires ValidConfig(cfg)
  {
    Accepted(v.commits, ExpectedKeys(v.commits, cfg.sets, cfg.shard), cfg.verify) && VersionOk(cfg, v)
  }

  // ----- the node as a state machine ---------------------------------------

  /** `log` is what the engine has committed, oldest first. */
  datatype Node = Node(last: Height, buffer: map<Height, Value>, log: seq<Value>)

  function Drain(s: Node): Node
    decreases |s.buffer|
  {
    var next := s.last.Increment();
    if next in s.buffer then
      assert |(s.buffer - {next}).Keys| < |s.buffer.Keys|;
      Drain(Node(next, s.buffer - {next}, s.log + [s.buffer[next]]))
    else s
  }

  function Admit(s: Node, limit: nat, v: Value): Node {
    var next := s.last.Increment();
    if Less(next, v.height) then
      if |s.buffer| < limit then s.(buffer := s.buffer[v.height := v]) else s
    else if v.height == next then Drain(Node(next, s.buffer, s.log + [v]))
    else s
  }

  function Receive(cfg: Config, s: Node, v: Value): Node
    requires ValidConfig(cfg)
  {
    if Checked(cfg, v) then Admit(s, cfg.maxBuffered, v) else s
  }

  /** Between calls the buffer lies wholly beyond the gap. */
  predicate Settled(s: Node) {
    forall h :: h in s.buffer ==> Less(s.last.Increment(), h) && s.buffer[h].height == h
  }

  /** What was committed from index `from` on is of the engine's kind. */
  predicate RightKind(s: Node, from: nat, kind: Kind) {
    forall i :: from <= i < |s.log| ==> s.log[i].kind == kind
  }

  predicate Beyond(s: Node) {
    forall h :: h in s.buffer ==> Less(s.last, h) && s.buffer[h].height == h
  }

  /** Draining commits exactly the unbroken run of buffered heights above `last`. */
  lemma {:induction false} DrainRun(s: Node)
    requires Beyond(s)
    ensures var r := Drain(s);
      && r.last.shard == s.last.shard && r.last.block >= s.last.block
      && |r.log| == |s.log| + r.last.block - s.last.block && s.log <= r.log
      && (forall b :: s.last.block < b <= r.last.block ==>
            Height(s.last.shard, b) in s.buffer
            && r.log[|s.log| + b - s.last.block - 1] == s.buffer[Height(s.last.shard, b)])
      && r.last.Increment() !in s.buffer
      && r.buffer == (map h | h in s.buffer && Less(r.last, h) :: s.buffer[h])
      && Settled(r)
    decreases |s.buffer|
  {
    var next := s.last.Increment();
    if next in s.buffer {
      assert |(s.buffer - {next}).Keys| < |s.buffer.Keys|;
      DrainRun(Node(next, s.buffer - {next}, s.log + [s.buffer[next]]));
    } else {
      assert s.buffer == (map h | h in s.buffer && Less(s.last, h) :: s.buffer[h]);
    }
  }

  lemma PopStep(s: Node, h: Height)
    requires Beyond(s) && IsLeast(h, s.buffer.Keys, Less)
    ensures !Less(h, s.last.Increment())
    ensures h == s.last.Increment() ==>
      var r := Node(h, s.buffer - {h}, s.log + [s.buffer[h]]);
      Drain(s) == Drain(r) && Beyond(r) && |s.log| < |Drain(s).log| && Drain(s).log[|s.log|] == s.buffer[h]
    ensures Less(s.last.Increment(), h) ==> Drain(s) == s
  {
    if h == s.last.Increment() {
      var r := Node(h, s.buffer - {h}, s.log + [s.buffer[h]]);
      assert Beyond(r);
      DrainRun(r);
      assert r.log[|s.log|] == s.buffer[h];
    }
  }

  // ----- the implementation ------------------------------------------------

  class ReadNode {
    const cfg: Config
    var lastHeight: Height
    var buffered: map<Height, Value>
    var committed: seq<Value>

    ghost function State(): Node
      reads this
    {
      Node(lastHeight, buffered, committed)
    }

    ghost predicate Valid()
      reads this
    {
      && ValidConfig(cfg)
      && Settled(State())
      && |buffered| <= cfg.maxBuffered
    }

    constructor (cfg: Config, confirmed: Height)
      requires ValidConfig(cfg)
      ensures Valid() && this.cfg == cfg && State() == Node(confirmed, map[], [])
    {
      this.cfg := cfg;
      lastHeight, buffered, committed := confirmed, map[], [];
    }

    method CommitDecidedValue(v: Value, height: Height)
      requires v.kind == cfg.kind
      modifies this
      ensures State() == Node(height, old(buffered), old(committed) + [v])
    {
      committed := committed + [v];
      lastHeight := height;
    }

    method ProcessBufferedBlocks() returns (processed: nat)
      requires Beyond(State()) && RightKind(Drain(State()), |committed|, cfg.kind)
      modifies this
      ensures State() == Drain(old(State()))
      ensures processed == |committed| - |old(committed)|
    {
      processed := 0;
      var stopped := false;
      while buffered != map[] && !stopped
        invariant Beyond(State()) && |old(committed)| <= |committed|
        invariant Drain(State()) == Drain(old(State()))
        invariant stopped ==> State() == Drain(State())
        invariant processed == |committed| - |old(committed)|
        decreases !stopped, |buffered|
      {
        stopped := ProcessNext();
        processed := if stopped then processed else processed + 1;
      }
    }

    /** One turn of the loop. The popped height is never below the expected one, so it is committed, or
        put back and the loop left. */
    method ProcessNext() returns (stop: bool)
      requires Beyond(State()) && buffered != map[] && RightKind(Drain(State()), |committed|, cfg.kind)
      modifies this
      ensures Beyond(State()) && Drain(State()) == Drain(old(State()))
      ensures stop ==> State() == old(State()) == Drain(State())
      ensures !stop ==> |buffered| < |old(buffered)| && |committed| == |old(committed)| + 1
    {
      LessStrictTotal();
      var height := Least(buffered.Keys, Less);
      PopStep(State(), height);
      var value := buffered[height];
      assert buffered == (buffered - {height})[height := value];
      assert |(buffered - {height}).Keys| < |buffered.Keys|;
      buffered := buffered - {height};
      stop := false;
      if height == lastHeight.Increment() {
        CommitDecidedValue(value, height);
      } else if Less(lastHeight.Increment(), height) {
        buffered := buffered[height := value];
        stop := true;
      }
    }

    /** Committing a value of the wrong kind for the engine makes the source panic. */
    method ProcessDecidedValue(v: Value) returns (processed: nat)
      requires Valid()
      requires Checked(cfg, v) && v.height == lastHeight.Increment() ==>
        RightKind(Receive(cfg, State(), v), |committed|, cfg.kind)
      modifies this
      ensures Valid()
      ensures State() == Receive(cfg, old(State()), v)
      ensures processed == lastHeight.block - old(lastHeight).block == |committed| - |old(committed)|
    {
      var verified := VerifySignatures(v.commits, cfg.sets, cfg.shard, cfg.verify);
      if !verified {
        return 0;
      }
      if !VersionOk(cfg, v) {
        return 0;
      }
      processed := Place(v);
    }

    /** What becomes of a value that passed the checks. */
    method Place(v: Value) returns (processed: nat)
      requires Valid()
      requires v.height == lastHeight.Increment() ==>
        RightKind(Admit(State(), cfg.maxBuffered, v), |committed|, cfg.kind)
      modifies this
      ensures Valid()
      ensures State() == Admit(old(State()), cfg.maxBuffered, v)
      ensures processed == lastHeight.block - old(lastHeight).block == |committed| - |old(committed)|
    {
      var next := lastHeight.Increment();
      processed := 0;
      if Less(next, v.height) {
        if |buffered| % B.U32_LIMIT < cfg.maxBuffered {
          BufferKeeps(State(), cfg.maxBuffered, v);
          buffered := buffered[v.height := v];
        }
      } else if v.height == next {
        CommitDrains(State(), v);
        CommitDecidedValue(v, v.height);
        var more := ProcessBufferedBlocks();
        processed := more + 1;
      }
    }
  }

  lemma BufferKeeps(s: Node, limit: nat, v: Value)
    requires Settled(s) && |s.buffer| < limit && Less(s.last.Increment(), v.height)
    ensures Settled(s.(buffer := s.buffer[v.height := v])) && |s.buffer[v.height := v]| <= limit
  {
    assert s.buffer[v.height := v].Keys == s.buffer.Keys + {v.height};
  }

  lemma CommitDrains(s: Node, v: Value)
    requires Settled(s) && v.height == s.last.Increment()
    ensures var m := Node(v.height, s.buffer, s.log + [v]);
      && Beyond(m) && Settled(Drain(m)) && |Drain(m).buffer| <= |s.buffer|
      && s.log + [v] <= Drain(m).log && Drain(m).log[|s.log|] == v
      && Drain(m).last.block - s.last.block == |Drain(m).log| - |s.log|
  {
    var m := Node(v.height, s.buffer, s.log + [v]);
    DrainRun(m);
    DrainKeys(m);
    assert m.log[|s.log|] == v;
  }

  lemma DrainKeys(s: Node)
    requires Beyond(s)
    ensures Drain(s).buffer.Keys <= s.buffer.Keys && |Drain(s).buffer| <= |s.buffer|
    ensures forall h :: h in Drain(s).buffer ==> Drain(s).buffer[h] == s.buffer[h]
  {
    DrainRun(s);
    SubsetSize(Drain(s).buffer.Keys, s.buffer.Keys);
  }

  // ----- safety over every run ---------------------------------------------

  /** A delivery of any value, or a restart that keeps the engine and loses the buffer. */
  datatype Event = Deliver(v: Value) | Restart

  function Confirmed(start: Height, log: seq<Value>): Height {
    if log == [] then start else log[|log| - 1].height
  }

  function Start(start: Height): Node {
    Node(start, map[], [])
  }

  function Run(cfg: Config, start: Height, es: seq<Event>): Node
    requires ValidConfig(cfg)
  {
    if es == [] then Start(start)
    else
      var s := Run(cfg, start, es[..|es| - 1]);
      match es[|es| - 1]
      case Deliver(v) => Receive(cfg, s, v)
      case Restart => Node(Confirmed(start, s.log), map[], s.log)
  }

  /** The engine holds one value per height, without a hole, from `start` up to `last`. */
  predicate Consecutive(start: Height, s: Node) {
    && s.last == Height(start.shard, start.block + |s.log|)
    && forall i :: 0 <= i < |s.log| ==> s.log[i].height == Height(start.shard, start.block + 1 + i)
  }

  ghost predicate FromDeliveries(cfg: Config, es: seq<Event>, s: Node)
    requires ValidConfig(cfg)
  {
    && (forall v :: v in s.log ==> Deliver(v) in es && Checked(cfg, v))
    && (forall h :: h in s.buffer ==> Deliver(s.buffer[h]) in es && Checked(cfg, s.buffer[h]))
  }

  predicate Held(s: Node, x: Value) {
    x in s.log || exists h :: h in s.buffer && s.buffer[h] == x
  }

  lemma DrainedAt(s: Node, i: nat)
    requires Beyond(s) && i < |Drain(s).log|
    ensures var r := Drain(s);
      if i < |s.log| then r.log[i] == s.log[i]
      else var h := Height(s.last.shard, s.last.block + 1 + i - |s.log|);
        h in s.buffer && r.log[i] == s.buffer[h]
  {
    DrainRun(s);
    if i >= |s.log| {
      var b := s.last.block + 1 + i - |s.log|;
      assert Drain(s).log[|s.log| + b - s.last.block - 1] == s.buffer[Height(s.last.shard, b)];
    }
  }

  lemma DrainFront(s: Node)
    requires Beyond(s)
    ensures var r := Drain(s);
      && r.last.shard == s.last.shard && r.last.block >= s.last.block
      && (forall b :: s.last.block < b <= r.last.block ==> Height(s.last.shard, b) in s.buffer)
      && r.last.Increment() !in s.buffer
  {
    DrainRun(s);
  }

  lemma DrainedLength(s: Node)
    requires Beyond(s)
    ensures s.log <= Drain(s).log && Settled(Drain(s))
    ensures Drain(s).last == Height(s.last.shard, s.last.block + (|Drain(s).log| - |s.log|))
  {
    DrainRun(s);
  }

  lemma CommitKeeps(s: Node, start: Height, v: Value)
    requires Settled(s) && Consecutive(start, s) && v.height == s.last.Increment()
    ensures var r := Drain(Node(v.height, s.buffer, s.log + [v]));
      && Consecutive(start, r) && s.log <= r.log
      && (forall x :: x in r.log ==> Held(s, x) || x == v)
  {
    var m := Node(v.height, s.buffer, s.log + [v]);
    DrainedLength(m);
    var r := Drain(m);
    forall i | 0 <= i < |r.log|
      ensures r.log[i].height == Height(start.shard, start.block + 1 + i)
      ensures Held(s, r.log[i]) || r.log[i] == v
    {
      DrainedAt(m, i);
    }
  }

  lemma AdmitKeeps(s: Node, start: Height, limit: nat, v: Value)
    requires Settled(s) && Consecutive(start, s) && |s.buffer| <= limit
    ensures var r := Admit(s, limit, v);
      && Settled(r) && Consecutive(start, r) && |r.buffer| <= limit && s.log <= r.log
      && (forall x :: x in r.log ==> Held(s, x) || x == v)
      && (forall h :: h in r.buffer ==> r.buffer[h] == v || (h in s.buffer && r.buffer[h] == s.buffer[h]))
  {
    if Less(s.last.Increment(), v.height) {
      assert s.buffer[v.height := v].Keys == s.buffer.Keys + {v.height};
    } else if v.height == s.last.Increment() {
      var m := Node(v.height, s.buffer, s.log + [v]);
      DrainedLength(m);
      DrainKeys(m);
      CommitKeeps(s, start, v);
    }
  }

  /** Over every run, with stale, foreign, repeated, unverifiable or dropped values and with
      restarts: committed heights are consecutive, each committed once; the buffer stays beyond
      the gap and within its limit; and everything held was delivered and passed the checks. */
  lemma {:induction false} SafeRun(cfg: Config, start: Height, es: seq<Event>)
    requires ValidConfig(cfg)
    ensures var s := Run(cfg, start, es);
      Consecutive(start, s) && Settled(s) && |s.buffer| <= cfg.maxBuffered && FromDeliveries(cfg, es, s)
  {
    if es == [] {
    } else {
      var n := |es| - 1;
      SafeRun(cfg, start, es[..n]);
      var s, r := Run(cfg, start, es[..n]), Run(cfg, start, es);
      assert forall e :: e in es[..n] ==> e in es;
      if es[n].Deliver? && Checked(cfg, es[n].v) {
        AdmitKeeps(s, start, cfg.maxBuffered, es[n].v);
      }
    }
  }

  /** What the engine has committed is never taken back: later events only extend it. */
  lemma {:induction false} AppendOnly(cfg: Config, start: Height, es: seq<Event>, k: nat)
    requires ValidConfig(cfg) && k <= |es|
    ensures Run(cfg, start, es[..k]).log <= Run(cfg, start, es).log
    decreases |es|
  {
    if k < |es| {
      var n := |es| - 1;
      AppendOnly(cfg, start, es[..n], k);
      assert es[..n][..k] == es[..k];
      SafeRun(cfg, start, es[..n]);
      var s := Run(cfg, start, es[..n]);
      if es[n].Deliver? && Checked(cfg, es[n].v) {
        AdmitKeeps(s, start, cfg.maxBuffered, es[n].v);
      }
    } else {
      assert es[..k] == es;
    }
  }
}
