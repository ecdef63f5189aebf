/** Two read nodes: what it takes for them to commit different values at one height. */
module Agreement {
  import opened Heights
  import opened Certificates
  import opened ReadValidator
  import B = Bytes
  import V = ValidatorSets

  /** The value's commits certify its own header height and hash. The node does not check this. */
  predicate Bound(v: Value) {
    v.commits.height == v.height && v.commits.value.hash == v.hash
  }

  ghost predicate SameValidators(a: Config, b: Config) {
    a.sets == b.sets && a.shard == b.shard && a.verify == b.verify && V.WellFormedSets(a.sets)
  }

  /** What passing the checks takes, in terms of the value and the validator set of its certificate's height. */
  ghost predicate Certified(cfg: Config, v: Value) {
    && (exists i: nat :: V.Decides(cfg.sets, i, cfg.shard, v.commits.height.block)
          && Quorum(v.commits, cfg.sets[i].validators, cfg.verify))
    && (v.kind == Kind.Block ==> v.version == cfg.protocolVersion(v.timestamp, v.chain))
  }

  lemma CheckedIff(cfg: Config, v: Value)
    requires ValidConfig(cfg) && V.WellFormedSets(cfg.sets)
    ensures Checked(cfg, v) <==> Certified(cfg, v)
  {
    V.ChosenDecides(cfg.sets, cfg.shard, v.commits.height.block);
    var i := V.Chosen(cfg.sets, cfg.shard, v.commits.height.block, |cfg.sets|);
    AcceptedByQuorum(v.commits, cfg.sets, cfg.shard, i, cfg.verify);
  }

  /** Over every run, everything a node commits was delivered with a quorum of the validator set of its
      certificate's height, and blocks with the protocol version of their time and chain. */
  lemma CommittedCertified(cfg: Config, start: Height, es: seq<Event>, v: Value)
    requires ValidConfig(cfg) && V.WellFormedSets(cfg.sets) && v in Run(cfg, start, es).log
    ensures Deliver(v) in es && Certified(cfg, v)
  {
    SafeRun(cfg, start, es);
    CheckedIff(cfg, v);
  }

  lemma NextReceived(cfg: Config, s: Node, v: Value)
    requires ValidConfig(cfg) && Settled(s) && v.height == s.last.Increment()
    requires forall w :: w in s.log ==> w.height != v.height
    ensures v in Receive(cfg, s, v).log <==> Checked(cfg, v)
  {
    if Checked(cfg, v) { CommitDrains(s, v); }
  }

  /** And the value a node waits for is committed on delivery if and only if it is so certified. */
  lemma NextCommittedIff(cfg: Config, start: Height, es: seq<Event>, v: Value)
    requires ValidConfig(cfg) && V.WellFormedSets(cfg.sets)
    requires v.height == Height(start.shard, start.block + |Run(cfg, start, es).log| + 1)
    ensures v in Run(cfg, start, es + [Deliver(v)]).log <==> Certified(cfg, v)
  {
    SafeRun(cfg, start, es);
    NextReceived(cfg, Run(cfg, start, es), v);
    assert (es + [Deliver(v)])[..|es|] == es;
    CheckedIff(cfg, v);
  }

  /** If two nodes with the same validator sets ever commit values with different hashes at one
      height, and each value is bound to its commits, then more than a third of the validators of
      that height precommitted both hashes. */
  lemma Divergence(a: Config, s: Height, es: seq<Event>, v: Value,
                   b: Config, t: Height, fs: seq<Event>, w: Value)
    requires ValidConfig(a) && ValidConfig(b) && SameValidators(a, b)
    requires v in Run(a, s, es).log && w in Run(b, t, fs).log
    requires v.height == w.height && v.hash != w.hash && Bound(v) && Bound(w)
    ensures v.commits.value != w.commits.value
    ensures exists i: nat, both ::
      && V.Decides(a.sets, i, a.shard, v.height.block)
      && PrecommittedBoth(both, V.Addresses(a.sets[i].validators), v.commits, w.commits, a.verify)
  {
    SafeRun(a, s, es);
    SafeRun(b, t, fs);
    V.ChosenDecides(a.sets, a.shard, v.height.block);
    var i := V.Chosen(a.sets, a.shard, v.height.block, |a.sets|);
    DecidingKeys(v.commits, a.sets, a.shard, i);
    DecidingKeys(w.commits, b.sets, b.shard, i);
    QuorumsIntersect(v.commits, w.commits, V.Addresses(a.sets[i].validators), a.verify);
  }

  /** Without a split vote of that size, nodes that commit the same height commit the same hash. */
  lemma Agree(a: Config, s: Height, es: seq<Event>, i: nat, b: Config, t: Height, fs: seq<Event>, j: nat)
    requires ValidConfig(a) && ValidConfig(b) && SameValidators(a, b)
    requires i < |Run(a, s, es).log| && j < |Run(b, t, fs).log|
    requires s.shard == t.shard && s.block + i == t.block + j
    requires Bound(Run(a, s, es).log[i]) && Bound(Run(b, t, fs).log[j])
    requires forall c: Commits, d: Commits, k: nat, both ::
      c.height == d.height && c.value.hash != d.value.hash && V.Decides(a.sets, k, a.shard, c.height.block) ==>
        !PrecommittedBoth(both, V.Addresses(a.sets[k].validators), c, d, a.verify)
    ensures Run(a, s, es).log[i].hash == Run(b, t, fs).log[j].hash
  {
    SafeRun(a, s, es);
    SafeRun(b, t, fs);
    var v, w := Run(a, s, es).log[i], Run(b, t, fs).log[j];
    if v.hash != w.hash {
      Divergence(a, s, es, v, b, t, fs, w);
    }
  }

  /** The checks read the commits, and for blocks the version fields, and nothing else of a value. */
  lemma ChecksIgnoreContent(cfg: Config, v: Value, height: Height, hash: B.Bytes, payload: B.Bytes)
    requires ValidConfig(cfg)
    ensures Checked(cfg, v) <==> Checked(cfg, v.(height := height, hash := hash, payload := payload))
  {
    var w := v.(height := height, hash := hash, payload := payload);
    assert VersionOk(cfg, v) <==> VersionOk(cfg, w);
  }

  /** So the binding is needed: for every certified next value there is another value with any
      other hash that a second node commits at the same height on the very same certificate. */
  lemma UnboundDivergence(cfg: Config, start: Height, v: Value, hash: B.Bytes)
    requires ValidConfig(cfg) && Checked(cfg, v) && v.height == start.Increment()
    ensures Run(cfg, start, [Deliver(v)]).log == [v]
    ensures Run(cfg, start, [Deliver(v.(hash := hash))]).log == [v.(hash := hash)]
  {
    var w := v.(hash := hash);
    ChecksIgnoreContent(cfg, v, v.height, hash, v.payload);
    assert w == v.(height := v.height, hash := hash, payload := v.payload);
    OneDelivery(cfg, start, v);
    OneDelivery(cfg, start, w);
  }

  lemma OneDelivery(cfg: Config, start: Height, v: Value)
    requires ValidConfig(cfg) && Checked(cfg, v) && v.height == start.Increment()
    ensures Run(cfg, start, [Deliver(v)]).log == [v]
  {
    assert Run(cfg, start, [Deliver(v)][..0]) == Start(start);
  }
}
