/** What a read node has committed and buffered, as a function of what was delivered to it. */
module Delivery {
  import opened Heights
  import opened ReadValidator

  // ----- the reference: what was delivered, and the longest unbroken run ----

  /** The most recent delivery for each height. */
  function Received(ds: seq<Value>): (m: map<Height, Value>)
    ensures forall h :: h in m ==> m[h].height == h
  {
    if ds == [] then map[] else Received(ds[..|ds| - 1])[ds[|ds| - 1].height := ds[|ds| - 1]]
  }

  predicate IsFrontier(start: Height, delivered: set<Height>, f: Height) {
    && f.shard == start.shard && start.block <= f.block
    && f.Increment() !in delivered
    && forall b :: start.block < b <= f.block ==> Height(start.shard, b) in delivered
  }

  /** The end of the longest unbroken run of delivered heights that starts right after `start`. */
  function Frontier(start: Height, delivered: set<Height>): (f: Height)
    ensures IsFrontier(start, delivered, f)
    decreases |delivered|
  {
    var next := start.Increment();
    if next in delivered then
      var rest := delivered - {next};
      assert |rest| < |delivered|;
      var f := Frontier(next, rest);
      assert forall b :: start.block < b <= f.block ==> b == next.block || Height(start.shard, b) in rest;
      f
    else start
  }

  lemma FrontierUnique(start: Height, delivered: set<Height>, f: Height)
    requires IsFrontier(start, delivered, f)
    ensures f == Frontier(start, delivered)
  {
    var g := Frontier(start, delivered);
    assert f.block < g.block ==> f.Increment() in delivered;
    assert g.block < f.block ==> g.Increment() in delivered;
  }

  function Reached(start: Height, ds: seq<Value>): Height {
    Frontier(start, Received(ds).Keys)
  }

  function Above(m: map<Height, Value>, f: Height): map<Height, Value> {
    map h | h in m && Less(f, h) :: m[h]
  }

  /** The latest delivery for every height beyond the run. */
  function Waiting(start: Height, ds: seq<Value>): map<Height, Value> {
    Above(Received(ds), Reached(start, ds))
  }

  function Span(m: map<Height, Value>, f: Height, g: Height): seq<Value>
    requires f.shard == g.shard && f.block <= g.block
    requires forall b :: f.block < b <= g.block ==> Height(f.shard, b) in m
  {
    seq(g.block - f.block, i requires 0 <= i < g.block - f.block =>
      assert Height(f.shard, f.block + 1 + i) in m; m[Height(f.shard, f.block + 1 + i)])
  }

  /** Each delivery settles the heights the run newly reaches, with the latest values at that moment. */
  function CommittedRun(start: Height, ds: seq<Value>): seq<Value> {
    if ds == [] then []
    else
      var before := ds[..|ds| - 1];
      ReachGrows(start, before, ds[|ds| - 1]);
      CommittedRun(start, before) + Span(Received(ds), Reached(start, before), Reached(start, ds))
  }

  function Reference(start: Height, ds: seq<Value>): Node {
    Node(Reached(start, ds), Waiting(start, ds), CommittedRun(start, ds))
  }

  lemma ReachGrows(start: Height, ds: seq<Value>, v: Value)
    ensures (ds + [v])[..|ds|] == ds
    ensures Received(ds + [v]) == Received(ds)[v.height := v]
    ensures Reached(start, ds).block <= Reached(start, ds + [v]).block
  {
    assert (ds + [v])[..|ds|] == ds;
    var f, g := Reached(start, ds), Reached(start, ds + [v]);
    assert g.block < f.block ==> g.Increment() in Received(ds);
  }

  /** The delivery would be dropped for a full buffer, and is not already what waits there. */
  predicate Overflows(start: Height, limit: nat, ds: seq<Value>, v: Value) {
    && Less(Reached(start, ds).Increment(), v.height)
    && |Waiting(start, ds)| >= limit
    && (v.height in Received(ds) ==> Received(ds)[v.height] != v)
  }

  function Delivered(start: Height, limit: nat, ds: seq<Value>): Node {
    if ds == [] then Start(start) else Admit(Delivered(start, limit, ds[..|ds| - 1]), limit, ds[|ds| - 1])
  }

  /** What becomes of a checked value, told by shards and blocks: one of a lower shard, or of the node's shard at
      or below its height, is dropped; the next one is committed, with what follows it; one of a higher
      shard, or further on in the node's shard, is buffered while there is room. */
  lemma AdmitCases(s: Node, limit: nat, v: Value)
    requires Settled(s)
    ensures v.height.shard < s.last.shard || (v.height.shard == s.last.shard && v.height.block <= s.last.block) ==>
      Admit(s, limit, v) == s
    ensures v.height.shard > s.last.shard || (v.height.shard == s.last.shard && v.height.block > s.last.block + 1) ==>
      Admit(s, limit, v) == if |s.buffer| < limit then Node(s.last, s.buffer[v.height := v], s.log) else s
    ensures v.height.shard == s.last.shard && v.height.block == s.last.block + 1 ==>
      s.log + [v] <= Admit(s, limit, v).log
  {
    if v.height.shard == s.last.shard && v.height.block == s.last.block + 1 {
      CommitDrains(s, v);
    }
  }

  // ----- one delivery ------------------------------------------------------

  lemma FrontierStays(start: Height, m: map<Height, Value>, v: Value)
    requires v.height != Frontier(start, m.Keys).Increment()
    ensures Frontier(start, m[v.height := v].Keys) == Frontier(start, m.Keys)
  {
    FrontierUnique(start, m[v.height := v].Keys, Frontier(start, m.Keys));
  }

  lemma StillStep(start: Height, limit: nat, ds: seq<Value>, v: Value)
    requires v.height != Reached(start, ds).Increment()
    ensures Admit(Reference(start, ds), limit, v) == Reference(start, ds + [v])
       <==> !Overflows(start, limit, ds, v)
  {
    var m, f := Received(ds), Reached(start, ds);
    ReachGrows(start, ds, v);
    FrontierStays(start, m, v);
    assert CommittedRun(start, ds + [v]) == CommittedRun(start, ds);
    StillBuffer(m, f, v);
  }

  lemma StillBuffer(m: map<Height, Value>, f: Height, v: Value)
    requires v.height != f.Increment() && f.Increment() !in m
    ensures Above(m[v.height := v], f)
         == if Less(f.Increment(), v.height) then Above(m, f)[v.height := v] else Above(m, f)
    ensures Less(f.Increment(), v.height) ==>
      (Above(m, f)[v.height := v] == Above(m, f) <==> v.height in m && m[v.height] == v)
  {
    if Less(f.Increment(), v.height) {
      assert v.height in Above(m, f)[v.height := v];
      if v.height in m && m[v.height] == v {
        assert Above(m, f)[v.height := v] == Above(m, f);
      }
    }
  }

  lemma NextStep(start: Height, limit: nat, ds: seq<Value>, v: Value)
    requires v.height == Reached(start, ds).Increment()
    ensures Admit(Reference(start, ds), limit, v) == Reference(start, ds + [v])
  {
    var m, f, log := Received(ds), Reached(start, ds), CommittedRun(start, ds);
    ReachGrows(start, ds, v);
    NextDrain(start, m, f, log, v);
  }

  lemma NextReach(start: Height, m: map<Height, Value>, f: Height, log: seq<Value>, v: Value)
    requires f == Frontier(start, m.Keys) && v.height == f.Increment()
    requires forall h :: h in m ==> m[h].height == h
    ensures Beyond(Node(v.height, Above(m, f), log + [v]))
    ensures Drain(Node(v.height, Above(m, f), log + [v])).last == Frontier(start, m[v.height := v].Keys)
  {
    var s := Node(v.height, Above(m, f), log + [v]);
    DrainFront(s);
    var last, delivered := Drain(s).last, m[v.height := v].Keys;
    forall b | start.block < b <= last.block ensures Height(start.shard, b) in delivered {
      if b > v.height.block {
        assert Height(s.last.shard, b) in s.buffer;
      } else if b <= f.block {
        assert Height(start.shard, b) in m.Keys;
      }
    }
    FrontierUnique(start, delivered, last);
  }

  lemma NextBuffer(start: Height, m: map<Height, Value>, f: Height, log: seq<Value>, v: Value)
    requires f == Frontier(start, m.Keys) && v.height == f.Increment()
    requires forall h :: h in m ==> m[h].height == h
    ensures var g, m' := Frontier(start, m[v.height := v].Keys), m[v.height := v];
      Drain(Node(v.height, Above(m, f), log + [v])).buffer == Above(m', g)
  {
    NextReach(start, m, f, log, v);
    DrainRun(Node(v.height, Above(m, f), log + [v]));
  }

  lemma NextLog(start: Height, m: map<Height, Value>, f: Height, log: seq<Value>, v: Value)
    requires f == Frontier(start, m.Keys) && v.height == f.Increment()
    requires forall h :: h in m ==> m[h].height == h
    ensures var g, m' := Frontier(start, m[v.height := v].Keys), m[v.height := v];
      f.block <= g.block && Drain(Node(v.height, Above(m, f), log + [v])).log == log + Span(m', f, g)
  {
    var s, m' := Node(v.height, Above(m, f), log + [v]), m[v.height := v];
    NextReach(start, m, f, log, v);
    DrainRun(s);
    var r, span := Drain(s), Span(m', f, Frontier(start, m'.Keys));
    assert |r.log| == |log| + |span|;
    forall i | 0 <= i < |r.log| ensures r.log[i] == (log + span)[i] {
      DrainedAt(s, i);
    }
  }

  lemma NextDrain(start: Height, m: map<Height, Value>, f: Height, log: seq<Value>, v: Value)
    requires f == Frontier(start, m.Keys) && v.height == f.Increment()
    requires forall h :: h in m ==> m[h].height == h
    ensures var g, m' := Frontier(start, m[v.height := v].Keys), m[v.height := v];
      f.block <= g.block
      && Drain(Node(v.height, Above(m, f), log + [v])) == Node(g, Above(m', g), log + Span(m', f, g))
  {
    NextReach(start, m, f, log, v);
    NextBuffer(start, m, f, log, v);
    NextLog(start, m, f, log, v);
  }

  // ----- every run ---------------------------------------------------------

  /** After every prefix of the deliveries the node is in the reference state. */
  predicate MirrorsThroughout(start: Height, limit: nat, ds: seq<Value>) {
    && Delivered(start, limit, ds) == Reference(start, ds)
    && (ds != [] ==> MirrorsThroughout(start, limit, ds[..|ds| - 1]))
  }

  predicate NeverOverflows(start: Height, limit: nat, ds: seq<Value>) {
    ds != [] ==>
      && NeverOverflows(start, limit, ds[..|ds| - 1])
      && !Overflows(start, limit, ds[..|ds| - 1], ds[|ds| - 1])
  }

  lemma NothingDelivered(start: Height, limit: nat)
    ensures Delivered(start, limit, []) == Reference(start, [])
  {
    assert Reached(start, []) == start;
    assert Waiting(start, []) == map[];
  }

  /** For deliveries in any order, with repeats and other shards' heights: after every prefix the
      node has committed exactly the longest unbroken run and buffers exactly the latest delivery
      for every height beyond it, if and only if no delivery overflows the buffer. */
  lemma {:induction false} LongestRun(start: Height, limit: nat, ds: seq<Value>)
    ensures MirrorsThroughout(start, limit, ds) <==> NeverOverflows(start, limit, ds)
  {
    if ds == [] {
      NothingDelivered(start, limit);
    } else {
      var es, v := ds[..|ds| - 1], ds[|ds| - 1];
      assert ds == es + [v];
      LongestRun(start, limit, es);
      if v.height == Reached(start, es).Increment() {
        NextStep(start, limit, es, v);
      } else {
        StillStep(start, limit, es, v);
      }
      assert v.height == Reached(start, es).Increment() ==> !Overflows(start, limit, es, v);
    }
  }

  // ----- values that fail the checks ---------------------------------------

  function Passing(cfg: Config, vs: seq<Value>): seq<Value>
    requires ValidConfig(cfg)
  {
    if vs == [] then []
    else Passing(cfg, vs[..|vs| - 1]) + (if Checked(cfg, vs[|vs| - 1]) then [vs[|vs| - 1]] else [])
  }

  function Deliveries(vs: seq<Value>): seq<Event> {
    seq(|vs|, i requires 0 <= i < |vs| => Deliver(vs[i]))
  }

  /** A node fed any values is in the state the passing values alone would have produced. */
  lemma {:induction false} OnlyPassingCount(cfg: Config, start: Height, vs: seq<Value>)
    requires ValidConfig(cfg)
    ensures Run(cfg, start, Deliveries(vs)) == Delivered(start, cfg.maxBuffered, Passing(cfg, vs))
  {
    if vs == [] {
    } else {
      var ws, v := vs[..|vs| - 1], vs[|vs| - 1];
      OnlyPassingCount(cfg, start, ws);
      assert Deliveries(vs)[..|ws|] == Deliveries(ws);
      if Checked(cfg, v) {
        assert Passing(cfg, vs)[..|Passing(cfg, ws)|] == Passing(cfg, ws);
      } else {
        assert Passing(cfg, vs) == Passing(cfg, ws);
      }
    }
  }
}
