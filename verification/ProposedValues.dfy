/** The proposer's two maps of values under discussion: hashes by height, and values by hash. */
module ProposedValues {
  import opened Heights
  import opened Options
  import opened Orders
  import opened Certificates

  datatype Proposal = Proposal(height: Height, round: int, hash: ShardHash, body: Key)

  datatype Store = Store(byHeight: map<Height, seq<ShardHash>>, values: map<ShardHash, Proposal>)

  function Listed(s: Store, q: Height): seq<ShardHash> {
    if q in s.byHeight then s.byHeight[q] else []
  }

  function Add(s: Store, p: Proposal): Store {
    Store(s.byHeight[p.height := Listed(s, p.height) + [p.hash]], s.values[p.hash := p])
  }

  function ListedUpTo(s: Store, h: Height): set<ShardHash> {
    set q, i | q in s.byHeight && !Less(h, q) && 0 <= i < |s.byHeight[q]| :: s.byHeight[q][i]
  }

  function Decide(s: Store, h: Height): Store {
    Store(map q | q in s.byHeight && Less(h, q) :: s.byHeight[q], s.values - ListedUpTo(s, h))
  }

  class Values {
    var byHeight: map<Height, seq<ShardHash>>
    var values: map<ShardHash, Proposal>

    ghost function State(): Store
      reads this
    {
      Store(byHeight, values)
    }

    constructor ()
      ensures State() == Store(map[], map[])
    {
      byHeight, values := map[], map[];
    }

    method AddProposedValue(p: Proposal)
      modifies this
      ensures State() == Add(old(State()), p)
    {
      values := values[p.hash := p];
      if p.height in byHeight {
        byHeight := byHeight[p.height := byHeight[p.height] + [p.hash]];
      } else {
        assert [] + [p.hash] == [p.hash];
        byHeight := byHeight[p.height := [p.hash]];
      }
    }

    /** After any history a lookup finds the latest proposal of the hash that is not decided past,
        unless a decision at a lower height took it along; it never finds anything else. */
    method GetByShardHash(x: ShardHash, ghost ops: seq<Op>) returns (r: Option<Proposal>)
      requires State() == Run(ops)
      ensures r.Some? <==> x in Expected(ops) && !Lost(ops, x)
      ensures r.Some? ==> r.value == Expected(ops)[x]
    {
      LookupIff(ops, x);
      r := if x in values then Some(values[x]) else None;
    }

    method DecideHeight(h: Height)
      modifies this
      ensures State() == Decide(old(State()), h)
    {
      var toRemove := HeightsUpTo(byHeight, h);
      ghost var s := State();
      for i := 0 to |toRemove|
        invariant State() == Without(s, toRemove[..i])
      {
        WithoutNext(s, toRemove, i);
        RemoveHeight(toRemove[i]);
      }
      assert toRemove[..|toRemove|] == toRemove;
      AllListed(s, toRemove, h);
    }

    method RemoveHeight(q: Height)
      modifies this
      ensures byHeight == old(byHeight) - {q}
      ensures values == old(values) - Elements(Listed(old(State()), q))
    {
      if q in byHeight {
        var hashes := byHeight[q];
        byHeight := byHeight - {q};
        Forget(hashes);
      }
    }

    method Forget(hashes: seq<ShardHash>)
      modifies this`values
      ensures values == old(values) - Elements(hashes)
    {
      for k := 0 to |hashes|
        invariant values == old(values) - Elements(hashes[..k])
      {
        values := values - {hashes[k]};
        assert Elements(hashes[..k + 1]) == Elements(hashes[..k]) + {hashes[k]};
      }
      assert hashes[..|hashes|] == hashes;
    }
  }

  /** The hashes listed under some heights. */
  function HashesAt(s: Store, heights: seq<Height>): set<ShardHash> {
    if heights == [] then {}
    else HashesAt(s, heights[..|heights| - 1]) + Elements(Listed(s, heights[|heights| - 1]))
  }

  function Without(s: Store, heights: seq<Height>): Store {
    Store(s.byHeight - Elements(heights), s.values - HashesAt(s, heights))
  }

  lemma WithoutNext(s: Store, heights: seq<Height>, i: nat)
    requires Ascending(heights, Less) && i < |heights|
    ensures var before, after := Without(s, heights[..i]), Without(s, heights[..i + 1]);
      && after.byHeight == before.byHeight - {heights[i]}
      && after.values == before.values - Elements(Listed(before, heights[i]))
  {
    assert heights[..i + 1][..i] == heights[..i];
    assert Elements(heights[..i + 1]) == Elements(heights[..i]) + {heights[i]};
    assert forall j :: 0 <= j < i ==> Less(heights[j], heights[i]);
  }

  lemma {:induction false} HashAt(s: Store, heights: seq<Height>, x: ShardHash)
    ensures x in HashesAt(s, heights) <==> exists q :: q in heights && x in Listed(s, q)
  {
    if heights == [] {
    } else {
      var k := |heights| - 1;
      HashAt(s, heights[..k], x);
      assert heights[k] in heights;
      assert forall q :: q in heights <==> q in heights[..k] || q == heights[k];
    }
  }

  lemma AllListed(s: Store, heights: seq<Height>, h: Height)
    requires Elements(heights) == set q | q in s.byHeight && !Less(h, q)
    ensures HashesAt(s, heights) == ListedUpTo(s, h)
  {
    forall x ensures x in HashesAt(s, heights) <==> x in ListedUpTo(s, h) {
      HashAt(s, heights, x);
      assert forall q :: q in heights <==> q in Elements(heights);
      if x in ListedUpTo(s, h) {
        var q, k :| q in s.byHeight && !Less(h, q) && 0 <= k < |s.byHeight[q]| && s.byHeight[q][k] == x;
        assert q in heights && x in Listed(s, q);
      }
      if q :| q in heights && x in Listed(s, q) {
        var k :| 0 <= k < |s.byHeight[q]| && s.byHeight[q][k] == x;
      }
    }
  }

  /** Ascending traversal of the map's keys, stopped at the first height above `h`. */
  method HeightsUpTo(byHeight: map<Height, seq<ShardHash>>, h: Height) returns (r: seq<Height>)
    ensures Elements(r) == set q | q in byHeight && !Less(h, q)
    ensures Ascending(r, Less)
  {
    var order := InOrder(byHeight.Keys);
    r := [];
    for i := 0 to |order|
      invariant r == order[..i] && forall j :: 0 <= j < i ==> !Less(h, order[j])
    {
      if Less(h, order[i]) {
        CutAt(order, i, h);
        return;
      }
      r := r + [order[i]];
    }
    CutAt(order, |order|, h);
  }

  lemma CutAt(order: seq<Height>, i: nat, h: Height)
    requires Ascending(order, Less) && i <= |order|
    requires forall j :: 0 <= j < i ==> !Less(h, order[j])
    requires i < |order| ==> Less(h, order[i])
    ensures Ascending(order[..i], Less)
    ensures Elements(order[..i]) == set q | q in Elements(order) && !Less(h, q)
  {
    forall q | q in Elements(order) && !Less(h, q) ensures q in order[..i] {
      var j :| 0 <= j < |order| && order[j] == q;
      assert i < j ==> Less(order[i], order[j]);
      assert order[..i][j] == q;
    }
  }

  // ----- every sequence of proposals and decisions -------------------------

  datatype Op = Propose(p: Proposal) | DecideAt(h: Height)

  function Run(ops: seq<Op>): Store {
    if ops == [] then Store(map[], map[])
    else match ops[|ops| - 1]
      case Propose(p) => Add(Run(ops[..|ops| - 1]), p)
      case DecideAt(h) => Decide(Run(ops[..|ops| - 1]), h)
  }

  /** The hash was proposed at `q`, and no decision since has reached `q`. */
  predicate Open(ops: seq<Op>, x: ShardHash, q: Height) {
    ops != [] &&
    match ops[|ops| - 1]
    case Propose(p) => (p.hash == x && p.height == q) || Open(ops[..|ops| - 1], x, q)
    case DecideAt(h) => Less(h, q) && Open(ops[..|ops| - 1], x, q)
  }

  lemma {:induction false} ListedIffOpen(ops: seq<Op>, x: ShardHash, q: Height)
    ensures x in Listed(Run(ops), q) <==> Open(ops, x, q)
  {
    if ops == [] {
    } else {
      ListedIffOpen(ops[..|ops| - 1], x, q);
    }
  }

  /** The two maps agree after every sequence of proposals and decisions: a stored value is filed
      under its own hash, and its hash is listed under its own height. */
  lemma {:induction false} MapsAgree(ops: seq<Op>)
    ensures forall x :: x in Run(ops).values ==>
      Run(ops).values[x].hash == x && x in Listed(Run(ops), Run(ops).values[x].height)
  {
    if ops == [] {
    } else {
      MapsAgree(ops[..|ops| - 1]);
      var s, r := Run(ops[..|ops| - 1]), Run(ops);
      forall x | x in r.values ensures r.values[x].hash == x && x in Listed(r, r.values[x].height) {
        match ops[|ops| - 1]
        case Propose(p) =>
        case DecideAt(h) =>
          var q := s.values[x].height;
          var i :| 0 <= i < |Listed(s, q)| && Listed(s, q)[i] == x;
          assert x !in ListedUpTo(s, h);
      }
    }
  }

  /** After a decision neither map holds anything at or below it. */
  lemma NothingLeftBelow(ops: seq<Op>, h: Height)
    ensures forall q :: q in Run(ops + [DecideAt(h)]).byHeight ==> Less(h, q)
    ensures forall x :: x in Run(ops + [DecideAt(h)]).values ==> Less(h, Run(ops + [DecideAt(h)]).values[x].height)
  {
    assert (ops + [DecideAt(h)])[..|ops|] == ops;
    MapsAgree(ops + [DecideAt(h)]);
  }

  /** Reference: the last proposal of each hash, until a decision reaches its height. */
  function Expected(ops: seq<Op>): (m: map<ShardHash, Proposal>) {
    if ops == [] then map[]
    else
      var m := Expected(ops[..|ops| - 1]);
      match ops[|ops| - 1]
      case Propose(p) => m[p.hash := p]
      case DecideAt(h) => map x | x in m && Less(h, m[x].height) :: m[x]
  }

  /** A decision at `h` meets a hash that is wanted above `h` and still open at or below it. */
  ghost predicate Collides(ops: seq<Op>, h: Height) {
    exists x, q :: Open(ops, x, q) && !Less(h, q) && x in Expected(ops) && Less(h, Expected(ops)[x].height)
  }

  ghost predicate NeverCollides(ops: seq<Op>) {
    ops != [] ==>
      && NeverCollides(ops[..|ops| - 1])
      && (ops[|ops| - 1].DecideAt? ==> !Collides(ops[..|ops| - 1], ops[|ops| - 1].h))
  }

  predicate FoundThroughout(ops: seq<Op>) {
    && Run(ops).values == Expected(ops)
    && (ops != [] ==> FoundThroughout(ops[..|ops| - 1]))
  }

  lemma DecideStep(ops: seq<Op>, h: Height)
    requires Run(ops).values == Expected(ops)
    ensures Decide(Run(ops), h).values
         == (map x | x in Expected(ops) && Less(h, Expected(ops)[x].height) :: Expected(ops)[x])
       <==> !Collides(ops, h)
  {
    var s, m := Run(ops), Expected(ops);
    var kept := map x | x in m && Less(h, m[x].height) :: m[x];
    MapsAgree(ops);
    forall x | x in m ensures x in ListedUpTo(s, h) <==> exists q :: Open(ops, x, q) && !Less(h, q) {
      ListedUpToIff(ops, x, h);
    }
    forall x | x in m ensures Open(ops, x, m[x].height) {
      ListedIffOpen(ops, x, m[x].height);
    }
    if !Collides(ops, h) {
      assert Decide(s, h).values == kept;
    } else {
      var x, q :| Open(ops, x, q) && !Less(h, q) && x in m && Less(h, m[x].height);
      assert x in kept && x !in Decide(s, h).values;
    }
  }

  /** After every prefix the store finds exactly the values not yet decided past, if and only if
      no decision meets a hash that is open both at or below and above the decided height. */
  lemma {:induction false} FoundIff(ops: seq<Op>)
    ensures FoundThroughout(ops) <==> NeverCollides(ops)
  {
    if ops == [] {
    } else {
      var before := ops[..|ops| - 1];
      FoundIff(before);
      if Run(before).values == Expected(before) && ops[|ops| - 1].DecideAt? {
        DecideStep(before, ops[|ops| - 1].h);
      }
    }
  }

  /** Some decision since the last proposal of the hash found it open at or below the decided height. */
  ghost predicate Lost(ops: seq<Op>, x: ShardHash) {
    ops != [] &&
    match ops[|ops| - 1]
    case Propose(p) => p.hash != x && Lost(ops[..|ops| - 1], x)
    case DecideAt(h) => Lost(ops[..|ops| - 1], x) || exists q :: Open(ops[..|ops| - 1], x, q) && !Less(h, q)
  }

  lemma ListedUpToIff(ops: seq<Op>, x: ShardHash, h: Height)
    ensures x in ListedUpTo(Run(ops), h) <==> exists q :: Open(ops, x, q) && !Less(h, q)
  {
    var s := Run(ops);
    if q :| Open(ops, x, q) && !Less(h, q) {
      ListedIffOpen(ops, x, q);
      var i :| 0 <= i < |Listed(s, q)| && Listed(s, q)[i] == x;
      assert s.byHeight[q][i] == x;
    }
    if x in ListedUpTo(s, h) {
      var q, i :| q in s.byHeight && !Less(h, q) && 0 <= i < |s.byHeight[q]| && s.byHeight[q][i] == x;
      ListedIffOpen(ops, x, q);
      assert x in Listed(s, q);
    }
  }

  /** For every history and every hash: what is found, and exactly when it is. */
  lemma {:induction false} LookupIff(ops: seq<Op>, x: ShardHash)
    ensures x in Run(ops).values <==> x in Expected(ops) && !Lost(ops, x)
    ensures x in Run(ops).values ==> Run(ops).values[x] == Expected(ops)[x]
  {
    if ops == [] {
    } else {
      var before := ops[..|ops| - 1];
      LookupIff(before, x);
      match ops[|ops| - 1]
      case Propose(p) =>
      case DecideAt(h) =>
        ListedUpToIff(before, x, h);
        MapsAgree(before);
        if x in Run(before).values {
          var q := Run(before).values[x].height;
          ListedIffOpen(before, x, q);
          assert Less(h, q) || Open(before, x, q);
        }
    }
  }

  ghost predicate OneHeightPerHash(ops: seq<Op>) {
    forall i, j ::
      0 <= i < |ops| && 0 <= j < |ops| && ops[i].Propose? && ops[j].Propose? && ops[i].p.hash == ops[j].p.hash
      ==> ops[i].p.height == ops[j].p.height
  }

  lemma {:induction false} OpenProposed(ops: seq<Op>, x: ShardHash, q: Height)
    requires Open(ops, x, q)
    ensures exists i :: 0 <= i < |ops| && ops[i].Propose? && ops[i].p.hash == x && ops[i].p.height == q
  {
    var n := |ops| - 1;
    if !(ops[n].Propose? && ops[n].p.hash == x && ops[n].p.height == q) {
      OpenProposed(ops[..n], x, q);
      var i :| 0 <= i < n && ops[..n][i].Propose? && ops[..n][i].p.hash == x && ops[..n][i].p.height == q;
      assert ops[i] == ops[..n][i];
    }
  }

  lemma {:induction false} ExpectedProposed(ops: seq<Op>, x: ShardHash)
    requires x in Expected(ops)
    ensures exists i :: 0 <= i < |ops| && ops[i] == Propose(Expected(ops)[x]) && ops[i].p.hash == x
  {
    var n := |ops| - 1;
    if !(ops[n].Propose? && ops[n].p.hash == x) {
      ExpectedProposed(ops[..n], x);
      var i :| 0 <= i < n && ops[..n][i] == Propose(Expected(ops[..n])[x]) && ops[..n][i].p.hash == x;
      assert ops[i] == ops[..n][i];
    }
  }

  /** In particular nothing is lost when each hash is proposed at only one height. */
  lemma {:induction false} OneHeightFound(ops: seq<Op>)
    requires OneHeightPerHash(ops)
    ensures FoundThroughout(ops)
  {
    FoundIff(ops);
    if ops != [] {
      var before := ops[..|ops| - 1];
      assert OneHeightPerHash(before);
      OneHeightFound(before);
      FoundIff(before);
      if ops[|ops| - 1].DecideAt? {
        var h := ops[|ops| - 1].h;
        forall x, q | Open(before, x, q) && x in Expected(before) ensures Expected(before)[x].height == q {
          OpenProposed(before, x, q);
          ExpectedProposed(before, x);
        }
      }
    }
  }

  /** A value proposed again at a later height is lost when its first height is decided. */
  lemma ReproposedValueLost(p: Proposal)
    ensures var again := p.(height := p.height.Increment());
      var ops := [Propose(p), Propose(again), DecideAt(p.height)];
      p.hash in Expected(ops) && p.hash !in Run(ops).values
  {
    var again := p.(height := p.height.Increment());
    var ops := [Propose(p), Propose(again), DecideAt(p.height)];
    assert ops[..2] == [Propose(p), Propose(again)] && ops[..2][..1] == [Propose(p)] && ops[..2][..1][..0] == [];
    assert Open([Propose(p)], p.hash, p.height);
    assert Open(ops[..2], p.hash, p.height);
    ListedIffOpen(ops[..2], p.hash, p.height);
    var s := Run(ops[..2]);
    var i :| 0 <= i < |Listed(s, p.height)| && Listed(s, p.height)[i] == p.hash;
    assert s.byHeight[p.height][i] in ListedUpTo(s, p.height);
  }
}
