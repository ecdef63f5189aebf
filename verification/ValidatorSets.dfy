/** Validator sets: how a node builds the sorted list, which list governs a height,
    and who proposes. */
module ValidatorSets {
  import opened Options
  import opened Orders
  import B = Bytes

  /** The address is the validator's public key; every validator has voting power 1. */
  datatype Validator = Validator(shard: nat, address: B.Bytes, rpc: Option<B.Bytes>, since: nat)

  predicate RpcLess(a: Option<B.Bytes>, b: Option<B.Bytes>) {
    b.Some? && (a.None? || B.Less(a.value, b.value))
  }

  /** The derived order: field by field, in declaration order. */
  predicate Less(a: Validator, b: Validator) {
    || a.shard < b.shard
    || (a.shard == b.shard && B.Less(a.address, b.address))
    || (a.shard == b.shard && a.address == b.address && RpcLess(a.rpc, b.rpc))
    || (a.shard == b.shard && a.address == b.address && a.rpc == b.rpc && a.since < b.since)
  }

  lemma LessTotal(a: Validator, b: Validator)
    ensures !Less(a, a) && (a == b || Less(a, b) || Less(b, a))
  {
    B.LessTotal(a.address, a.address);
    B.LessTotal(a.address, b.address);
    if a.rpc.Some? && b.rpc.Some? { B.LessTotal(a.rpc.value, b.rpc.value); }
    if a.rpc.Some? { B.LessTotal(a.rpc.value, a.rpc.value); }
  }

  lemma RpcLessTransitive(a: Option<B.Bytes>, b: Option<B.Bytes>, c: Option<B.Bytes>)
    requires RpcLess(a, b) && RpcLess(b, c)
    ensures RpcLess(a, c)
  {
    if a.Some? { B.LessTransitive(a.value, b.value, c.value); }
  }

  lemma LessTransitive(a: Validator, b: Validator, c: Validator)
    requires Less(a, b) && Less(b, c)
    ensures Less(a, c)
  {
    if B.Less(a.address, b.address) && B.Less(b.address, c.address) {
      B.LessTransitive(a.address, b.address, c.address);
    }
    if RpcLess(a.rpc, b.rpc) && RpcLess(b.rpc, c.rpc) { RpcLessTransitive(a.rpc, b.rpc, c.rpc); }
  }

  lemma LessStrictTotal()
    ensures StrictTotal(Less)
  {
    forall a, b ensures !Less(a, a) && (a == b || Less(a, b) || Less(b, a)) { LessTotal(a, b); }
    forall a, b, c | Less(a, b) && Less(b, c) ensures Less(a, c) { LessTransitive(a, b, c); }
  }

  function Addresses(vs: seq<Validator>): (r: seq<B.Bytes>)
    ensures |r| == |vs| && forall i :: 0 <= i < |vs| ==> r[i] == vs[i].address
  {
    seq(|vs|, i requires 0 <= i < |vs| => vs[i].address)
  }

  predicate Exists(vs: seq<Validator>, address: B.Bytes) {
    exists i :: 0 <= i < |vs| && vs[i].address == address
  }

  /** One shard, and addresses strictly ascending: no address appears twice. */
  predicate WellFormed(vs: seq<Validator>) {
    && Ascending(Addresses(vs), B.Less)
    && forall i :: 0 <= i < |vs| ==> vs[i].shard == vs[0].shard
  }

  // ----- building a set ----------------------------------------------------

  function Added(vs: seq<Validator>, v: Validator): seq<Validator> {
    if !Exists(vs, v.address) && (vs == [] || vs[0].shard == v.shard) then
      LessStrictTotal();
      Sorted(Elements(vs + [v]), Less)
    else vs
  }

  function FromList(vs: seq<Validator>): seq<Validator> {
    if vs == [] then [] else Added(FromList(vs[..|vs| - 1]), vs[|vs| - 1])
  }

  class ValidatorSet {
    var validators: seq<Validator>

    constructor (vs: seq<Validator>)
      ensures validators == FromList(vs)
      ensures WellFormed(validators)
    {
      validators := [];
      new;
      for i := 0 to |vs|
        invariant validators == FromList(vs[..i]) && WellFormed(validators)
      {
        var _ := Add(vs[i]);
        assert vs[..i + 1][..i] == vs[..i];
      }
      assert vs[..|vs|] == vs;
    }

    /** Push and sort; a known address or another shard is refused. */
    method Add(v: Validator) returns (added: bool)
      requires WellFormed(validators)
      modifies this
      ensures WellFormed(validators)
      ensures validators == Added(old(validators), v)
      ensures added <==> v in validators && v !in old(validators)
    {
      AddedWellFormed(validators, v);
      if Exists(validators, v.address) {
        return false;
      }
      if validators == [] || validators[0].shard == v.shard {
        LessStrictTotal();
        validators := Sorted(Elements(validators + [v]), Less);
        added := true;
      } else {
        added := false;
      }
    }
  }

  lemma AddedWellFormed(vs: seq<Validator>, v: Validator)
    requires WellFormed(vs)
    ensures WellFormed(Added(vs, v))
    ensures forall x :: x in Added(vs, v) <==>
      x in vs || (x == v && !Exists(vs, v.address) && (vs == [] || vs[0].shard == v.shard))
  {
    if !Exists(vs, v.address) && (vs == [] || vs[0].shard == v.shard) {
      var r := Added(vs, v);
      assert Ascending(r, Less) && Elements(r) == Elements(vs + [v]);
      assert forall x :: x in r <==> x in Elements(r);
      assert forall x :: x in vs + [v] <==> x in Elements(vs + [v]);
      forall i, j | 0 <= i < j < |r| ensures B.Less(r[i].address, r[j].address) && r[i].shard == v.shard == r[j].shard {
        assert Less(r[i], r[j]);
        LessTotal(r[i], r[i]);
        DistinctAddresses(vs, v, r[i], r[j]);
      }
    } else if v in vs {
      assert Exists(vs, v.address);
    }
  }

  lemma DistinctAddresses(vs: seq<Validator>, v: Validator, a: Validator, b: Validator)
    requires WellFormed(vs) && !Exists(vs, v.address) && (vs == [] || vs[0].shard == v.shard)
    requires a in vs + [v] && b in vs + [v] && a != b
    ensures a.address != b.address && a.shard == b.shard == v.shard
  {
    if a in vs && b in vs {
      var i :| 0 <= i < |vs| && vs[i] == a;
      var j :| 0 <= j < |vs| && vs[j] == b;
      B.LessTotal(a.address, a.address);
      var addresses := Addresses(vs);
      assert if i < j then B.Less(addresses[i], addresses[j]) else B.Less(addresses[j], addresses[i]);
    }
  }

  lemma {:induction false} FromListWellFormed(vs: seq<Validator>)
    ensures WellFormed(FromList(vs))
    ensures forall x :: x in FromList(vs) ==> x in vs
    ensures vs != [] ==> vs[0] in FromList(vs)
  {
    if vs == [] {
    } else {
      var n := |vs| - 1;
      FromListWellFormed(vs[..n]);
      AddedWellFormed(FromList(vs[..n]), vs[n]);
      if n == 0 { assert FromList(vs[..n]) == []; }
    }
  }

  /** One shard, and equal addresses mean equal validators. */
  predicate Consistent(vs: seq<Validator>) {
    forall i, j :: 0 <= i < |vs| && 0 <= j < |vs| ==>
      vs[i].shard == vs[j].shard && (vs[i].address == vs[j].address ==> vs[i] == vs[j])
  }

  lemma {:induction false} ConsistentKeepsAll(vs: seq<Validator>)
    requires Consistent(vs)
    ensures forall x :: x in FromList(vs) <==> x in vs
  {
    FromListWellFormed(vs);
    if vs != [] {
      var n := |vs| - 1;
      ConsistentKeepsAll(vs[..n]);
      var r := FromList(vs[..n]);
      FromListWellFormed(vs[..n]);
      AddedWellFormed(r, vs[n]);
      if Exists(r, vs[n].address) {
        var i :| 0 <= i < |r| && r[i].address == vs[n].address;
        assert r[i] in vs[..n];
        assert r[i] == vs[n];
      } else if r != [] {
        assert r[0] in vs[..n];
      }
      assert forall x :: x in vs <==> x in vs[..n] || x == vs[n];
    }
  }

  lemma SameMembersSameSet(vs: seq<Validator>, ws: seq<Validator>)
    requires Consistent(vs) && forall x :: x in vs <==> x in ws
    ensures FromList(vs) == FromList(ws)
  {
    var a, b := FromList(vs), FromList(ws);
    assert Consistent(ws) by {
      forall i, j | 0 <= i < |ws| && 0 <= j < |ws|
        ensures ws[i].shard == ws[j].shard && (ws[i].address == ws[j].address ==> ws[i] == ws[j])
      {
        assert ws[i] in vs && ws[j] in vs;
      }
    }
    ConsistentKeepsAll(vs);
    ConsistentKeepsAll(ws);
    AscendingValidators(vs);
    AscendingValidators(ws);
    LessStrictTotal();
    AscendingUnique(a, b, Less);
  }

  lemma AscendingValidators(vs: seq<Validator>)
    ensures Ascending(FromList(vs), Less)
  {
    FromListWellFormed(vs);
    var r := FromList(vs);
    forall i, j | 0 <= i < j < |r| ensures Less(r[i], r[j]) {
      assert B.Less(Addresses(r)[i], Addresses(r)[j]);
    }
  }

  lemma MovedToFront(vs: seq<Validator>, i: nat) returns (ws: seq<Validator>)
    requires i < |vs|
    ensures multiset(ws) == multiset(vs) && ws != [] && ws[0] == vs[i]
  {
    ws := [vs[i]] + vs[..i] + vs[i + 1..];
    assert vs == vs[..i] + [vs[i]] + vs[i + 1..];
  }

  /** The list does not depend on the order in which validators are added exactly when the
      validators agree on the shard and no address comes with two different records. */
  lemma AnyOrder(vs: seq<Validator>)
    ensures (forall ws :: multiset(ws) == multiset(vs) ==> FromList(ws) == FromList(vs))
       <==> Consistent(vs)
  {
    if Consistent(vs) {
      forall ws | multiset(ws) == multiset(vs) ensures FromList(ws) == FromList(vs) {
        assert forall x :: (x in vs <==> x in multiset(vs)) && (x in ws <==> x in multiset(ws));
        SameMembersSameSet(vs, ws);
      }
    } else {
      var i, j :| 0 <= i < |vs| && 0 <= j < |vs| &&
        !(vs[i].shard == vs[j].shard && (vs[i].address == vs[j].address ==> vs[i] == vs[j]));
      var us := MovedToFront(vs, i);
      var ws := MovedToFront(vs, j);
      FromListWellFormed(us);
      FromListWellFormed(ws);
      if FromList(us) == FromList(ws) {
        SameSetMembers(FromList(us), vs[i], vs[j]);
      }
    }
  }

  lemma SameSetMembers(vs: seq<Validator>, a: Validator, b: Validator)
    requires WellFormed(vs) && a in vs && b in vs
    ensures a.shard == b.shard && (a.address == b.address ==> a == b)
  {
    B.LessStrictTotal();
    var i :| 0 <= i < |vs| && vs[i] == a;
    var j :| 0 <= j < |vs| && vs[j] == b;
    assert i != j ==> Addresses(vs)[i] != Addresses(vs)[j];
  }

  // ----- configured sets ---------------------------------------------------

  datatype SetConfig = SetConfig(effectiveAt: nat, keys: seq<B.Bytes>, shardIds: seq<nat>)

  datatype StoredSet = StoredSet(effectiveAt: nat, validators: seq<Validator>, shardIds: seq<nat>)

  ghost predicate WellFormedSets(sets: seq<StoredSet>) {
    forall i :: 0 <= i < |sets| ==> WellFormed(sets[i].validators)
  }

  function Configured(shard: nat, config: SetConfig): seq<Validator> {
    seq(|config.keys|, i requires 0 <= i < |config.keys| =>
      Validator(shard, config.keys[i], None, config.effectiveAt))
  }

  function NewStoredSet(shard: nat, config: SetConfig): StoredSet {
    StoredSet(config.effectiveAt, FromList(Configured(shard, config)), config.shardIds)
  }

  /** A configured set lists each configured key once, in ascending order, however the
      configuration orders or repeats them. */
  lemma ConfiguredKeys(shard: nat, config: SetConfig)
    ensures StrictTotal(B.Less)
    ensures Addresses(NewStoredSet(shard, config).validators) == Sorted(Elements(config.keys), B.Less)
  {
    B.LessStrictTotal();
    var vs := Configured(shard, config);
    ConsistentKeepsAll(vs);
    FromListWellFormed(vs);
    var r := FromList(vs);
    var a, s := Addresses(r), Sorted(Elements(config.keys), B.Less);
    forall x ensures x in a <==> x in s {
      if x in a {
        var i :| 0 <= i < |a| && a[i] == x;
        assert r[i] in vs;
        var j :| 0 <= j < |vs| && vs[j] == r[i];
        assert config.keys[j] == x;
      }
      if x in Elements(s) {
        var j :| 0 <= j < |config.keys| && config.keys[j] == x;
        assert vs[j] in r;
        var i :| 0 <= i < |r| && r[i] == vs[j];
        assert a[i] == x;
      }
      assert x in s <==> x in Elements(s);
    }
    AscendingUnique(a, s, B.Less);
  }

  // ----- which set governs a height ----------------------------------------

  predicate Eligible(c: StoredSet, shard: nat, height: nat) {
    shard in c.shardIds && c.effectiveAt <= height
  }

  /** Index of the set chosen after looking at the first `n` sets; the scan starts from set 0
      whether or not that set is eligible. */
  function Chosen(sets: seq<StoredSet>, shard: nat, height: nat, n: nat): (r: nat)
    requires n <= |sets| && sets != []
    ensures r < |sets|
  {
    if n == 0 then 0
    else
      var r := Chosen(sets, shard, height, n - 1);
      if Eligible(sets[n - 1], shard, height) && sets[n - 1].effectiveAt > sets[r].effectiveAt
      then n - 1 else r
  }

  function Governing(sets: seq<StoredSet>, shard: nat, height: nat): StoredSet
    requires sets != []
  {
    sets[Chosen(sets, shard, height, |sets|)]
  }

  method GetValidatorSet(sets: seq<StoredSet>, shard: nat, height: nat) returns (result: StoredSet)
    requires sets != []
    ensures result == Governing(sets, shard, height)
    ensures exists i: nat :: Decides(sets, i, shard, height) && result == sets[i]
  {
    ChosenDecides(sets, shard, height);
    result := sets[0];
    for i := 0 to |sets|
      invariant result == sets[Chosen(sets, shard, height, i)]
    {
      if Eligible(sets[i], shard, height) && sets[i].effectiveAt > result.effectiveAt {
        result := sets[i];
      }
    }
  }

  predicate InForce(c: StoredSet, sets: seq<StoredSet>, shard: nat, height: nat) {
    && Eligible(c, shard, height)
    && forall i :: 0 <= i < |sets| && Eligible(sets[i], shard, height) ==> sets[i].effectiveAt <= c.effectiveAt
  }

  lemma {:induction false} ChosenBounds(sets: seq<StoredSet>, shard: nat, height: nat, n: nat)
    requires n <= |sets| && sets != []
    ensures var r := Chosen(sets, shard, height, n);
      && (r == 0 || (Eligible(sets[r], shard, height) && sets[0].effectiveAt < sets[r].effectiveAt))
      && (forall i :: 0 <= i < n && Eligible(sets[i], shard, height) ==> sets[i].effectiveAt <= sets[r].effectiveAt)
  {
    if n == 0 {
    } else {
      ChosenBounds(sets, shard, height, n - 1);
    }
  }

  /** The chosen set is the shard's latest one in force exactly when the first configured set
      is itself in force for the shard or some set in force took effect later than it. */
  lemma GoverningInForce(sets: seq<StoredSet>, shard: nat, height: nat)
    requires sets != []
    ensures InForce(Governing(sets, shard, height), sets, shard, height)
       <==> (exists i :: 0 <= i < |sets| && Eligible(sets[i], shard, height)
                         && (i == 0 || sets[i].effectiveAt > sets[0].effectiveAt))
  {
    var r := Chosen(sets, shard, height, |sets|);
    ChosenBounds(sets, shard, height, |sets|);
    if i :| 0 <= i < |sets| && Eligible(sets[i], shard, height)
            && (i == 0 || sets[i].effectiveAt > sets[0].effectiveAt) {
      assert sets[i].effectiveAt <= sets[r].effectiveAt;
    }
  }

  /** Set `i` decides for a shard and height: no set named for the shard and effective by then took effect
      later; it is the first set, or such a set itself, effective later than the first and before any
      other of the same time in the list. */
  ghost predicate Decides(sets: seq<StoredSet>, i: nat, shard: nat, height: nat) {
    && i < |sets|
    && (i == 0 || (shard in sets[i].shardIds && sets[0].effectiveAt < sets[i].effectiveAt <= height))
    && (forall j :: 0 <= j < |sets| && shard in sets[j].shardIds && sets[j].effectiveAt <= height ==>
          || sets[j].effectiveAt < sets[i].effectiveAt
          || (sets[j].effectiveAt == sets[i].effectiveAt && (i == 0 || i <= j)))
  }

  lemma {:induction false} ChosenFirst(sets: seq<StoredSet>, shard: nat, height: nat, n: nat)
    requires n <= |sets| && sets != []
    ensures var r := Chosen(sets, shard, height, n);
      && (r == 0 || (r < n && shard in sets[r].shardIds && sets[0].effectiveAt < sets[r].effectiveAt <= height))
      && (forall j :: 0 <= j < n && shard in sets[j].shardIds && sets[j].effectiveAt <= height ==>
            || sets[j].effectiveAt < sets[r].effectiveAt
            || (sets[j].effectiveAt == sets[r].effectiveAt && (r == 0 || r <= j)))
  {
    if n == 0 {
    } else {
      ChosenFirst(sets, shard, height, n - 1);
    }
  }

  /** There is always exactly one deciding set, and it is the one chosen. */
  lemma ChosenDecides(sets: seq<StoredSet>, shard: nat, height: nat)
    requires sets != []
    ensures Decides(sets, Chosen(sets, shard, height, |sets|), shard, height)
    ensures forall i: nat :: Decides(sets, i, shard, height) ==> i == Chosen(sets, shard, height, |sets|)
  {
    ChosenFirst(sets, shard, height, |sets|);
  }

  // ----- proposer rotation -------------------------------------------------

  function Slot(n: nat, s: int): nat
    requires n > 0
  {
    s % n
  }

  function SelectProposer(vs: seq<Validator>, height: nat, round: nat): Validator
    requires vs != [] && height >= 1
  {
    vs[Slot(|vs|, height - 1 + round)]
  }

  lemma SlotUnique(n: nat, s: int, q: int, r: nat)
    requires r < n && s == q * n + r
    ensures Slot(n, s) == r
  {
    var d := s / n - q;
    assert d * n == r - s % n;
    assert d >= 1 ==> d * n >= n;
    assert d <= -1 ==> d * n + n <= 0;
  }

  /** Every window of n consecutive numbers meets every residue exactly once. */
  lemma ResidueOnce(n: nat, from: nat, i: nat) returns (s: nat)
    requires i < n
    ensures from <= s < from + n && Slot(n, s) == i
    ensures forall t :: from <= t < from + n && Slot(n, t) == i ==> t == s
  {
    var k, q := (i - from) % n, (i - from) / n;
    s := from + k;
    assert s == (-q) * n + i;
    SlotUnique(n, s, -q, i);
    forall t | from <= t < from + n && Slot(n, t) == i ensures t == s {
      SameSlot(n, s, t);
    }
  }

  lemma SameSlot(n: nat, s: nat, t: nat)
    requires n > 0 && t < s + n && s < t + n && Slot(n, s) == Slot(n, t)
    ensures s == t
  {
    var d := s / n - t / n;
    assert s - t == d * n;
    assert d >= 1 ==> d * n >= n;
    assert d <= -1 ==> d * n + n <= 0;
  }

  /** The validator after a position, in a circle. */
  function NextIn(vs: seq<Validator>, i: nat): Validator
    requires i < |vs|
  {
    if i + 1 < |vs| then vs[i + 1] else vs[0]
  }

  lemma NextSlot(n: nat, s: nat)
    requires n > 0
    ensures Slot(n, s + 1) == if Slot(n, s) + 1 < n then Slot(n, s) + 1 else 0
  {
    var q, r := s / n, s % n;
    if r + 1 < n {
      SlotUnique(n, s + 1, q, r + 1);
    } else {
      assert s + 1 == (q + 1) * n;
      SlotUnique(n, s + 1, q + 1, 0);
    }
  }

  /** The first validator by address proposes first, at height 1 in round 0; each further round and each
      further height passes the turn to the next validator of the list, in a circle. */
  lemma TurnPasses(vs: seq<Validator>, height: nat, round: nat, i: nat)
    requires WellFormed(vs) && i < |vs| && height >= 1 && SelectProposer(vs, height, round) == vs[i]
    ensures SelectProposer(vs, 1, 0) == vs[0]
    ensures SelectProposer(vs, height, round + 1) == NextIn(vs, i)
    ensures SelectProposer(vs, height + 1, round) == NextIn(vs, i)
  {
    var s := height - 1 + round;
    SameSetIndex(vs, Slot(|vs|, s), i);
    NextSlot(|vs|, s);
    SlotUnique(|vs|, 0, 0, 0);
  }

  lemma SameSetIndex(vs: seq<Validator>, i: nat, j: nat)
    requires WellFormed(vs) && i < |vs| && j < |vs| && vs[i] == vs[j]
    ensures i == j
  {
    B.LessTotal(Addresses(vs)[i], Addresses(vs)[j]);
  }

  ghost predicate ProposesOnceInRounds(vs: seq<Validator>, height: nat, round: nat, v: Validator)
    requires vs != [] && height >= 1
  {
    exists r :: round <= r < round + |vs| && SelectProposer(vs, height, r) == v
      && forall r' :: round <= r' < round + |vs| && SelectProposer(vs, height, r') == v ==> r' == r
  }

  ghost predicate ProposesOnceInHeights(vs: seq<Validator>, height: nat, round: nat, v: Validator)
    requires vs != [] && height >= 1
  {
    exists h :: height <= h < height + |vs| && SelectProposer(vs, h, round) == v
      && forall h' :: height <= h' < height + |vs| && SelectProposer(vs, h', round) == v ==> h' == h
  }

  /** Any |vs| consecutive rounds at one height, and any |vs| consecutive heights at one round,
      select every validator exactly once. */
  lemma FairRotation(vs: seq<Validator>, height: nat, round: nat, v: Validator)
    requires WellFormed(vs) && v in vs && height >= 1
    ensures ProposesOnceInRounds(vs, height, round, v)
    ensures ProposesOnceInHeights(vs, height, round, v)
  {
    var i :| 0 <= i < |vs| && vs[i] == v;
    forall j | 0 <= j < |vs| && vs[j] == v ensures j == i {
      B.LessTotal(Addresses(vs)[i], Addresses(vs)[j]);
    }
    var s := ResidueOnce(|vs|, height - 1 + round, i);
    assert SelectProposer(vs, height, s - height + 1) == v;
    forall r | round <= r < round + |vs| && SelectProposer(vs, height, r) == v ensures r == s - height + 1 {
      assert Slot(|vs|, height - 1 + r) == i;
    }
    assert SelectProposer(vs, s - round + 1, round) == v;
    forall h | height <= h < height + |vs| && SelectProposer(vs, h, round) == v ensures h == s - round + 1 {
      assert Slot(|vs|, h - 1 + round) == i;
    }
  }
}
