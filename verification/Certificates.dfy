/** Commit certificates: which sets of precommit signatures a node accepts for a value,
    and what two accepted certificates have in common. */
module Certificates {
  import opened Heights
  import opened Orders
  import B = Bytes
  import V = ValidatorSets

  type Key = B.Bytes

  type Signature = B.Bytes

  datatype ShardHash = ShardHash(shard: nat, hash: B.Bytes)

  datatype Precommit = Precommit(height: Height, round: int, value: ShardHash, voter: Key)

  datatype CommitSignature = CommitSignature(signer: Key, signature: Signature)

  datatype Commits = Commits(height: Height, round: int, value: ShardHash, signatures: seq<CommitSignature>)

  /** Ed25519 verification of a vote under a public key; nothing is assumed about it. */
  type Verifier = (Key, Precommit, Signature) -> bool

  function Signers(c: Commits): (r: seq<Key>)
    ensures |r| == |c.signatures| && forall i :: 0 <= i < |r| ==> r[i] == c.signatures[i].signer
  {
    seq(|c.signatures|, i requires 0 <= i < |c.signatures| => c.signatures[i].signer)
  }

  predicate Signed(c: Commits, i: nat, verify: Verifier)
    requires i < |c.signatures|
  {
    var s := c.signatures[i];
    verify(s.signer, Precommit(c.height, c.round, c.value, s.signer), s.signature)
  }

  /** Every signer is found by searching on from where the previous search stopped. */
  predicate FoundInTurn(signers: seq<Key>, keys: seq<Key>)
    decreases |keys|
  {
    signers == [] ||
    (keys != [] && FoundInTurn(if signers[0] == keys[0] then signers[1..] else signers, keys[1..]))
  }

  predicate Accepted(c: Commits, keys: seq<Key>, verify: Verifier) {
    && 3 * |c.signatures| > 2 * |keys|
    && FoundInTurn(Signers(c), keys)
    && forall i :: 0 <= i < |c.signatures| ==> Signed(c, i, verify)
  }

  function ExpectedKeys(c: Commits, sets: seq<V.StoredSet>, shard: nat): seq<Key>
    requires sets != []
  {
    V.Addresses(V.Governing(sets, shard, c.height.block).validators)
  }

  /** More than two thirds of some validators signed: in ascending order, hence each once, all of them
      members, each with a verified precommit for the certificate's height, round and value. */
  ghost predicate Quorum(c: Commits, vs: seq<V.Validator>, verify: Verifier) {
    3 * |c.signatures| > 2 * |vs| && InTurn(c) && Among(c, vs) && Verified(c, verify)
  }

  ghost predicate InTurn(c: Commits) {
    forall i, j :: 0 <= i < j < |c.signatures| ==> B.Less(c.signatures[i].signer, c.signatures[j].signer)
  }

  ghost predicate Among(c: Commits, vs: seq<V.Validator>) {
    forall i :: 0 <= i < |c.signatures| ==> V.Exists(vs, c.signatures[i].signer)
  }

  ghost predicate Verified(c: Commits, verify: Verifier) {
    forall i :: 0 <= i < |c.signatures| ==>
      verify(c.signatures[i].signer, Precommit(c.height, c.round, c.value, c.signatures[i].signer),
             c.signatures[i].signature)
  }

  /** The consuming `contains` of an iterator over `keys` that already stands at `pos`. */
  method Contains(keys: seq<Key>, pos: nat, key: Key) returns (found: bool, next: nat)
    requires pos <= |keys|
    ensures pos <= next <= |keys|
    ensures found ==> pos < next && keys[next - 1] == key && key !in keys[pos..next - 1]
    ensures !found ==> next == |keys| && key !in keys[pos..]
  {
    next := pos;
    while next < |keys|
      invariant pos <= next <= |keys| && key !in keys[pos..next]
    {
      next := next + 1;
      if keys[next - 1] == key {
        return true, next;
      }
      assert keys[pos..next] == keys[pos..next - 1] + [keys[next - 1]];
    }
    found := false;
  }

  method VerifySignatures(c: Commits, sets: seq<V.StoredSet>, shard: nat, verify: Verifier) returns (ok: bool)
    requires sets != []
    ensures ok <==> Accepted(c, ExpectedKeys(c, sets, shard), verify)
    ensures forall i: nat :: V.Decides(sets, i, shard, c.height.block) && V.WellFormed(sets[i].validators) ==>
      (ok <==> Quorum(c, sets[i].validators, verify))
  {
    forall i: nat | V.Decides(sets, i, shard, c.height.block) && V.WellFormed(sets[i].validators)
      ensures Accepted(c, ExpectedKeys(c, sets, shard), verify) <==> Quorum(c, sets[i].validators, verify)
    {
      AcceptedByQuorum(c, sets, shard, i, verify);
    }
    ok := SearchSignatures(c, sets, shard, verify);
  }

  method SearchSignatures(c: Commits, sets: seq<V.StoredSet>, shard: nat, verify: Verifier) returns (ok: bool)
    requires sets != []
    ensures ok <==> Accepted(c, ExpectedKeys(c, sets, shard), verify)
  {
    var validatorSet := V.GetValidatorSet(sets, shard, c.height.block);
    var keys := V.Addresses(validatorSet.validators);
    if !(3 * |c.signatures| > 2 * |keys|) {
      return false;
    }
    var signers := Signers(c);
    var pos := 0;
    for i := 0 to |c.signatures|
      invariant pos <= |keys|
      invariant FoundInTurn(signers, keys) <==> FoundInTurn(signers[i..], keys[pos..])
      invariant forall j :: 0 <= j < i ==> Signed(c, j, verify)
    {
      var found, next := Contains(keys, pos, signers[i]);
      SearchFrom(signers, i, keys, pos, found, next);
      if !found {
        return false;
      }
      pos := next;
      if !Signed(c, i, verify) {
        return false;
      }
    }
    ok := true;
  }

  lemma {:induction false} SearchStep(signers: seq<Key>, keys: seq<Key>, skip: nat)
    requires signers != [] && skip <= |keys| && signers[0] !in keys[..skip]
    ensures skip == |keys| ==> !FoundInTurn(signers, keys)
    ensures skip < |keys| && keys[skip] == signers[0] ==>
      (FoundInTurn(signers, keys) <==> FoundInTurn(signers[1..], keys[skip + 1..]))
  {
    if skip == 0 {
    } else {
      assert keys[..skip][0] == keys[0];
      assert keys[1..][..skip - 1] == keys[..skip][1..];
      SearchStep(signers, keys[1..], skip - 1);
      assert skip < |keys| ==> keys[1..][skip..] == keys[skip + 1..];
    }
  }

  lemma SearchFrom(signers: seq<Key>, i: nat, keys: seq<Key>, pos: nat, found: bool, next: nat)
    requires i < |signers| && pos <= next <= |keys|
    requires found ==> pos < next && keys[next - 1] == signers[i] && signers[i] !in keys[pos..next - 1]
    requires !found ==> next == |keys| && signers[i] !in keys[pos..]
    ensures !found ==> !FoundInTurn(signers[i..], keys[pos..])
    ensures found ==> (FoundInTurn(signers[i..], keys[pos..]) <==> FoundInTurn(signers[i + 1..], keys[next..]))
  {
    var rest := keys[pos..];
    assert signers[i..][1..] == signers[i + 1..];
    if found {
      assert rest[..next - 1 - pos] == keys[pos..next - 1] && rest[next - pos..] == keys[next..];
      SearchStep(signers[i..], rest, next - 1 - pos);
    } else {
      assert rest[..|rest|] == rest;
      SearchStep(signers[i..], rest, |rest|);
    }
  }

  // ----- what acceptance means ---------------------------------------------

  lemma {:induction false} FoundMembers(signers: seq<Key>, keys: seq<Key>)
    requires StrictTotal(B.Less) && Ascending(keys, B.Less)
    ensures FoundInTurn(signers, keys) ==> Ascending(signers, B.Less) && forall x :: x in signers ==> x in keys
    decreases |keys|
  {
    if signers != [] && keys != [] {
      var rest := if signers[0] == keys[0] then signers[1..] else signers;
      FoundMembers(rest, keys[1..]);
      if FoundInTurn(signers, keys) {
        assert forall x :: x in signers ==> x == signers[0] || x in signers[1..];
        assert forall x :: x in keys[1..] ==> x in keys;
        if signers[0] == keys[0] {
          assert forall i :: 1 <= i < |signers| ==> signers[i] == rest[i - 1] && rest[i - 1] in keys[1..];
        }
      }
    }
  }

  lemma {:induction false} AscendingFound(signers: seq<Key>, keys: seq<Key>)
    requires StrictTotal(B.Less) && Ascending(keys, B.Less)
    requires Ascending(signers, B.Less) && forall x :: x in signers ==> x in keys
    ensures FoundInTurn(signers, keys)
    decreases |keys|
  {
    if signers == [] {
    } else {
      assert signers[0] in keys;
      var rest := if signers[0] == keys[0] then signers[1..] else signers;
      forall x | x in rest ensures x in keys[1..] {
        var i :| 0 <= i < |rest| && rest[i] == x;
        assert x in signers && x in keys;
        assert x != keys[0];
        AscendingTail(keys, B.Less, x);
      }
      AscendingFound(rest, keys[1..]);
    }
  }

  /** Against a sorted validator list, a certificate is accepted exactly when its signers are
      members in strictly ascending order, hence distinct, number more than two thirds of the
      list, and all signed a precommit for its value. */
  lemma AcceptedIff(c: Commits, keys: seq<Key>, verify: Verifier)
    requires Ascending(keys, B.Less)
    ensures Accepted(c, keys, verify) <==>
      && 3 * |c.signatures| > 2 * |keys|
      && Ascending(Signers(c), B.Less)
      && (forall x :: x in Signers(c) ==> x in keys)
      && (forall i :: 0 <= i < |c.signatures| ==> Signed(c, i, verify))
  {
    B.LessStrictTotal();
    FoundMembers(Signers(c), keys);
    if Ascending(Signers(c), B.Less) && forall x :: x in Signers(c) ==> x in keys {
      AscendingFound(Signers(c), keys);
    }
  }

  lemma DecidingKeys(c: Commits, sets: seq<V.StoredSet>, shard: nat, i: nat)
    requires V.Decides(sets, i, shard, c.height.block)
    ensures ExpectedKeys(c, sets, shard) == V.Addresses(sets[i].validators)
  {
    V.ChosenDecides(sets, shard, c.height.block);
  }

  lemma AmongIff(c: Commits, vs: seq<V.Validator>)
    ensures Among(c, vs) <==> forall x :: x in Signers(c) ==> x in V.Addresses(vs)
  {
    var signers, keys := Signers(c), V.Addresses(vs);
    if forall x :: x in signers ==> x in keys {
      forall i | 0 <= i < |c.signatures| ensures V.Exists(vs, c.signatures[i].signer) {
        assert signers[i] in keys;
        var k :| 0 <= k < |keys| && keys[k] == signers[i];
        assert vs[k].address == c.signatures[i].signer;
      }
    }
    if Among(c, vs) {
      forall x | x in signers ensures x in keys {
        var i :| 0 <= i < |signers| && signers[i] == x;
        assert V.Exists(vs, c.signatures[i].signer);
        var k :| 0 <= k < |vs| && vs[k].address == c.signatures[i].signer;
        assert keys[k] == x;
      }
    }
  }

  lemma InTurnIff(c: Commits)
    ensures InTurn(c) <==> Ascending(Signers(c), B.Less)
  {
  }

  lemma VerifiedIff(c: Commits, verify: Verifier)
    ensures Verified(c, verify) <==> forall i :: 0 <= i < |c.signatures| ==> Signed(c, i, verify)
  {
    if Verified(c, verify) {
      forall i | 0 <= i < |c.signatures| ensures Signed(c, i, verify) {
      }
    }
    if forall i :: 0 <= i < |c.signatures| ==> Signed(c, i, verify) {
      forall i | 0 <= i < |c.signatures|
        ensures verify(c.signatures[i].signer, Precommit(c.height, c.round, c.value, c.signatures[i].signer),
                       c.signatures[i].signature)
      {
        assert Signed(c, i, verify);
      }
    }
  }

  /** Against the addresses of a validator list, acceptance is a quorum of it. */
  lemma QuorumIff(c: Commits, vs: seq<V.Validator>, verify: Verifier)
    requires V.WellFormed(vs)
    ensures Accepted(c, V.Addresses(vs), verify) <==> Quorum(c, vs, verify)
  {
    AcceptedIff(c, V.Addresses(vs), verify);
    InTurnIff(c);
    AmongIff(c, vs);
    VerifiedIff(c, verify);
  }

  /** A certificate is accepted exactly with a quorum of the set that decides for its height. */
  lemma AcceptedByQuorum(c: Commits, sets: seq<V.StoredSet>, shard: nat, i: nat, verify: Verifier)
    requires V.Decides(sets, i, shard, c.height.block) && V.WellFormed(sets[i].validators)
    ensures Accepted(c, ExpectedKeys(c, sets, shard), verify) <==> Quorum(c, sets[i].validators, verify)
  {
    DecidingKeys(c, sets, shard, i);
    QuorumIff(c, sets[i].validators, verify);
  }

  ghost predicate Precommitted(a: Key, height: Height, value: ShardHash, verify: Verifier) {
    exists round, signature :: verify(a, Precommit(height, round, value, a), signature)
  }

  lemma AcceptedSigners(c: Commits, keys: seq<Key>, verify: Verifier)
    requires Ascending(keys, B.Less) && Accepted(c, keys, verify)
    ensures Elements(Signers(c)) <= Elements(keys)
    ensures 3 * |Elements(Signers(c))| > 2 * |Elements(keys)| && |Elements(keys)| == |keys|
    ensures forall a :: a in Elements(Signers(c)) ==> Precommitted(a, c.height, c.value, verify)
  {
    B.LessStrictTotal();
    AcceptedIff(c, keys, verify);
    AscendingDistinct(Signers(c), B.Less);
    AscendingDistinct(keys, B.Less);
    forall a | a in Signers(c) ensures Precommitted(a, c.height, c.value, verify) {
      var i :| 0 <= i < |c.signatures| && Signers(c)[i] == a;
      assert Signed(c, i, verify);
    }
  }

  /** More than a third of `keys`, all of whom precommitted both values at their heights. */
  ghost predicate PrecommittedBoth(s: set<Key>, keys: seq<Key>, c: Commits, d: Commits, verify: Verifier) {
    && s <= Elements(keys)
    && 3 * |s| > |keys|
    && forall a :: a in s ==>
         Precommitted(a, c.height, c.value, verify) && Precommitted(a, d.height, d.value, verify)
  }

  /** Any two certificates accepted against one validator list share more than a third of it. */
  lemma QuorumsIntersect(c: Commits, d: Commits, keys: seq<Key>, verify: Verifier)
    requires Ascending(keys, B.Less) && Accepted(c, keys, verify) && Accepted(d, keys, verify)
    ensures exists s :: PrecommittedBoth(s, keys, c, d, verify)
  {
    AcceptedSigners(c, keys, verify);
    AcceptedSigners(d, keys, verify);
    var p, q, all := Elements(Signers(c)), Elements(Signers(d)), Elements(keys);
    var s := p * q;
    assert |p + q| == |p| + |q| - |s|;
    assert |p + q| <= |all| by { SubsetSize(p + q, all); }
    assert PrecommittedBoth(s, keys, c, d, verify);
  }

  lemma SubsetSize<T>(a: set<T>, b: set<T>)
    requires a <= b
    ensures |a| <= |b|
  {
    assert b == a + (b - a);
  }
}
