/** A validator proposing values: every proposal is put in the local store under its height and
    round before it is used, so that a restarted validator repeats itself. */
module ShardValidator {
  import opened Heights
  import opened Options
  import opened Orders
  import PV = ProposedValues
  import B = Bytes

  const BLOCK_PREFIX: B.Byte := 1

  /** The ranges of the source's integer fields; rounds are non-negative 64-bit integers. */
  predicate Fits(h: Height, round: int) {
    h.shard < B.U32_LIMIT && h.block < B.U64_LIMIT && 0 <= round < B.U64_LIMIT / 2
  }

  // ----- the local store ---------------------------------------------------

  function HeightPrefix(h: Height): (k: B.Bytes)
    ensures |k| == 13
  {
    [BLOCK_PREFIX] + B.BigEndian(h.shard, 4) + B.BigEndian(h.block, 8)
  }

  function ProposalKey(h: Height, round: nat): (k: B.Bytes)
    ensures |k| == 21
  {
    HeightPrefix(h) + B.BigEndian(round, 8)
  }

  type Proposal = PV.Proposal

  type Disk = map<B.Bytes, Proposal>

  /** Every entry lies under the key of its own height and round. */
  predicate WellKept(disk: Disk) {
    forall k :: k in disk ==> Fits(disk[k].height, disk[k].round) && k == ProposalKey(disk[k].height, disk[k].round)
  }

  predicate InRange(k: B.Bytes, prefix: B.Bytes) {
    !B.Less(k, prefix) && B.Less(k, B.Extended(prefix))
  }

  lemma NumberInjective(a: nat, b: nat, width: nat)
    requires a < B.Pow256(width) && b < B.Pow256(width)
    ensures B.BigEndian(a, width) == B.BigEndian(b, width) <==> a == b
  {
    B.BigEndianVal(a, width);
    B.BigEndianVal(b, width);
  }

  /** Keys tell heights and rounds apart, and a key extends the prefix of its own height only. */
  lemma KeysDistinct(h: Height, r: nat, g: Height, q: nat)
    requires Fits(h, r) && Fits(g, q)
    ensures ProposalKey(h, r) == ProposalKey(g, q) <==> h == g && r == q
    ensures HeightPrefix(g) <= ProposalKey(h, r) <==> h == g
  {
    B.Widths();
    NumberInjective(h.shard, g.shard, 4);
    NumberInjective(h.block, g.block, 8);
    NumberInjective(r, q, 8);
    var k, p := ProposalKey(h, r), HeightPrefix(g);
    assert k[..13] == HeightPrefix(h) && k[13..] == B.BigEndian(r, 8);
    assert ProposalKey(g, q)[..13] == p && ProposalKey(g, q)[13..] == B.BigEndian(q, 8);
    assert HeightPrefix(h)[1..5] == B.BigEndian(h.shard, 4) && HeightPrefix(h)[5..] == B.BigEndian(h.block, 8);
    assert p[1..5] == B.BigEndian(g.shard, 4) && p[5..] == B.BigEndian(g.block, 8);
  }

  /** The byte range scanned for a height holds that height's proposals and no others. */
  lemma RangeExact(h: Height, r: nat, g: Height)
    requires Fits(h, r) && Fits(g, 0)
    ensures InRange(ProposalKey(h, r), HeightPrefix(g)) <==> h == g
  {
    KeysDistinct(h, r, g, 0);
    assert HeightPrefix(g)[0] == BLOCK_PREFIX < 255;
    B.LongKeyInRange(HeightPrefix(g), ProposalKey(h, r));
  }

  function KeysAt(disk: Disk, h: Height): set<B.Bytes> {
    set k | k in disk && disk[k].height == h
  }

  function Cut(order: seq<B.Bytes>, budget: nat): seq<B.Bytes> {
    if |order| <= budget then order else order[..budget]
  }

  /** The height's entries go in key order until a deletion fails; `budget` of them succeed. */
  function Deleted(disk: Disk, h: Height, budget: nat): Disk {
    disk - Elements(Cut(B.InOrder(KeysAt(disk, h)), budget))
  }

  function Stored(disk: Disk, h: Height, round: nat): Option<Proposal> {
    if ProposalKey(h, round) in disk then Some(disk[ProposalKey(h, round)]) else None
  }

  class Validator {
    const shard: nat
    var disk: Disk
    var currentHeight: Option<Height>
    var currentRound: int
    var proposed: bool

    constructor (shard: nat, disk: Disk)
      ensures this.shard == shard && this.disk == disk
    {
      this.shard, this.disk := shard, disk;
      currentHeight, currentRound, proposed := None, 0, false;
    }

    /** `built` is the value the proposer would build now; it may be any. A failed read or write of
        the local store is logged and ignored. */
    method ProposeValue(height: Height, round: nat, built: Proposal, readOk: bool, writeOk: bool)
      returns (proposal: Proposal)
      requires height.shard == shard && built.height == height && built.round == round
      modifies this
      ensures proposal == Emission(old(disk), height, round, built, readOk)
      ensures disk == AfterPropose(old(disk), height, round, built, readOk, writeOk)
      ensures readOk && WellKept(old(disk)) && Fits(height, round) ==>
        forall k :: k in old(disk) && old(disk)[k].height == height && old(disk)[k].round == round ==>
          proposal == old(disk)[k] && disk == old(disk)
      ensures !readOk ==> proposal == built
      ensures WellKept(old(disk)) && Fits(height, round) ==>
        (forall k :: k in old(disk) ==> old(disk)[k].height != height || old(disk)[k].round != round) ==>
          proposal == built
    {
      if WellKept(disk) && Fits(height, round) { EntryUnderKey(disk, height, round); }
      if readOk && ProposalKey(height, round) in disk {
        return disk[ProposalKey(height, round)];
      }
      proposal := built;
      if writeOk {
        disk := disk[ProposalKey(built.height, built.round) := built];
      }
      proposed := true;
    }

    /** A failed deletion is logged and ignored. */
    method Decide(height: Height, budget: nat)
      requires height.shard == shard && Fits(height, 0) && WellKept(disk)
      modifies this
      ensures disk == Deleted(old(disk), height, budget)
      ensures currentHeight == Some(height) && currentRound == -1
    {
      DeleteProposals(height, budget);
      currentHeight, currentRound := Some(height), -1;
    }

    method DeleteProposals(height: Height, budget: nat)
      requires Fits(height, 0) && WellKept(disk)
      modifies this`disk
      ensures disk == Deleted(old(disk), height, budget)
    {
      var prefix := HeightPrefix(height);
      RangeKeys(disk, height);
      var stop := B.IncrementVec(prefix);
      DeleteRange(prefix, stop, budget);
    }

    method DeleteRange(from: B.Bytes, to: B.Bytes, budget: nat)
      modifies this`disk
      ensures disk == old(disk) - Elements(Cut(B.InOrder(KeysBetween(old(disk), from, to)), budget))
    {
      var order := B.InOrder(KeysBetween(disk, from, to));
      DeleteEach(Cut(order, budget));
    }

    method DeleteEach(order: seq<B.Bytes>)
      modifies this`disk
      ensures disk == old(disk) - Elements(order)
    {
      for i := 0 to |order|
        invariant disk == old(disk) - Elements(order[..i])
      {
        disk := disk - {order[i]};
        assert Elements(order[..i + 1]) == Elements(order[..i]) + {order[i]};
      }
      assert order[..|order|] == order;
    }
  }

  lemma EntryUnderKey(disk: Disk, h: Height, round: nat)
    requires WellKept(disk) && Fits(h, round)
    ensures forall k :: k in disk && disk[k].height == h && disk[k].round == round ==> k == ProposalKey(h, round)
    ensures ProposalKey(h, round) in disk ==>
      disk[ProposalKey(h, round)].height == h && disk[ProposalKey(h, round)].round == round
  {
    var key := ProposalKey(h, round);
    if key in disk { KeysDistinct(h, round, disk[key].height, disk[key].round); }
  }

  function KeysBetween(disk: Disk, from: B.Bytes, to: B.Bytes): set<B.Bytes> {
    set k | k in disk && !B.Less(k, from) && B.Less(k, to)
  }

  lemma RangeKeys(disk: Disk, g: Height)
    requires WellKept(disk) && Fits(g, 0)
    ensures KeysBetween(disk, HeightPrefix(g), B.Extended(HeightPrefix(g))) == KeysAt(disk, g)
  {
    forall k | k in disk ensures InRange(k, HeightPrefix(g)) <==> disk[k].height == g {
      RangeExact(disk[k].height, disk[k].round, g);
    }
  }

  // ----- runs with crashes -------------------------------------------------

  function Emission(disk: Disk, h: Height, round: nat, built: Proposal, readOk: bool): Proposal {
    if readOk && Stored(disk, h, round).Some? then Stored(disk, h, round).value else built
  }

  function AfterPropose(disk: Disk, h: Height, round: nat, built: Proposal, readOk: bool, writeOk: bool): Disk {
    if (readOk && Stored(disk, h, round).Some?) || !writeOk then disk
    else disk[ProposalKey(h, round) := built]
  }

  /** A crash loses everything but the disk. */
  datatype Event =
    | Propose(h: Height, round: nat, built: Proposal, readOk: bool, writeOk: bool)
    | DecideAt(h: Height, budget: nat)
    | Crash

  predicate ValidEvent(e: Event) {
    match e
    case Propose(h, r, built, _, _) => Fits(h, r) && built.height == h && built.round == r
    case DecideAt(h, _) => Fits(h, 0)
    case Crash => true
  }

  predicate ValidEvents(es: seq<Event>) {
    forall i :: 0 <= i < |es| ==> ValidEvent(es[i])
  }

  function After(disk: Disk, e: Event): Disk {
    match e
    case Propose(h, r, built, readOk, writeOk) => AfterPropose(disk, h, r, built, readOk, writeOk)
    case DecideAt(h, budget) => Deleted(disk, h, budget)
    case Crash => disk
  }

  function DiskAfter(es: seq<Event>): Disk {
    if es == [] then map[] else After(DiskAfter(es[..|es| - 1]), es[|es| - 1])
  }

  /** What the validator broadcasts at event `i`. */
  function Emitted(es: seq<Event>, i: nat): Proposal
    requires i < |es| && es[i].Propose?
  {
    Emission(DiskAfter(es[..i]), es[i].h, es[i].round, es[i].built, es[i].readOk)
  }

  lemma {:induction false} DiskWellKept(es: seq<Event>)
    requires ValidEvents(es)
    ensures WellKept(DiskAfter(es))
  {
    if es == [] {
    } else {
      var n := |es| - 1;
      assert ValidEvents(es[..n]) && ValidEvent(es[n]);
      DiskWellKept(es[..n]);
    }
  }

  /** The event writes its proposal, or finds it on disk already. */
  predicate Recorded(es: seq<Event>, i: nat)
    requires i < |es| && es[i].Propose?
  {
    es[i].writeOk || Stored(DiskAfter(es[..i]), es[i].h, es[i].round) == Some(Emitted(es, i))
  }

  /** Between `i` and `j` the height is not decided, and its entry is not overwritten unread. */
  predicate Undisturbed(es: seq<Event>, i: nat, j: nat)
    requires i < j <= |es| && es[i].Propose?
  {
    forall k :: i < k < j ==> Harmless(es[k], es[i].h, es[i].round)
  }

  predicate Harmless(e: Event, h: Height, round: nat) {
    && (e.DecideAt? ==> e.h != h)
    && (e.Propose? && e.h == h && e.round == round ==> e.readOk || !e.writeOk)
  }

  lemma DeletedKeeps(disk: Disk, g: Height, budget: nat, k: B.Bytes)
    requires k in disk && disk[k].height != g
    ensures k in Deleted(disk, g, budget) && Deleted(disk, g, budget)[k] == disk[k]
  {
    var order := B.InOrder(KeysAt(disk, g));
    assert forall x :: x in Elements(Cut(order, budget)) ==> x in Elements(order);
  }

  lemma StepKeeps(disk: Disk, e: Event, h: Height, round: nat)
    requires WellKept(disk) && ValidEvent(e) && Fits(h, round) && Stored(disk, h, round).Some? && Harmless(e, h, round)
    ensures Stored(After(disk, e), h, round) == Stored(disk, h, round)
  {
    var k := ProposalKey(h, round);
    match e
    case Propose(g, q, _, _, _) =>
      KeysDistinct(h, round, g, q);
    case DecideAt(g, budget) =>
      KeysDistinct(h, round, disk[k].height, disk[k].round);
      DeletedKeeps(disk, g, budget, k);
    case Crash =>
  }

  lemma {:induction false} StaysOnDisk(es: seq<Event>, i: nat, j: nat)
    requires ValidEvents(es) && i < j <= |es| && es[i].Propose? && Recorded(es, i) && Undisturbed(es, i, j)
    ensures Stored(DiskAfter(es[..j]), es[i].h, es[i].round) == Some(Emitted(es, i))
    decreases j
  {
    var n := j - 1;
    assert es[..j][..n] == es[..n] && es[..j][n] == es[n];
    if n == i {
    } else {
      StaysOnDisk(es, i, n);
      assert ValidEvent(es[i]) && ValidEvent(es[n]);
      assert ValidEvents(es[..n]);
      DiskWellKept(es[..n]);
      StepKeeps(DiskAfter(es[..n]), es[n], es[i].h, es[i].round);
    }
  }

  /** Across any number of crashes, and whatever values the proposer builds, a validator never
      broadcasts two different values for one height and round before deciding the height, as long
      as the first one was recorded and later reads of it succeed. */
  lemma NoEquivocation(es: seq<Event>, i: nat, j: nat)
    requires ValidEvents(es) && i < j < |es| && es[i].Propose? && es[j].Propose?
    requires es[i].h == es[j].h && es[i].round == es[j].round
    requires Recorded(es, i) && Undisturbed(es, i, j) && es[j].readOk
    ensures Emitted(es, i) == Emitted(es, j)
  {
    StaysOnDisk(es, i, j);
  }

  ghost predicate Repeats(disk: Disk, h: Height, round: nat, p: Proposal) {
    forall built :: Emission(disk, h, round, built, true) == p
  }

  /** Recording is what it takes: right after a proposal, asking again yields the same value
      whatever would be built now, exactly when the proposal was recorded. This includes proposals
      built after a failed read, which replace a stored one if they can be written. */
  lemma RepeatsIffRecorded(es: seq<Event>, i: nat)
    requires ValidEvents(es) && i < |es| && es[i].Propose?
    ensures Repeats(DiskAfter(es[..i + 1]), es[i].h, es[i].round, Emitted(es, i)) <==> Recorded(es, i)
  {
    var disk := DiskAfter(es[..i + 1]);
    assert es[..i + 1][..i] == es[..i] && es[..i + 1][i] == es[i];
    var p := Emitted(es, i);
    if Recorded(es, i) {
      StaysOnDisk(es, i, i + 1);
    } else {
      var other := p.(body := p.body + [0]);
      assert Emission(disk, es[i].h, es[i].round, other, true) != p;
    }
  }

  /** A decision leaves every other height's proposals, and forgets the decided height's if and only
      if as many deletions succeed as it has entries. */
  lemma DecisionForgets(es: seq<Event>, g: Height, budget: nat, h: Height, round: nat)
    requires ValidEvents(es) && Fits(g, 0) && Fits(h, round)
    ensures var before, after := DiskAfter(es), DiskAfter(es + [DecideAt(g, budget)]);
      && (h != g ==> Stored(after, h, round) == Stored(before, h, round))
      && (h == g && budget >= |KeysAt(before, g)| ==> Stored(after, h, round) == None)
      && (KeysAt(after, g) == {} <==> budget >= |KeysAt(before, g)|)
  {
    assert (es + [DecideAt(g, budget)])[..|es|] == es;
    DiskWellKept(es);
    var disk, k := DiskAfter(es), ProposalKey(h, round);
    if k in disk {
      KeysDistinct(h, round, disk[k].height, disk[k].round);
      if h != g { DeletedKeeps(disk, g, budget, k); }
    }
    CutAll(disk, g, budget);
  }

  lemma CutAll(disk: Disk, g: Height, budget: nat)
    ensures KeysAt(Deleted(disk, g, budget), g) == {} <==> budget >= |KeysAt(disk, g)|
    ensures budget >= |KeysAt(disk, g)| ==> forall k :: k in Deleted(disk, g, budget) ==> disk[k].height != g
  {
    var order := B.InOrder(KeysAt(disk, g));
    if budget < |order| {
      assert order[budget] in Elements(order);
      forall i | 0 <= i < budget ensures order[i] != order[budget] {
        B.LessTotal(order[i], order[budget]);
      }
      assert order[budget] in KeysAt(Deleted(disk, g, budget), g);
    } else {
      assert Elements(Cut(order, budget)) == KeysAt(disk, g);
    }
  }
}
