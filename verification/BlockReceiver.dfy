/** The block-event feed of a shard: a received block is submitted to the mempool only after the
    events missing before it have been fetched and submitted. */
module BlockReceiver {
  import opened Options
  import opened Certificates
  import B = Bytes
  import V = ValidatorSets

  datatype BlockEvent = BlockEvent(seqnum: nat, data: Option<B.Bytes>, hash: B.Bytes)

  datatype Block = Block(events: seq<BlockEvent>, eventsHash: B.Bytes, commits: Commits)

  /** Blake3 is any function on bytes, and on a list of hashes fed to one hasher. */
  datatype Config = Config(
    batch: nat, sets: seq<V.StoredSet>, shard: nat, verify: Verifier,
    hash: B.Bytes -> B.Bytes, digest: seq<B.Bytes> -> B.Bytes)

  predicate ValidConfig(cfg: Config) {
    cfg.sets != [] && cfg.batch > 0
  }

  /** How the node answers a request for the block that holds a sequence number. */
  type Fetch = nat -> Block

  function Hashes(b: Block): seq<B.Bytes> {
    seq(|b.events|, i requires 0 <= i < |b.events| => b.events[i].hash)
  }

  predicate Genuine(cfg: Config, b: Block)
    requires ValidConfig(cfg)
  {
    b.events == [] ||
    (&& (forall i :: 0 <= i < |b.events| ==>
           b.events[i].data.Some? && b.events[i].hash == cfg.hash(b.events[i].data.value))
     && b.eventsHash == cfg.digest(Hashes(b))
     && Accepted(b.commits, ExpectedKeys(b.commits, cfg.sets, cfg.shard), cfg.verify))
  }

  /** What makes a block's events trustworthy: all their data hash to their hashes, these to the block's events hash,
      and the block's certificate has a quorum of the validator set of its height. */
  ghost predicate Attested(cfg: Config, b: Block) {
    && (forall i :: 0 <= i < |b.events| ==>
          b.events[i].data.Some? && cfg.hash(b.events[i].data.value) == b.events[i].hash)
    && b.eventsHash == cfg.digest(seq(|b.events|, i requires 0 <= i < |b.events| => b.events[i].hash))
    && exists k: nat :: V.Decides(cfg.sets, k, cfg.shard, b.commits.height.block)
         && Quorum(b.commits, cfg.sets[k].validators, cfg.verify)
  }

  lemma AttestedIff(cfg: Config, b: Block)
    requires ValidConfig(cfg) && V.WellFormedSets(cfg.sets) && b.events != []
    ensures Genuine(cfg, b) <==> Attested(cfg, b)
  {
    assert Hashes(b) == seq(|b.events|, i requires 0 <= i < |b.events| => b.events[i].hash);
    V.ChosenDecides(cfg.sets, cfg.shard, b.commits.height.block);
    var k := V.Chosen(cfg.sets, cfg.shard, b.commits.height.block, |cfg.sets|);
    AcceptedByQuorum(b.commits, cfg.sets, cfg.shard, k, cfg.verify);
  }

  /** The events of the attested ones among some blocks, in order. */
  ghost function Forwarded(cfg: Config, bs: seq<Block>): seq<BlockEvent> {
    if bs == [] then [] else (if Attested(cfg, bs[0]) then bs[0].events else []) + Forwarded(cfg, bs[1..])
  }

  /** The source panics on an event without data when it asks for its sequence number. */
  predicate Numbered(b: Block) {
    b.events != [] && forall i :: 0 <= i < |b.events| ==>
      b.events[i].seqnum == b.events[0].seqnum + i && b.events[i].data.Some?
  }

  function First(b: Block): nat
    requires b.events != []
  {
    b.events[0].seqnum
  }

  function Last(b: Block): nat
    requires b.events != []
  {
    b.events[|b.events| - 1].seqnum
  }

  /** Which blocks pass validation, as a function of the block alone. */
  ghost function Validity(cfg: Config): Block -> bool
    requires ValidConfig(cfg)
  {
    b => Genuine(cfg, b)
  }

  function Submission(valid: Block -> bool, b: Block): seq<BlockEvent> {
    if valid(b) then b.events else []
  }

  function Submissions(valid: Block -> bool, bs: seq<Block>): seq<BlockEvent> {
    if bs == [] then [] else Submission(valid, bs[0]) + Submissions(valid, bs[1..])
  }

  /** The block served for a number has events and reaches it. Otherwise the feed asks again forever. */
  predicate Answers(fetch: Fetch, n: nat) {
    fetch(n).events != [] && n <= Last(fetch(n))
  }

  ghost predicate Answering(fetch: Fetch, lo: nat, hi: int) {
    forall n: nat :: lo <= n <= hi ==> Answers(fetch, n)
  }

  /** The blocks requested while walking from `n` up to `stop`. */
  ghost function Walk(fetch: Fetch, n: nat, stop: nat): seq<Block>
    requires Answering(fetch, n, stop)
    decreases stop + 1 - n
  {
    if n > stop then []
    else
      assert Answers(fetch, n);
      [fetch(n)] + Walk(fetch, Last(fetch(n)) + 1, stop)
  }

  predicate BatchDone(cfg: Config, processed: nat)
    requires ValidConfig(cfg)
  {
    processed > 0 && processed % cfg.batch == 0
  }

  /** Every wait from the `from`th on was answered in time. */
  ghost predicate Confirmed(confirms: (seq<nat>, nat) -> bool, awaited: seq<nat>, from: nat) {
    forall i :: from <= i < |awaited| ==> confirms(awaited[..i], awaited[i])
  }

  lemma ConfirmedAppend(confirms: (seq<nat>, nat) -> bool, awaited: seq<nat>, n: nat)
    ensures forall from: nat :: from <= |awaited| && Confirmed(confirms, awaited, from) ==>
      (confirms(awaited, n) <==> Confirmed(confirms, awaited + [n], from))
  {
    var longer := awaited + [n];
    assert longer[..|awaited|] == awaited && longer[|awaited|] == n;
    forall from: nat | from <= |awaited| && Confirmed(confirms, awaited, from)
      ensures confirms(awaited, n) <==> Confirmed(confirms, longer, from)
    {
      if confirms(awaited, n) {
        forall i | from <= i < |longer| ensures confirms(longer[..i], longer[i]) {
          if i < |awaited| {
            assert longer[..i] == awaited[..i] && longer[i] == awaited[i];
            assert confirms(awaited[..i], awaited[i]);
          }
        }
      } else {
        assert !confirms(longer[..|awaited|], longer[|awaited|]);
      }
    }
  }

  /** A confirmation is awaited after a block that ends a batch or the whole walk. */
  predicate Due(cfg: Config, start: nat, stop: nat, b: Block)
    requires ValidConfig(cfg) && b.events != []
  {
    BatchDone(cfg, Wrapped(Last(b) - start)) || Last(b) >= stop
  }

  /** A confirmation is due exactly when the block ends a whole number of batches after the start, or reaches
      the stop. */
  lemma DueIff(cfg: Config, start: nat, stop: nat, b: Block)
    requires ValidConfig(cfg) && b.events != [] && start <= Last(b) < B.U64_LIMIT
    ensures Due(cfg, start, stop, b) <==> Last(b) >= stop || exists k: nat :: k > 0 && Last(b) == start + k * cfg.batch
  {
    var processed := Last(b) - start;
    assert Wrapped(processed) == processed;
    if k: nat :| k > 0 && Last(b) == start + k * cfg.batch {
      Multiple(k, cfg.batch);
    }
    if processed > 0 && processed % cfg.batch == 0 {
      var k := processed / cfg.batch;
      assert processed == k * cfg.batch;
      assert k > 0;
      assert Last(b) == start + k * cfg.batch;
    }
  }

  lemma Multiple(k: nat, n: nat)
    requires n > 0
    ensures (k * n) % n == 0 && (k > 0 ==> k * n > 0)
  {
    V.SlotUnique(n, k * n, k, 0);
  }

  /** Unsigned 64-bit subtraction; builds with overflow checks panic where it wraps. */
  function Wrapped(difference: int): nat {
    difference % B.U64_LIMIT
  }

  class Receiver {
    const cfg: Config
    const fetch: Fetch
    const confirms: (seq<nat>, nat) -> bool
    var sent: seq<BlockEvent>
    var awaited: seq<nat>

    constructor (cfg: Config, fetch: Fetch, confirms: (seq<nat>, nat) -> bool)
      ensures this.cfg == cfg && this.fetch == fetch && this.confirms == confirms && sent == [] && awaited == []
    {
      this.cfg, this.fetch, this.confirms := cfg, fetch, confirms;
      sent, awaited := [], [];
    }

    method ValidateBlockEvents(b: Block) returns (ok: bool)
      requires ValidConfig(cfg)
      ensures ok <==> Genuine(cfg, b)
    {
      if |b.events| == 0 {
        return true;
      }
      var hashes: seq<B.Bytes> := [];
      for i := 0 to |b.events|
        invariant hashes == Hashes(b)[..i]
        invariant forall j :: 0 <= j < i ==>
          b.events[j].data.Some? && b.events[j].hash == cfg.hash(b.events[j].data.value)
      {
        if b.events[i].data.None? {
          return false;
        }
        if b.events[i].hash != cfg.hash(b.events[i].data.value) {
          return false;
        }
        hashes := hashes + [b.events[i].hash];
      }
      assert hashes == Hashes(b);
      if b.eventsHash != cfg.digest(hashes) {
        return false;
      }
      ok := VerifySignatures(b.commits, cfg.sets, cfg.shard, cfg.verify);
    }

    method SubmitBlock(b: Block)
      requires ValidConfig(cfg)
      modifies this`sent
      ensures sent == old(sent) + Submission(Validity(cfg), b)
      ensures V.WellFormedSets(cfg.sets) ==> sent == old(sent) + if Attested(cfg, b) then b.events else []
    {
      if V.WellFormedSets(cfg.sets) && b.events != [] { AttestedIff(cfg, b); }
      var valid := ValidateBlockEvents(b);
      if valid {
        SendEvents(b.events);
      }
    }

    method SendEvents(events: seq<BlockEvent>)
      modifies this`sent
      ensures sent == old(sent) + events
    {
      for i := 0 to |events|
        invariant sent == old(sent) + events[..i]
      {
        sent := sent + [events[i]];
      }
      assert events[..|events|] == events;
    }

    /** `SubmitBlock` for a block that follows the blocks already handled. */
    method SubmitNext(b: Block, ghost base: seq<BlockEvent>, ghost earlier: seq<Block>)
      requires ValidConfig(cfg) && sent == base + Submissions(Validity(cfg), earlier)
      modifies this`sent
      ensures sent == base + Submissions(Validity(cfg), earlier + [b])
    {
      SubmissionsAppend(Validity(cfg), earlier, b);
      Associative(base, Submissions(Validity(cfg), earlier), Submission(Validity(cfg), b));
      SubmitBlock(b);
    }

    /** Whether the confirmation comes in time may depend on everything awaited before. */
    method WaitForConfirmation(seqnum: nat) returns (confirmed: bool)
      modifies this`awaited
      ensures confirmed == confirms(old(awaited), seqnum) && awaited == old(awaited) + [seqnum]
    {
      confirmed := confirms(awaited, seqnum);
      awaited := awaited + [seqnum];
    }

    /** One request of the walk; `next` is the number to go on from. */
    method RequestBlock(start: nat, current: nat, stop: nat, ghost base: seq<BlockEvent>, ghost earlier: seq<Block>)
      returns (ok: bool, next: nat)
      requires ValidConfig(cfg)
      requires sent == base + Submissions(Validity(cfg), earlier)
      modifies this
      ensures sent == base + Submissions(Validity(cfg), earlier + [fetch(current)])
      ensures next == if fetch(current).events == [] then current else Last(fetch(current)) + 1
      ensures awaited == old(awaited) +
        if fetch(current).events != [] && Due(cfg, start, stop, fetch(current)) then [Last(fetch(current))] else []
      ensures forall from: nat :: from <= |old(awaited)| && Confirmed(confirms, old(awaited), from) ==>
        (ok <==> Confirmed(confirms, awaited, from))
    {
      var block := fetch(current);
      SubmitNext(block, base, earlier);
      ok, next := true, current;
      if block.events != [] {
        var last := block.events[|block.events| - 1];
        var processed := Wrapped(last.seqnum - start);
        if BatchDone(cfg, processed) || last.seqnum >= stop {
          ConfirmedAppend(confirms, awaited, last.seqnum);
          ok := WaitForConfirmation(last.seqnum);
        }
        next := last.seqnum + 1;
      }
    }

    /** `RequestBlock` as a step from the walk ahead to the walk that remains. */
    method SyncNext(start: nat, current: nat, stop: nat, ghost base: seq<BlockEvent>, ghost earlier: seq<Block>,
                    ghost ahead: seq<Block>, ghost from: nat)
      returns (ok: bool, next: nat, ghost b: Block, ghost rest: seq<Block>)
      requires ValidConfig(cfg) && Answering(fetch, current, stop) && start <= current <= stop
      requires sent == base + Submissions(Validity(cfg), earlier) && ahead == Walk(fetch, current, stop)
      requires from <= |awaited| && Confirmed(confirms, awaited, from)
      modifies this
      ensures sent == base + Submissions(Validity(cfg), earlier + [b])
      ensures current < next && ahead == [b] + rest && rest == Walk(fetch, next, stop)
      ensures old(awaited) <= awaited && (next > stop ==> |awaited| > |old(awaited)|)
      ensures ok <==> Confirmed(confirms, awaited, from)
    {
      b, rest := WalkNext(fetch, current, stop);
      ok, next := RequestBlock(start, current, stop, base, earlier);
    }

    /** Ends with the whole walk submitted, or at a timeout with the walk so far submitted. */
    method SyncMissingBlockEvents(start: nat, stop: nat) returns (ok: bool, ghost fetched: seq<Block>)
      requires ValidConfig(cfg) && Answering(fetch, start, stop)
      modifies this
      ensures sent == old(sent) + Submissions(Validity(cfg), fetched)
      ensures fetched <= Walk(fetch, start, stop)
      ensures ok ==> fetched == Walk(fetch, start, stop)
      ensures !ok ==> fetched != []
      ensures start <= stop ==> |awaited| > |old(awaited)|
      ensures old(awaited) <= awaited && (ok <==> Confirmed(confirms, awaited, |old(awaited)|))
    {
      var current := start;
      fetched := [];
      ghost var walk, ahead := Walk(fetch, start, stop), Walk(fetch, start, stop);
      while current <= stop
        invariant start <= current
        invariant walk == fetched + ahead && ahead == Walk(fetch, current, stop)
        invariant sent == old(sent) + Submissions(Validity(cfg), fetched)
        invariant old(awaited) <= awaited && Confirmed(confirms, awaited, |old(awaited)|)
        invariant start <= stop < current ==> |awaited| > |old(awaited)|
        decreases stop + 1 - current
      {
        var confirmed, next, b, rest := SyncNext(start, current, stop, old(sent), fetched, ahead, |old(awaited)|);
        Associative(fetched, [b], rest);
        fetched, ahead, current := fetched + [b], rest, next;
        if !confirmed {
          return false, fetched;
        }
      }
      ok := true;
    }

    method FillGap(block: Block, stored: nat, ghost missing: seq<Block>) returns (ok: bool, ghost fetched: seq<Block>)
      requires ValidConfig(cfg) && Ready(fetch, stored, block) && !Skips(stored, block)
      requires missing == Missing(fetch, stored, block)
      modifies this
      ensures sent == old(sent) + Submissions(Validity(cfg), fetched)
      ensures ok ==> fetched == missing
      ensures !ok ==> fetched != [] && fetched <= missing
      ensures old(awaited) <= awaited && (ok <==> Confirmed(confirms, awaited, |old(awaited)|))
    {
      ok, fetched := true, [];
      if First(block) > stored + 1 {
        var stop := First(block) - 1;
        assert missing == Walk(fetch, stored + 1, stop);
        ok, fetched := SyncMissingBlockEvents(stored + 1, stop);
      }
    }

    /** One turn of the receive loop; `stored` is the highest event number in the shard's store. */
    method HandleBlock(block: Block, stored: nat) returns (ghost turn: Turn)
      requires ValidConfig(cfg) && Ready(fetch, stored, block)
      modifies this
      ensures turn.stored == stored && Outcome(fetch, block, turn)
      ensures turn.blocks == [] <==> block.events == [] || block.events[|block.events| - 1].seqnum < stored
      ensures sent == old(sent) + Submissions(Validity(cfg), turn.blocks) && old(awaited) <= awaited
      ensures turn.timedOut ==> !Confirmed(confirms, awaited, |old(awaited)|)
      ensures turn.blocks != [] && !turn.timedOut ==>
        |awaited| > |old(awaited)| && awaited[|awaited| - 1] == Last(block)
    {
      turn := Turn(stored, [], false);
      if |block.events| == 0 {
        return;
      }
      if Last(block) < stored {
        return;
      }
      var ok, handled := FillGap(block, stored, Missing(fetch, stored, block));
      if !ok {
        turn := Turn(stored, handled, true);
        return;
      }
      SubmitNext(block, old(sent), handled);
      turn := Turn(stored, handled + [block], false);
      var _ := WaitForConfirmation(Last(block));
    }

    /** The receive loop over any sequence of received blocks. Where blocks partition the numbers, nothing is
        ever submitted across a hole if and only if every turn is covered. */
    method Run(blocks: seq<Block>, stored: seq<nat>) returns (ghost turns: seq<Turn>)
      requires ValidConfig(cfg) && |stored| == |blocks|
      requires forall i :: 0 <= i < |blocks| ==> Ready(fetch, stored[i], blocks[i])
      modifies this
      ensures |turns| == |blocks| && sent == old(sent) + Sent(Validity(cfg), turns)
      ensures Outcomes(fetch, blocks, stored, turns)
      ensures V.WellFormedSets(cfg.sets) ==> sent == old(sent) + ForwardedIn(cfg, turns)
      ensures (forall i :: 0 <= i < |blocks| ==> Parted(fetch, stored[i], blocks[i])) ==>
        forall level: nat ::
          NeverAcross(Validity(cfg), level, turns) <==> CoveredThroughout(Validity(cfg), level, turns)
    {
      turns := Receive(blocks, stored);
      if V.WellFormedSets(cfg.sets) { SentForwarded(cfg, turns); }
      if forall i :: 0 <= i < |blocks| ==> Parted(fetch, stored[i], blocks[i]) {
        ReceivedChains(fetch, blocks, stored, turns);
        forall level: nat
          ensures NeverAcross(Validity(cfg), level, turns) <==> CoveredThroughout(Validity(cfg), level, turns)
        {
          RunGapFreeIff(Validity(cfg), level, turns);
        }
      }
    }

    method Receive(blocks: seq<Block>, stored: seq<nat>) returns (ghost turns: seq<Turn>)
      requires ValidConfig(cfg) && |stored| == |blocks|
      requires forall i :: 0 <= i < |blocks| ==> Ready(fetch, stored[i], blocks[i])
      modifies this
      ensures |turns| == |blocks| && sent == old(sent) + Sent(Validity(cfg), turns)
      ensures Outcomes(fetch, blocks, stored, turns)
    {
      turns := [];
      for i := 0 to |blocks|
        invariant |turns| == i && sent == old(sent) + Sent(Validity(cfg), turns)
        invariant Outcomes(fetch, blocks, stored, turns)
      {
        assert Ready(fetch, stored[i], blocks[i]);
        var turn := HandleNext(blocks[i], stored[i], old(sent), turns);
        OutcomesNext(fetch, blocks, stored, turns, turn);
        turns := turns + [turn];
      }
    }

    /** `HandleBlock` for a block that follows the turns already taken. */
    method HandleNext(block: Block, stored: nat, ghost base: seq<BlockEvent>, ghost earlier: seq<Turn>)
      returns (ghost turn: Turn)
      requires ValidConfig(cfg) && Ready(fetch, stored, block) && sent == base + Sent(Validity(cfg), earlier)
      modifies this
      ensures turn.stored == stored && Outcome(fetch, block, turn)
      ensures sent == base + Sent(Validity(cfg), earlier + [turn])
    {
      turn := HandleBlock(block, stored);
      SentNext(Validity(cfg), earlier, turn);
      Associative(base, Sent(Validity(cfg), earlier), Submissions(Validity(cfg), turn.blocks));
    }
  }

  /** What one turn handled, and whether it broke off on a timeout. */
  datatype Turn = Turn(stored: nat, blocks: seq<Block>, timedOut: bool)

  predicate Skips(stored: nat, block: Block) {
    block.events == [] || Last(block) < stored
  }

  predicate Gap(stored: nat, block: Block) {
    block.events != [] && First(block) > stored + 1
  }

  /** If there is a gap before the block, the numbers in it are answered. */
  ghost predicate Ready(fetch: Fetch, stored: nat, block: Block) {
    !Skips(stored, block) && Gap(stored, block) ==> Answering(fetch, stored + 1, First(block) - 1)
  }

  /** The blocks of the gap before a block. */
  ghost function Missing(fetch: Fetch, stored: nat, block: Block): seq<Block>
    requires Ready(fetch, stored, block) && !Skips(stored, block)
  {
    if Gap(stored, block) then Walk(fetch, stored + 1, First(block) - 1) else []
  }

  /** A stale or empty block is skipped; otherwise the gap before it is walked and it is submitted, or
      the turn breaks off in the walk. */
  ghost predicate Outcome(fetch: Fetch, block: Block, turn: Turn)
    requires Ready(fetch, turn.stored, block)
  {
    if Skips(turn.stored, block) then turn.blocks == [] && !turn.timedOut
    else if turn.timedOut then turn.blocks != [] && turn.blocks <= Missing(fetch, turn.stored, block)
    else turn.blocks == Missing(fetch, turn.stored, block) + [block]
  }

  /** How the turn of a received block ends, if the feed answers. */
  ghost predicate Ended(fetch: Fetch, block: Block, stored: nat, turn: Turn) {
    turn.stored == stored && (Ready(fetch, stored, block) ==> Outcome(fetch, block, turn))
  }

  ghost predicate Outcomes(fetch: Fetch, blocks: seq<Block>, stored: seq<nat>, turns: seq<Turn>) {
    && |turns| <= |blocks| && |turns| <= |stored|
    && forall i :: 0 <= i < |turns| ==> Ended(fetch, blocks[i], stored[i], turns[i])
  }

  lemma OutcomesNext(fetch: Fetch, blocks: seq<Block>, stored: seq<nat>, turns: seq<Turn>, turn: Turn)
    requires Outcomes(fetch, blocks, stored, turns) && |turns| < |blocks| && |turns| < |stored|
    requires Ended(fetch, blocks[|turns|], stored[|turns|], turn)
    ensures Outcomes(fetch, blocks, stored, turns + [turn])
  {
    var more := turns + [turn];
    forall i | 0 <= i < |more| ensures Ended(fetch, blocks[i], stored[i], more[i]) {
      if i < |turns| {
        assert Ended(fetch, blocks[i], stored[i], turns[i]);
      }
    }
  }

  lemma WalkNext(fetch: Fetch, n: nat, stop: nat) returns (b: Block, rest: seq<Block>)
    requires Answering(fetch, n, stop) && n <= stop
    ensures b == fetch(n) && b.events != [] && n <= Last(b)
    ensures rest == Walk(fetch, Last(b) + 1, stop) && Walk(fetch, n, stop) == [b] + rest
  {
    assert Answers(fetch, n);
    b, rest := fetch(n), Walk(fetch, Last(fetch(n)) + 1, stop);
  }

  lemma Associative<T>(a: seq<T>, b: seq<T>, c: seq<T>)
    ensures (a + b) + c == a + (b + c)
  {
  }

  lemma {:induction false} SubmissionsAppend(valid: Block -> bool, bs: seq<Block>, b: Block)
    ensures Submissions(valid, bs + [b]) == Submissions(valid, bs) + Submission(valid, b)
  {
    var now := Submission(valid, b);
    if bs == [] {
      assert [b][1..] == [] && bs + [b] == [b] && now + [] == now && [] + now == now;
    } else {
      SubmissionsAppend(valid, bs[1..], b);
      assert (bs + [b])[1..] == bs[1..] + [b];
      Associative(Submission(valid, bs[0]), Submissions(valid, bs[1..]), now);
    }
  }

  /** A chain of blocks: the first leaves no hole after `stored`, each next one starts right after
      the one before, and whatever precedes the last brings something new. */
  predicate Contiguous(stored: nat, bs: seq<Block>)
    decreases |bs|
  {
    bs != [] && Numbered(bs[0]) && First(bs[0]) <= stored + 1 &&
    (|bs| > 1 ==> stored < Last(bs[0]) && Contiguous(Last(bs[0]), bs[1..]) && First(bs[1]) == Last(bs[0]) + 1)
  }

  lemma {:induction false} ContiguousAppend(stored: nat, bs: seq<Block>, b: Block)
    requires Contiguous(stored, bs) && stored < Last(bs[0])
    requires bs[|bs| - 1].events != [] && Numbered(b) && First(b) == Last(bs[|bs| - 1]) + 1
    ensures Contiguous(stored, bs + [b])
    decreases |bs|
  {
    assert (bs + [b])[1..] == bs[1..] + [b];
    if |bs| > 1 {
      assert bs[1..][|bs| - 2] == bs[|bs| - 1];
      assert Last(bs[0]) < Last(bs[1]);
      ContiguousAppend(Last(bs[0]), bs[1..], b);
    } else {
      assert bs[1..] + [b] == [b];
    }
  }

  /** The block served for a number is numbered without holes and contains it, and every number
      of the block is served that same block. */
  ghost predicate Serves(fetch: Fetch, n: nat) {
    && Numbered(fetch(n))
    && First(fetch(n)) <= n <= Last(fetch(n))
    && forall m: nat :: First(fetch(n)) <= m <= Last(fetch(n)) ==> fetch(m) == fetch(n)
  }

  ghost predicate Partition(fetch: Fetch, lo: nat, hi: int) {
    forall n: nat :: lo <= n <= hi ==> Serves(fetch, n)
  }

  /** Unless the turn skips it, the received block is numbered, and if there is a gap before it, blocks
      partition the numbers of the gap and the received block is one of them. */
  ghost predicate Parted(fetch: Fetch, stored: nat, block: Block) {
    !Skips(stored, block) ==>
      && Numbered(block)
      && (Gap(stored, block) ==>
           Partition(fetch, stored + 1, First(block) - 1) && fetch(First(block)).events == block.events)
  }

  /** The feed then answers throughout the gap. */
  lemma PartedReady(fetch: Fetch, stored: nat, block: Block)
    requires Parted(fetch, stored, block)
    ensures Ready(fetch, stored, block)
  {
    if !Skips(stored, block) && Gap(stored, block) {
      forall n: nat | stored + 1 <= n <= First(block) - 1 ensures Answers(fetch, n) {
        assert Serves(fetch, n);
      }
    }
  }

  lemma NextStartsAfter(fetch: Fetch, n: nat)
    requires Serves(fetch, n) && Serves(fetch, Last(fetch(n)) + 1)
    ensures First(fetch(Last(fetch(n)) + 1)) == Last(fetch(n)) + 1
  {
    var l := Last(fetch(n));
    var next := fetch(l + 1);
    assert First(next) <= l ==> fetch(l) == next;
  }

  /** The blocks are those requested one after the other from `n` on. */
  ghost predicate Path(fetch: Fetch, n: nat, stop: nat, bs: seq<Block>)
    decreases |bs|
  {
    bs != [] ==>
      n <= stop && bs[0] == fetch(n) && bs[0].events != [] && Path(fetch, Last(bs[0]) + 1, stop, bs[1..])
  }

  lemma PrefixTail<T>(bs: seq<T>, b: T, rest: seq<T>)
    requires bs != [] && bs <= [b] + rest
    ensures bs[0] == b && bs[1..] <= rest
  {
  }

  lemma {:induction false} WalkIsPath(fetch: Fetch, n: nat, stop: nat, bs: seq<Block>)
    requires Answering(fetch, n, stop) && bs <= Walk(fetch, n, stop)
    ensures Path(fetch, n, stop, bs)
    decreases |bs|
  {
    if bs == [] {
    } else {
      assert Answers(fetch, n);
      var next := Last(fetch(n)) + 1;
      PrefixTail(bs, fetch(n), Walk(fetch, next, stop));
      WalkIsPath(fetch, next, stop, bs[1..]);
    }
  }

  lemma {:induction false} PathContiguous(fetch: Fetch, stored: nat, stop: nat, bs: seq<Block>)
    requires Partition(fetch, stored + 1, stop) && Path(fetch, stored + 1, stop, bs) && bs != []
    ensures Contiguous(stored, bs) && stored < Last(bs[0])
    decreases |bs|
  {
    assert Serves(fetch, stored + 1);
    if bs[1..] == [] {
    } else {
      assert Serves(fetch, Last(bs[0]) + 1);
      NextStartsAfter(fetch, stored + 1);
      PathContiguous(fetch, Last(bs[0]), stop, bs[1..]);
    }
  }

  lemma WalkContiguous(fetch: Fetch, stored: nat, stop: nat, bs: seq<Block>)
    requires Partition(fetch, stored + 1, stop) && Answering(fetch, stored + 1, stop)
    requires bs != [] && bs <= Walk(fetch, stored + 1, stop)
    ensures Contiguous(stored, bs) && stored < Last(bs[0])
  {
    WalkIsPath(fetch, stored + 1, stop, bs);
    PathContiguous(fetch, stored, stop, bs);
  }

  /** A walk up to the number before a block of the partition ends right before that block. */
  lemma {:induction false} WalkEnds(fetch: Fetch, n: nat, stop: nat, block: Block)
    requires Partition(fetch, n, stop) && Answering(fetch, n, stop) && n <= stop
    requires block.events != [] && First(block) == stop + 1 && fetch(First(block)).events == block.events
    ensures var w := Walk(fetch, n, stop); w != [] && w[|w| - 1].events != [] && Last(w[|w| - 1]) == stop
    decreases stop + 1 - n
  {
    assert Serves(fetch, n);
    var b := fetch(n);
    if Last(b) < stop {
      WalkEnds(fetch, Last(b) + 1, stop, block);
    } else {
      var f := First(block);
      assert Last(b) > stop ==> fetch(f) == b;
    }
  }

  lemma WalkThenBlock(fetch: Fetch, stored: nat, block: Block)
    requires Numbered(block) && First(block) > stored + 1 && fetch(First(block)).events == block.events
    requires Partition(fetch, stored + 1, First(block) - 1) && Answering(fetch, stored + 1, First(block) - 1)
    ensures Contiguous(stored, Walk(fetch, stored + 1, First(block) - 1) + [block])
  {
    var w := Walk(fetch, stored + 1, First(block) - 1);
    WalkEnds(fetch, stored + 1, First(block) - 1, block);
    WalkContiguous(fetch, stored, First(block) - 1, w);
    ContiguousAppend(stored, w, block);
  }

  /** Whatever a turn handles is then a chain without holes after the stored events. */
  lemma TurnContiguous(fetch: Fetch, block: Block, turn: Turn)
    requires Ready(fetch, turn.stored, block) && Outcome(fetch, block, turn) && turn.blocks != []
    requires Parted(fetch, turn.stored, block)
    ensures Contiguous(turn.stored, turn.blocks)
  {
    if turn.timedOut {
      WalkContiguous(fetch, turn.stored, First(block) - 1, turn.blocks);
    } else if Gap(turn.stored, block) {
      WalkThenBlock(fetch, turn.stored, block);
    } else {
      assert turn.blocks == [block];
    }
  }

  // ----- what the mempool sees ---------------------------------------------

  function Level(m: nat, s: seq<BlockEvent>): nat
    decreases |s|
  {
    if s == [] then m else Level(if s[0].seqnum > m then s[0].seqnum else m, s[1..])
  }

  /** To a consumer that has every event up to `m`, no event ever comes from across a hole. */
  predicate GapFree(m: nat, s: seq<BlockEvent>)
    decreases |s|
  {
    s == [] || (s[0].seqnum <= m + 1 && GapFree(if s[0].seqnum > m then s[0].seqnum else m, s[1..]))
  }

  lemma {:induction false} GapFreeConcat(m: nat, s: seq<BlockEvent>, t: seq<BlockEvent>)
    ensures GapFree(m, s + t) <==> GapFree(m, s) && GapFree(Level(m, s), t)
    ensures Level(m, s + t) == Level(Level(m, s), t)
    decreases |s|
  {
    if s == [] {
      assert s + t == t;
    } else {
      assert (s + t)[1..] == s[1..] + t;
      GapFreeConcat(if s[0].seqnum > m then s[0].seqnum else m, s[1..], t);
    }
  }

  lemma {:induction false} BlockGapFree(m: nat, b: Block)
    requires Numbered(b) && First(b) <= m + 1
    ensures GapFree(m, b.events)
    ensures Level(m, b.events) == if Last(b) > m then Last(b) else m
    decreases |b.events|
  {
    var rest := b.(events := b.events[1..]);
    if |b.events| > 1 {
      BlockGapFree(if First(b) > m then First(b) else m, rest);
    }
  }

  /** Validity runs out once: no genuine block comes after one that is not. */
  predicate GenuinePrefix(valid: Block -> bool, bs: seq<Block>)
  {
    forall i, j :: 0 <= i < j < |bs| && valid(bs[j]) ==> valid(bs[i])
  }

  lemma {:induction false} NoneGenuine(valid: Block -> bool, bs: seq<Block>)
    requires forall i :: 0 <= i < |bs| ==> !valid(bs[i])
    ensures Submissions(valid, bs) == []
  {
    if bs == [] {
    } else {
      NoneGenuine(valid, bs[1..]);
    }
  }

  /** Past a hole anything submitted is across it. */
  lemma {:induction false} AcrossHole(valid: Block -> bool, m: nat, stored: nat, bs: seq<Block>, i: nat)
    requires Contiguous(stored, bs) && m < stored && stored + 1 == First(bs[0])
    requires i < |bs| && valid(bs[i])
    ensures !GapFree(m, Submissions(valid, bs))
    decreases |bs|
  {
    var s := Submission(valid, bs[0]);
    if valid(bs[0]) {
      assert (s + Submissions(valid, bs[1..]))[0] == bs[0].events[0];
    } else {
      assert s + Submissions(valid, bs[1..]) == Submissions(valid, bs[1..]);
      AcrossHole(valid, m, Last(bs[0]), bs[1..], i - 1);
    }
  }

  /** Every block of a chain but the last brings something new. */
  lemma {:induction false} Rising(stored: nat, bs: seq<Block>, i: nat)
    requires Contiguous(stored, bs) && i + 1 < |bs|
    ensures bs[i].events != [] && stored < Last(bs[i])
    decreases |bs|
  {
    if i == 0 {
    } else {
      Rising(Last(bs[0]), bs[1..], i - 1);
    }
  }

  /** Whatever an invalid block before a valid one would have brought is already known. */
  predicate Covered(valid: Block -> bool, level: nat, bs: seq<Block>) {
    forall i, j :: 0 <= i < j < |bs| && valid(bs[j]) && !valid(bs[i]) ==> bs[i].events != [] && Last(bs[i]) <= level
  }

  lemma CoveredTail(valid: Block -> bool, level: nat, bs: seq<Block>)
    requires bs != [] && (valid(bs[0]) || (bs[0].events != [] && Last(bs[0]) <= level))
    ensures Covered(valid, level, bs) <==> Covered(valid, level, bs[1..])
  {
    assert forall i :: 0 <= i < |bs| - 1 ==> bs[1..][i] == bs[i + 1];
    if Covered(valid, level, bs[1..]) {
      forall i, j | 0 <= i < j < |bs| && valid(bs[j]) && !valid(bs[i])
        ensures bs[i].events != [] && Last(bs[i]) <= level
      {
        if i > 0 { assert valid(bs[1..][j - 1]) && !valid(bs[1..][i - 1]); }
      }
    }
    if Covered(valid, level, bs) {
      forall i, j | 0 <= i < j < |bs[1..]| && valid(bs[1..][j]) && !valid(bs[1..][i])
        ensures bs[1..][i].events != [] && Last(bs[1..][i]) <= level
      {
        assert valid(bs[j + 1]) && !valid(bs[i + 1]);
      }
    }
  }

  /** In a chain past both levels, being covered does not depend on the level. */
  lemma CoveredAbove(valid: Block -> bool, low: nat, high: nat, bs: seq<Block>)
    requires low <= high && Contiguous(high, bs)
    ensures Covered(valid, low, bs) <==> Covered(valid, high, bs)
  {
    forall i | 0 <= i && i + 1 < |bs| ensures bs[i].events != [] && high < Last(bs[i]) {
      Rising(high, bs, i);
    }
  }

  /** At the level of the store a chain is covered exactly when validity runs out once. */
  lemma CoveredAtStored(valid: Block -> bool, stored: nat, bs: seq<Block>)
    requires Contiguous(stored, bs)
    ensures Covered(valid, stored, bs) <==> GenuinePrefix(valid, bs)
  {
    forall i | 0 <= i && i + 1 < |bs| ensures bs[i].events != [] && stored < Last(bs[i]) {
      Rising(stored, bs, i);
    }
  }

  /** An invalid first block beyond the level leaves a hole: only submitting nothing is then free of gaps. */
  lemma HoleAtFirst(valid: Block -> bool, stored: nat, level: nat, bs: seq<Block>)
    requires Contiguous(stored, bs) && |bs| > 1 && !valid(bs[0]) && level < Last(bs[0])
    ensures GapFree(level, Submissions(valid, bs)) <==> Covered(valid, level, bs)
  {
    var rest := bs[1..];
    assert [] + Submissions(valid, rest) == Submissions(valid, rest);
    if j :| 0 < j < |bs| && valid(bs[j]) {
      assert rest[j - 1] == bs[j];
      AcrossHole(valid, level, Last(bs[0]), rest, j - 1);
    } else {
      assert forall i :: 0 <= i < |rest| ==> rest[i] == bs[i + 1];
      NoneGenuine(valid, rest);
    }
  }

  /** To a consumer at `level`, at or past the store, a chain of handled blocks submits nothing across
      a hole if and only if it is covered. */
  lemma {:induction false} GapFreeFrom(valid: Block -> bool, stored: nat, level: nat, bs: seq<Block>)
    requires Contiguous(stored, bs) && stored <= level
    ensures GapFree(level, Submissions(valid, bs)) <==> Covered(valid, level, bs)
    decreases |bs|
  {
    var b, rest := bs[0], Submissions(valid, bs[1..]);
    if |bs| == 1 {
      BlockGapFree(level, b);
      assert rest == [] && Submission(valid, b) + rest == Submission(valid, b);
    } else if valid(b) {
      BlockGapFree(level, b);
      GapFreeConcat(level, b.events, rest);
      var reached := Level(level, b.events);
      GapFreeFrom(valid, Last(b), reached, bs[1..]);
      CoveredTail(valid, level, bs);
      if reached > level { CoveredAbove(valid, level, reached, bs[1..]); }
    } else if Last(b) <= level {
      assert [] + rest == rest;
      GapFreeFrom(valid, Last(b), level, bs[1..]);
      CoveredTail(valid, level, bs);
    } else {
      HoleAtFirst(valid, stored, level, bs);
    }
  }

  /** A turn of the loop submits nothing across a hole if and only if, among the blocks it handles,
      no genuine one comes after one that fails validation. */
  lemma GapFreeIff(valid: Block -> bool, stored: nat, bs: seq<Block>)
    requires Contiguous(stored, bs)
    ensures GapFree(stored, Submissions(valid, bs)) <==> GenuinePrefix(valid, bs)
  {
    GapFreeFrom(valid, stored, stored, bs);
    CoveredAtStored(valid, stored, bs);
  }

  /** When every handled block is genuine, what is submitted is one unbroken run of numbers from
      the start of the first block to the end of the last. */
  lemma {:induction false} GenuineRun(valid: Block -> bool, stored: nat, bs: seq<Block>)
    requires Contiguous(stored, bs)
    requires forall i :: 0 <= i < |bs| ==> valid(bs[i])
    ensures var s := Submissions(valid, bs);
      && (forall i :: 0 <= i < |s| ==> s[i].seqnum == First(bs[0]) + i)
      && bs[|bs| - 1].events != [] && First(bs[0]) + |s| == Last(bs[|bs| - 1]) + 1
    decreases |bs|
  {
    var b := bs[0];
    if |bs| > 1 {
      assert forall i :: 0 <= i < |bs| - 1 ==> bs[1..][i] == bs[i + 1];
      GenuineRun(valid, Last(b), bs[1..]);
    } else {
      assert b.events + [] == b.events;
    }
  }

  // ----- every run ---------------------------------------------------------

  function Sent(valid: Block -> bool, turns: seq<Turn>): seq<BlockEvent> {
    if turns == [] then [] else Sent(valid, turns[..|turns| - 1]) + Submissions(valid, turns[|turns| - 1].blocks)
  }

  ghost function ForwardedIn(cfg: Config, turns: seq<Turn>): seq<BlockEvent> {
    if turns == [] then []
    else ForwardedIn(cfg, turns[..|turns| - 1]) + Forwarded(cfg, turns[|turns| - 1].blocks)
  }

  /** An event is forwarded if and only if it is in an attested block. */
  lemma {:induction false} ForwardedIff(cfg: Config, bs: seq<Block>, e: BlockEvent)
    ensures e in Forwarded(cfg, bs) <==> exists i :: 0 <= i < |bs| && Attested(cfg, bs[i]) && e in bs[i].events
  {
    if bs == [] {
    } else {
      var rest := bs[1..];
      ForwardedIff(cfg, rest, e);
      if i :| 0 <= i < |rest| && Attested(cfg, rest[i]) && e in rest[i].events {
        assert bs[i + 1] == rest[i];
      }
      if i :| 0 <= i < |bs| && Attested(cfg, bs[i]) && e in bs[i].events {
        if i > 0 { assert rest[i - 1] == bs[i]; }
      }
    }
  }

  lemma {:induction false} SubmittedForwarded(cfg: Config, bs: seq<Block>)
    requires ValidConfig(cfg) && V.WellFormedSets(cfg.sets)
    ensures Submissions(Validity(cfg), bs) == Forwarded(cfg, bs)
  {
    if bs == [] {
    } else {
      SubmittedForwarded(cfg, bs[1..]);
      if bs[0].events != [] { AttestedIff(cfg, bs[0]); }
    }
  }

  lemma {:induction false} SentForwarded(cfg: Config, turns: seq<Turn>)
    requires ValidConfig(cfg) && V.WellFormedSets(cfg.sets)
    ensures Sent(Validity(cfg), turns) == ForwardedIn(cfg, turns)
  {
    if turns == [] {
    } else {
      SentForwarded(cfg, turns[..|turns| - 1]);
      SubmittedForwarded(cfg, turns[|turns| - 1].blocks);
    }
  }

  lemma SentNext(valid: Block -> bool, turns: seq<Turn>, turn: Turn)
    ensures Sent(valid, turns + [turn]) == Sent(valid, turns) + Submissions(valid, turn.blocks)
  {
    assert (turns + [turn])[..|turns|] == turns;
  }

  predicate Chains(turns: seq<Turn>) {
    forall i :: 0 <= i < |turns| ==> turns[i].blocks == [] || Contiguous(turns[i].stored, turns[i].blocks)
  }

  lemma ReceivedChains(fetch: Fetch, blocks: seq<Block>, stored: seq<nat>, turns: seq<Turn>)
    requires |turns| == |blocks| == |stored| && Outcomes(fetch, blocks, stored, turns)
    requires forall i :: 0 <= i < |blocks| ==> Parted(fetch, stored[i], blocks[i])
    ensures Chains(turns)
  {
    forall i | 0 <= i < |turns| && turns[i].blocks != [] ensures Contiguous(turns[i].stored, turns[i].blocks) {
      PartedReady(fetch, stored[i], blocks[i]);
      assert Ended(fetch, blocks[i], stored[i], turns[i]);
      TurnContiguous(fetch, blocks[i], turns[i]);
    }
  }

  function Higher(a: nat, b: nat): nat {
    if a > b then a else b
  }

  /** What the consumer has after some turns: what was submitted, and what its store had got from elsewhere. */
  function Reached(valid: Block -> bool, level: nat, turns: seq<Turn>): nat
    decreases |turns|, 1
  {
    if turns == [] then level
    else Level(Before(valid, level, turns), Submissions(valid, turns[|turns| - 1].blocks))
  }

  /** What it has when the last of the turns begins. */
  function Before(valid: Block -> bool, level: nat, turns: seq<Turn>): nat
    requires turns != []
    decreases |turns|, 0
  {
    Higher(Reached(valid, level, turns[..|turns| - 1]), turns[|turns| - 1].stored)
  }

  predicate NeverAcross(valid: Block -> bool, level: nat, turns: seq<Turn>) {
    turns != [] ==>
      && NeverAcross(valid, level, turns[..|turns| - 1])
      && GapFree(Before(valid, level, turns), Submissions(valid, turns[|turns| - 1].blocks))
  }

  /** Every turn is covered at the level with which it begins. */
  predicate CoveredThroughout(valid: Block -> bool, level: nat, turns: seq<Turn>) {
    turns != [] ==>
      && CoveredThroughout(valid, level, turns[..|turns| - 1])
      && Covered(valid, Before(valid, level, turns), turns[|turns| - 1].blocks)
  }

  /** Over every run of chains, whatever else the store may receive, nothing ever comes from across a hole
      if and only if every turn is covered. */
  lemma {:induction false} RunGapFreeIff(valid: Block -> bool, level: nat, turns: seq<Turn>)
    requires Chains(turns)
    ensures NeverAcross(valid, level, turns) <==> CoveredThroughout(valid, level, turns)
  {
    if turns == [] {
    } else {
      var last := turns[|turns| - 1];
      RunGapFreeIff(valid, level, turns[..|turns| - 1]);
      if last.blocks != [] {
        GapFreeFrom(valid, last.stored, Before(valid, level, turns), last.blocks);
      }
    }
  }

  /** In particular it is enough that in each turn validity runs out at most once. */
  lemma {:induction false} GenuineTurns(valid: Block -> bool, level: nat, turns: seq<Turn>)
    requires Chains(turns) && forall i :: 0 <= i < |turns| ==> GenuinePrefix(valid, turns[i].blocks)
    ensures NeverAcross(valid, level, turns)
  {
    if turns == [] {
    } else {
      var before, last := turns[..|turns| - 1], turns[|turns| - 1];
      GenuineTurns(valid, level, before);
      assert GenuinePrefix(valid, last.blocks);
      if last.blocks != [] {
        GapFreeFrom(valid, last.stored, Before(valid, level, turns), last.blocks);
      }
    }
  }

  /** The store never holds more than what was submitted. */
  predicate StoreBehind(valid: Block -> bool, level: nat, turns: seq<Turn>) {
    turns != [] ==>
      && StoreBehind(valid, level, turns[..|turns| - 1])
      && turns[|turns| - 1].stored <= Reached(valid, level, turns[..|turns| - 1])
  }

  /** For a store fed by this receiver alone, that is to say that the whole of what is sent is free of gaps. */
  lemma {:induction false} SentGapFree(valid: Block -> bool, level: nat, turns: seq<Turn>)
    requires StoreBehind(valid, level, turns)
    ensures Reached(valid, level, turns) == Level(level, Sent(valid, turns))
    ensures NeverAcross(valid, level, turns) <==> GapFree(level, Sent(valid, turns))
  {
    if turns == [] {
    } else {
      var before, last := turns[..|turns| - 1], turns[|turns| - 1];
      SentGapFree(valid, level, before);
      GapFreeConcat(level, Sent(valid, before), Submissions(valid, last.blocks));
    }
  }
}
