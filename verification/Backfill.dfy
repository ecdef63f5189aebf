/** Replaying a shard's blocks to the indexers, each with its own checkpoint. */
module Backfill {
  type Message = nat

  /** User messages of each stored block, by height; pruned heights are absent. */
  type BlockStore = map<nat, seq<Message>>

  const BATCH: nat := 100

  /** The messages of the blocks in [lo, hi) that satisfy `pick`, in height order. */
  ghost function Replay(store: BlockStore, lo: nat, hi: nat, pick: nat -> bool): seq<Message>
    decreases hi - lo
  {
    if lo >= hi then []
    else (if lo in store && pick(lo) then store[lo] else []) + Replay(store, lo + 1, hi, pick)
  }

  ghost function ReadBy(inclusive: bool, end: nat): nat -> bool {
    b => inclusive || b < end
  }

  ghost function Every(): nat -> bool {
    _ => true
  }

  /** Reading a range of blocks. The stop height is passed to the store as an upper bound, and the
      store's upper bounds are exclusive; `inclusive` is the reading the caller relies on. */
  method ReadMessages(store: BlockStore, lo: nat, end: nat, inclusive: bool) returns (messages: seq<Message>)
    requires lo <= end
    ensures messages == Replay(store, lo, end + 1, ReadBy(inclusive, end))
  {
    var stop := if inclusive then end + 1 else end;
    messages := [];
    ghost var all := ReadBy(inclusive, end);
    for h := lo to stop
      invariant messages == Replay(store, lo, h, all)
    {
      ReplaySplit(store, lo, h, h + 1, all);
      assert Replay(store, h + 1, h + 1, all) == [];
      if h in store {
        messages := messages + store[h];
      }
    }
    ReplaySplit(store, lo, stop, end + 1, all);
    ReplayNone(store, stop, end + 1, all);
  }

  // ----- the backfill loop -------------------------------------------------

  datatype Indexer = Indexer(enabled: bool, checkpoint: nat)

  /** The lowest checkpoint of the enabled indexers, 0 when there are none. */
  function MinCheckpoint(indexers: seq<Indexer>): (m: nat)
    ensures forall i :: 0 <= i < |indexers| && indexers[i].enabled ==> m <= indexers[i].checkpoint
    ensures (exists i :: 0 <= i < |indexers| && indexers[i].enabled) ==>
      exists i :: 0 <= i < |indexers| && indexers[i].enabled && indexers[i].checkpoint == m
  {
    if indexers == [] then 0
    else
      var rest := MinCheckpoint(indexers[1..]);
      assert forall i :: 1 <= i < |indexers| ==> indexers[1..][i - 1] == indexers[i];
      if !indexers[0].enabled then rest
      else if (exists i :: 1 <= i < |indexers| && indexers[i].enabled) && rest < indexers[0].checkpoint then rest
      else indexers[0].checkpoint
  }

  /** Batches start at `start` and every 101 blocks from there. */
  function BatchStart(start: nat, b: nat): nat
    requires start <= b
  {
    start + (b - start) / (BATCH + 1) * (BATCH + 1)
  }

  function BatchEnd(start: nat, max: nat, b: nat): nat
    requires start <= b
  {
    var e := BatchStart(start, b) + BATCH;
    if e < max then e else max
  }

  /** Block `b` is handed to the indexer: its batch starts at or after the checkpoint, and the read
      reaches it. */
  predicate Handed(x: Indexer, start: nat, max: nat, inclusive: bool, b: nat) {
    x.enabled && start <= b && x.checkpoint <= BatchStart(start, b) && (inclusive || b < BatchEnd(start, max, b))
  }

  ghost function HandedTo(x: Indexer, start: nat, max: nat, inclusive: bool): nat -> bool {
    (b: nat) => Handed(x, start, max, inclusive, b)
  }

  /** The first batch whose read fails, or past the end. */
  function StopAt(start: nat, max: nat, fails: nat -> bool): (s: nat)
    ensures start <= s && (s > max || fails(s))
    decreases max + 1 - start
  {
    if start > max || fails(start) then start
    else StopAt(if start + BATCH < max then start + BATCH + 1 else max + 1, max, fails)
  }

  method RunBlockBackfill(store: BlockStore, max: nat, indexers: seq<Indexer>, inclusive: bool, fails: nat -> bool)
    returns (logs: seq<seq<Message>>, checkpoints: seq<nat>)
    ensures |logs| == |checkpoints| == |indexers|
    ensures var start := MinCheckpoint(indexers);
      forall i :: 0 <= i < |indexers| ==>
        logs[i] == Log(store, max, indexers[i], start, inclusive, fails)
    ensures forall i :: 0 <= i < |indexers| ==>
      checkpoints[i] == if MinCheckpoint(indexers) > max then indexers[i].checkpoint else max + 1
  {
    logs := seq(|indexers|, _ => []);
    checkpoints := seq(|indexers|, i requires 0 <= i < |indexers| => indexers[i].checkpoint);
    var start := MinCheckpoint(indexers);
    if start > max {
      return;
    }
    var height := start;
    while height <= max
      invariant start <= height <= max + 1 && (height <= max ==> BatchStart(start, height) == height)
      invariant StopAt(start, max, fails) == StopAt(height, max, fails)
      invariant |logs| == |checkpoints| == |indexers|
      invariant Logged(store, start, height, max, indexers, inclusive, logs) && Tracks(indexers, checkpoints, height)
      decreases max + 1 - height
    {
      if fails(height) {
        break;
      }
      logs, checkpoints, height := RunBatch(store, start, height, max, indexers, inclusive, logs, checkpoints);
    }
    checkpoints := seq(|indexers|, _ => max + 1);
  }

  /** One batch that can be read: every indexer it concerns gets its messages, all checkpoints advance. */
  method RunBatch(store: BlockStore, ghost start: nat, height: nat, max: nat, indexers: seq<Indexer>, inclusive: bool,
                  logs: seq<seq<Message>>, checkpoints: seq<nat>)
    returns (more: seq<seq<Message>>, advanced: seq<nat>, next: nat)
    requires |logs| == |checkpoints| == |indexers|
    requires start <= height <= max && BatchStart(start, height) == height
    requires Logged(store, start, height, max, indexers, inclusive, logs) && Tracks(indexers, checkpoints, height)
    ensures next == if height + BATCH < max then height + BATCH + 1 else max + 1
    ensures |more| == |advanced| == |indexers|
    ensures Logged(store, start, next, max, indexers, inclusive, more) && Tracks(indexers, advanced, next)
    ensures next <= max ==> BatchStart(start, next) == next
  {
    var end := if height + BATCH < max then height + BATCH else max;
    var messages := ReadMessages(store, height, end, inclusive);
    more := Dispatch(store, start, height, end, max, indexers, inclusive, checkpoints, messages, logs);
    advanced := Advance(checkpoints, end + 1, indexers, height);
    NextBatch(start, height);
    next := end + 1;
  }

  ghost predicate Logged(store: BlockStore, start: nat, height: nat, max: nat, indexers: seq<Indexer>,
                         inclusive: bool, logs: seq<seq<Message>>)
    requires |logs| == |indexers|
  {
    forall i :: 0 <= i < |indexers| ==> LogUpTo(store, start, height, max, indexers[i], inclusive, logs[i])
  }

  ghost predicate LogUpTo(store: BlockStore, start: nat, height: nat, max: nat, x: Indexer, inclusive: bool,
                          log: seq<Message>) {
    log == Replay(store, start, height, HandedTo(x, start, max, inclusive))
  }

  /** An enabled indexer stands at its checkpoint or, once the batches have passed it, where they are. */
  ghost predicate Tracks(indexers: seq<Indexer>, checkpoints: seq<nat>, height: nat)
    requires |checkpoints| == |indexers|
  {
    forall i :: 0 <= i < |indexers| && indexers[i].enabled ==> checkpoints[i] == Later(indexers[i].checkpoint, height)
  }

  function Later(a: nat, b: nat): nat {
    if a > b then a else b
  }

  method Advance(checkpoints: seq<nat>, to: nat, ghost indexers: seq<Indexer>, ghost height: nat) returns (r: seq<nat>)
    requires |checkpoints| == |indexers| && height <= to && Tracks(indexers, checkpoints, height)
    ensures |r| == |checkpoints| && forall i :: 0 <= i < |r| ==> r[i] == Later(checkpoints[i], to)
    ensures Tracks(indexers, r, to)
  {
    r := checkpoints;
    for i := 0 to |checkpoints|
      invariant |r| == |checkpoints|
      invariant forall j :: 0 <= j < i ==> r[j] == Later(checkpoints[j], to)
      invariant forall j :: i <= j < |r| ==> r[j] == checkpoints[j]
    {
      if r[i] < to {
        r := r[i := to];
      }
    }
  }

  method Dispatch(store: BlockStore, ghost start: nat, height: nat, ghost end: nat, ghost max: nat,
                  indexers: seq<Indexer>, ghost inclusive: bool, checkpoints: seq<nat>,
                  messages: seq<Message>, logs: seq<seq<Message>>)
    returns (r: seq<seq<Message>>)
    requires |logs| == |checkpoints| == |indexers|
    requires start <= height <= end == (if height + BATCH < max then height + BATCH else max)
    requires BatchStart(start, height) == height
    requires messages == Replay(store, height, end + 1, ReadBy(inclusive, end))
    requires Logged(store, start, height, max, indexers, inclusive, logs)
    requires Tracks(indexers, checkpoints, height)
    ensures |r| == |indexers| && Logged(store, start, end + 1, max, indexers, inclusive, r)
  {
    r := logs;
    for i := 0 to |indexers|
      invariant |r| == |indexers|
      invariant forall j :: 0 <= j < i ==> LogUpTo(store, start, end + 1, max, indexers[j], inclusive, r[j])
      invariant forall j :: i <= j < |r| ==> r[j] == logs[j]
    {
      OneBatch(store, start, height, end, max, indexers[i], inclusive, logs[i]);
      if !indexers[i].enabled {
        continue;
      }
      if checkpoints[i] > height {
        continue;
      }
      r := r[i := r[i] + messages];
    }
  }

  lemma OneBatch(store: BlockStore, start: nat, height: nat, end: nat, max: nat, x: Indexer, inclusive: bool,
                 log: seq<Message>)
    requires start <= height <= end == (if height + BATCH < max then height + BATCH else max)
    requires BatchStart(start, height) == height && LogUpTo(store, start, height, max, x, inclusive, log)
    ensures x.enabled && x.checkpoint <= height ==>
      LogUpTo(store, start, end + 1, max, x, inclusive, log + Replay(store, height, end + 1, ReadBy(inclusive, end)))
    ensures !(x.enabled && x.checkpoint <= height) ==> LogUpTo(store, start, end + 1, max, x, inclusive, log)
  {
    var pick, all := HandedTo(x, start, max, inclusive), ReadBy(inclusive, end);
    ReplaySplit(store, start, height, end + 1, pick);
    forall b: nat | height <= b < end + 1 ensures BatchStart(start, b) == height && BatchEnd(start, max, b) == end {
      SameBatch(start, height, b);
    }
    if x.enabled && x.checkpoint <= height {
      ReplaySame(store, height, end + 1, pick, all);
    } else {
      ReplayNone(store, height, end + 1, pick);
    }
  }

  lemma SameBatch(start: nat, height: nat, b: nat)
    requires start <= height <= b <= height + BATCH && BatchStart(start, height) == height
    ensures BatchStart(start, b) == height
  {
  }

  lemma NextBatch(start: nat, height: nat)
    requires start <= height && BatchStart(start, height) == height
    ensures BatchStart(start, height + BATCH + 1) == height + BATCH + 1
  {
  }

  // ----- replays -----------------------------------------------------------

  lemma {:induction false} ReplaySplit(store: BlockStore, lo: nat, mid: nat, hi: nat, pick: nat -> bool)
    requires lo <= mid <= hi
    ensures Replay(store, lo, hi, pick) == Replay(store, lo, mid, pick) + Replay(store, mid, hi, pick)
    decreases mid - lo
  {
    if lo >= mid {
    } else {
      ReplaySplit(store, lo + 1, mid, hi, pick);
    }
  }

  /** One block yields its messages if it is stored and picked. With the splitting of ranges this says what a
      replay is: the picked blocks one after the other. */
  lemma ReplayOne(store: BlockStore, b: nat, pick: nat -> bool)
    ensures Replay(store, b, b + 1, pick) == if b in store && pick(b) then store[b] else []
  {
    assert Replay(store, b + 1, b + 1, pick) == [];
  }

  lemma {:induction false} ReplaySame(store: BlockStore, lo: nat, hi: nat, p: nat -> bool, q: nat -> bool)
    requires forall b: nat :: lo <= b < hi ==> p(b) == q(b)
    ensures Replay(store, lo, hi, p) == Replay(store, lo, hi, q)
    decreases hi - lo
  {
    if lo >= hi {
    } else {
      ReplaySame(store, lo + 1, hi, p, q);
    }
  }

  lemma {:induction false} ReplayNone(store: BlockStore, lo: nat, hi: nat, pick: nat -> bool)
    requires forall b: nat :: lo <= b < hi ==> !pick(b)
    ensures Replay(store, lo, hi, pick) == []
    decreases hi - lo
  {
    if lo >= hi {
    } else {
      ReplayNone(store, lo + 1, hi, pick);
    }
  }

  /** A replay that picks less is the whole replay exactly when all it leaves out is empty. */
  lemma {:induction false} ReplayWhole(store: BlockStore, lo: nat, hi: nat, pick: nat -> bool)
    ensures |Replay(store, lo, hi, pick)| <= |Replay(store, lo, hi, Every())|
    ensures Replay(store, lo, hi, pick) == Replay(store, lo, hi, Every())
       <==> (forall b: nat :: lo <= b < hi && b in store && store[b] != [] ==> pick(b))
    decreases hi - lo
  {
    if lo >= hi {
    } else {
      ReplayWhole(store, lo + 1, hi, pick);
      var p, w := Replay(store, lo + 1, hi, pick), Replay(store, lo + 1, hi, Every());
      if lo in store && !pick(lo) && store[lo] != [] {
        assert |Replay(store, lo, hi, pick)| < |Replay(store, lo, hi, Every())|;
      } else {
        var head := if lo in store then store[lo] else [];
        assert (head + p)[|head|..] == p && (head + w)[|head|..] == w;
      }
    }
  }

  // ----- what each indexer has seen ----------------------------------------

  /** What a run hands to an indexer: the blocks for it, up to the first batch that cannot be read. */
  ghost function Log(store: BlockStore, max: nat, x: Indexer, start: nat, inclusive: bool,
                     fails: nat -> bool): seq<Message> {
    Replay(store, start, StopAt(start, max, fails), HandedTo(x, start, max, inclusive))
  }

  ghost function HandedBefore(x: Indexer, start: nat, max: nat, inclusive: bool, stop: nat): nat -> bool {
    (b: nat) => Handed(x, start, max, inclusive, b) && b < stop
  }

  predicate SameBlock(a: BlockStore, b: BlockStore, height: nat) {
    (height in a <==> height in b) && (height in a ==> a[height] == b[height])
  }

  lemma {:induction false} ReplayAgrees(a: BlockStore, b: BlockStore, lo: nat, hi: nat, pick: nat -> bool)
    requires forall h: nat :: lo <= h < hi && pick(h) ==> SameBlock(a, b, h)
    ensures Replay(a, lo, hi, pick) == Replay(b, lo, hi, pick)
    decreases hi - lo
  {
    if lo >= hi {
    } else {
      ReplayAgrees(a, b, lo + 1, hi, pick);
      assert pick(lo) ==> SameBlock(a, b, lo);
    }
  }

  /** Nothing of a block below its checkpoint reaches an indexer: whatever those blocks hold, the log is
      the same. In particular a later run, which finds the checkpoint past everything an earlier run was
      to read, delivers nothing of what that run missed. */
  lemma NothingBelowCheckpoint(a: BlockStore, b: BlockStore, max: nat, x: Indexer, start: nat, inclusive: bool,
                               fails: nat -> bool)
    requires forall h: nat :: x.checkpoint <= h <= max ==> SameBlock(a, b, h)
    ensures Log(a, max, x, start, inclusive, fails) == Log(b, max, x, start, inclusive, fails)
  {
    StopWithin(start, max, fails);
    ReplayAgrees(a, b, start, StopAt(start, max, fails), HandedTo(x, start, max, inclusive));
  }

  /** What a run to `max` leaves undelivered stays so: all checkpoints are then `max + 1`, and from there
      no later run depends on any block up to `max`. */
  lemma MissedStaysMissed(a: BlockStore, b: BlockStore, max: nat, later: nat, indexers: seq<Indexer>, inclusive: bool,
                          fails: nat -> bool, i: nat)
    requires i < |indexers| && forall j :: 0 <= j < |indexers| ==> indexers[j].checkpoint == max + 1
    requires forall h: nat :: max < h ==> SameBlock(a, b, h)
    ensures var start := MinCheckpoint(indexers);
      Log(a, later, indexers[i], start, inclusive, fails) == Log(b, later, indexers[i], start, inclusive, fails)
  {
    NothingBelowCheckpoint(a, b, later, indexers[i], MinCheckpoint(indexers), inclusive, fails);
  }

  lemma {:induction false} StopWithin(start: nat, max: nat, fails: nat -> bool)
    ensures StopAt(start, max, fails) <= if start > max then start else max + 1
    decreases max + 1 - start
  {
    if start > max || fails(start) {
    } else {
      StopWithin(if start + BATCH < max then start + BATCH + 1 else max + 1, max, fails);
    }
  }

  /** The run goes through to the end if and only if no batch on the way fails. */
  lemma {:induction false} StopAtEnd(start: nat, height: nat, max: nat, fails: nat -> bool)
    requires start <= height && BatchStart(start, height) == height
    ensures StopAt(height, max, fails) > max
       <==> (forall b: nat :: height <= b <= max ==> !fails(BatchStart(start, b)))
    decreases max + 1 - height
  {
    if height > max {
    } else if fails(height) {
      assert !(height <= height <= max ==> !fails(BatchStart(start, height)));
    } else {
      forall b: nat | height <= b <= max && b <= height + BATCH ensures BatchStart(start, b) == height {
        SameBatch(start, height, b);
      }
      if height + BATCH < max {
        NextBatch(start, height);
        StopAtEnd(start, height + BATCH + 1, max, fails);
      }
    }
  }

  /** Otherwise it stops at the first batch that fails. */
  lemma {:induction false} StopAtFirst(start: nat, height: nat, max: nat, fails: nat -> bool)
    requires start <= height && BatchStart(start, height) == height
    ensures var s := StopAt(height, max, fails);
      s <= max ==>
        && fails(s) && BatchStart(start, s) == s
        && forall b: nat :: height <= b < s ==> !fails(BatchStart(start, b))
    decreases max + 1 - height
  {
    if height > max || fails(height) {
    } else {
      forall b: nat | height <= b <= height + BATCH ensures BatchStart(start, b) == height {
        SameBatch(start, height, b);
      }
      if height + BATCH < max {
        NextBatch(start, height);
        StopAtFirst(start, height + BATCH + 1, max, fails);
      }
    }
  }

  /** Batches are of 101 blocks from the start on, the last one cut at the end. */
  lemma BatchesOf101(start: nat, max: nat, b: nat)
    requires start <= b <= max
    ensures var s := BatchStart(start, b);
      && s <= b < s + 101 && (s - start) % 101 == 0
      && BatchEnd(start, max, b) == if s + 100 < max then s + 100 else max
  {
  }

  /** An indexer that is switched off gets nothing. */
  lemma DisabledGetsNothing(store: BlockStore, max: nat, x: Indexer, start: nat, inclusive: bool, fails: nat -> bool)
    requires !x.enabled
    ensures Log(store, max, x, start, inclusive, fails) == []
  {
    ReplayNone(store, start, StopAt(start, max, fails), HandedTo(x, start, max, inclusive));
  }

  lemma LogFromCheckpoint(store: BlockStore, max: nat, x: Indexer, start: nat, inclusive: bool, fails: nat -> bool)
    requires start <= x.checkpoint <= max
    ensures Log(store, max, x, start, inclusive, fails)
         == Replay(store, x.checkpoint, max + 1, HandedBefore(x, start, max, inclusive, StopAt(start, max, fails)))
  {
    var stop := StopAt(start, max, fails);
    var pick, before := HandedTo(x, start, max, inclusive), HandedBefore(x, start, max, inclusive, stop);
    StopWithin(start, max, fails);
    ReplaySame(store, start, stop, pick, before);
    ReplaySplit(store, start, stop, max + 1, before);
    ReplayNone(store, stop, max + 1, before);
    ReplaySplit(store, start, x.checkpoint, max + 1, before);
    ReplayNone(store, start, x.checkpoint, before);
    var log, rest := Replay(store, start, stop, before), Replay(store, x.checkpoint, max + 1, before);
    assert log + [] == log && [] + rest == rest;
  }

  /** A run hands an indexer every block from its checkpoint to the end, each once and in order, if and
      only if no block with messages lies in the batch its checkpoint cuts, is the last of its batch
      under exclusive reads, or comes at or after the first batch that cannot be read. */
  lemma CompleteIff(store: BlockStore, max: nat, x: Indexer, start: nat, inclusive: bool, fails: nat -> bool)
    requires x.enabled && start <= x.checkpoint
    ensures Log(store, max, x, start, inclusive, fails) == Replay(store, x.checkpoint, max + 1, Every())
       <==> (forall b: nat :: x.checkpoint <= b <= max && b in store && store[b] != [] ==>
               && x.checkpoint <= BatchStart(start, b)
               && (inclusive || b < BatchEnd(start, max, b))
               && b < StopAt(start, max, fails))
  {
    if x.checkpoint <= max {
      LogFromCheckpoint(store, max, x, start, inclusive, fails);
      ReplayWhole(store, x.checkpoint, max + 1, HandedBefore(x, start, max, inclusive, StopAt(start, max, fails)));
    } else {
      NothingDue(store, max, x, start, inclusive, fails);
    }
  }

  lemma NothingDue(store: BlockStore, max: nat, x: Indexer, start: nat, inclusive: bool, fails: nat -> bool)
    requires start <= x.checkpoint && max < x.checkpoint
    ensures Log(store, max, x, start, inclusive, fails) == []
  {
    StopWithin(start, max, fails);
    ReplayNone(store, start, StopAt(start, max, fails), HandedTo(x, start, max, inclusive));
  }

  /** With inclusive reads and a checkpoint on a batch boundary, what is missed is what the first
      failed read cuts off: nothing if no block with messages lies there. */
  lemma AlignedComplete(store: BlockStore, max: nat, x: Indexer, start: nat, fails: nat -> bool)
    requires x.enabled && start <= x.checkpoint && (x.checkpoint - start) % (BATCH + 1) == 0
    ensures Log(store, max, x, start, true, fails) == Replay(store, x.checkpoint, max + 1, Every())
       <==> (forall b: nat :: x.checkpoint <= b <= max && b in store && store[b] != [] ==>
               b < StopAt(start, max, fails))
  {
    CompleteIff(store, max, x, start, true, fails);
    forall b: nat | x.checkpoint <= b ensures x.checkpoint <= BatchStart(start, b) {
      NoBatchBefore(start, x.checkpoint, b);
    }
  }

  /** No batch reaches back over a batch boundary. */
  lemma NoBatchBefore(start: nat, boundary: nat, b: nat)
    requires start <= boundary <= b && (boundary - start) % (BATCH + 1) == 0
    ensures boundary <= BatchStart(start, b)
  {
    var k, q := (boundary - start) / (BATCH + 1), (b - start) / (BATCH + 1);
    assert boundary - start == k * (BATCH + 1);
    assert q >= k;
  }

  /** Without failed reads only the batch the checkpoint cuts and the bound of the reads can cost blocks. */
  lemma UnfailingComplete(store: BlockStore, max: nat, x: Indexer, start: nat, inclusive: bool, fails: nat -> bool)
    requires x.enabled && start <= x.checkpoint
    requires forall b: nat :: start <= b <= max ==> !fails(BatchStart(start, b))
    ensures Log(store, max, x, start, inclusive, fails) == Replay(store, x.checkpoint, max + 1, Every())
       <==> (forall b: nat :: x.checkpoint <= b <= max && b in store && store[b] != [] ==>
               x.checkpoint <= BatchStart(start, b) && (inclusive || b < BatchEnd(start, max, b)))
  {
    StopAtEnd(start, start, max, fails);
    CompleteIff(store, max, x, start, inclusive, fails);
  }

  /** With the store's exclusive reads nothing of the last block reaches any indexer: whatever it holds,
      the log is the same, and a last block with messages makes it incomplete. */
  lemma LastBlockMissed(store: BlockStore, max: nat, x: Indexer, start: nat, fails: nat -> bool, held: seq<Message>)
    requires x.enabled && start <= x.checkpoint <= max
    ensures Log(store[max := held], max, x, start, false, fails) == Log(store, max, x, start, false, fails)
    ensures max in store && store[max] != [] ==>
      Log(store, max, x, start, false, fails) != Replay(store, x.checkpoint, max + 1, Every())
  {
    StopWithin(start, max, fails);
    var pick := HandedTo(x, start, max, false);
    assert !pick(max);
    ReplayAgrees(store[max := held], store, start, StopAt(start, max, fails), pick);
    CompleteIff(store, max, x, start, false, fails);
  }
}
