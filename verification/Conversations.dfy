/** Conversation threads: a recursive fetch over a reply relation that may be cyclic, cut off by
    depth and by a shared reply counter. */
module Conversations {
  import opened Options
  import B = Bytes

  datatype Cast = Cast(hash: B.Bytes, author: Option<nat>)

  datatype Thread = Thread(cast: Cast, replies: seq<Thread>, depth: nat)

  /** The casts replying to a cast, or nothing when the service fails. */
  type Replies = (nat, B.Bytes) -> Option<seq<Cast>>

  /** A cast, its absence, or a failure of the service. */
  datatype Fetched = Got(cast: Cast) | NotFound | Failed

  type Lookup = (nat, B.Bytes) -> Fetched

  datatype Config = Config(enabled: bool, maxDepth: nat, maxReplies: nat)

  function Max(a: nat, b: nat): nat {
    if a < b then b else a
  }

  // ----- what a thread is made of ------------------------------------------

  function Size(t: Thread): nat {
    1 + SizeAll(t.replies)
  }

  function SizeAll(ts: seq<Thread>): nat {
    if ts == [] then 0 else Size(ts[0]) + SizeAll(ts[1..])
  }

  function Deepest(t: Thread): nat {
    Max(t.depth, DeepestAll(t.replies))
  }

  function DeepestAll(ts: seq<Thread>): nat {
    if ts == [] then 0 else Max(Deepest(ts[0]), DeepestAll(ts[1..]))
  }

  /** Every reply lies one level below the cast it answers, and none below `limit`. */
  predicate Levelled(t: Thread, depth: nat, limit: nat) {
    t.depth == depth <= limit && AllLevelled(t.replies, depth + 1, limit)
  }

  predicate AllLevelled(ts: seq<Thread>, depth: nat, limit: nat) {
    ts == [] || (Levelled(ts[0], depth, limit) && AllLevelled(ts[1..], depth, limit))
  }

  function Answers(cast: Cast, replies: Replies): Option<seq<Cast>> {
    if cast.author.Some? then replies(cast.author.value, cast.hash) else Some([])
  }

  /** At every cast the thread shows a first part of its answers, in order. */
  predicate Pruned(t: Thread, replies: Replies) {
    t.replies != [] ==> Answers(t.cast, replies).Some? && AllPruned(t.replies, Answers(t.cast, replies).value, replies)
  }

  predicate AllPruned(ts: seq<Thread>, casts: seq<Cast>, replies: Replies) {
    ts == [] ||
    (casts != [] && ts[0].cast == casts[0] && Pruned(ts[0], replies) && AllPruned(ts[1..], casts[1..], replies))
  }

  /** The reply relation unfolded to a depth, with nothing cut off. */
  function Unfolding(cast: Cast, depth: nat, limit: nat, replies: Replies): Thread
    requires depth <= limit
    decreases limit - depth, 0
  {
    if depth == limit || Answers(cast, replies).None? then Thread(cast, [], depth)
    else Thread(cast, UnfoldAll(Answers(cast, replies).value, depth + 1, limit, replies), depth)
  }

  function UnfoldAll(casts: seq<Cast>, depth: nat, limit: nat, replies: Replies): seq<Thread>
    requires depth <= limit
    decreases limit - depth, 1 + |casts|
  {
    if casts == [] then []
    else [Unfolding(casts[0], depth, limit, replies)] + UnfoldAll(casts[1..], depth, limit, replies)
  }

  ghost predicate PagesOf(replies: Replies, n: nat) {
    forall fid, hash :: replies(fid, hash).Some? ==> |replies(fid, hash).value| <= n
  }

  // ----- building ----------------------------------------------------------

  /** The two counters the whole build shares. */
  datatype Tally = Tally(total: nat, deepest: nat)

  datatype Grown<T> = Grown(result: Option<T>, tally: Tally)

  function Grow(cfg: Config, cast: Cast, depth: nat, limit: nat, t: Tally, replies: Replies): Grown<Thread>
    requires depth <= limit
    decreases limit - depth, 0
  {
    var t := Tally(t.total, Max(t.deepest, depth));
    if t.total >= cfg.maxReplies || depth == limit || cast.author.None? then
      Grown(Some(Thread(cast, [], depth)), t)
    else match replies(cast.author.value, cast.hash)
      case None => Grown(None, t)
      case Some(casts) =>
        var g := GrowAll(cfg, casts, depth + 1, limit, Tally(t.total + |casts|, t.deepest), replies);
        Grown(if g.result.Some? then Some(Thread(cast, g.result.value, depth)) else None, g.tally)
  }

  function GrowAll(cfg: Config, casts: seq<Cast>, depth: nat, limit: nat, t: Tally,
                   replies: Replies): Grown<seq<Thread>>
    requires depth <= limit
    decreases limit - depth, 1 + |casts|
  {
    if casts == [] || t.total >= cfg.maxReplies then Grown(Some([]), t)
    else
      var g := Grow(cfg, casts[0], depth, limit, t, replies);
      if g.result.None? then Grown(None, g.tally)
      else
        var rest := GrowAll(cfg, casts[1..], depth, limit, g.tally, replies);
        Grown(if rest.result.Some? then Some([g.result.value] + rest.result.value) else None, rest.tally)
  }

  /** The counters are handed in and back, as the source's mutable references are. */
  method BuildTree(cfg: Config, cast: Cast, depth: nat, limit: nat, total: nat, deepest: nat, replies: Replies)
    returns (r: Option<Thread>, total': nat, deepest': nat)
    requires depth <= limit
    ensures Grown(r, Tally(total', deepest')) == Grow(cfg, cast, depth, limit, Tally(total, deepest), replies)
    decreases limit - depth, 0
  {
    total', deepest' := total, deepest;
    if depth > deepest' {
      deepest' := depth;
    }
    if total' >= cfg.maxReplies {
      return Some(Thread(cast, [], depth)), total', deepest';
    }
    if depth >= limit {
      return Some(Thread(cast, [], depth)), total', deepest';
    }
    if cast.author.None? {
      return Some(Thread(cast, [], depth)), total', deepest';
    }
    var fetched := replies(cast.author.value, cast.hash);
    if fetched.None? {
      return None, total', deepest';
    }
    var messages := fetched.value;
    total' := total' + |messages|;
    var trees;
    trees, total', deepest' := BuildReplies(cfg, messages, depth + 1, limit, total', deepest', replies);
    r := if trees.Some? then Some(Thread(cast, trees.value, depth)) else None;
  }

  /** The loop over the replies of one cast. */
  method BuildReplies(cfg: Config, messages: seq<Cast>, depth: nat, limit: nat, total: nat, deepest: nat,
                      replies: Replies)
    returns (r: Option<seq<Thread>>, total': nat, deepest': nat)
    requires depth <= limit
    ensures Grown(r, Tally(total', deepest')) == GrowAll(cfg, messages, depth, limit, Tally(total, deepest), replies)
    decreases limit - depth, 1
  {
    total', deepest' := total, deepest;
    ghost var all := GrowAll(cfg, messages, depth, limit, Tally(total, deepest), replies);
    var trees: seq<Thread> := [];
    assert messages[0..] == messages && (all.result.Some? ==> trees + all.result.value == all.result.value);
    for i := 0 to |messages|
      invariant Continues(all, trees, GrowAll(cfg, messages[i..], depth, limit, Tally(total', deepest'), replies))
    {
      assert messages[i..][0] == messages[i] && messages[i..][1..] == messages[i + 1..];
      if total' >= cfg.maxReplies {
        break;
      }
      var sub;
      sub, total', deepest' := BuildTree(cfg, messages[i], depth, limit, total', deepest', replies);
      if sub.None? {
        return None, total', deepest';
      }
      ghost var rest := GrowAll(cfg, messages[i + 1..], depth, limit, Tally(total', deepest'), replies);
      ContinuesNext(all, trees, sub.value, rest);
      trees := trees + [sub.value];
    }
    assert trees + [] == trees;
    r := Some(trees);
  }

  /** The whole result is what is built so far, followed by what the rest yields. */
  ghost predicate Continues(all: Grown<seq<Thread>>, trees: seq<Thread>, rest: Grown<seq<Thread>>) {
    all == Grown(if rest.result.Some? then Some(trees + rest.result.value) else None, rest.tally)
  }

  lemma ContinuesNext(all: Grown<seq<Thread>>, trees: seq<Thread>, tree: Thread, rest: Grown<seq<Thread>>)
    requires var longer := if rest.result.Some? then Some([tree] + rest.result.value) else None;
      Continues(all, trees, Grown(longer, rest.tally))
    ensures Continues(all, trees + [tree], rest)
  {
    if rest.result.Some? {
      assert trees + ([tree] + rest.result.value) == (trees + [tree]) + rest.result.value;
    }
  }

  // ----- what every build keeps --------------------------------------------

  lemma {:induction false} GrowShape(cfg: Config, cast: Cast, depth: nat, limit: nat, t: Tally, replies: Replies)
    requires depth <= limit
    ensures var g := Grow(cfg, cast, depth, limit, t, replies);
      g.result.Some? ==>
        && g.result.value.cast == cast && Levelled(g.result.value, depth, limit) && Pruned(g.result.value, replies)
        && g.tally.deepest == Max(t.deepest, Deepest(g.result.value))
    decreases limit - depth, 0
  {
    if depth < limit && t.total < cfg.maxReplies && cast.author.Some? && Answers(cast, replies).Some? {
      var casts := Answers(cast, replies).value;
      GrowAllShape(cfg, casts, depth + 1, limit, Tally(t.total + |casts|, Max(t.deepest, depth)), replies);
    }
  }

  lemma {:induction false} GrowAllShape(cfg: Config, casts: seq<Cast>, depth: nat, limit: nat, t: Tally,
                                        replies: Replies)
    requires depth <= limit
    ensures var g := GrowAll(cfg, casts, depth, limit, t, replies);
      g.result.Some? ==>
        && AllLevelled(g.result.value, depth, limit) && AllPruned(g.result.value, casts, replies)
        && g.tally.deepest == Max(t.deepest, DeepestAll(g.result.value))
    decreases limit - depth, 1 + |casts|
  {
    if casts != [] && t.total < cfg.maxReplies {
      var g := Grow(cfg, casts[0], depth, limit, t, replies);
      GrowShape(cfg, casts[0], depth, limit, t, replies);
      if g.result.Some? {
        GrowAllShape(cfg, casts[1..], depth, limit, g.tally, replies);
        var rest := GrowAll(cfg, casts[1..], depth, limit, g.tally, replies);
        if rest.result.Some? {
          assert ([g.result.value] + rest.result.value)[1..] == rest.result.value;
        }
      }
    }
  }

  /** Whatever was built was counted first, and was started while the count was below the limit. */
  lemma {:induction false} GrowCount(cfg: Config, cast: Cast, depth: nat, limit: nat, t: Tally, replies: Replies)
    requires depth <= limit
    ensures var g := Grow(cfg, cast, depth, limit, t, replies);
      && t.total <= g.tally.total
      && (g.result.Some? ==>
        && t.total + Size(g.result.value) - 1 <= g.tally.total
        && (Size(g.result.value) > 1 ==> t.total + Size(g.result.value) - 1 < cfg.maxReplies)
        && (g.tally.total < cfg.maxReplies ==> g.tally.total == t.total + Size(g.result.value) - 1))
    decreases limit - depth, 0
  {
    if depth < limit && t.total < cfg.maxReplies && cast.author.Some? && Answers(cast, replies).Some? {
      var casts := Answers(cast, replies).value;
      GrowAllCount(cfg, casts, depth + 1, limit, Tally(t.total + |casts|, Max(t.deepest, depth)), replies);
    }
  }

  lemma {:induction false} GrowAllCount(cfg: Config, casts: seq<Cast>, depth: nat, limit: nat, t: Tally,
                                        replies: Replies)
    requires depth <= limit && |casts| <= t.total
    ensures var g := GrowAll(cfg, casts, depth, limit, t, replies);
      && t.total <= g.tally.total
      && (g.result.Some? ==>
        && t.total - |casts| + SizeAll(g.result.value) <= g.tally.total
        && (SizeAll(g.result.value) > 0 ==> t.total - |casts| + SizeAll(g.result.value) < cfg.maxReplies)
        && (g.tally.total < cfg.maxReplies ==> g.tally.total == t.total - |casts| + SizeAll(g.result.value)))
    decreases limit - depth, 1 + |casts|
  {
    if casts != [] && t.total < cfg.maxReplies {
      var g := Grow(cfg, casts[0], depth, limit, t, replies);
      GrowCount(cfg, casts[0], depth, limit, t, replies);
      if g.result.Some? {
        GrowAllCount(cfg, casts[1..], depth, limit, g.tally, replies);
        var rest := GrowAll(cfg, casts[1..], depth, limit, g.tally, replies);
        if rest.result.Some? {
          assert ([g.result.value] + rest.result.value)[1..] == rest.result.value;
        }
      }
    }
  }

  /** Below the limit nothing is cut off. */
  lemma {:induction false} GrowComplete(cfg: Config, cast: Cast, depth: nat, limit: nat, t: Tally, replies: Replies)
    requires depth <= limit
    ensures var g := Grow(cfg, cast, depth, limit, t, replies);
      g.result.Some? && g.tally.total < cfg.maxReplies ==> g.result.value == Unfolding(cast, depth, limit, replies)
    decreases limit - depth, 0
  {
    GrowCount(cfg, cast, depth, limit, t, replies);
    if cast.author.None? {
      assert UnfoldAll([], depth, limit, replies) == [];
    } else if depth < limit && t.total < cfg.maxReplies && Answers(cast, replies).Some? {
      var casts := Answers(cast, replies).value;
      GrowAllComplete(cfg, casts, depth + 1, limit, Tally(t.total + |casts|, Max(t.deepest, depth)), replies);
    }
  }

  lemma {:induction false} GrowAllComplete(cfg: Config, casts: seq<Cast>, depth: nat, limit: nat, t: Tally,
                                           replies: Replies)
    requires depth <= limit && |casts| <= t.total
    ensures var g := GrowAll(cfg, casts, depth, limit, t, replies);
      g.result.Some? && g.tally.total < cfg.maxReplies ==> g.result.value == UnfoldAll(casts, depth, limit, replies)
    decreases limit - depth, 1 + |casts|
  {
    GrowAllCount(cfg, casts, depth, limit, t, replies);
    if casts != [] && t.total < cfg.maxReplies {
      var g := Grow(cfg, casts[0], depth, limit, t, replies);
      GrowComplete(cfg, casts[0], depth, limit, t, replies);
      GrowCount(cfg, casts[0], depth, limit, t, replies);
      if g.result.Some? {
        GrowAllComplete(cfg, casts[1..], depth, limit, g.tally, replies);
        GrowAllCount(cfg, casts[1..], depth, limit, g.tally, replies);
      }
    }
  }

  /** Only one page can overshoot the limit. */
  lemma {:induction false} GrowBound(cfg: Config, cast: Cast, depth: nat, limit: nat, t: Tally, replies: Replies)
    requires depth <= limit && PagesOf(replies, cfg.maxReplies)
    ensures var total := Grow(cfg, cast, depth, limit, t, replies).tally.total;
      total == t.total || total <= 2 * cfg.maxReplies - 1
    decreases limit - depth, 0
  {
    if depth < limit && t.total < cfg.maxReplies && cast.author.Some? && Answers(cast, replies).Some? {
      var casts := Answers(cast, replies).value;
      GrowAllBound(cfg, casts, depth + 1, limit, Tally(t.total + |casts|, Max(t.deepest, depth)), replies);
    }
  }

  lemma {:induction false} GrowAllBound(cfg: Config, casts: seq<Cast>, depth: nat, limit: nat, t: Tally,
                                        replies: Replies)
    requires depth <= limit && PagesOf(replies, cfg.maxReplies)
    ensures var total := GrowAll(cfg, casts, depth, limit, t, replies).tally.total;
      total == t.total || total <= 2 * cfg.maxReplies - 1
    decreases limit - depth, 1 + |casts|
  {
    if casts != [] && t.total < cfg.maxReplies {
      var g := Grow(cfg, casts[0], depth, limit, t, replies);
      GrowBound(cfg, casts[0], depth, limit, t, replies);
      if g.result.Some? {
        GrowAllBound(cfg, casts[1..], depth, limit, g.tally, replies);
      }
    }
  }

  ghost predicate AlwaysAnswers(replies: Replies) {
    forall fid, hash :: replies(fid, hash).Some?
  }

  lemma {:induction false} GrowSucceeds(cfg: Config, cast: Cast, depth: nat, limit: nat, t: Tally, replies: Replies)
    requires depth <= limit && AlwaysAnswers(replies)
    ensures Grow(cfg, cast, depth, limit, t, replies).result.Some?
    decreases limit - depth, 0
  {
    if depth < limit && t.total < cfg.maxReplies && cast.author.Some? {
      var casts := Answers(cast, replies).value;
      GrowAllSucceeds(cfg, casts, depth + 1, limit, Tally(t.total + |casts|, Max(t.deepest, depth)), replies);
    }
  }

  lemma {:induction false} GrowAllSucceeds(cfg: Config, casts: seq<Cast>, depth: nat, limit: nat, t: Tally,
                                           replies: Replies)
    requires depth <= limit && AlwaysAnswers(replies)
    ensures GrowAll(cfg, casts, depth, limit, t, replies).result.Some?
    decreases limit - depth, 1 + |casts|
  {
    if casts != [] && t.total < cfg.maxReplies {
      GrowSucceeds(cfg, casts[0], depth, limit, t, replies);
      GrowAllSucceeds(cfg, casts[1..], depth, limit, Grow(cfg, casts[0], depth, limit, t, replies).tally, replies);
    }
  }

  // ----- a conversation ----------------------------------------------------

  datatype Conversation = Conversation(root: Thread, totalReplies: nat, maxDepth: nat)

  datatype Response = Found(conversation: Conversation) | CastNotFound | FeatureDisabled | Unavailable

  /** The limits a conversation obeys, and exactly when its reply total is the number of replies shown. */
  ghost predicate WithinLimits(c: Conversation, cfg: Config, limit: nat, replies: Replies) {
    && Levelled(c.root, 0, limit)
    && Pruned(c.root, replies)
    && c.maxDepth == Deepest(c.root)
    && (Size(c.root) > 1 ==> Size(c.root) - 1 < cfg.maxReplies)
    && (cfg.maxReplies >= 1 && PagesOf(replies, cfg.maxReplies) ==> c.totalReplies <= 2 * cfg.maxReplies - 1)
    && (c.totalReplies < cfg.maxReplies ==> c.root == Unfolding(c.root.cast, 0, limit, replies))
    && (c.totalReplies == Size(c.root) - 1 <==> c.totalReplies < cfg.maxReplies || cfg.maxReplies == 0)
  }

  method GetConversation(cfg: Config, fid: nat, hash: B.Bytes, depth: Option<nat>, lookup: Lookup, replies: Replies)
    returns (r: Response)
    ensures r.FeatureDisabled? <==> !cfg.enabled
    ensures r.CastNotFound? <==> cfg.enabled && lookup(fid, hash).NotFound?
    ensures cfg.enabled && lookup(fid, hash).Failed? ==> r.Unavailable?
    ensures r.Unavailable? ==> cfg.enabled && (lookup(fid, hash).Failed? || !AlwaysAnswers(replies))
    ensures cfg.enabled && lookup(fid, hash).Got? ==>
      (r.Found? <==> Grow(cfg, lookup(fid, hash).cast, 0, DepthLimit(cfg, depth), Tally(0, 0), replies).result.Some?)
    ensures r.Found? ==>
      && lookup(fid, hash) == Got(r.conversation.root.cast)
      && WithinLimits(r.conversation, cfg, DepthLimit(cfg, depth), replies)
    ensures r.Found? ==> forall limit: nat :: IsDepthLimit(cfg, depth, limit) ==>
      WithinLimits(r.conversation, cfg, limit, replies)
  {
    if !cfg.enabled {
      return FeatureDisabled;
    }
    var limit := DepthLimit(cfg, depth);
    var root := lookup(fid, hash);
    if root.NotFound? {
      return CastNotFound;
    }
    if root.Failed? {
      return Unavailable;
    }
    var built, total, deepest := BuildTree(cfg, root.cast, 0, limit, 0, 0, replies);
    if built.None? {
      if AlwaysAnswers(replies) { GrowSucceeds(cfg, root.cast, 0, limit, Tally(0, 0), replies); }
      return Unavailable;
    }
    r := Found(Conversation(built.value, total, deepest));
    GrowWithinLimits(cfg, root.cast, limit, replies);
  }

  /** The depth asked for or the configured one, whichever is less. */
  predicate IsDepthLimit(cfg: Config, depth: Option<nat>, limit: nat) {
    && limit <= cfg.maxDepth && (depth.Some? ==> limit <= depth.value)
    && (limit == cfg.maxDepth || depth == Some(limit))
  }

  lemma GrowWithinLimits(cfg: Config, cast: Cast, limit: nat, replies: Replies)
    ensures var g := Grow(cfg, cast, 0, limit, Tally(0, 0), replies);
      g.result.Some? ==>
        && g.result.value.cast == cast
        && WithinLimits(Conversation(g.result.value, g.tally.total, g.tally.deepest), cfg, limit, replies)
  {
    var t := Tally(0, 0);
    GrowShape(cfg, cast, 0, limit, t, replies);
    GrowCount(cfg, cast, 0, limit, t, replies);
    GrowComplete(cfg, cast, 0, limit, t, replies);
    if PagesOf(replies, cfg.maxReplies) { GrowBound(cfg, cast, 0, limit, t, replies); }
  }

  function DepthLimit(cfg: Config, depth: Option<nat>): nat {
    if depth.Some? && depth.value < cfg.maxDepth then depth.value else cfg.maxDepth
  }
}
