/** What the store says after any link messages, told by the messages alone: who follows whom, since when, and
    what the counters show. */
module SocialHistory {
  import opened Options
  import opened Orders
  import opened B = Bytes
  import opened SocialKeys
  import opened SocialEffects
  import opened SocialCounts

  // ----- the history -------------------------------------------------------

  /** The first 100,000 of some ids. */
  function FirstPage(ids: set<U64>): set<U64> {
    set t | t in ids && |SmallerThan(ids, t)| < 100_000
  }

  function SmallerThan(ids: set<U64>, t: U64): set<U64> {
    set x | x in ids && x < t
  }

  /** Whom `s` follows after some messages, with what is noted. */
  function Follows(db: Db, ms: seq<Message>, s: U64): map<U64, Value> {
    if ms == [] then Edges(db, s) else Noted(Follows(db, ms[..|ms| - 1], s), ms[|ms| - 1], s)
  }

  /** A follow of `s` notes its time, a list notes zero; a list replaces the first page of what was there. */
  function Noted(before: map<U64, Value>, m: Message, s: U64): map<U64, Value> {
    if m.data.None? || m.data.value.fid != s then before
    else match m.data.value.body
      case LinkBody(kind, target) =>
        if kind != "follow" || target.None? then before
        else if m.data.value.msgType == LinkAdd then before[target.value := Stamp(m.data.value.timestamp)]
        else if m.data.value.msgType == LinkRemove then before - {target.value}
        else before
      case CompactBody(kind, targets) =>
        if kind != "follow" then before else (before - FirstPage(before.Keys)) + Listed(targets)
      case OtherBody => before
  }

  function Listed(ts: seq<U64>): map<U64, Value> {
    map t | t in ts :: Stamp(0)
  }

  function Edges(db: Db, s: U64): map<U64, Value> {
    map t: U64 | 0 <= t < U64_LIMIT && Row(Following, s, t) in db :: db[Row(Following, s, t)]
  }

  /** What a counter shows after some messages. */
  function Counter(db: Db, ms: seq<Message>, table: Table, fid: U64): nat {
    if ms == [] then (if Count(table, fid) in db && db[Count(table, fid)].Number? then db[Count(table, fid)].n else 0)
    else
      var before, m := ms[..|ms| - 1], ms[|ms| - 1];
      var replaced := if m.data.Some? then FirstPage(Follows(db, before, m.data.value.fid).Keys) else {};
      Shown(Counter(db, before, table, fid), m, replaced, table, fid)
  }

  /** A follow raises both counters, an unfollow lowers both unless they are zero. A list sets the source's
      followings, lowers the followers of those it replaces and raises those of its targets, as often as
      each is listed. */
  function Shown(before: nat, m: Message, replaced: set<U64>, table: Table, fid: U64): nat {
    if m.data.None? then before
    else match m.data.value.body
      case LinkBody(kind, target) =>
        if kind != "follow" || target.None? || fid != Counted(table, m.data.value.fid, target.value) then before
        else if m.data.value.msgType == LinkAdd then before + 1
        else if m.data.value.msgType == LinkRemove && before > 0 then before - 1
        else before
      case CompactBody(kind, targets) =>
        if kind != "follow" then before
        else if table == Following then (if fid == m.data.value.fid then |targets| else before)
        else (if fid in replaced && before > 0 then before - 1 else before) + multiset(targets)[fid]
      case OtherBody => before
  }

  /** Whose counter of a table a follow concerns: the followed one's followers, the follower's followings. */
  function Counted(table: Table, source: U64, target: U64): U64 {
    if table == Followers then target else source
  }

  /** The store tells the history. */
  ghost predicate Tells(db: Db, ms: seq<Message>, after: Db) {
    && (forall s: U64, t: U64 :: Row(Following, s, t) in after <==> t in Follows(db, ms, s))
    && (forall s: U64, t: U64 :: t in Follows(db, ms, s) && Row(Following, s, t) in after ==>
          after[Row(Following, s, t)] == Follows(db, ms, s)[t])
    && (forall table: Table, fid: U64 :: CountIn(after, Count(table, fid)) == Counter(db, ms, table, fid))
  }

  // ----- rows --------------------------------------------------------------

  lemma CountEdges(db: Db, k: Key, v: Value, s: U64)
    requires k.Count?
    ensures Edges(db[k := v], s) == Edges(db, s)
  {
  }

  lemma PutEdges(db: Db, a: U64, t: U64, stamp: nat, s: U64)
    ensures Edges(PutEdge(db, a, t, stamp), s) == if a == s then Edges(db, s)[t := Stamp(stamp)] else Edges(db, s)
  {
  }

  lemma CutEdges(db: Db, a: U64, t: U64, s: U64)
    ensures Edges(CutEdge(db, a, t), s) == if a == s then Edges(db, s) - {t} else Edges(db, s)
  {
  }

  lemma {:induction false} ForgetEdges(db: Db, a: U64, ts: seq<U64>, s: U64)
    ensures Edges(Forget(db, a, ts), s) == if a == s then Edges(db, s) - Elements(ts) else Edges(db, s)
  {
    if ts == [] {
      assert Edges(db, s) - Elements(ts) == Edges(db, s);
    } else {
      var us, t := ts[..|ts| - 1], ts[|ts| - 1];
      ForgetEdges(db, a, us, s);
      CutEdges(Forget(db, a, us), a, t, s);
      assert Elements(ts) == Elements(us) + {t};
      assert (Edges(db, s) - Elements(us)) - {t} == Edges(db, s) - Elements(ts);
    }
  }

  lemma RaiseEdges(db: Db, k: Key, s: U64)
    requires k.Count?
    ensures Edges(Raise(db, k), s) == Edges(db, s)
  {
  }

  lemma ListedNext(e: map<U64, Value>, us: seq<U64>, t: U64)
    ensures (e + Listed(us))[t := Stamp(0)] == e + Listed(us + [t])
  {
  }

  lemma {:induction false} EnlistEdges(db: Db, a: U64, ts: seq<U64>, s: U64)
    ensures Edges(Enlist(db, a, ts), s) == if a == s then Edges(db, s) + Listed(ts) else Edges(db, s)
  {
    if ts == [] {
      assert Edges(db, s) + Listed(ts) == Edges(db, s);
    } else {
      var us, t := ts[..|ts| - 1], ts[|ts| - 1];
      EnlistEdges(db, a, us, s);
      EnlistOne(Enlist(db, a, us), a, t, s);
      ListedNext(Edges(db, s), us, t);
      assert ts == us + [t];
    }
  }

  lemma EnlistOne(db: Db, a: U64, t: U64, s: U64)
    ensures Edges(Raise(PutEdge(db, a, t, 0), Count(Followers, t)), s)
         == if a == s then Edges(db, s)[t := Stamp(0)] else Edges(db, s)
  {
    PutEdges(db, a, t, 0, s);
    RaiseEdges(PutEdge(db, a, t, 0), Count(Followers, t), s);
  }

  /** The page a list replaces is the first page of what the source follows. */
  lemma PageReplaced(db: Db, s: U64)
    ensures Elements(OldTargets(db, s)) == FirstPage(Edges(db, s).Keys)
  {
    var ids := Others(db, Following, s);
    assert Edges(db, s).Keys == ids && AtLeast(ids, 0) == ids;
    PageOfRows(From(ids, 0), ids);
  }

  lemma PageOfRows(rows: seq<U64>, ids: set<U64>)
    requires Ascending(rows, Below) && Elements(rows) == ids
    ensures Elements(if |rows| <= PAGE then rows else rows[..PAGE]) == FirstPage(ids)
  {
    var page := if |rows| <= PAGE then rows else rows[..PAGE];
    forall t ensures t in Elements(page) <==> t in FirstPage(ids) {
      if t in Elements(page) {
        var j :| 0 <= j < |page| && page[j] == t;
        assert rows[j] == t && rows[j] in Elements(rows);
      }
      if t in ids {
        var i :| 0 <= i < |rows| && rows[i] == t;
        Rank(rows, ids, i);
        InFirst(rows, i, PAGE);
      }
    }
  }

  /** As many ids are smaller than one as come before it in an ascending listing. */
  lemma Rank(rows: seq<U64>, ids: set<U64>, i: nat)
    requires Ascending(rows, Below) && Elements(rows) == ids && i < |rows|
    ensures |SmallerThan(ids, rows[i])| == i
  {
    forall x ensures x in SmallerThan(ids, rows[i]) <==> x in Elements(rows[..i]) {
      if x in Elements(rows[..i]) {
        var j :| 0 <= j < i && rows[..i][j] == x;
        assert Below(rows[j], rows[i]) && rows[j] in Elements(rows);
      }
      if x in ids && x < rows[i] {
        var j :| 0 <= j < |rows| && rows[j] == x;
        assert j < i;
        assert rows[..i][j] == x;
      }
    }
    assert SmallerThan(ids, rows[i]) == Elements(rows[..i]);
    assert StrictTotal(Below);
    AscendingDistinct<U64>(rows[..i], Below);
  }

  lemma InFirst(rows: seq<U64>, i: nat, page: nat)
    requires Ascending(rows, Below) && i < |rows|
    ensures rows[i] in Elements(if |rows| <= page then rows else rows[..page]) <==> i < page
  {
    if i < page && |rows| > page {
      assert rows[..page][i] == rows[i];
    } else if |rows| > page {
      forall j | 0 <= j < page ensures rows[..page][j] != rows[i] {
        assert Below(rows[j], rows[i]);
      }
    } else {
      assert rows[i] in Elements(rows);
    }
  }

  lemma ReplacedEdges(db: Db, a: U64, targets: seq<U64>, s: U64)
    ensures Edges(Replaced(db, a, targets), s)
         == if a == s then (Edges(db, s) - FirstPage(Edges(db, s).Keys)) + Listed(targets) else Edges(db, s)
  {
    var cleared := Forget(db, a, OldTargets(db, a));
    ForgetEdges(db, a, OldTargets(db, a), s);
    PageReplaced(db, a);
    CountEdges(cleared, Count(Following, a), Number(0), s);
    var zeroed := cleared[Count(Following, a) := Number(0)];
    EnlistEdges(zeroed, a, targets, s);
    CountEdges(Enlist(zeroed, a, targets), Count(Following, a), Number(|targets|), s);
  }

  lemma FollowedEdges(db: Db, a: U64, t: U64, stamp: nat, s: U64)
    ensures Edges(Followed(db, a, t, stamp), s) == if a == s then Edges(db, s)[t := Stamp(stamp)] else Edges(db, s)
  {
    var raised := Raise(db, Count(Followers, t));
    RaiseEdges(db, Count(Followers, t), s);
    RaiseEdges(raised, Count(Following, a), s);
    PutEdges(Raise(raised, Count(Following, a)), a, t, stamp, s);
  }

  lemma LowerEdges(db: Db, k: Key, s: U64)
    requires k.Count?
    ensures Edges(Lower(db, k), s) == Edges(db, s)
  {
  }

  lemma UnfollowedEdges(db: Db, a: U64, t: U64, s: U64)
    ensures Edges(Unfollowed(db, a, t), s) == if a == s then Edges(db, s) - {t} else Edges(db, s)
  {
    var lowered := Lower(db, Count(Followers, t));
    LowerEdges(db, Count(Followers, t), s);
    LowerEdges(lowered, Count(Following, a), s);
    CutEdges(Lower(lowered, Count(Following, a)), a, t, s);
  }

  lemma EdgesStep(db: Db, m: Message, s: U64)
    ensures Edges(Apply(db, m), s) == Noted(Edges(db, s), m, s)
  {
    match Meaning(m)
    case Follow(a, t, stamp) => FollowedEdges(db, a, t, stamp, s);
    case Unfollow(a, t) => UnfollowedEdges(db, a, t, s);
    case Replace(a, targets) => ReplacedEdges(db, a, targets, s);
    case _ =>
  }

  lemma {:induction false} EdgesTold(db: Db, ms: seq<Message>, s: U64)
    ensures Edges(ApplyAll(db, ms), s) == Follows(db, ms, s)
  {
    if ms == [] {
    } else {
      EdgesTold(db, ms[..|ms| - 1], s);
      EdgesStep(ApplyAll(db, ms[..|ms| - 1]), ms[|ms| - 1], s);
    }
  }

  // ----- counters ----------------------------------------------------------

  lemma {:induction false} ForgetLowers(db: Db, a: U64, ts: seq<U64>, table: Table, fid: U64)
    requires Distinct(ts)
    ensures CountIn(Forget(db, a, ts), Count(table, fid))
         == var n := CountIn(db, Count(table, fid)); if table == Followers && fid in ts && n > 0 then n - 1 else n
  {
    if ts == [] {
    } else {
      var us, t := ts[..|ts| - 1], ts[|ts| - 1];
      assert ts == us + [t];
      DistinctPrefix(us, t);
      ForgetLowers(db, a, us, table, fid);
      assert fid in ts <==> fid in us || fid == t;
    }
  }

  lemma ReplacedCounter(db: Db, a: U64, targets: seq<U64>, table: Table, fid: U64)
    ensures CountIn(Replaced(db, a, targets), Count(table, fid))
         == var n := CountIn(db, Count(table, fid));
            if table == Following then (if fid == a then |targets| else n)
            else (if fid in FirstPage(Edges(db, a).Keys) && n > 0 then n - 1 else n) + multiset(targets)[fid]
  {
    var was := OldTargets(db, a);
    OldTargetsDistinct(db, a);
    ForgetLowers(db, a, was, table, fid);
    PageReplaced(db, a);
    assert fid in was <==> fid in Elements(was);
    EnlistCounts(Forget(db, a, was)[Count(Following, a) := Number(0)], a, targets, fid);
  }

  lemma FollowedCounter(db: Db, a: U64, t: U64, stamp: nat, table: Table, fid: U64)
    ensures CountIn(Followed(db, a, t, stamp), Count(table, fid))
         == CountIn(db, Count(table, fid)) + if fid == Counted(table, a, t) then 1 else 0
  {
    FollowCounts(db, a, t, stamp, fid);
  }

  lemma UnfollowedCounter(db: Db, a: U64, t: U64, table: Table, fid: U64)
    ensures CountIn(Unfollowed(db, a, t), Count(table, fid))
         == var n := CountIn(db, Count(table, fid)); if fid == Counted(table, a, t) && n > 0 then n - 1 else n
  {
    UnfollowCounts(db, a, t, fid);
  }

  /** The effect on a counter, read off what the message means to the store. */
  function ShownBy(before: nat, action: Action, replaced: set<U64>, table: Table, fid: U64): nat {
    match action
    case Follow(a, t, _) => before + if fid == Counted(table, a, t) then 1 else 0
    case Unfollow(a, t) => if fid == Counted(table, a, t) && before > 0 then before - 1 else before
    case Replace(a, targets) =>
      if table == Following then (if fid == a then |targets| else before)
      else (if fid in replaced && before > 0 then before - 1 else before) + multiset(targets)[fid]
    case _ => before
  }

  lemma ShownMeans(before: nat, m: Message, replaced: set<U64>, table: Table, fid: U64)
    ensures Shown(before, m, replaced, table, fid) == ShownBy(before, Meaning(m), replaced, table, fid)
  {
  }

  lemma CounterStep(db: Db, m: Message, replaced: set<U64>, table: Table, fid: U64)
    requires m.data.Some? ==> replaced == FirstPage(Edges(db, m.data.value.fid).Keys)
    ensures CountIn(Apply(db, m), Count(table, fid)) == Shown(CountIn(db, Count(table, fid)), m, replaced, table, fid)
  {
    ShownMeans(CountIn(db, Count(table, fid)), m, replaced, table, fid);
    assert Meaning(m).Replace? ==> Meaning(m).source == m.data.value.fid;
    ActionStep(db, m, replaced, table, fid);
  }

  lemma ActionStep(db: Db, m: Message, replaced: set<U64>, table: Table, fid: U64)
    requires Meaning(m).Replace? ==> replaced == FirstPage(Edges(db, Meaning(m).source).Keys)
    ensures CountIn(Apply(db, m), Count(table, fid))
         == ShownBy(CountIn(db, Count(table, fid)), Meaning(m), replaced, table, fid)
  {
    match Meaning(m)
    case Follow(a, t, stamp) => FollowedCounter(db, a, t, stamp, table, fid);
    case Unfollow(a, t) => UnfollowedCounter(db, a, t, table, fid);
    case Replace(a, targets) => ReplacedCounter(db, a, targets, table, fid);
    case _ =>
  }

  lemma {:induction false} CounterTold(db: Db, ms: seq<Message>, table: Table, fid: U64)
    ensures CountIn(ApplyAll(db, ms), Count(table, fid)) == Counter(db, ms, table, fid)
  {
    if ms == [] {
    } else {
      var before, m := ms[..|ms| - 1], ms[|ms| - 1];
      var replaced := if m.data.Some? then FirstPage(Follows(db, before, m.data.value.fid).Keys) else {};
      CounterTold(db, before, table, fid);
      if m.data.Some? { EdgesTold(db, before, m.data.value.fid); }
      CounterStep(ApplyAll(db, before), m, replaced, table, fid);
    }
  }

  /** After any messages, from any store, rows and counters are what the messages say. */
  lemma HistoryTold(db: Db, ms: seq<Message>)
    ensures Tells(db, ms, ApplyAll(db, ms))
  {
    var after := ApplyAll(db, ms);
    forall s: U64, t: U64
      ensures Row(Following, s, t) in after <==> t in Follows(db, ms, s)
      ensures t in Follows(db, ms, s) ==> after[Row(Following, s, t)] == Follows(db, ms, s)[t]
    {
      EdgesTold(db, ms, s);
      assert t in Edges(after, s) <==> Row(Following, s, t) in after;
    }
    forall table: Table, fid: U64 ensures CountIn(after, Count(table, fid)) == Counter(db, ms, table, fid) {
      CounterTold(db, ms, table, fid);
    }
  }

  // ----- the last word -----------------------------------------------------

  predicate Adds(m: Message, s: U64, t: U64) {
    m.data.Some? && m.data.value.fid == s &&
    match m.data.value.body
    case LinkBody(kind, target) => kind == "follow" && target == Some(t) && m.data.value.msgType == LinkAdd
    case CompactBody(kind, targets) => kind == "follow" && t in targets
    case OtherBody => false
  }

  predicate Removes(m: Message, s: U64, t: U64) {
    m.data.Some? && m.data.value == Data(s, m.data.value.timestamp, LinkRemove, LinkBody("follow", Some(t)))
  }

  predicate ListsWithout(m: Message, s: U64, t: U64) {
    && m.data.Some? && m.data.value.fid == s && m.data.value.body.CompactBody?
    && m.data.value.body.kind == "follow" && t !in m.data.value.body.targets
  }

  /** `s` follows `t` after some messages if and only if the last one of `s` that concerns `t` adds it: a follow of
      it or a list with it adds it, an unfollow of it removes it, and so does a list without it unless 100,000 smaller
      ids stood before it. Without any such message all stays as it was. */
  lemma LastWord(db: Db, ms: seq<Message>, m: Message, s: U64, t: U64)
    ensures t in Follows(db, [], s) <==> Row(Following, s, t) in db
    ensures t in Follows(db, ms + [m], s) <==>
      if Adds(m, s, t) then true
      else if Removes(m, s, t) then false
      else if ListsWithout(m, s, t) then
        t in Follows(db, ms, s) && |SmallerThan(Follows(db, ms, s).Keys, t)| >= 100_000
      else t in Follows(db, ms, s)
  {
    assert (ms + [m])[..|ms|] == ms;
    NotedWord(Follows(db, ms, s), m, s, t);
  }

  lemma NotedWord(before: map<U64, Value>, m: Message, s: U64, t: U64)
    ensures t in Noted(before, m, s) <==>
      if Adds(m, s, t) then true
      else if Removes(m, s, t) then false
      else if ListsWithout(m, s, t) then t in before && |SmallerThan(before.Keys, t)| >= 100_000
      else t in before
  {
    if ListsWithout(m, s, t) {
      assert t in FirstPage(before.Keys) <==> t in before && |SmallerThan(before.Keys, t)| < 100_000;
    }
  }

  /** The other side of each edge says the same. */
  lemma FollowersTold(db: Db, ms: seq<Message>, s: U64, t: U64)
    requires Mirror(db)
    ensures Row(Followers, t, s) in ApplyAll(db, ms) <==> t in Follows(db, ms, s)
    ensures t in Follows(db, ms, s) && Row(Followers, t, s) in ApplyAll(db, ms) ==>
      ApplyAll(db, ms)[Row(Followers, t, s)] == Follows(db, ms, s)[t]
  {
    AlwaysMirrored(db, ms);
    EdgesTold(db, ms, s);
    var after := ApplyAll(db, ms);
    assert SameEdge(after, s, t);
    assert t in Edges(after, s) <==> Row(Following, s, t) in after;
  }
}
