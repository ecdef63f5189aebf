/** What holds of the follow rows and the counters after every sequence of link messages. */
module SocialCounts {
  import opened Orders
  import opened B = Bytes
  import opened SocialKeys
  import opened SocialEffects

  /** Each edge is stored twice, with one timestamp: among the target's followers and among the
      source's followings. */
  ghost predicate Mirror(db: Db) {
    forall s: U64, t: U64 :: SameEdge(db, s, t)
  }

  predicate SameEdge(db: Db, s: U64, t: U64) {
    && (Row(Followers, t, s) in db <==> Row(Following, s, t) in db)
    && (Row(Followers, t, s) in db ==> db[Row(Followers, t, s)] == db[Row(Following, s, t)])
  }

  predicate ExactAt(db: Db, t: Table, fid: U64) {
    CountIn(db, Count(t, fid)) == |Others(db, t, fid)|
  }

  ghost predicate Exact(db: Db) {
    forall t: Table, fid: U64 :: ExactAt(db, t, fid)
  }

  // ----- mirrored rows -----------------------------------------------------

  lemma {:induction false} ForgetMirror(db: Db, s: U64, ts: seq<U64>)
    requires Mirror(db)
    ensures Mirror(Forget(db, s, ts))
  {
    if ts == [] {
    } else {
      var d := Forget(db, s, ts[..|ts| - 1]);
      ForgetMirror(db, s, ts[..|ts| - 1]);
      forall a: U64, b: U64 ensures SameEdge(Forget(db, s, ts), a, b) { assert SameEdge(d, a, b); }
    }
  }

  lemma {:induction false} EnlistMirror(db: Db, s: U64, ts: seq<U64>)
    requires Mirror(db)
    ensures Mirror(Enlist(db, s, ts))
  {
    if ts == [] {
    } else {
      var d := Enlist(db, s, ts[..|ts| - 1]);
      EnlistMirror(db, s, ts[..|ts| - 1]);
      forall a: U64, b: U64 ensures SameEdge(Enlist(db, s, ts), a, b) { assert SameEdge(d, a, b); }
    }
  }

  lemma CountsKeepMirror(db: Db, k: Key, n: nat)
    requires Mirror(db) && k.Count?
    ensures Mirror(db[k := Number(n)])
  {
    var d := db[k := Number(n)];
    forall a: U64, b: U64 ensures SameEdge(d, a, b) { assert SameEdge(db, a, b); }
  }

  lemma ApplyMirror(db: Db, m: Message)
    requires Mirror(db)
    ensures Mirror(Apply(db, m))
  {
    match Meaning(m)
    case Replace(s, targets) =>
      var was := OldTargets(db, s);
      ForgetMirror(db, s, was);
      var forgotten := Forget(db, s, was);
      CountsKeepMirror(forgotten, Count(Following, s), 0);
      EnlistMirror(forgotten[Count(Following, s) := Number(0)], s, targets);
      CountsKeepMirror(Enlist(forgotten[Count(Following, s) := Number(0)], s, targets), Count(Following, s), |targets|);
    case _ =>
      forall a: U64, b: U64 ensures SameEdge(Apply(db, m), a, b) { assert SameEdge(db, a, b); }
  }

  /** Followers and followings mirror each other after every sequence of messages. */
  lemma {:induction false} AlwaysMirrored(db: Db, ms: seq<Message>)
    requires Mirror(db)
    ensures Mirror(ApplyAll(db, ms))
  {
    if ms == [] {
    } else {
      AlwaysMirrored(db, ms[..|ms| - 1]);
      ApplyMirror(ApplyAll(db, ms[..|ms| - 1]), ms[|ms| - 1]);
    }
  }

  // ----- rows after one edge -----------------------------------------------

  lemma PutEdgeRows(db: Db, s: U64, t: U64, stamp: nat, fid: U64)
    ensures Others(PutEdge(db, s, t, stamp), Followers, fid)
         == Others(db, Followers, fid) + (if fid == t then {s} else {})
    ensures Others(PutEdge(db, s, t, stamp), Following, fid)
         == Others(db, Following, fid) + (if fid == s then {t} else {})
  {
  }

  lemma CutEdgeRows(db: Db, s: U64, t: U64, fid: U64)
    ensures Others(CutEdge(db, s, t), Followers, fid) == Others(db, Followers, fid) - (if fid == t then {s} else {})
    ensures Others(CutEdge(db, s, t), Following, fid) == Others(db, Following, fid) - (if fid == s then {t} else {})
  {
  }

  lemma CountKeepsRows(db: Db, k: Key, v: Value, t: Table, fid: U64)
    requires k.Count?
    ensures Others(db[k := v], t, fid) == Others(db, t, fid)
  {
  }

  lemma EdgeInRows(db: Db, s: U64, t: U64)
    requires Mirror(db)
    ensures t in Others(db, Following, s) <==> s in Others(db, Followers, t)
    ensures t in Others(db, Following, s) <==> Row(Following, s, t) in db
  {
    assert SameEdge(db, s, t);
  }

  // ----- when counters stay exact ------------------------------------------

  /** Adds hit absent edges, removes hit present ones or nobody counts, and a compact state lists
      nobody twice for a source with at most one page of rows. */
  predicate Clean(db: Db, m: Message) {
    match Meaning(m)
    case Follow(s, t, _) => t !in Others(db, Following, s)
    case Unfollow(s, t) =>
      t in Others(db, Following, s) || (Others(db, Followers, t) == {} && Others(db, Following, s) == {})
    case Replace(s, targets) => Distinct(targets) && |Others(db, Following, s)| <= PAGE
    case _ => true
  }

  predicate Distinct(ts: seq<U64>) {
    forall t :: t in ts ==> multiset(ts)[t] == 1
  }

  lemma RaiseKeepsRows(db: Db, k: Key, t: Table, fid: U64)
    requires k.Count?
    ensures Others(Raise(db, k), t, fid) == Others(db, t, fid) == Others(Lower(db, k), t, fid)
  {
  }

  lemma FollowRows(db: Db, s: U64, t: U64, stamp: nat, fid: U64)
    ensures Others(Followed(db, s, t, stamp), Followers, fid)
         == Others(db, Followers, fid) + (if fid == t then {s} else {})
    ensures Others(Followed(db, s, t, stamp), Following, fid)
         == Others(db, Following, fid) + (if fid == s then {t} else {})
  {
    var once := Raise(db, Count(Followers, t));
    RaiseKeepsRows(db, Count(Followers, t), Followers, fid);
    RaiseKeepsRows(db, Count(Followers, t), Following, fid);
    RaiseKeepsRows(once, Count(Following, s), Followers, fid);
    RaiseKeepsRows(once, Count(Following, s), Following, fid);
    PutEdgeRows(Raise(once, Count(Following, s)), s, t, stamp, fid);
  }

  lemma FollowCounts(db: Db, s: U64, t: U64, stamp: nat, fid: U64)
    ensures CountIn(Followed(db, s, t, stamp), Count(Followers, fid))
         == CountIn(db, Count(Followers, fid)) + (if fid == t then 1 else 0)
    ensures CountIn(Followed(db, s, t, stamp), Count(Following, fid))
         == CountIn(db, Count(Following, fid)) + (if fid == s then 1 else 0)
  {
  }

  lemma UnfollowRows(db: Db, s: U64, t: U64, fid: U64)
    ensures Others(Unfollowed(db, s, t), Followers, fid) == Others(db, Followers, fid) - (if fid == t then {s} else {})
    ensures Others(Unfollowed(db, s, t), Following, fid) == Others(db, Following, fid) - (if fid == s then {t} else {})
  {
    var once := Lower(db, Count(Followers, t));
    RaiseKeepsRows(db, Count(Followers, t), Followers, fid);
    RaiseKeepsRows(db, Count(Followers, t), Following, fid);
    RaiseKeepsRows(once, Count(Following, s), Followers, fid);
    RaiseKeepsRows(once, Count(Following, s), Following, fid);
    CutEdgeRows(Lower(once, Count(Following, s)), s, t, fid);
  }

  function Predecessor(n: nat): nat {
    if n > 0 then n - 1 else 0
  }

  lemma UnfollowCounts(db: Db, s: U64, t: U64, fid: U64)
    ensures CountIn(Unfollowed(db, s, t), Count(Followers, fid))
         == if fid == t then Predecessor(CountIn(db, Count(Followers, fid))) else CountIn(db, Count(Followers, fid))
    ensures CountIn(Unfollowed(db, s, t), Count(Following, fid))
         == if fid == s then Predecessor(CountIn(db, Count(Following, fid))) else CountIn(db, Count(Following, fid))
  {
  }

  /** The edge from s to t shows up in the rows of t among followers and of s among followings. */
  predicate Touches(s: U64, t: U64, table: Table, fid: U64) {
    if table.Followers? then fid == t else fid == s
  }

  lemma GrownSize(rows: set<U64>, x: U64)
    ensures |rows + {x}| == |rows| + 1 <==> x !in rows
    ensures |rows - {x}| == Predecessor(|rows|) <==> x in rows || rows == {}
  {
    assert x in rows ==> rows + {x} == rows;
    assert x !in rows ==> rows - {x} == rows;
  }

  /** The rows a follow touches grow by one id, which is new exactly when the edge is. */
  lemma FollowTouched(db: Db, s: U64, t: U64, stamp: nat, table: Table, fid: U64) returns (x: U64)
    requires Mirror(db) && Touches(s, t, table, fid)
    ensures Others(Followed(db, s, t, stamp), table, fid) == Others(db, table, fid) + {x}
    ensures x in Others(db, table, fid) <==> t in Others(db, Following, s)
  {
    FollowRows(db, s, t, stamp, fid);
    EdgeInRows(db, s, t);
    x := if table.Followers? then s else t;
  }

  lemma FollowExactAt(db: Db, s: U64, t: U64, stamp: nat, table: Table, fid: U64)
    requires Mirror(db) && ExactAt(db, table, fid)
    ensures ExactAt(Followed(db, s, t, stamp), table, fid)
       <==> !Touches(s, t, table, fid) || t !in Others(db, Following, s)
  {
    var count, rows := CountIn(Followed(db, s, t, stamp), Count(table, fid)), Others(db, table, fid);
    if Touches(s, t, table, fid) {
      assert count == CountIn(db, Count(table, fid)) + 1 by { FollowCounts(db, s, t, stamp, fid); }
      var x := FollowTouched(db, s, t, stamp, table, fid);
      GrownSize(rows, x);
    } else {
      assert count == CountIn(db, Count(table, fid)) by { FollowCounts(db, s, t, stamp, fid); }
      assert Others(Followed(db, s, t, stamp), table, fid) == rows by { FollowRows(db, s, t, stamp, fid); }
    }
  }

  lemma FollowStep(db: Db, s: U64, t: U64, stamp: nat)
    requires Mirror(db) && Exact(db)
    ensures Exact(Followed(db, s, t, stamp)) <==> t !in Others(db, Following, s)
  {
    forall table: Table, fid: U64
      ensures ExactAt(Followed(db, s, t, stamp), table, fid)
         <==> !Touches(s, t, table, fid) || t !in Others(db, Following, s)
    {
      assert ExactAt(db, table, fid);
      FollowExactAt(db, s, t, stamp, table, fid);
    }
    assert ExactAt(Followed(db, s, t, stamp), Followers, t) <==> t !in Others(db, Following, s);
  }

  lemma UnfollowExactAt(db: Db, s: U64, t: U64, table: Table, fid: U64)
    requires Mirror(db) && ExactAt(db, table, fid)
    ensures ExactAt(Unfollowed(db, s, t), table, fid)
       <==> !Touches(s, t, table, fid) || t in Others(db, Following, s) || Others(db, table, fid) == {}
  {
    UnfollowCounts(db, s, t, fid);
    var rows, rows' := Others(db, table, fid), Others(Unfollowed(db, s, t), table, fid);
    if Touches(s, t, table, fid) {
      var x := if table.Followers? then s else t;
      assert rows' == rows - {x} by { UnfollowRows(db, s, t, fid); }
      assert x in rows <==> t in Others(db, Following, s) by { EdgeInRows(db, s, t); }
      GrownSize(rows, x);
    } else {
      assert rows' == rows by { UnfollowRows(db, s, t, fid); }
    }
  }

  lemma UnfollowStep(db: Db, s: U64, t: U64)
    requires Mirror(db) && Exact(db)
    ensures Exact(Unfollowed(db, s, t))
       <==> t in Others(db, Following, s) || (Others(db, Followers, t) == {} && Others(db, Following, s) == {})
  {
    forall table: Table, fid: U64
      ensures ExactAt(Unfollowed(db, s, t), table, fid)
         <==> !Touches(s, t, table, fid) || t in Others(db, Following, s) || Others(db, table, fid) == {}
    {
      assert ExactAt(db, table, fid);
      UnfollowExactAt(db, s, t, table, fid);
    }
    assert ExactAt(Unfollowed(db, s, t), Followers, t)
      <==> t in Others(db, Following, s) || Others(db, Followers, t) == {};
    assert ExactAt(Unfollowed(db, s, t), Following, s)
      <==> t in Others(db, Following, s) || Others(db, Following, s) == {};
  }

  // ----- compact states ----------------------------------------------------

  function If(c: bool, s: set<U64>): set<U64> {
    if c then s else {}
  }

  /** After clearing some of the source's edges: the rows of every user. */
  lemma {:induction false} ForgetRows(db: Db, s: U64, ts: seq<U64>, fid: U64)
    ensures Others(Forget(db, s, ts), Followers, fid) == Others(db, Followers, fid) - If(fid in ts, {s})
    ensures Others(Forget(db, s, ts), Following, fid) == Others(db, Following, fid) - If(fid == s, Elements(ts))
  {
    if ts == [] {
    } else {
      var t, us := ts[|ts| - 1], ts[..|ts| - 1];
      assert ts == us + [t] && Elements(ts) == Elements(us) + {t};
      ForgetRows(db, s, us, fid);
      var d := Forget(db, s, us);
      CutEdgeRows(d, s, t, fid);
      RaiseKeepsRows(CutEdge(d, s, t), Count(Followers, t), Followers, fid);
      RaiseKeepsRows(CutEdge(d, s, t), Count(Followers, t), Following, fid);
    }
  }

  lemma {:induction false} ForgetKeepsFollowing(db: Db, s: U64, ts: seq<U64>, fid: U64)
    ensures CountIn(Forget(db, s, ts), Count(Following, fid)) == CountIn(db, Count(Following, fid))
  {
    if ts == [] {
    } else {
      ForgetKeepsFollowing(db, s, ts[..|ts| - 1], fid);
    }
  }

  /** Each cleared edge was counted, so each lowers its target's counter by one. */
  lemma {:induction false} ForgetCounts(db: Db, s: U64, ts: seq<U64>, fid: U64)
    requires Mirror(db) && Exact(db) && Distinct(ts) && Elements(ts) <= Others(db, Following, s)
    ensures CountIn(Forget(db, s, ts), Count(Followers, fid))
         == CountIn(db, Count(Followers, fid)) - (if fid in ts then 1 else 0)
  {
    if ts == [] {
    } else {
      var t, us := ts[|ts| - 1], ts[..|ts| - 1];
      assert ts == us + [t];
      DistinctPrefix(us, t);
      assert forall x :: x in Elements(us) ==> x in Elements(ts);
      ForgetCounts(db, s, us, fid);
      if fid == t {
        assert t in Elements(ts);
        CountedEdge(db, s, t);
      }
    }
  }

  lemma CountedEdge(db: Db, s: U64, t: U64)
    requires Mirror(db) && Exact(db) && t in Others(db, Following, s)
    ensures CountIn(db, Count(Followers, t)) > 0
  {
    EdgeInRows(db, s, t);
    assert ExactAt(db, Followers, t);
  }

  lemma DistinctPrefix(us: seq<U64>, t: U64)
    requires Distinct(us + [t])
    ensures Distinct(us) && t !in us
  {
    assert multiset(us + [t]) == multiset(us) + multiset{t};
    assert t in us + [t];
    forall x | x in us ensures multiset(us)[x] == 1 && x != t {
      assert x in us + [t];
    }
  }

  /** After enlisting targets, repeated or not: the rows of every user. */
  lemma {:induction false} EnlistRows(db: Db, s: U64, ts: seq<U64>, fid: U64)
    ensures Others(Enlist(db, s, ts), Followers, fid) == Others(db, Followers, fid) + If(fid in ts, {s})
    ensures Others(Enlist(db, s, ts), Following, fid) == Others(db, Following, fid) + If(fid == s, Elements(ts))
  {
    if ts == [] {
    } else {
      var t, us := ts[|ts| - 1], ts[..|ts| - 1];
      assert ts == us + [t] && Elements(ts) == Elements(us) + {t};
      EnlistRows(db, s, us, fid);
      var d := Enlist(db, s, us);
      PutEdgeRows(d, s, t, 0, fid);
      RaiseKeepsRows(PutEdge(d, s, t, 0), Count(Followers, t), Followers, fid);
      RaiseKeepsRows(PutEdge(d, s, t, 0), Count(Followers, t), Following, fid);
    }
  }

  lemma {:induction false} EnlistCounts(db: Db, s: U64, ts: seq<U64>, fid: U64)
    ensures CountIn(Enlist(db, s, ts), Count(Following, fid)) == CountIn(db, Count(Following, fid))
    ensures CountIn(Enlist(db, s, ts), Count(Followers, fid)) == CountIn(db, Count(Followers, fid)) + multiset(ts)[fid]
  {
    if ts == [] {
    } else {
      var t, us := ts[|ts| - 1], ts[..|ts| - 1];
      assert ts == us + [t] && multiset(ts) == multiset(us) + multiset{t};
      EnlistCounts(db, s, us, fid);
    }
  }

  lemma {:induction false} DistinctSize(ts: seq<U64>)
    ensures Distinct(ts) ==> |Elements(ts)| == |ts|
    ensures |Elements(ts)| <= |ts|
  {
    if ts == [] {
    } else {
      var n := |ts| - 1;
      var t, us := ts[n], ts[..n];
      assert ts == us + [t] && Elements(ts) == Elements(us) + {t};
      DistinctSize(us);
      if Distinct(ts) { DistinctPrefix(us, t); }
    }
  }

  lemma OldTargetsDistinct(db: Db, s: U64)
    ensures Distinct(OldTargets(db, s)) && Elements(OldTargets(db, s)) <= Others(db, Following, s)
    ensures Elements(OldTargets(db, s)) == Others(db, Following, s) <==> |Others(db, Following, s)| <= PAGE
  {
    var all := Others(db, Following, s);
    assert AtLeast(all, 0) == all;
    FirstPage(all, From(all, 0), PAGE);
  }

  lemma FirstPage(all: set<U64>, rows: seq<U64>, page: nat)
    requires Ascending(rows, Below) && Elements(rows) == all
    ensures var ts := if |rows| <= page then rows else rows[..page];
      Distinct(ts) && Elements(ts) <= all && (Elements(ts) == all <==> |all| <= page)
  {
    assert StrictTotal(Below);
    AscendingDistinct<U64>(rows, Below);
    var ts := if |rows| <= page then rows else rows[..page];
    AscendingDistinct<U64>(ts, Below);
    AscendingOnce(ts);
    assert forall x :: x in ts ==> x in rows;
  }

  lemma {:induction false} AscendingOnce(ts: seq<U64>)
    requires Ascending(ts, Below)
    ensures Distinct(ts)
  {
    if ts == [] {
    } else {
      var n := |ts| - 1;
      var t, us := ts[n], ts[..n];
      AscendingOnce(us);
      assert ts == us + [t] && multiset(ts) == multiset(us) + multiset{t};
      assert forall i :: 0 <= i < n ==> Below(ts[i], t);
    }
  }

  /** Rows of every user after a compact state replaced the source's followings. */
  lemma ReplacedRows(db: Db, s: U64, targets: seq<U64>, fid: U64)
    ensures var was, r := Elements(OldTargets(db, s)), Replaced(db, s, targets);
      && Others(r, Followers, fid) == Others(db, Followers, fid) - If(fid in was, {s}) + If(fid in targets, {s})
      && Others(r, Following, fid) == Others(db, Following, fid) - If(fid == s, was) + If(fid == s, Elements(targets))
  {
    var ts := OldTargets(db, s);
    var forgotten := Forget(db, s, ts);
    var cleared := forgotten[Count(Following, s) := Number(0)];
    var enlisted := Enlist(cleared, s, targets);
    ForgetRows(db, s, ts, fid);
    EnlistRows(cleared, s, targets, fid);
    CountKeepsRows(forgotten, Count(Following, s), Number(0), Followers, fid);
    CountKeepsRows(forgotten, Count(Following, s), Number(0), Following, fid);
    CountKeepsRows(enlisted, Count(Following, s), Number(|targets|), Followers, fid);
    CountKeepsRows(enlisted, Count(Following, s), Number(|targets|), Following, fid);
    assert fid in ts <==> fid in Elements(ts);
  }

  lemma ReplacedCounts(db: Db, s: U64, targets: seq<U64>, fid: U64)
    requires Mirror(db) && Exact(db)
    ensures var was, r := Elements(OldTargets(db, s)), Replaced(db, s, targets);
      && CountIn(r, Count(Following, fid)) == (if fid == s then |targets| else CountIn(db, Count(Following, fid)))
      && CountIn(r, Count(Followers, fid))
           == CountIn(db, Count(Followers, fid)) - (if fid in was then 1 else 0) + multiset(targets)[fid]
  {
    var ts := OldTargets(db, s);
    OldTargetsDistinct(db, s);
    ForgetCounts(db, s, ts, fid);
    ForgetKeepsFollowing(db, s, ts, fid);
    EnlistCounts(Forget(db, s, ts)[Count(Following, s) := Number(0)], s, targets, fid);
    assert fid in ts <==> fid in Elements(ts);
  }

  /** A target's follower counter is exact after the replacement exactly when it is listed at most
      once, and not at all if its old edge was left in place. */
  lemma ReplacedFollowers(db: Db, s: U64, targets: seq<U64>, fid: U64)
    requires Mirror(db) && Exact(db)
    ensures var kept := Others(db, Following, s) - Elements(OldTargets(db, s));
      ExactAt(Replaced(db, s, targets), Followers, fid) <==> multiset(targets)[fid] <= (if fid in kept then 0 else 1)
  {
    var was := Elements(OldTargets(db, s));
    OldTargetsDistinct(db, s);
    ReplacedCounts(db, s, targets, fid);
    assert ExactAt(db, Followers, fid);
    var rows := Others(db, Followers, fid);
    var rows' := Others(Replaced(db, s, targets), Followers, fid);
    assert rows' == rows - If(fid in was, {s}) + If(fid in targets, {s}) by { ReplacedRows(db, s, targets, fid); }
    assert fid in Others(db, Following, s) <==> s in rows by { EdgeInRows(db, s, fid); }
    assert fid in targets <==> multiset(targets)[fid] > 0;
    SwapSize(rows, s, fid in was, fid in targets);
  }

  lemma SwapSize(rows: set<U64>, x: U64, removed: bool, added: bool)
    requires removed ==> x in rows
    ensures |rows - If(removed, {x}) + If(added, {x})|
         == |rows| - (if removed then 1 else 0) + (if added && (removed || x !in rows) then 1 else 0)
  {
    var less := rows - If(removed, {x});
    assert !removed ==> less == rows;
    assert !added ==> less + If(added, {x}) == less;
    assert added && x in less ==> less + {x} == less;
  }

  /** The source's own counter is exact exactly when the list and the kept rows together have as many
      members as the list has entries. */
  lemma ReplacedFollowing(db: Db, s: U64, targets: seq<U64>, fid: U64)
    requires Mirror(db) && Exact(db)
    ensures var kept := Others(db, Following, s) - Elements(OldTargets(db, s));
      ExactAt(Replaced(db, s, targets), Following, fid) <==> fid != s || |kept + Elements(targets)| == |targets|
  {
    ReplacedCounts(db, s, targets, fid);
    assert ExactAt(db, Following, fid);
    var rows, rows' := Others(db, Following, fid), Others(Replaced(db, s, targets), Following, fid);
    var was := Elements(OldTargets(db, s));
    if fid == s {
      assert rows' == rows - was + Elements(targets) by { ReplacedRows(db, s, targets, fid); }
    } else {
      assert rows' == rows by { ReplacedRows(db, s, targets, fid); }
    }
  }

  ghost function Kept(db: Db, s: U64): set<U64> {
    Others(db, Following, s) - Elements(OldTargets(db, s))
  }

  lemma ReplaceKeepsExact(db: Db, s: U64, targets: seq<U64>)
    requires Mirror(db) && Exact(db) && Distinct(targets) && Kept(db, s) == {}
    ensures Exact(Replaced(db, s, targets))
  {
    ReplaceCondition(Kept(db, s), targets);
    forall table: Table, fid: U64 ensures ExactAt(Replaced(db, s, targets), table, fid) {
      ReplacedFollowers(db, s, targets, fid);
      ReplacedFollowing(db, s, targets, fid);
      assert table == Followers || table == Following;
    }
  }

  lemma ReplaceExactNeeds(db: Db, s: U64, targets: seq<U64>)
    requires Mirror(db) && Exact(db) && Exact(Replaced(db, s, targets))
    ensures Distinct(targets) && Kept(db, s) == {}
  {
    forall fid: U64 ensures multiset(targets)[fid] <= (if fid in Kept(db, s) then 0 else 1) {
      ReplacedFollowers(db, s, targets, fid);
      assert ExactAt(Replaced(db, s, targets), Followers, fid);
    }
    ReplacedFollowing(db, s, targets, s);
    assert ExactAt(Replaced(db, s, targets), Following, s);
    ReplaceCondition(Kept(db, s), targets);
  }

  lemma ReplaceStep(db: Db, s: U64, targets: seq<U64>)
    requires Mirror(db) && Exact(db)
    ensures Exact(Replaced(db, s, targets)) <==> Distinct(targets) && |Others(db, Following, s)| <= PAGE
  {
    assert Kept(db, s) == {} <==> |Others(db, Following, s)| <= PAGE by { OldTargetsDistinct(db, s); }
    if Distinct(targets) && Kept(db, s) == {} {
      ReplaceKeepsExact(db, s, targets);
    } else if Exact(Replaced(db, s, targets)) {
      ReplaceExactNeeds(db, s, targets);
    }
  }

  lemma ReplaceCondition(kept: set<U64>, targets: seq<U64>)
    ensures (forall fid: U64 :: multiset(targets)[fid] <= (if fid in kept then 0 else 1)) && |kept + Elements(targets)|
         == |targets|
       <==> Distinct(targets) && kept == {}
  {
    DistinctSize(targets);
    if kept == {} {
      assert kept + Elements(targets) == Elements(targets);
    }
    if forall fid: U64 :: multiset(targets)[fid] <= (if fid in kept then 0 else 1) {
      assert Distinct(targets);
      assert forall x :: x in targets ==> x !in kept;
      assert |kept + Elements(targets)| == |kept| + |targets|;
    }
  }

  /** From exact counters, one message leaves them exact if and only if it is clean. */
  lemma ExactStep(db: Db, m: Message)
    requires Mirror(db) && Exact(db)
    ensures Exact(Apply(db, m)) <==> Clean(db, m)
  {
    match Meaning(m)
    case Follow(s, t, stamp) => FollowStep(db, s, t, stamp);
    case Unfollow(s, t) => UnfollowStep(db, s, t);
    case Replace(s, targets) => ReplaceStep(db, s, targets);
    case _ =>
  }

  ghost predicate ExactThroughout(db: Db, ms: seq<Message>) {
    Exact(ApplyAll(db, ms)) && (ms != [] ==> ExactThroughout(db, ms[..|ms| - 1]))
  }

  ghost predicate CleanThroughout(db: Db, ms: seq<Message>) {
    ms != [] ==> CleanThroughout(db, ms[..|ms| - 1]) && Clean(ApplyAll(db, ms[..|ms| - 1]), ms[|ms| - 1])
  }

  /** After every prefix of the messages each counter is the number of matching rows, if and only if
      every message is clean when it is applied. */
  lemma {:induction false} CountersExactIff(db: Db, ms: seq<Message>)
    requires Mirror(db) && Exact(db)
    ensures ExactThroughout(db, ms) <==> CleanThroughout(db, ms)
  {
    if ms == [] {
    } else {
      var before := ms[..|ms| - 1];
      CountersExactIff(db, before);
      AlwaysMirrored(db, before);
      if Exact(ApplyAll(db, before)) {
        ExactStep(ApplyAll(db, before), ms[|ms| - 1]);
      }
    }
  }
}
