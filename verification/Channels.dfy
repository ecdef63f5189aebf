/** The channels indexer: casts addressed to a channel update its statistics and membership rows
    through a write batch. */
module Channels {
  import opened Options
  import opened Txn
  import opened B = Bytes

  /** A channel is known by the hash of its URL. */
  type Hash = Bytes

  datatype Stats = Stats(castCount: nat, memberCount: nat, lastActivity: nat)

  datatype Key =
    | StatsOf(channel: Hash)
    | Member(channel: Hash, fid: U64)
    | ChannelOf(fid: U64, channel: Hash)
    | Url(channel: Hash)
    | Name(name: string)

  datatype Value = Counted(stats: Stats) | Stamp(t: nat) | Text(text: string) | Target(hash: Hash) | Marker

  type Db = map<Key, Value>

  datatype MessageType = CastAdd | OtherType | InvalidType

  datatype Body = CastAddBody(parentUrl: Option<string>) | OtherBody

  datatype Data = Data(fid: U64, timestamp: nat, msgType: MessageType, body: Body)

  datatype Message = Message(data: Option<Data>)

  /** SHA-256 of a URL, and the channel name its path spells, if any. */
  datatype Naming = Naming(hash: string -> Hash, name: string -> Option<string>)

  datatype Action = Malformed | Ignored | Post(fid: U64, url: string, timestamp: nat)

  function Meaning(m: Message): Action {
    match m.data
    case None => Malformed
    case Some(Data(fid, timestamp, msgType, body)) =>
      if body.OtherBody? then Ignored
      else if msgType.InvalidType? then Malformed
      else if msgType.OtherType? || body.parentUrl.None? then Ignored
      else Post(fid, body.parentUrl.value, timestamp)
  }

  // ----- the effect on a store ---------------------------------------------

  /** Stored statistics decode. */
  predicate Readable(db: Db, h: Hash) {
    StatsOf(h) in db ==> db[StatsOf(h)].Counted?
  }

  function StatsIn(db: Db, h: Hash): Stats
    requires Readable(db, h)
  {
    if StatsOf(h) in db then db[StatsOf(h)].stats else Stats(0, 0, 0)
  }

  function Labelled(db: Db, n: Naming, url: string): Db {
    var labelled := db[Url(n.hash(url)) := Text(url)];
    if n.name(url).Some? then labelled[Name(n.name(url).value) := Target(n.hash(url))] else labelled
  }

  function Posted(db: Db, h: Hash, fid: U64, timestamp: nat): Db
    requires Readable(db, h)
  {
    var s := StatsIn(db, h);
    if Member(h, fid) in db then db[StatsOf(h) := Counted(Stats(s.castCount + 1, s.memberCount, timestamp))]
    else db[StatsOf(h) := Counted(Stats(s.castCount + 1, s.memberCount + 1, timestamp))]
           [Member(h, fid) := Stamp(timestamp)][ChannelOf(fid, h) := Marker]
  }

  function Decode(v: Value): Option<Stats> {
    if v.Counted? then Some(v.stats) else None
  }

  /** A malformed message, or a cast to a channel whose statistics cannot be read. */
  predicate Refused(db: Db, n: Naming, m: Message) {
    match Meaning(m)
    case Malformed => true
    case Ignored => false
    case Post(_, url, _) => !Readable(db, n.hash(url))
  }

  function Apply(db: Db, n: Naming, m: Message): Db {
    if Refused(db, n, m) || Meaning(m).Ignored? then db
    else
      var Post(fid, url, timestamp) := Meaning(m);
      Posted(Labelled(db, n, url), n.hash(url), fid, timestamp)
  }

  function ApplyAll(db: Db, n: Naming, ms: seq<Message>): Db {
    if ms == [] then db else Apply(ApplyAll(db, n, ms[..|ms| - 1]), n, ms[|ms| - 1])
  }

  predicate NoneRefused(db: Db, n: Naming, ms: seq<Message>) {
    forall i :: 0 <= i < |ms| ==> !Refused(db, n, ms[i])
  }

  /** Processing neither spoils nor repairs statistics. */
  lemma {:induction false} ReadableStays(db: Db, n: Naming, ms: seq<Message>, h: Hash)
    ensures Readable(ApplyAll(db, n, ms), h) <==> Readable(db, h)
  {
    if ms == [] {
    } else {
      ReadableStays(db, n, ms[..|ms| - 1], h);
    }
  }

  // ----- the indexer -------------------------------------------------------

  /** Nothing is ever deleted, and statistics written decode. */
  predicate ValidBatch(txn: Batch<Key, Value>) {
    forall k :: k in txn ==> txn[k].Some? && (k.StatsOf? ==> txn[k].value.Counted?)
  }

  class Indexer {
    const naming: Naming
    var db: Db
    var txn: Batch<Key, Value>

    ghost predicate Valid()
      reads this
    {
      ValidBatch(txn)
    }

    ghost function View(): Db
      reads this
    {
      Overlay(db, txn)
    }

    constructor (naming: Naming, db: Db)
      ensures Valid() && this.naming == naming && this.db == db && txn == map[]
    {
      this.naming, this.db, txn := naming, db, map[];
    }

    method IsMember(h: Hash, fid: U64) returns (r: bool)
      requires Valid()
      ensures r <==> Member(h, fid) in View()
    {
      if Member(h, fid) in txn {
        return txn[Member(h, fid)].Some?;
      }
      r := Member(h, fid) in db;
    }

    method GetStats(h: Hash) returns (r: Option<Stats>)
      requires Valid()
      ensures r == if Readable(View(), h) then Some(StatsIn(View(), h)) else None
    {
      if StatsOf(h) in txn && txn[StatsOf(h)].Some? {
        return Decode(txn[StatsOf(h)].value);
      }
      r := if StatsOf(h) in db then Decode(db[StatsOf(h)]) else Some(Stats(0, 0, 0));
    }

    method Put(k: Key, v: Value)
      requires Valid() && (k.StatsOf? ==> v.Counted?)
      modifies this`txn
      ensures Valid() && View() == old(View())[k := v]
    {
      OverlayPut(db, txn, k, v);
      txn := txn[k := Some(v)];
    }

    method ProcessPost(h: Hash, fid: U64, timestamp: nat) returns (ok: bool)
      requires Valid()
      modifies this`txn
      ensures Valid() && (ok <==> Readable(old(View()), h))
      ensures ok ==> View() == Posted(old(View()), h, fid, timestamp)
    {
      var wasMember := IsMember(h, fid);
      var current := GetStats(h);
      if current.None? {
        return false;
      }
      var stats := current.value;
      stats := stats.(castCount := stats.castCount + 1);
      if !wasMember {
        stats := stats.(memberCount := stats.memberCount + 1);
      }
      stats := stats.(lastActivity := timestamp);
      Put(StatsOf(h), Counted(stats));
      if !wasMember {
        Put(Member(h, fid), Stamp(timestamp));
        Put(ChannelOf(fid, h), Marker);
      }
      ok := true;
    }

    /** A refused message may leave labels in the batch, which is then dropped. */
    method ProcessCastMessage(m: Message) returns (ok: bool)
      requires Valid()
      modifies this`txn
      ensures Valid() && (ok <==> !Refused(old(View()), naming, m))
      ensures ok ==> View() == Apply(old(View()), naming, m)
    {
      if m.data.None? {
        return false;
      }
      var data := m.data.value;
      if !data.body.CastAddBody? {
        return true;
      }
      if data.msgType.InvalidType? {
        return false;
      }
      if data.msgType != CastAdd {
        return true;
      }
      if data.body.parentUrl.None? {
        return true;
      }
      var url := data.body.parentUrl.value;
      var h := naming.hash(url);
      Put(Url(h), Text(url));
      if naming.name(url).Some? {
        Put(Name(naming.name(url).value), Target(h));
      }
      ok := ProcessPost(h, data.fid, data.timestamp);
    }

    /** `ProcessCastMessage` for a message that follows the messages already in the view. */
    method ProcessNext(m: Message, ghost start: Db, ghost before: seq<Message>) returns (ok: bool)
      requires Valid() && View() == ApplyAll(start, naming, before)
      modifies this`txn
      ensures Valid() && (ok <==> !Refused(start, naming, m))
      ensures ok ==> View() == ApplyAll(start, naming, before + [m])
    {
      assert (before + [m])[..|before|] == before;
      if Meaning(m).Post? {
        ReadableStays(start, naming, before, naming.hash(Meaning(m).url));
      }
      ok := ProcessCastMessage(m);
    }

    /** A batch leaves the store as one-at-a-time processing would, or untouched if any message of it
        is refused. A batch of one message is the single path. */
    method ProcessBatch(ms: seq<Message>) returns (ok: bool)
      requires Valid()
      modifies this
      ensures Valid()
      ensures ok <==> NoneRefused(old(db), naming, ms)
      ensures db == if ok then ApplyAll(old(db), naming, ms) else old(db)
    {
      txn := map[];
      OverlayEmpty(db);
      ghost var start := db;
      for i := 0 to |ms|
        invariant Valid() && db == start
        invariant View() == ApplyAll(start, naming, ms[..i])
        invariant NoneRefused(start, naming, ms[..i])
      {
        ok := ProcessNext(ms[i], start, ms[..i]);
        assert ms[..i] + [ms[i]] == ms[..i + 1];
        if !ok {
          return false;
        }
      }
      assert ms[..|ms|] == ms;
      if |txn| > 0 {
        db := Overlay(db, txn);
        txn := map[];
      } else {
        assert txn == map[];
        OverlayEmpty(db);
      }
      ok := true;
    }
  }

  // ----- what holds after every run ----------------------------------------

  function Members(db: Db, h: Hash): set<U64> {
    set x: U64 | 0 <= x < U64_LIMIT && Member(h, x) in db
  }

  predicate MirroredAt(db: Db, h: Hash, fid: U64) {
    Member(h, fid) in db <==> ChannelOf(fid, h) in db
  }

  /** Every channel counts its members, and membership is recorded from both sides. */
  ghost predicate Consistent(db: Db) {
    && (forall h: Hash :: CountedAt(db, h))
    && (forall h: Hash, fid: U64 :: MirroredAt(db, h, fid))
  }

  /** Casts to a channel among the messages. */
  function Posts(n: Naming, ms: seq<Message>, h: Hash): nat {
    if ms == [] then 0
    else
      Posts(n, ms[..|ms| - 1], h) + (if CastTo(n, ms[|ms| - 1], h) then 1 else 0)
  }

  lemma LabelsApart(db: Db, n: Naming, url: string, h: Hash, fid: U64)
    ensures Readable(Labelled(db, n, url), h) <==> Readable(db, h)
    ensures Readable(db, h) ==> StatsIn(Labelled(db, n, url), h) == StatsIn(db, h)
    ensures Members(Labelled(db, n, url), h) == Members(db, h)
    ensures MirroredAt(Labelled(db, n, url), h, fid) <==> MirroredAt(db, h, fid)
    ensures Member(h, fid) in Labelled(db, n, url) <==> Member(h, fid) in db
  {
  }

  lemma PostedMembers(db: Db, h: Hash, fid: U64, timestamp: nat, g: Hash)
    requires Readable(db, h)
    ensures Members(Posted(db, h, fid, timestamp), g) == if g == h then Members(db, h) + {fid} else Members(db, g)
  {
  }

  predicate CountedAt(db: Db, h: Hash) {
    Readable(db, h) ==> StatsIn(db, h).memberCount == |Members(db, h)|
  }

  lemma PostedCounted(db: Db, h: Hash, fid: U64, timestamp: nat, g: Hash)
    requires Readable(db, h) && CountedAt(db, g)
    ensures CountedAt(Posted(db, h, fid, timestamp), g)
  {
    PostedMembers(db, h, fid, timestamp, g);
    if g == h {
      WithMember(Members(db, h), fid);
      assert fid in Members(db, h) <==> Member(h, fid) in db;
    }
  }

  lemma WithMember(members: set<U64>, fid: U64)
    ensures |members + {fid}| == |members| + if fid in members then 0 else 1
  {
    if fid in members {
      assert members + {fid} == members;
    }
  }

  lemma PostedConsistent(db: Db, h: Hash, fid: U64, timestamp: nat)
    requires Consistent(db) && Readable(db, h)
    ensures Consistent(Posted(db, h, fid, timestamp))
  {
    var r := Posted(db, h, fid, timestamp);
    forall g: Hash ensures CountedAt(r, g) {
      assert CountedAt(db, g);
      PostedCounted(db, h, fid, timestamp, g);
    }
    forall g: Hash, f: U64 ensures MirroredAt(r, g, f) {
      assert MirroredAt(db, g, f) && MirroredAt(db, h, fid);
    }
  }

  lemma LabelledConsistent(db: Db, n: Naming, url: string)
    requires Consistent(db)
    ensures Consistent(Labelled(db, n, url))
  {
    var d := Labelled(db, n, url);
    forall h: Hash ensures CountedAt(d, h) {
      LabelsApart(db, n, url, h, 0);
      assert CountedAt(db, h);
    }
    forall h: Hash, fid: U64 ensures MirroredAt(d, h, fid) {
      LabelsApart(db, n, url, h, fid);
      assert MirroredAt(db, h, fid);
    }
  }

  lemma ApplyConsistent(db: Db, n: Naming, m: Message)
    requires Consistent(db)
    ensures Consistent(Apply(db, n, m))
  {
    var a := Meaning(m);
    if a.Post? && !Refused(db, n, m) {
      LabelledConsistent(db, n, a.url);
      LabelsApart(db, n, a.url, n.hash(a.url), 0);
      PostedConsistent(Labelled(db, n, a.url), n.hash(a.url), a.fid, a.timestamp);
    }
  }

  /** After any messages, refused or not, each channel's member count is its number of member rows,
      and member rows and reverse rows mirror each other. */
  lemma {:induction false} AlwaysConsistent(db: Db, n: Naming, ms: seq<Message>)
    requires Consistent(db)
    ensures Consistent(ApplyAll(db, n, ms))
  {
    if ms == [] {
    } else {
      AlwaysConsistent(db, n, ms[..|ms| - 1]);
      ApplyConsistent(ApplyAll(db, n, ms[..|ms| - 1]), n, ms[|ms| - 1]);
    }
  }

  /** A channel's cast count grows by exactly the casts addressed to it. */
  lemma {:induction false} CastsCounted(db: Db, n: Naming, ms: seq<Message>, h: Hash)
    requires Readable(db, h)
    ensures Readable(ApplyAll(db, n, ms), h)
    ensures StatsIn(ApplyAll(db, n, ms), h).castCount == StatsIn(db, h).castCount + Posts(n, ms, h)
  {
    if ms == [] {
    } else {
      var before := ms[..|ms| - 1];
      CastsCounted(db, n, before, h);
      var d, a := ApplyAll(db, n, before), Meaning(ms[|ms| - 1]);
      if a.Post? { LabelsApart(d, n, a.url, h, 0); }
    }
  }

  /** Membership only grows, and is exactly having cast there while statistics can be read. */
  lemma {:induction false} MembersAreCasters(db: Db, n: Naming, ms: seq<Message>, h: Hash, fid: U64)
    ensures fid in Members(ApplyAll(db, n, ms), h) <==>
      fid in Members(db, h) || (Readable(db, h) && exists i :: 0 <= i < |ms| && CastBy(n, ms[i], h, fid))
  {
    if ms == [] {
    } else {
      var k := |ms| - 1;
      var before := ms[..k];
      MembersAreCasters(db, n, before, h, fid);
      MemberStep(ApplyAll(db, n, before), n, ms[k], h, fid);
      ReadableStays(db, n, before, h);
      assert forall i :: 0 <= i < k ==> before[i] == ms[i];
      assert (exists i :: 0 <= i < |ms| && CastBy(n, ms[i], h, fid))
        <==> (exists i :: 0 <= i < k && CastBy(n, before[i], h, fid)) || CastBy(n, ms[k], h, fid);
    }
  }

  lemma MemberStep(db: Db, n: Naming, m: Message, h: Hash, fid: U64)
    ensures fid in Members(Apply(db, n, m), h) <==> fid in Members(db, h) || (Readable(db, h) && CastBy(n, m, h, fid))
  {
    var a := Meaning(m);
    if a.Post? && !Refused(db, n, m) {
      LabelsApart(db, n, a.url, h, fid);
      LabelsApart(db, n, a.url, n.hash(a.url), fid);
      PostedMembers(Labelled(db, n, a.url), n.hash(a.url), a.fid, a.timestamp, h);
    }
  }

  /** A cast addressed to the channel. */
  predicate CastTo(n: Naming, m: Message, h: Hash) {
    && m.data.Some? && m.data.value.msgType == CastAdd && m.data.value.body.CastAddBody?
    && m.data.value.body.parentUrl.Some? && n.hash(m.data.value.body.parentUrl.value) == h
  }

  predicate CastBy(n: Naming, m: Message, h: Hash, fid: U64) {
    CastTo(n, m, h) && m.data.value.fid == fid
  }

  /** Refused are messages without data, cast bodies whose type is not one, and casts to channels whose
      statistics do not decode. */
  lemma RefusedIff(db: Db, n: Naming, m: Message)
    ensures Refused(db, n, m) <==>
      || m.data.None?
      || (m.data.value.body.CastAddBody? && m.data.value.msgType == InvalidType)
      || (exists h :: CastTo(n, m, h) && !Readable(db, h))
  {
    if Meaning(m).Post? {
      assert CastTo(n, m, n.hash(Meaning(m).url));
    }
  }

  // ----- what is noted -----------------------------------------------------

  /** The time of the last cast to a channel. */
  function LastCast(n: Naming, ms: seq<Message>, h: Hash): Option<nat> {
    if ms == [] then None
    else if CastTo(n, ms[|ms| - 1], h) then Some(ms[|ms| - 1].data.value.timestamp)
    else LastCast(n, ms[..|ms| - 1], h)
  }

  /** The time of a user's first cast to a channel. */
  function FirstCast(n: Naming, ms: seq<Message>, h: Hash, fid: U64): Option<nat> {
    if ms == [] then None
    else
      var earlier := FirstCast(n, ms[..|ms| - 1], h, fid);
      if earlier.None? && CastBy(n, ms[|ms| - 1], h, fid) then Some(ms[|ms| - 1].data.value.timestamp) else earlier
  }

  /** The channel of the last cast, among those to readable channels, whose URL spells a name. */
  function LastNamed(db: Db, n: Naming, ms: seq<Message>, name: string): Option<Hash> {
    if ms == [] then None
    else
      var m := ms[|ms| - 1];
      if Spells(db, n, m, name) then Some(n.hash(m.data.value.body.parentUrl.value))
      else LastNamed(db, n, ms[..|ms| - 1], name)
  }

  predicate Spells(db: Db, n: Naming, m: Message, name: string) {
    && m.data.Some? && m.data.value.body.CastAddBody? && m.data.value.body.parentUrl.Some?
    && CastTo(n, m, n.hash(m.data.value.body.parentUrl.value))
    && Readable(db, n.hash(m.data.value.body.parentUrl.value))
    && n.name(m.data.value.body.parentUrl.value) == Some(name)
  }

  /** The URL of the last cast to a channel. */
  function LastUrl(n: Naming, ms: seq<Message>, h: Hash): Option<string> {
    if ms == [] then None
    else if CastTo(n, ms[|ms| - 1], h) then ms[|ms| - 1].data.value.body.parentUrl
    else LastUrl(n, ms[..|ms| - 1], h)
  }

  function Entry(db: Db, k: Key): Option<Value> {
    if k in db then Some(db[k]) else None
  }

  /** A channel's last activity is the time of the last cast to it. */
  lemma {:induction false} ActivityNoted(db: Db, n: Naming, ms: seq<Message>, h: Hash)
    requires Readable(db, h)
    ensures Readable(ApplyAll(db, n, ms), h)
    ensures StatsIn(ApplyAll(db, n, ms), h).lastActivity
         == var last := LastCast(n, ms, h); if last.Some? then last.value else StatsIn(db, h).lastActivity
  {
    if ms == [] {
    } else {
      ActivityNoted(db, n, ms[..|ms| - 1], h);
      ActivityStep(ApplyAll(db, n, ms[..|ms| - 1]), n, ms[|ms| - 1], h);
    }
  }

  lemma ActivityStep(db: Db, n: Naming, m: Message, h: Hash)
    requires Readable(db, h)
    ensures Readable(Apply(db, n, m), h)
    ensures StatsIn(Apply(db, n, m), h).lastActivity
         == if CastTo(n, m, h) then m.data.value.timestamp else StatsIn(db, h).lastActivity
  {
    if Meaning(m).Post? { LabelsApart(db, n, Meaning(m).url, h, 0); }
  }

  /** A member's row keeps what it held, and a new member's holds the time of the user's first cast. */
  lemma {:induction false} MembershipNoted(db: Db, n: Naming, ms: seq<Message>, h: Hash, fid: U64)
    requires Readable(db, h)
    ensures Entry(ApplyAll(db, n, ms), Member(h, fid))
         == var first := FirstCast(n, ms, h, fid);
            if Member(h, fid) in db || first.None? then Entry(db, Member(h, fid)) else Some(Stamp(first.value))
  {
    if ms == [] {
    } else {
      var before := ms[..|ms| - 1];
      MembershipNoted(db, n, before, h, fid);
      ReadableStays(db, n, before, h);
      MembershipStep(ApplyAll(db, n, before), n, ms[|ms| - 1], h, fid);
    }
  }

  lemma MembershipStep(db: Db, n: Naming, m: Message, h: Hash, fid: U64)
    requires Readable(db, h)
    ensures Entry(Apply(db, n, m), Member(h, fid))
         == if Member(h, fid) !in db && CastBy(n, m, h, fid) then Some(Stamp(m.data.value.timestamp))
            else Entry(db, Member(h, fid))
  {
  }

  /** A name leads to the channel of the last cast that spells it, and a channel to the URL of its last cast. */
  lemma {:induction false} LabelsNoted(db: Db, n: Naming, ms: seq<Message>, name: string, h: Hash)
    requires Readable(db, h)
    ensures Entry(ApplyAll(db, n, ms), Name(name))
         == var last := LastNamed(db, n, ms, name);
            if last.Some? then Some(Target(last.value)) else Entry(db, Name(name))
    ensures Entry(ApplyAll(db, n, ms), Url(h))
         == var last := LastUrl(n, ms, h); if last.Some? then Some(Text(last.value)) else Entry(db, Url(h))
  {
    if ms == [] {
    } else {
      var before, m := ms[..|ms| - 1], ms[|ms| - 1];
      LabelsNoted(db, n, before, name, h);
      ReadableStays(db, n, before, h);
      if Meaning(m).Post? { ReadableStays(db, n, before, n.hash(Meaning(m).url)); }
      LabelsStep(ApplyAll(db, n, before), n, m, name, h);
    }
  }

  lemma LabelsStep(db: Db, n: Naming, m: Message, name: string, h: Hash)
    requires Readable(db, h)
    ensures Entry(Apply(db, n, m), Name(name))
         == if Spells(db, n, m, name) then Some(Target(n.hash(m.data.value.body.parentUrl.value)))
            else Entry(db, Name(name))
    ensures Entry(Apply(db, n, m), Url(h))
         == if CastTo(n, m, h) then Some(Text(m.data.value.body.parentUrl.value)) else Entry(db, Url(h))
  {
  }
}
