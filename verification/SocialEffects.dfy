/** Link messages, and their effect on a store of follow rows and counters. */
module SocialEffects {
  import opened Options
  import opened B = Bytes
  import opened SocialKeys

  datatype MessageType = LinkAdd | LinkRemove | OtherType | InvalidType

  datatype Body =
    | LinkBody(kind: string, target: Option<U64>)
    | CompactBody(kind: string, targets: seq<U64>)
    | OtherBody

  datatype Data = Data(fid: U64, timestamp: nat, msgType: MessageType, body: Body)

  datatype Message = Message(data: Option<Data>)

  const PAGE: nat := 100_000

  // ----- what a message means ----------------------------------------------

  datatype Action =
    | Malformed
    | Ignored
    | Follow(source: U64, target: U64, timestamp: nat)
    | Unfollow(source: U64, target: U64)
    | Replace(source: U64, targets: seq<U64>)

  function Meaning(m: Message): Action {
    match m.data
    case None => Malformed
    case Some(Data(fid, timestamp, msgType, body)) =>
      match body
      case CompactBody(kind, targets) => if kind == "follow" then Replace(fid, targets) else Ignored
      case LinkBody(kind, target) =>
        if kind != "follow" || target.None? then Ignored
        else (match msgType
              case InvalidType => Malformed
              case LinkAdd => Follow(fid, target.value, timestamp)
              case LinkRemove => Unfollow(fid, target.value)
              case OtherType => Ignored)
      case OtherBody => Ignored
  }

  predicate WellFormed(m: Message) {
    !Meaning(m).Malformed?
  }

  /** Malformed are messages without data, and follow links to a target whose type is not one. */
  lemma WellFormedIff(m: Message)
    ensures WellFormed(m) <==>
      && m.data.Some?
      && !(exists t :: m.data.value.body == LinkBody("follow", Some(t)) && m.data.value.msgType == InvalidType)
  {
    if m.data.Some? && m.data.value.body.LinkBody? && m.data.value.body.target.Some? {
      assert m.data.value.body == LinkBody(m.data.value.body.kind, Some(m.data.value.body.target.value));
    }
  }

  predicate AllWellFormed(ms: seq<Message>) {
    forall i :: 0 <= i < |ms| ==> WellFormed(ms[i])
  }

  predicate IsCompact(m: Message) {
    m.data.Some? && m.data.value.body.CompactBody?
  }

  // ----- the effect on a store ---------------------------------------------

  function CountIn(db: Db, k: Key): nat {
    if k in db && db[k].Number? then db[k].n else 0
  }

  function Raise(db: Db, k: Key): Db {
    db[k := Number(CountIn(db, k) + 1)]
  }

  function Lower(db: Db, k: Key): Db {
    if CountIn(db, k) > 0 then db[k := Number(CountIn(db, k) - 1)] else db
  }

  function PutEdge(db: Db, s: U64, t: U64, stamp: nat): Db {
    db[Row(Followers, t, s) := Stamp(stamp)][Row(Following, s, t) := Stamp(stamp)]
  }

  function CutEdge(db: Db, s: U64, t: U64): Db {
    db - {Row(Followers, t, s)} - {Row(Following, s, t)}
  }

  /** The targets a compact state clears: the first page of the source's current rows. */
  function OldTargets(db: Db, s: U64): seq<U64> {
    var rows := From(Others(db, Following, s), 0);
    if |rows| <= PAGE then rows else rows[..PAGE]
  }

  function Forget(db: Db, s: U64, ts: seq<U64>): Db {
    if ts == [] then db
    else var t := ts[|ts| - 1]; Lower(CutEdge(Forget(db, s, ts[..|ts| - 1]), s, t), Count(Followers, t))
  }

  function Enlist(db: Db, s: U64, ts: seq<U64>): Db {
    if ts == [] then db
    else var t := ts[|ts| - 1]; Raise(PutEdge(Enlist(db, s, ts[..|ts| - 1]), s, t, 0), Count(Followers, t))
  }

  function Replaced(db: Db, s: U64, targets: seq<U64>): Db {
    var cleared := Forget(db, s, OldTargets(db, s))[Count(Following, s) := Number(0)];
    Enlist(cleared, s, targets)[Count(Following, s) := Number(|targets|)]
  }

  function Followed(db: Db, s: U64, t: U64, stamp: nat): Db {
    PutEdge(Raise(Raise(db, Count(Followers, t)), Count(Following, s)), s, t, stamp)
  }

  function Unfollowed(db: Db, s: U64, t: U64): Db {
    CutEdge(Lower(Lower(db, Count(Followers, t)), Count(Following, s)), s, t)
  }

  /** One message in a transaction of its own; a malformed one changes nothing. */
  function Apply(db: Db, m: Message): Db {
    match Meaning(m)
    case Malformed => db
    case Ignored => db
    case Follow(s, t, stamp) => Followed(db, s, t, stamp)
    case Unfollow(s, t) => Unfollowed(db, s, t)
    case Replace(s, targets) => Replaced(db, s, targets)
  }

  function ApplyAll(db: Db, ms: seq<Message>): Db {
    if ms == [] then db else Apply(ApplyAll(db, ms[..|ms| - 1]), ms[|ms| - 1])
  }

  /** How much of a prefix is committed while the rest is still in the batch: everything before its
      last compact message. */
  function Flushed(ms: seq<Message>): (n: nat)
    ensures n <= |ms|
  {
    if ms == [] then 0 else if IsCompact(ms[|ms| - 1]) then |ms| - 1 else Flushed(ms[..|ms| - 1])
  }

  lemma FlushedStep(ms: seq<Message>, i: nat)
    requires i < |ms|
    ensures ms[..i] + [ms[i]] == ms[..i + 1]
    ensures Flushed(ms[..i + 1]) == if IsCompact(ms[i]) then i else Flushed(ms[..i])
    ensures AllWellFormed(ms[..i + 1]) <==> AllWellFormed(ms[..i]) && WellFormed(ms[i])
    ensures !AllWellFormed(ms[..i + 1]) ==> !AllWellFormed(ms)
  {
    assert ms[..i + 1][..i] == ms[..i];
    assert forall j :: 0 <= j <= i ==> ms[..i + 1][j] == ms[j];
  }

  /** Flushing stands at the last compact message, or at the start. */
  lemma {:induction false} FlushedAt(ms: seq<Message>)
    ensures var n := Flushed(ms);
      && (n == 0 || (n < |ms| && ms[n].data.Some? && ms[n].data.value.body.CompactBody?))
      && forall i :: n < i < |ms| ==> !(ms[i].data.Some? && ms[i].data.value.body.CompactBody?)
  {
    if ms == [] {
    } else {
      FlushedAt(ms[..|ms| - 1]);
    }
  }
}
