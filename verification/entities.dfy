/** Threads, replies and the fixed list of boards. */
module Entities {
  import opened Credentials

  /** Document identifiers (Mongo ObjectIds, compared by their string form). */
  type Id = string

  /** Timestamps; the clock is a parameter of every operation that reads it. */
  type Time = nat

  datatype Option<T> = None | Some(value: T)

  function Min(a: int, b: int): (r: int) {
    if a <= b then a else b
  }

  /** The boards a thread may be listed on or posted to. */
  const BoardList: seq<string> := ["general", "movies", "tech", "games", "testaroo"]

  predicate IsBoard(name: string) {
    name in BoardList
  }

  /** The text a deleted reply is replaced with. */
  const Deleted: string := "[deleted]"

  /** A reply, stored inside its thread's reply sequence. */
  datatype Reply = Reply(
    id: Id,
    text: string,
    createdOn: Time,
    deletePassword: Cred,
    reported: bool)

  /** A thread document. Its id is the key it is stored under. */
  datatype Thread = Thread(
    text: string,
    createdOn: Time,
    bumpedOn: Time,
    reported: bool,
    deletePassword: Cred,
    replies: seq<Reply>)

  /** The thread a POST to the thread route builds before inserting it. */
  function NewThread(text: string, password: string, now: Time): (t: Thread)
    ensures t.text == text && t.replies == [] && !t.reported
    ensures t.createdOn == now && t.bumpedOn == t.createdOn
    ensures forall p :: Verify(p, t.deletePassword) <==> p == password
  {
    Thread(text, now, now, false, Hash(password), [])
  }

  /** The reply a POST to the reply route builds before appending it. */
  function NewReply(id: Id, text: string, password: string, now: Time): (r: Reply)
    ensures r.id == id && r.text == text && r.createdOn == now && !r.reported
    ensures forall p :: Verify(p, r.deletePassword) <==> p == password
  {
    Reply(id, text, now, Hash(password), false)
  }

  /** The position of the first reply whose id is `rid`, as JavaScript's
      `findIndex` returns it (`None` standing for -1). */
  function FindReply(replies: seq<Reply>, rid: Id): (r: Option<nat>)
    ensures r.Some? ==> r.value < |replies| && replies[r.value].id == rid
    ensures r.Some? ==> forall j :: 0 <= j < r.value ==> replies[j].id != rid
    ensures r.None? <==> forall j :: 0 <= j < |replies| ==> replies[j].id != rid
  {
    if |replies| == 0 then None
    else if replies[0].id == rid then Some(0)
    else match FindReply(replies[1..], rid)
      case None => None
      case Some(i) => Some(i + 1)
  }

  /** No two replies of a thread share an id. */
  ghost predicate UniqueReplyIds(replies: seq<Reply>) {
    forall i, j :: 0 <= i < j < |replies| ==> replies[i].id != replies[j].id
  }

  /** With unique ids, the lookup finds exactly the reply carrying the id. */
  lemma FindReplyUnique(replies: seq<Reply>, i: nat)
    requires UniqueReplyIds(replies)
    requires i < |replies|
    ensures FindReply(replies, replies[i].id) == Some(i)
  {
  }
}
