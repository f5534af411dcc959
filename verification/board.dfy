/** The board store and the eight request handlers of the thread and reply
    routes, each one atomic transition from a store to a response and a new
    store.

    Storage is a value: every board is a collection of thread documents keyed
    by id, and a board never written to is an empty collection. The store's
    "inserted / modified / deleted count" answers are modelled as "the new
    store differs from the old one", so a write that changes nothing takes
    the handler's error branch, as a no-op update does against the real
    store.
 */
module Board {
  import opened Credentials
  import opened Entities
  import opened Projection
  import opened Listing

  type Store = map<string, map<Id, Thread>>

  /** The thread collection of a board. */
  function Threads(s: Store, board: string): (r: map<Id, Thread>) {
    if board in s then s[board] else map[]
  }

  function Put(s: Store, board: string, id: Id, t: Thread): (r: Store) {
    s[board := Threads(s, board)[id := t]]
  }

  /** Writing a thread back changes the store exactly when the written
      document differs from the stored one. */
  lemma PutUnchanged(s: Store, board: string, id: Id, t: Thread)
    ensures Put(s, board, id, t) == s <==> id in Threads(s, board) && Threads(s, board)[id] == t
  {
    if id in Threads(s, board) && Threads(s, board)[id] == t {
      assert Threads(s, board)[id := t] == Threads(s, board);
    }
  }

  function Drop(s: Store, board: string, id: Id): (r: Store) {
    s[board := Threads(s, board) - {id}]
  }

  /** What a handler sends back. */
  datatype Response =
    | Text(msg: string)
    | Redirect(path: string)
    | ThreadList(threads: seq<Summary>)
    | ThreadView(thread: Detail)
      /** The handler dereferenced a missing thread and the failure was
          swallowed; the source sends nothing at all in this case. */
    | NotFound

  datatype Step = Step(response: Response, store: Store)

  const BoardRequestedInvalid := "Board requested is invalid."
  const BoardEnteredInvalid := "Board entered is invalid."
  const PostFailed := "Sorry, an error occurred during posting. Please try again."
  const InvalidThreadId := "Invalid Thread ID, please try again."
  const ThreadReported := "Thread has been reported."
  const ReportFailed := "Sorry, an error occurred during reporting. Please try again."
  const DeleteSucceeded := "Delete successful."
  const DeleteFailed := "Sorry, an error occurred during deletion. Please try again."
  const WrongPassword := "Incorrect password supplied for deletion."
  const NoSuchThread := "Thread does not exist. Please check your thread ID when replying."
  const ReplyFailed := "Sorry, an error occurred sending your reply. Please try again."
  const InvalidReplyIds := "Invalid Thread or Reply ID, please try again."
  const ReplyReported := "Reply has been reported."
  const NoSuchReply := "The thread or specific reply could not be found, please try again."

  /** Every thread other than (board, id) is present in `s'` exactly when it
      is present in `s`, with the same contents. */
  ghost predicate Frame(s: Store, s': Store, board: string, id: Id) {
    forall b, k :: (b != board || k != id) ==>
      && (k in Threads(s, b) <==> k in Threads(s', b))
      && (k in Threads(s, b) ==> Threads(s', b)[k] == Threads(s, b)[k])
  }

  /** A write followed by its count check. The written state is always the
      resulting store (a no-op write leaves the store as it was); the check
      only decides the answer, success exactly when the write changed
      something. */
  function Commit(s: Store, s': Store, ok: Response, err: string): (r: Step)
    ensures r.store == s'
    ensures s' != s ==> r.response == ok
    ensures s' == s ==> r.response == Text(err)
  {
    if s' != s then Step(ok, s') else Step(Text(err), s)
  }

  /** GET /api/threads/:board. Reads only. */
  method ListThreads(s: Store, board: string) returns (r: Response)
    ensures !IsBoard(board) ==> r == Text(BoardRequestedInvalid)
    ensures IsBoard(board) ==> r.ThreadList? && |r.threads| <= PageSize
    ensures IsBoard(board) ==>
      exists ids :: IsListing(Threads(s, board), ids) && r.threads == Summaries(Threads(s, board), ids)
  {
    if !IsBoard(board) {
      return Text(BoardRequestedInvalid);
    }
    var ids := SelectRecent(Threads(s, board));
    r := ThreadList(Summaries(Threads(s, board), ids));
  }

  /** POST /api/threads/:board. The store assigns `id`, which is not yet used
      on the board. */
  function CreateThread(s: Store, board: string, id: Id, text: string, password: string, now: Time): (r: Step)
    requires id !in Threads(s, board)
    ensures !IsBoard(board) ==> r == Step(Text(BoardEnteredInvalid), s)
    ensures IsBoard(board) ==> r.response == Redirect("/b/" + board)
    ensures IsBoard(board) ==>
      && Threads(r.store, board).Keys == Threads(s, board).Keys + {id}
      && Threads(r.store, board)[id] == NewThread(text, password, now)
      && Frame(s, r.store, board, id)
  {
    if !IsBoard(board) then Step(Text(BoardEnteredInvalid), s)
    else Commit(s, Put(s, board, id, NewThread(text, password, now)), Redirect("/b/" + board), PostFailed)
  }

  /** PUT /api/threads/:board. Any board name is accepted. */
  function ReportThread(s: Store, board: string, id: Id): (r: Step)
    ensures id !in Threads(s, board) ==> r == Step(Text(InvalidThreadId), s)
    ensures id in Threads(s, board) && Threads(s, board)[id].reported ==> r == Step(Text(ReportFailed), s)
    ensures id in Threads(s, board) && !Threads(s, board)[id].reported ==>
      && r.response == Text(ThreadReported)
      && Frame(s, r.store, board, id)
      && id in Threads(r.store, board)
      && Threads(r.store, board)[id].reported
      && Threads(r.store, board)[id].(reported := false) == Threads(s, board)[id]
  {
    var ts := Threads(s, board);
    if id !in ts then Step(Text(InvalidThreadId), s)
    else
      PutUnchanged(s, board, id, ts[id].(reported := true));
      Commit(s, Put(s, board, id, ts[id].(reported := true)), Text(ThreadReported), ReportFailed)
  }

  /** DELETE /api/threads/:board: look the thread up, check the password
      against the thread's own credential, then remove the document. */
  function DeleteThread(s: Store, board: string, id: Id, password: string): (r: Step)
    ensures id !in Threads(s, board) ==> r == Step(NotFound, s)
    ensures id in Threads(s, board) ==>
      (r.response == Text(DeleteSucceeded) <==> Verify(password, Threads(s, board)[id].deletePassword))
    ensures id in Threads(s, board) && !Verify(password, Threads(s, board)[id].deletePassword) ==>
      r == Step(Text(WrongPassword), s)
    ensures r.response == Text(DeleteSucceeded) ==>
      id !in Threads(r.store, board) && Frame(s, r.store, board, id)
  {
    var ts := Threads(s, board);
    if id !in ts then Step(NotFound, s)
    else if !Verify(password, ts[id].deletePassword) then Step(Text(WrongPassword), s)
    else Commit(s, Drop(s, board, id), Text(DeleteSucceeded), DeleteFailed)
  }

  /** GET /api/replies/:board?thread_id=. Reads only. */
  function GetThread(s: Store, board: string, id: Id): (r: Response)
    ensures id !in Threads(s, board) <==> r == NotFound
    ensures id in Threads(s, board) ==> r.ThreadView? && r.thread.id == id
    ensures id in Threads(s, board) ==>
      var t := Threads(s, board)[id];
      && r.thread.text == t.text && r.thread.createdOn == t.createdOn && r.thread.bumpedOn == t.bumpedOn
      && r.thread.reported == t.reported && r.thread.deletePassword == t.deletePassword
    ensures id in Threads(s, board) ==>
      var t := Threads(s, board)[id];
      && |r.thread.replies| == |t.replies|
      && forall i :: 0 <= i < |t.replies| ==>
           r.thread.replies[i] == PublicReply(t.replies[i].id, t.replies[i].text, t.replies[i].createdOn)
  {
    var ts := Threads(s, board);
    if id !in ts then NotFound else ThreadView(DetailOf(id, ts[id]))
  }

  /** POST /api/replies/:board: append a reply and bump the thread in one
      write. The reply id `rid` is freshly generated by the caller. */
  function AppendReply(s: Store, board: string, tid: Id, rid: Id, text: string, password: string, now: Time): (r: Step)
    ensures tid !in Threads(s, board) ==> r == Step(Text(NoSuchThread), s)
    ensures tid in Threads(s, board) ==>
      var t := Threads(s, board)[tid];
      && r.response == Redirect("/b/" + board + "/" + tid)
      && Frame(s, r.store, board, tid)
      && tid in Threads(r.store, board)
      && var t' := Threads(r.store, board)[tid];
         && t'.replies == t.replies + [NewReply(rid, text, password, now)]
         && t'.bumpedOn == now
         && t'.(bumpedOn := t.bumpedOn, replies := t.replies) == t
  {
    var ts := Threads(s, board);
    if tid !in ts then Step(Text(NoSuchThread), s)
    else
      var t := ts[tid];
      var t' := t.(replies := t.replies + [NewReply(rid, text, password, now)], bumpedOn := now);
      assert |t'.replies| != |t.replies|;
      Commit(s, Put(s, board, tid, t'), Redirect("/b/" + board + "/" + tid), ReplyFailed)
  }

  /** The thread `t` with its reply at position `i` replaced. */
  function SetReply(t: Thread, i: nat, reply: Reply): (t': Thread)
    requires i < |t.replies|
    ensures |t'.replies| == |t.replies| && t'.replies[i] == reply
    ensures forall j :: 0 <= j < |t.replies| && j != i ==> t'.replies[j] == t.replies[j]
    ensures t'.(replies := t.replies) == t
  {
    t.(replies := t.replies[i := reply])
  }

  /** PUT /api/replies/:board: flag the first reply with id `rid`. */
  function ReportReply(s: Store, board: string, tid: Id, rid: Id): (r: Step)
    ensures tid !in Threads(s, board) ==> r == Step(NotFound, s)
    ensures tid in Threads(s, board) && FindReply(Threads(s, board)[tid].replies, rid).None? ==>
      r == Step(Text(InvalidReplyIds), s)
    ensures tid in Threads(s, board) && FindReply(Threads(s, board)[tid].replies, rid).Some? ==>
      var t := Threads(s, board)[tid];
      var i := FindReply(t.replies, rid).value;
      && (t.replies[i].reported ==> r == Step(Text(ReportFailed), s))
      && (!t.replies[i].reported ==> r.response == Text(ReplyReported))
    ensures r.response == Text(ReplyReported) ==>
      && tid in Threads(s, board)
      && var t := Threads(s, board)[tid];
         && FindReply(t.replies, rid).Some?
         && var i := FindReply(t.replies, rid).value;
            && !t.replies[i].reported
            && Frame(s, r.store, board, tid)
            && tid in Threads(r.store, board)
            && Threads(r.store, board)[tid] == SetReply(t, i, t.replies[i].(reported := true))
    ensures r.response != Text(ReplyReported) ==> r.store == s
  {
    var ts := Threads(s, board);
    if tid !in ts then Step(NotFound, s)
    else
      var t := ts[tid];
      match FindReply(t.replies, rid)
      case None => Step(Text(InvalidReplyIds), s)
      case Some(i) =>
        var t' := SetReply(t, i, t.replies[i].(reported := true));
        PutUnchanged(s, board, tid, t');
        Commit(s, Put(s, board, tid, t'), Text(ReplyReported), ReportFailed)
  }

  /** DELETE /api/replies/:board: check the password against the reply's own
      credential, then replace its text with the deletion sentinel, keeping
      the reply in place. */
  function DeleteReply(s: Store, board: string, tid: Id, rid: Id, password: string): (r: Step)
    ensures tid !in Threads(s, board) ==> r == Step(NotFound, s)
    ensures tid in Threads(s, board) && FindReply(Threads(s, board)[tid].replies, rid).None? ==>
      r == Step(Text(NoSuchReply), s)
    ensures tid in Threads(s, board) && FindReply(Threads(s, board)[tid].replies, rid).Some? ==>
      var t := Threads(s, board)[tid];
      var i := FindReply(t.replies, rid).value;
      && (!Verify(password, t.replies[i].deletePassword) ==> r == Step(Text(WrongPassword), s))
      && (Verify(password, t.replies[i].deletePassword) && t.replies[i].text == Deleted ==>
            r == Step(Text(DeleteFailed), s))
      && (r.response == Text(DeleteSucceeded) <==>
            Verify(password, t.replies[i].deletePassword) && t.replies[i].text != Deleted)
      && (r.response == Text(DeleteSucceeded) ==>
            && Frame(s, r.store, board, tid)
            && tid in Threads(r.store, board)
            && Threads(r.store, board)[tid] == SetReply(t, i, t.replies[i].(text := Deleted)))
    ensures r.response != Text(DeleteSucceeded) ==> r.store == s
  {
    var ts := Threads(s, board);
    if tid !in ts then Step(NotFound, s)
    else
      var t := ts[tid];
      match FindReply(t.replies, rid)
      case None => Step(Text(NoSuchReply), s)
      case Some(i) =>
        if !Verify(password, t.replies[i].deletePassword) then Step(Text(WrongPassword), s)
        else
          var t' := SetReply(t, i, t.replies[i].(text := Deleted));
          PutUnchanged(s, board, tid, t');
          Commit(s, Put(s, board, tid, t'), Text(DeleteSucceeded), DeleteFailed)
  }
}
