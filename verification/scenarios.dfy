/** Properties relating several handler calls: listing after posting,
    repeated appends, redaction and reporting twice, and the independence of
    thread and reply credentials. */
module Scenarios {
  import opened Credentials
  import opened Entities
  import opened Projection
  import opened Listing
  import opened Board

  /** The reply lookup sees only ids, so changing anything else about the
      replies does not move it. */
  lemma FindReplySameIds(a: seq<Reply>, b: seq<Reply>, rid: Id)
    requires |a| == |b|
    requires forall i :: 0 <= i < |a| ==> a[i].id == b[i].id
    ensures FindReply(a, rid) == FindReply(b, rid)
  {
  }

  /** A thread just posted on a board where every other thread was bumped
      earlier comes first in any answer to the list query, shown with no
      replies and a reply count of zero. */
  lemma CreatedThreadListedFirst(s: Store, board: string, id: Id, text: string, password: string, now: Time, ids: seq<Id>)
    requires IsBoard(board) && id !in Threads(s, board)
    requires forall k :: k in Threads(s, board) ==> Threads(s, board)[k].bumpedOn < now
    requires IsListing(Threads(CreateThread(s, board, id, text, password, now).store, board), ids)
    ensures |ids| > 0 && ids[0] == id
    ensures var shown := Summaries(Threads(CreateThread(s, board, id, text, password, now).store, board), ids)[0];
      shown.id == id && shown.text == text && shown.replyCount == 0 && shown.replies == []
  {
  }

  /** Deleting a reply, once allowed, redacts it for readers of the thread
      view, at its position and without changing the reply count. */
  lemma DeleteReplyShowsSentinel(s: Store, board: string, tid: Id, rid: Id, password: string)
    requires DeleteReply(s, board, tid, rid, password).response == Text(DeleteSucceeded)
    ensures tid in Threads(s, board)
    ensures var t := Threads(s, board)[tid];
      var v := GetThread(DeleteReply(s, board, tid, rid, password).store, board, tid);
      && v.ThreadView?
      && |v.thread.replies| == |t.replies|
      && FindReply(t.replies, rid).Some?
      && var i := FindReply(t.replies, rid).value;
         && v.thread.replies[i] == PublicReply(rid, Deleted, t.replies[i].createdOn)
         && forall j :: 0 <= j < |t.replies| && j != i ==> v.thread.replies[j].text == t.replies[j].text
  {
  }

  /** Posting a reply with a fresh id and deleting it with the same password
      succeeds and leaves the sentinel as the thread's last reply. */
  lemma ReplyThenRedact(s: Store, board: string, tid: Id, rid: Id, text: string, password: string, now: Time)
    requires tid in Threads(s, board)
    requires forall i :: 0 <= i < |Threads(s, board)[tid].replies| ==> Threads(s, board)[tid].replies[i].id != rid
    requires text != Deleted
    ensures var s1 := AppendReply(s, board, tid, rid, text, password, now).store;
      var r := DeleteReply(s1, board, tid, rid, password);
      var v := GetThread(r.store, board, tid);
      && r.response == Text(DeleteSucceeded)
      && v.ThreadView?
      && |v.thread.replies| == |Threads(s, board)[tid].replies| + 1
      && v.thread.replies[|v.thread.replies| - 1] == PublicReply(rid, Deleted, now)
  {
    var s1 := AppendReply(s, board, tid, rid, text, password, now).store;
    var rs := Threads(s1, board)[tid].replies;
    var n := |Threads(s, board)[tid].replies|;
    assert rs[n].id == rid;
    assert FindReply(rs, rid) == Some(n);
    DeleteReplyShowsSentinel(s1, board, tid, rid, password);
  }

  /** The thread's delete password does not unlock a reply created with a
      different one: the delete is refused and nothing changes. */
  lemma ThreadPasswordDoesNotDeleteReply(s: Store, board: string, id: Id, rid: Id, text: string, replyText: string,
                                         threadPassword: string, replyPassword: string, t0: Time, t1: Time)
    requires IsBoard(board) && id !in Threads(s, board)
    requires threadPassword != replyPassword
    ensures var s1 := CreateThread(s, board, id, text, threadPassword, t0).store;
      var s2 := AppendReply(s1, board, id, rid, replyText, replyPassword, t1).store;
      && DeleteReply(s2, board, id, rid, threadPassword) == Step(Text(WrongPassword), s2)
      && DeleteThread(s2, board, id, threadPassword).response == Text(DeleteSucceeded)
  {
  }

  /** Redaction is not idempotent as the handler is written: deleting an
      already deleted reply again writes nothing, so the count check fails
      and the handler answers with its deletion error. */
  lemma RedactTwiceFails(s: Store, board: string, tid: Id, rid: Id, password: string)
    requires DeleteReply(s, board, tid, rid, password).response == Text(DeleteSucceeded)
    ensures var s1 := DeleteReply(s, board, tid, rid, password).store;
      DeleteReply(s1, board, tid, rid, password) == Step(Text(DeleteFailed), s1)
  {
  }

  /** Reporting a reply twice: the second report writes nothing and is
      answered with the reporting error. */
  lemma ReportReplyTwiceFails(s: Store, board: string, tid: Id, rid: Id)
    requires ReportReply(s, board, tid, rid).response == Text(ReplyReported)
    ensures var s1 := ReportReply(s, board, tid, rid).store;
      ReportReply(s1, board, tid, rid) == Step(Text(ReportFailed), s1)
  {
  }

  /** Reporting a thread twice: the flag stays set and the second report is
      answered with the reporting error. */
  lemma ReportThreadTwiceFails(s: Store, board: string, id: Id)
    requires ReportThread(s, board, id).response == Text(ThreadReported)
    ensures var s1 := ReportThread(s, board, id).store;
      ReportThread(s1, board, id) == Step(Text(ReportFailed), s1)
  {
  }

  /** One reply request: its fresh id, its text and password, and the clock
      reading when it is handled. */
  datatype ReplyPost = ReplyPost(id: Id, text: string, password: string, at: Time)

  /** The store after handling the reply posts to one thread in order. */
  function AppendAll(s: Store, board: string, tid: Id, posts: seq<ReplyPost>): (r: Store)
    decreases |posts|
  {
    if |posts| == 0 then s
    else
      var p := posts[0];
      AppendAll(AppendReply(s, board, tid, p.id, p.text, p.password, p.at).store, board, tid, posts[1..])
  }

  lemma FrameTrans(s0: Store, s1: Store, s2: Store, board: string, id: Id)
    requires Frame(s0, s1, board, id) && Frame(s1, s2, board, id)
    ensures Frame(s0, s2, board, id)
  {
  }

  /** A run of replies to one thread with a clock that never goes backwards:
      the replies land at the end in request order, the earlier replies and
      every other thread are untouched, and the bump time never decreases,
      ending at the last request's time. */
  lemma {:induction false} AppendAllBumps(s: Store, board: string, tid: Id, posts: seq<ReplyPost>)
    requires tid in Threads(s, board)
    requires forall i :: 0 <= i < |posts| ==> Threads(s, board)[tid].bumpedOn <= posts[i].at
    requires forall i, j :: 0 <= i < j < |posts| ==> posts[i].at <= posts[j].at
    ensures var s' := AppendAll(s, board, tid, posts);
      && Frame(s, s', board, tid)
      && tid in Threads(s', board)
      && var t := Threads(s, board)[tid];
         var t' := Threads(s', board)[tid];
         && |t'.replies| == |t.replies| + |posts|
         && t'.replies[..|t.replies|] == t.replies
         && (forall i :: 0 <= i < |posts| ==>
               t'.replies[|t.replies| + i] == NewReply(posts[i].id, posts[i].text, posts[i].password, posts[i].at))
         && t.bumpedOn <= t'.bumpedOn
         && (|posts| > 0 ==> t'.bumpedOn == posts[|posts| - 1].at)
         && t'.createdOn == t.createdOn && t'.text == t.text
         && t'.reported == t.reported && t'.deletePassword == t.deletePassword
    decreases |posts|
  {
    if |posts| > 0 {
      var p := posts[0];
      var s1 := AppendReply(s, board, tid, p.id, p.text, p.password, p.at).store;
      var t := Threads(s, board)[tid];
      var t1 := Threads(s1, board)[tid];
      AppendAllBumps(s1, board, tid, posts[1..]);
      var s' := AppendAll(s1, board, tid, posts[1..]);
      FrameTrans(s, s1, s', board, tid);
      var t' := Threads(s', board)[tid];
      assert t'.replies[..|t1.replies|] == t1.replies;
      assert t'.replies[..|t.replies|] == t1.replies[..|t.replies|];
      forall i | 0 <= i < |posts|
        ensures t'.replies[|t.replies| + i] == NewReply(posts[i].id, posts[i].text, posts[i].password, posts[i].at)
      {
        if i > 0 {
          assert posts[1..][i - 1] == posts[i];
        }
      }
      if |posts| > 1 {
        assert posts[1..][|posts| - 2] == posts[|posts| - 1];
      }
    }
  }
}
