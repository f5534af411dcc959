/** The store invariant: what every reachable store satisfies, and the proof
    that each handler keeps it. */
module Invariants {
  import opened Credentials
  import opened Entities
  import opened Board

  /** Timestamps of a thread are consistent: it was bumped no earlier than
      created, its replies arrived in order between the two, and no two of
      its replies share an id. */
  ghost predicate ValidThread(t: Thread) {
    && t.createdOn <= t.bumpedOn
    && UniqueReplyIds(t.replies)
    && (forall i :: 0 <= i < |t.replies| ==>
          t.createdOn <= t.replies[i].createdOn <= t.bumpedOn)
    && (forall i, j :: 0 <= i < j < |t.replies| ==>
          t.replies[i].createdOn <= t.replies[j].createdOn)
  }

  /** Only listed boards hold threads, and every thread is consistent. */
  ghost predicate Valid(s: Store) {
    && (forall b :: b in s ==> IsBoard(b))
    && (forall b, k :: b in s && k in s[b] ==> ValidThread(s[b][k]))
  }

  /** The clock reads no earlier than any bump recorded in the store. */
  ghost predicate ClockNotBefore(s: Store, now: Time) {
    forall b, k :: b in s && k in s[b] ==> s[b][k].bumpedOn <= now
  }

  /** `rid` is not the id of any reply of thread `tid`. */
  ghost predicate FreshReplyId(s: Store, board: string, tid: Id, rid: Id) {
    tid in Threads(s, board) ==>
      forall i :: 0 <= i < |Threads(s, board)[tid].replies| ==> Threads(s, board)[tid].replies[i].id != rid
  }

  /** Writing a consistent thread to a listed board keeps the invariant. */
  lemma ValidPut(s: Store, board: string, id: Id, t: Thread)
    requires Valid(s) && IsBoard(board) && ValidThread(t)
    ensures Valid(Put(s, board, id, t))
  {
  }

  /** Only a listed board can hold threads, so the handlers that skip the
      board check find nothing on any other name. */
  lemma UnlistedBoardIsEmpty(s: Store, board: string)
    requires Valid(s) && !IsBoard(board)
    ensures Threads(s, board) == map[]
  {
  }

  lemma CreatePreservesValid(s: Store, board: string, id: Id, text: string, password: string, now: Time)
    requires Valid(s) && id !in Threads(s, board)
    ensures Valid(CreateThread(s, board, id, text, password, now).store)
  {
  }

  lemma ReportThreadPreservesValid(s: Store, board: string, id: Id)
    requires Valid(s)
    ensures Valid(ReportThread(s, board, id).store)
  {
  }

  lemma DeleteThreadPreservesValid(s: Store, board: string, id: Id, password: string)
    requires Valid(s)
    ensures Valid(DeleteThread(s, board, id, password).store)
  {
  }

  /** Appending keeps the invariant when the clock has not gone backwards
      and the new reply id is unused in the thread. */
  lemma AppendPreservesValid(s: Store, board: string, tid: Id, rid: Id, text: string, password: string, now: Time)
    requires Valid(s) && ClockNotBefore(s, now) && FreshReplyId(s, board, tid, rid)
    ensures Valid(AppendReply(s, board, tid, rid, text, password, now).store)
  {
    if tid in Threads(s, board) {
      var t := Threads(s, board)[tid];
      var t' := t.(replies := t.replies + [NewReply(rid, text, password, now)], bumpedOn := now);
      assert ValidThread(t');
      ValidPut(s, board, tid, t');
    }
  }

  /** Reporting and redacting change a reply in place, never its id or
      creation time, so they keep the invariant. */
  lemma ReportReplyPreservesValid(s: Store, board: string, tid: Id, rid: Id)
    requires Valid(s)
    ensures Valid(ReportReply(s, board, tid, rid).store)
  {
  }

  lemma DeleteReplyPreservesValid(s: Store, board: string, tid: Id, rid: Id, password: string)
    requires Valid(s)
    ensures Valid(DeleteReply(s, board, tid, rid, password).store)
  {
  }
}
