/** The client-visible shapes of a thread: the summary shown in the thread
    list and the full view shown on a thread's own page. */
module Projection {
  import opened Credentials
  import opened Entities

  /** How many of the latest replies a summary shows. */
  const ShownReplies: nat := 3

  /** A thread as the list view returns it: the stored document without its
      top-level `reported` flag and delete password, plus a reply count. The
      projection is top-level only, so the replies it shows are the stored
      records, their own credentials and flags included. */
  datatype Summary = Summary(
    id: Id,
    text: string,
    createdOn: Time,
    bumpedOn: Time,
    replies: seq<Reply>,
    replyCount: nat)

  /** A reply as the thread view returns it. */
  datatype PublicReply = PublicReply(id: Id, text: string, createdOn: Time)

  /** A thread as the thread view returns it: only the replies are stripped;
      the thread keeps its own `reported` flag and delete password. */
  datatype Detail = Detail(
    id: Id,
    text: string,
    createdOn: Time,
    bumpedOn: Time,
    reported: bool,
    deletePassword: Cred,
    replies: seq<PublicReply>)

  /** The replies JavaScript's `slice(-3)` keeps: the last three, or all of
      them when there are fewer. */
  function LastReplies(replies: seq<Reply>): (r: seq<Reply>)
    ensures |r| == Min(|replies|, ShownReplies)
    ensures replies == replies[..|replies| - |r|] + r
  {
    if |replies| <= ShownReplies then replies else replies[|replies| - ShownReplies..]
  }

  function Summarize(id: Id, t: Thread): (r: Summary)
    ensures r.id == id && r.text == t.text
    ensures r.createdOn == t.createdOn && r.bumpedOn == t.bumpedOn
    ensures r.replyCount == |t.replies|
    ensures |r.replies| == Min(|t.replies|, ShownReplies)
    ensures t.replies == t.replies[..|t.replies| - |r.replies|] + r.replies
  {
    Summary(id, t.text, t.createdOn, t.bumpedOn, LastReplies(t.replies), |t.replies|)
  }

  function StripReply(reply: Reply): (r: PublicReply) {
    PublicReply(reply.id, reply.text, reply.createdOn)
  }

  /** Every reply with its credential and flag removed, in stored order. */
  function StripReplies(replies: seq<Reply>): (r: seq<PublicReply>)
    ensures |r| == |replies|
    ensures forall i :: 0 <= i < |r| ==>
      r[i].id == replies[i].id && r[i].text == replies[i].text && r[i].createdOn == replies[i].createdOn
  {
    if |replies| == 0 then [] else [StripReply(replies[0])] + StripReplies(replies[1..])
  }

  function DetailOf(id: Id, t: Thread): (r: Detail)
    ensures r.id == id && r.text == t.text && r.createdOn == t.createdOn && r.bumpedOn == t.bumpedOn
    ensures r.reported == t.reported && r.deletePassword == t.deletePassword
    ensures |r.replies| == |t.replies|
    ensures forall i :: 0 <= i < |r.replies| ==>
      r.replies[i] == PublicReply(t.replies[i].id, t.replies[i].text, t.replies[i].createdOn)
  {
    Detail(id, t.text, t.createdOn, t.bumpedOn, t.reported, t.deletePassword, StripReplies(t.replies))
  }
}
