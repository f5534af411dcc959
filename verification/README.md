# Anonymous message board: thread and reply store

A Dafny model of the message-board API in `routes/api.js`. Boards hold
threads, and each thread holds an ordered list of replies. Eight route handlers
create, list, report and delete threads, and post, view, report and redact
replies.
Every handler is modelled as one atomic transition on a store value. The six
writing handlers return a `Step`: the response sent to the client and the new
store. The two reading handlers, `ListThreads` and `GetThread`, return only a
`Response` and leave the store as it is.

- `credentials.dfy`: module `Credentials`. A delete-password hash is abstracted to `Cred(pw)`, and `Verify(p, c)` holds exactly when `c == Cred(p)`.
- `entities.dfy`: module `Entities`. Holds the `Thread` and `Reply` documents, the fixed board list, the `"[deleted]"` sentinel, the two constructors, and the reply lookup by id, which mirrors JavaScript's `findIndex`.
- `projection.dfy`: module `Projection`. Holds the summary shown in the thread list and the detail shown on a thread's page.
- `listing.dfy`: module `Listing`. The sort-by-bump-time, limit-ten query, as a method with loop invariants and a declarative specification `IsListing`.
- `board.dfy`: module `Board`. The store, the responses with the source's exact messages, and the eight handlers.
- `invariants.dfy`: module `Invariants`. The store invariant and the proof that every handler preserves it.
- `scenarios.dfy`: module `Scenarios`. Properties that span several calls.

The store is `map<board name, map<thread id, Thread>>`. A board that has never
been written to is an empty collection. The thread id is the key the thread is
stored under, as Mongo's `_id` is.

The clock is a `nat` parameter. Fresh thread and reply ids are parameters too.
Creating a thread requires the id to be unused on the board. The invariant
lemma for appends requires the reply id to be unused in the thread and the
clock not to run backwards.

Each write's inserted, modified or deleted count is checked against 1. The
model reads that check as "the new store differs from the old one". A write
that changes nothing therefore takes the handler's error branch, as a no-op
`$set` does against the real store.

Some behaviours of the code are worth stating plainly, because a reader might expect otherwise:

- Redaction is not idempotent. Deleting an already redacted reply writes nothing, so it answers "Sorry, an error occurred during deletion. Please try again." (`Scenarios.RedactTwiceFails`). The same holds for reporting a thread or a reply twice.
- Credential hashes do reach clients. The thread list strips only the thread's top-level `delete_password` and `reported`, so the replies it shows keep their own hash and flag (`Projection.Summary`). The thread view strips the replies but keeps the thread's own hash and `reported` flag (`Projection.Detail`).
- Only the thread list and thread creation check the board name against the fixed list. The other handlers accept any name. Under `Invariants.Valid`, only listed boards hold threads, so an unlisted name finds no thread.
- Four handlers read a missing thread's fields. Deleting a thread (`routes/api.js:168`) and deleting a reply (`routes/api.js:282`) never test for a missing thread at all. Viewing a thread (`routes/api.js:200`) and reporting a reply (`routes/api.js:254`) test for it only after reading its fields. In all four, the resulting exception is caught and logged, and no response is sent. The model answers `NotFound` for this "no response" case and leaves the store unchanged.

## Model

| member | source | states |
|---|---|---|
| Credentials.Hash | routes/api.js:121-122 | the stored credential verifies the password it was derived from and no other |
| Entities.NewThread | routes/api.js:51-60 | a new thread has no replies and is not reported; it is created and bumped at the same instant, and its credential verifies exactly the given password |
| Entities.NewReply | routes/api.js:71-79 | a new reply carries the given id and text, is not reported, is stamped with the current time, and its credential verifies exactly the given password |
| Entities.FindReply | routes/api.js:254 | the result is the first position holding the id; none means no reply has that id |
| Entities.FindReplyUnique | routes/api.js:282 | when reply ids are unique, the lookup returns exactly the position of the reply that carries the id |
| Projection.LastReplies | routes/api.js:102 | keeps min(k, 3) replies, and they are the suffix of the stored replies in stored order |
| Projection.Summarize | routes/api.js:93-104 | the reply count is the full number of replies; the shown replies are the last min(k, 3) stored records in order; there are no top-level credential or reported fields |
| Projection.StripReplies | routes/api.js:200-203 | every reply keeps only its id, text and creation time, with none dropped or reordered |
| Projection.DetailOf | routes/api.js:199-211 | the thread view shows every reply as (id, text, created_on) in stored order; the thread's own fields, its hash and flag included, are kept |
| Listing.MostRecentExists | routes/api.js:94 | every non-empty set of threads has one bumped no earlier than all the others |
| Listing.SelectRecent | routes/api.js:93-95 | returns min(10, n) distinct threads of the board, latest bump first, and no thread left out was bumped later than the last one shown |
| Board.Commit | routes/api.js:149-157 | models every count check (also api.js:126, 174, 238, 264, 298): the written state is always the resulting store, and the handler answers success exactly when the write changed something, its error message otherwise |
| Board.ListThreads | routes/api.js:85-110 | an unlisted board gets "Board requested is invalid."; otherwise the result is at most 10 summaries forming a valid listing of that board |
| Board.CreateThread | routes/api.js:111-136 | an unlisted board gets "Board entered is invalid." and no change; otherwise exactly one thread is added (a fresh new thread), no other thread changes, and the client is redirected to the board |
| Board.ReportThread | routes/api.js:137-160 | an unknown id gets the invalid-id message with no change; an already reported thread gets the reporting error with no change; otherwise only that thread's flag is set |
| Board.DeleteThread | routes/api.js:161-189 | an unknown id changes nothing; success happens iff the password verifies against the thread's own credential, and it removes exactly that thread; a wrong password changes nothing and gets "Incorrect password supplied for deletion." |
| Board.GetThread | routes/api.js:194-216 | an unknown id gets no view; otherwise the view carries the thread's own text, timestamps, `reported` flag and hash as stored, and its replies complete, in order, reduced to id, text and creation time |
| Board.AppendReply | routes/api.js:217-247 | an unknown thread gets "Thread does not exist..." with no change; otherwise the new reply is appended last, unreported, the thread is bumped to now, its other fields and all other threads are unchanged, and the redirect always happens |
| Board.ReportReply | routes/api.js:248-274 | an unknown thread or reply changes nothing; a found, unreported reply is reported with "Reply has been reported."; an already reported one gets the reporting error with no change; success flags exactly the first reply with that id, leaving order, length, texts and other threads unchanged |
| Board.DeleteReply | routes/api.js:275-313 | the reply's own credential gates the delete; success happens iff that password verifies and the text is not already the sentinel; the right password on a reply already reading "[deleted]" gets the deletion error with no change; success replaces only that reply's text with "[deleted]", keeping its id, position and the reply count; every other outcome changes nothing |
| Invariants.UnlistedBoardIsEmpty | routes/api.js:115-125 | since only the board-checked create inserts threads, an unlisted board holds none |
| Invariants.CreatePreservesValid | routes/api.js:121-125 | creating a thread keeps the store invariant: timestamps ordered, reply ids unique, only listed boards |
| Invariants.ReportThreadPreservesValid | routes/api.js:149 | reporting a thread keeps the store invariant |
| Invariants.DeleteThreadPreservesValid | routes/api.js:173 | deleting a thread keeps the store invariant |
| Invariants.AppendPreservesValid | routes/api.js:225-236 | with a clock that does not run backwards and a fresh reply id, appending keeps bumped_on no earlier than created_on, replies in time order, and reply ids unique |
| Invariants.ReportReplyPreservesValid | routes/api.js:260-262 | reporting a reply keeps the store invariant |
| Invariants.DeleteReplyPreservesValid | routes/api.js:294-297 | redacting a reply keeps the store invariant |
| Scenarios.FindReplySameIds | routes/api.js:282 | the reply lookup depends on reply ids only |
| Scenarios.CreatedThreadListedFirst | routes/api.js:93-104 | a thread just posted when every other thread was bumped earlier is first in every valid listing, with replycount 0 and no replies shown |
| Scenarios.DeleteReplyShowsSentinel | routes/api.js:294-297 | after a successful reply delete, the thread view shows "[deleted]" at the same position with the same id; the reply count and all other texts are unchanged |
| Scenarios.ReplyThenRedact | routes/api.js:227-236 | posting a fresh reply and deleting it with its password succeeds; the thread's last reply then reads "[deleted]" and the count has grown by one |
| Scenarios.ThreadPasswordDoesNotDeleteReply | routes/api.js:289-291 | a thread's password does not delete a reply created with a different one (refused, no change), though it does delete the thread |
| Scenarios.RedactTwiceFails | routes/api.js:294-305 | redacting an already redacted reply writes nothing and answers the deletion error |
| Scenarios.ReportReplyTwiceFails | routes/api.js:260-266 | a second report of the same reply writes nothing and answers the reporting error |
| Scenarios.ReportThreadTwiceFails | routes/api.js:149-152 | a second report of the same thread writes nothing and answers the reporting error |
| Scenarios.AppendAllBumps | routes/api.js:234-236 | over any run of replies with a non-decreasing clock, replies land at the end in order and earlier replies and other threads are untouched; bumped_on never decreases and ends at the last reply's time |

## Left out

- The storage connection and its lifecycle, and the catch-all error logging (`routes/api.js:14-28`). Storage is a value; the one observable effect of the catch, no response, is the `NotFound` response.
- bcrypt salt generation, cost rounds and the hash algorithm (`routes/api.js:8-9`, `121-122`, `223-224`, `170`, `291`). These are a foreign library, replaced by `Cred`/`Verify`, which treats the hash as collision-free. bcrypt is not: it uses only the first 72 bytes of a password, so two passwords sharing a 72-byte prefix verify against each other. `Credentials.Hash` ("and no other") and `Scenarios.ThreadPasswordDoesNotDeleteReply` hold only under this abstraction.
- Wall-clock reads (`routes/api.js:54-55`, `75`, `235`). The clock is a parameter. The thread constructor's two separate `new Date()` calls become one reading. The reply's creation time and the bump it causes also share one reading.
- Express routing, form parsing, and the regular expression that takes the board name from the URL (`routes/api.js:114`, `141`, `164`, `220`, `251`, `278`). Also left out: `console.log`, and the redirect itself beyond its target path.
- Malformed id strings, which make the `ObjectId` constructor throw, and a missing `delete_password`, which makes bcrypt throw (`routes/api.js:122`, `224`). A missing `text` is not rejected: the constructors store it undefined (`routes/api.js:53`, `74`), and the thread or reply is created and the client redirected. The model's ids, passwords and texts are always strings, so a post without text is not modelled.
- The normalisation the `ObjectId` constructor applies to request ids (`routes/api.js:143`, `167`, `199`, `227`, `254`, `282`). It accepts upper-case hex and 12-character strings and converts them to one canonical form. The model compares ids as given, so request ids are taken to be already in canonical lower-case hex form. An id the source would normalise and find is not modelled.
- Storage failures other than a write that changes nothing. Under atomic transitions, the insert, delete and append writes always change the store. Their error branches are kept in the handlers but are provably never taken.
- The lost-update race between the fetch and the `$set` of `replies` (`routes/api.js:236`, `262`, `297`). Each handler is one atomic transition.
- Board.ListThreads: threads bumped at the same instant may be listed in any order, as the store's sort leaves them; `IsListing` admits every such order rather than fixing one.
