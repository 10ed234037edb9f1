# Verification of fmsg-webapi

A Dafny model of fmsg-webapi, the HTTP API over an fmsg host's message store,
with proofs about every run of it. `dafny verify dfyconfig.toml` checks it.

## What is modelled

**The message store.** `Store.dfy` holds the tables as values: messages with
parent, draft or sent state, terminal flag, sender, recipients, add-to batches
and notifications, stored parts; and the per-address trash rows. `Walks.dfy` has
the recursive queries over `pid`, up and down, both stopping at 1000.
`Trash.dfy` has where a message stands for an address and what trashing,
restoring and deleting for good write; `Removal.dfy` what then leaves the host.
`Operations.dfy` says of every mutating request what it asks of the database,
which files it creates and what it leaves for after the commit; `Host.dfy` turns
that into a state machine over the database, the files on disk and fmsgid's
totals, with every way a commit can end, and with what fmsgd does beside it:
receiving messages and recording outcomes of deliveries.

**The handlers as they run.** `Handlers.dfy` has the request-local handler as a
class with its transaction, rollback list and commit hooks, and its loops;
`Transaction.dfy` the server, one request in one transaction, and local delivery.
Each method is proved to do what its step in the state machine says.

**Over all runs.** `Structure.dfy`: the links are a forest. `FileSafety.dfy` and
`Finality.dfy`: no row names a missing file, and deleting for good is final.
`Ledger.dfy` and `Accounting.dfy`: fmsgid's totals are what is still held, up to
drifts told beforehand. `Bystanders.dfy` and `ThreadsSeen.dfy`: what one identity's
trash changes of everybody else's lists and threads.

**Told from the rows.** `TrashLaws.dfy`, `RequestLaws.dfy` and `ChargeLaws.dfy` say
of each request, in terms of the rows, files and totals before and after it and
without the steps that do it: who may make it, what it writes, what stays, which
messages it keeps on the host, and what it charges or gives back.

**Around it.** `Threads.dfy` (the three thread roots and the thread count),
`Quota.dfy` (limits and the delivery loop), `Reactions.dfy`, `Emoji.dfy`,
`Utf8.dfy`, `Spans.dfy` (the generator's in-place merge), `Hub.dfy` (WebSocket
fan-out with bounded queues), `Throttle.dfy`, `Attachments.dfy`.

**Where the code and its documentation part.** `Witnesses.dfy` has a concrete
state for each of the first five, with a run from an empty host that reaches it
(`Writing.dfy`).

- README.md:836 says nothing in an identity's trash changes what anyone else
  sees. A purge that removes messages from the host does, in three ways: it takes
  a message from the list of a recipient that did not accept it
  (`Witnesses.PurgeTakesFromOthersList`); it takes away what a message that stays
  replied to, and with it the marks above, so that it comes back out of another's
  deleted thread (`Witnesses.PurgeCanUndoOthersThreadDelete`); and it shortens the
  thread shown for it (`Witnesses.PurgeCutsOthersThread`). Each has its exact
  condition, told from the state before the request: how a list has a message
  changes if and only if the request is a purge that will remove the listed
  message or cut it loose from a mark that decides (`Bystanders.TrashKeepsListsIff`);
  the thread shown if and only if the message is removed while there is an answer
  about it, or read purged and is let go of, or something within 100 links above
  it is removed
  (`ThreadsSeen.TrashKeepsThreadIff`); and of the replies to a message that stays,
  reactions among them, exactly those removed go (`Bystanders.PurgeKeepsReplies`).
- README.md:843 says that what replies to a message deleted for good is never
  listed again. A reply has no row of its own if it arrives later, and reads
  purged through the deleted message if and only if it is at most 1000 links below
  it (`Finality.BelowPurgedIff`); a deeper one is listed at once
  (`Witnesses.DeepReplyIsListed`). One that read purged reads otherwise after
  exactly those events, by whomever, that are a purge removing the first message
  on its walk to go while nothing nearer carries a purged row of that address
  (`Finality.EndsPurgedIff`, with `Witnesses.LateReplyComesBack`); and until then,
  over any run, it is in no list (`Finality.PurgedUntilLetGo`). What has a row of
  its own stays purged whatever happens (`Finality.PurgeIsFinal`).
- README.md:847 says a message is removed once nobody here holds it and nothing of
  it is pending. It is removed only by a purge that finds it so
  (`Finality.LeavesIff`): one still pending at its last holder's purge stays when it
  no longer is, and its last holder can purge it no more
  (`Witnesses.NobodyHoldsAndItStays`).
- fmsgid's totals drift from what is held by two kinds of event, each told by the
  request and the state before it (`Accounting.Drift`): a send, reaction or purge
  whose commit acknowledgement is lost is never posted, and adding a local
  recipient to a compressed received message records its stored size, where a
  purge releases the expanded one. Nothing else drifts (`Accounting.StepDrifts`),
  and over every run the drifts add up to the difference (`Accounting.UsageIs`).
- The indicator walk stops at depth 10000 and the push walk does not, so their
  roots differ for longer lineages (`Threads.IndicatorRootIsRoot`), which do come
  about (`Witnesses.RootsComeApart`).
- What effective reactions show for a reactor depends on the order of the rows if
  and only if rows that tie on time and hash at the top carry different emoji
  (`Reactions.ShownSettledIff`, `Reactions.ListingSettledIff`). Hashes can tie: they
  are nil until the host has computed them. Rows are loaded by time and id, so in
  that case the one with the lowest id is shown (`Reactions.LoadedTieKeepsLowestId`).
- The possible_emoji grammar of UTS #51, as the comment at
  internal/emoji/emoji.go:43-47 gives it, allows any modifier and any tags on any
  emoji, and a regional indicator alone. The recogniser takes modifiers only on
  bases that take one, tags only on the black flag, and no lone regional
  indicator (`Emoji.RefusedThoughPossible`); within the grammar and emoji
  presentation these are the only refusals (`Emoji.ReadableIff`).

**Assumptions.** Addresses are lower-cased and have one user and one domain. A
purge reads the clock once. A hash that a request refers to identifies one
message or batch. New files get names no file has. fmsgid calls made after an
acknowledged commit succeed, and sending a message with its local delivery is
one step. Finalization leaves a message's stored size as it was. fmsgd records a
received message for its local recipients at the size that a purge later reads
back (the comment at internal/handlers/trash.go:374-378).

## Model

| member | source | states |
|---|---|---|
| Walks.WalksAreConverse | internal/handlers/trash.go:105-134 | The downward query from a message finds exactly the messages whose upward trash-state walk visits it, at the same bound, whatever the links look like |
| Walks.UpWalkIs | dd.sql:94-108 | The upward query visits exactly the ancestors at distance at most the cap, the message itself included |
| Walks.DownWalkIs | internal/handlers/trash.go:109-113 | The downward query finds exactly the messages the given number of parent links or fewer below |
| Walks.NoCycle | internal/handlers/thread.go:22-23 | In a ranked store no number of parent links leads back to where it started |
| Walks.PutKeepsForest | internal/handlers/references.go:112-125 | Writing a new message, redrafting under a linkable parent, or keeping a sent message's links keeps parents linkable and links acyclic |
| Walks.DropKeepsForest | internal/handlers/trash.go:526-535 | Removing any messages and cutting their replies keeps the forest |
| Walks.LeavesHaveNoReplies | internal/handlers/messages.go:1872-1876 | A message that something replies to is sent and not terminal, so drafts and terminal messages are leaves |
| Structure.HandleKeepsGood | internal/handlers/messages.go:532-976 | Every request keeps the forest, trash rows only on sent messages of their address, and nothing in a draft delivered |
| Structure.StepKeepsGood | internal/handlers/transaction.go:80-134 | So does every step, however its commit ends, and everything fmsgd does |
| Structure.ReachableIsForest | internal/handlers/thread.go:22-23 | In every state reachable from an empty host no message is its own ancestor, and every parent is stored, sent and not terminal |
| RequestLaws.CommitEndings | internal/handlers/transaction.go:80-134 | A refused request changes nothing; a failed statement leaves nothing behind, a failed commit only the new files, a lost acknowledgement the rows and the new files, and an acknowledged commit also deletes the files left |
| RequestLaws.CreateStoresDraft | internal/handlers/messages.go:531-627 | Creating succeeds exactly with recipients, an allowed parent, no topic on a reply and data within the limit, and stores one draft with just those recipients, parent, flag and body under the next id |
| RequestLaws.UpdateRewritesDraft | internal/handlers/messages.go:776-896 | Updating succeeds exactly on an own draft, under the same conditions and within the message limit, and replaces its parent, flag, recipients and body; attachments and all other messages stay |
| RequestLaws.DeleteTakesDraft | internal/handlers/messages.go:926-976 | Deleting a draft succeeds exactly for its owner and takes its row and all its files, and nothing else |
| RequestLaws.UploadAttaches | internal/handlers/attachments.go:34-169 | Uploading succeeds exactly on an own draft within the attachment and message limits, and names that one file in it |
| RequestLaws.DeleteAttachmentDetaches | internal/handlers/attachments.go:249-321 | Deleting an attachment succeeds exactly for one of an own draft, and takes just it and its file |
| RequestLaws.DeliveredRows | internal/handlers/messages.go:130-175 | Local delivery touches exactly the listed rows without an outcome: one of a local address that is answered for has the answer, and is delivered exactly when that is 200 |
| RequestLaws.SendDelivers | internal/handlers/messages.go:981-1077 | Sending succeeds exactly on an own draft with recipients, and sets its time and its local recipients' and added recipients' outcomes, each delivered exactly with code 200; nothing else changes |
| RequestLaws.AddWritesBatch | internal/handlers/messages.go:1162-1352 | Adding succeeds exactly for the sender or a direct recipient of a message that takes more and adds nobody twice; it writes one batch, a row for each, and a notice to every other host of the sender or a direct recipient that has none of the added |
| RequestLaws.ReactIsGranted | internal/handlers/reactions.go:300-409 | Reacting succeeds exactly for a participant of a sent message that is not terminal nor purged for it and concerns somebody else, unless idle or not admitted |
| RequestLaws.ReactReplies | internal/handlers/reactions.go:411-473 | A reaction is stored as a sent terminal reply to exactly everybody else who sent, received, was added to or added to the subject |
| Trash.BelowMark | dd.sql:89-108 | Everything within reach below a message deleted for good reads purged, and below a thread mark at least thread, whenever it arrived |
| Trash.MarkAbove | dd.sql:101-107 | A message reads purged or thread only because such a row stands above it within reach |
| Trash.MarkPurgedCovers | internal/handlers/trash.go:314-346 | After marking, every message of the caller's subtree reads purged for the caller |
| Trash.RestoreThreadIsExact | internal/handlers/trash.go:226-235 | Once the caller's unpurged rows on the subtree are deleted, a message below its top is in the caller's trash exactly because it was purged or a thread mark stands strictly above the top within reach |
| Trash.ListModesPartition | internal/handlers/trash.go:63-77 | The include list is the disjoint union of the exclude and only lists, and no list shows what its address deleted for good |
| TrashLaws.StateIs | dd.sql:89-108 | Where a message stands for an address, told from its rows: purged if it or one of the 1000 messages above it has a purged row, else thread if one has a thread mark, else message if it has a row itself |
| TrashLaws.ListedIff | internal/handlers/trash.go:63-77 | A list has exactly the sent messages its address takes part in that are not purged; by default only those with no row and no thread mark above, with only just those with one or the other |
| TrashLaws.TrashWritesOneRow | internal/handlers/trash.go:146-201 | Trashing is granted exactly to who takes part in a sent message that does not read purged for it, and writes that one row: an earlier thread mark and first time stay, and every other row and message is as before |
| TrashLaws.TrashedIsInTrash | internal/handlers/trash.go:177-195 | A trashed message then reads thread exactly when asked to or when a mark on it or above says so and message otherwise, and is in the trash lists and not in the default one |
| TrashLaws.RestoreDeletesRows | internal/handlers/trash.go:203-250 | Restoring is granted likewise and deletes exactly the caller's rows that are not purged, on the message or on the sent messages of the caller's at most 1000 links below it |
| TrashLaws.RestoredThreadReads | internal/handlers/trash.go:226-246 | After a thread restore each message up to 1000 links below the top reads purged if it did, thread exactly when a mark above the top is within its reach, and otherwise not trashed |
| TrashLaws.RestoredReads | internal/handlers/trash.go:226-246 | After a single restore the message has no row of the caller's, and is listed again unless a thread mark strictly above it within reach keeps it in that thread |
| TrashLaws.PurgeIsGranted | internal/handlers/trash.go:146-176 | Deleting for good is granted exactly to who takes part in a sent message that does not read purged for it |
| TrashLaws.PurgeLeavesRows | internal/handlers/trash.go:314-346 | Every trash row after a purge, told from those before: the caller's on its thread are purged, earlier purges and first times and thread marks stay, and all other rows on surviving messages are as before |
| TrashLaws.StaysForRecipient | dd.sql:119-124 | Whatever the event, a message stays whose undelivered recipient row has no code or -1, 3, 5 or 101 and was sent less than the retry age before |
| TrashLaws.StaysForAdded | dd.sql:125-129 | And one with such a row of an added recipient, its batch added less than the retry age before |
| TrashLaws.StaysForNotice | dd.sql:130-135 | And one of whose batch a host is yet to be notified in that time |
| TrashLaws.StaysForHolder | internal/handlers/trash.go:485-502 | And one that another address here sent or accepted and has not deleted for good |
| TrashLaws.LeavesWhenNothingKeeps | internal/handlers/trash.go:348-366 | Conversely a committed purge removes every message of the caller's thread that none of these four keeps |
| TrashLaws.PurgeDeletesFiles | internal/handlers/trash.go:504-566 | An acknowledged purge deletes exactly the files that a message it removed named and no message left does |
| Removal.UnheldAfterDrop | internal/handlers/trash.go:485-502 | Whether a message is unheld does not depend on what else was removed before it |
| Removal.RemoveEachIsExact | internal/handlers/trash.go:348-366 | Removing one by one, in any order, removes exactly the listed messages nobody holds and nothing keeps pending, and schedules exactly the files a removed message used and no remaining row does |
| Removal.RemovalOrderIsIrrelevant | internal/handlers/trash.go:348-366 | Two listings of the same messages end in the same store and the same files |
| Removal.PendingOnlyLapses | dd.sql:110-136 | A message with no pending delivery does not get one by time passing |
| Removal.StateSurvivesRemoval | internal/handlers/trash.go:526-535 | A survivor below a removed message stands for an address as before if and only if no mark of that address at or above the first removed one outweighs what is below it; and it never comes to stand for more |
| Removal.StateSurvivesElsewhere | dd.sql:83-108 | Removing messages that are not on a message's walk changes nobody's state of it |
| Bystanders.PurgeRemoves | internal/handlers/trash.go:258-366 | What a purge will remove can be told before it: the caller's subtree messages that nobody else here holds and nothing keeps pending |
| Bystanders.PurgeKeepsStateIff | internal/handlers/trash.go:526-535 | A purge leaves where a surviving message stands for anybody else as it was if and only if it does not cut it loose from a mark that decides it; and it never trashes it further |
| Bystanders.PurgeEndsPurgedIff | internal/handlers/trash.go:258-312 | What read purged for anybody, the purging address too, reads otherwise after a purge if and only if the first message to leave its walk is within reach and nothing nearer will carry a purged row of that address |
| Bystanders.TrashKeepsListsIff | README.md:836 | Of every trash request and every message: somebody else's lists have it as before, at the same state or not at all, unless the request is a purge that removes it while it is listed or cuts it loose |
| Bystanders.PurgeKeepsParentIff | internal/handlers/trash.go:526-535 | A survivor keeps its parent if and only if that does not leave |
| Bystanders.PurgeKeepsReplies | internal/handlers/reactions.go:193-214 | Of the replies to a survivor, reactions among them, exactly those that leave go |
| ThreadsSeen.PurgeKeepsLineageIff | internal/handlers/thread.go:414-434 | A message's lineage is as before if and only if nothing on it leaves |
| ThreadsSeen.TrashKeepsThreadIff | README.md:836 | Of every trash request and every message: the thread answer somebody else gets is as before, entries and refusals included, unless the request is a purge that removes it while there is an answer, lets go of it, or removes something within 100 links above it |
| Witnesses.PurgeCanUndoOthersThreadDelete | internal/handlers/trash.go:15-24 | A concrete store in which one participant's purge takes a message out of another's deleted thread and into their list |
| Witnesses.ThreadIsReached | internal/handlers/messages.go:981-1077 | That store is what a run of creating, sending and trashing leads to |
| Witnesses.PurgeTakesFromOthersList | internal/handlers/trash.go:485-502 | A reached store in which a purge takes a message from the list of a recipient that had refused it |
| Witnesses.PurgeCutsOthersThread | internal/handlers/thread.go:414-434 | A reached store without any trash in which a purge shortens the thread another participant is shown |
| Witnesses.DeepReplyIsListed | dd.sql:94-108 | For every length beyond the walk's reach a run leads to a reply to a message deleted for good that is listed with nothing removed |
| Witnesses.NobodyHoldsAndItStays | README.md:847-850 | A reached store whose message nobody holds and nothing keeps pending any more, and which its sender can no longer delete |
| Witnesses.LateReplyComesBack | README.md:843-844 | A concrete store in which a reply that came after its message was deleted for good is back in the list once that message leaves the host |
| Witnesses.LateIsReached | internal/handlers/messages.go:981-1077 | That store is reached too |
| Finality.PurgeHidesSubtree | internal/handlers/trash.go:258-312 | After a purge every surviving message of the subtree has the caller's own purged row |
| Finality.ThreadDeleteHidesThread | internal/handlers/trash.go:177-195 | After a thread delete everything below the message reads thread or purged |
| Finality.PurgeIsFinal | internal/handlers/trash.go:226-235 | Over any further run, a message an address deleted for good stays purged for it and in no list until it leaves the host, and never returns |
| Finality.LeavesIff | internal/handlers/trash.go:477-502 | Of all events a sent message is removed by exactly those committed purges that find it in the caller's subtree, held by nobody else here and not pending |
| Finality.StaysWhileNotPurged | internal/handlers/trash.go:477-502 | So over every run without such a purge it stays stored, held or not |
| Finality.EndsPurgedIff | README.md:843-846 | Of all events, the address's own included, a stored message that read purged for it reads otherwise after exactly the committed purges that let go of it |
| Finality.PurgedUntilLetGo | README.md:843-846 | Over every run without such an event what reads purged is in no list |
| Finality.BelowPurgedIff | dd.sql:94-108 | A message reads purged exactly when one within reach of its walk has a purged row; a reply to one deleted for good does so through it if and only if it is at most 1000 links below |
| FileSafety.HandleIsSafe | internal/handlers/messages.go:855-895 | Whatever a handler leaves behind, every stored path has its file, a draft shares its files with nothing, and nothing scheduled for removal is still used |
| FileSafety.ConcludeIsSafe | internal/handlers/transaction.go:98-134 | However the commit ends no row loses its file; a rollback leaves files and rows as they were; a commit that failed keeps the new files |
| FileSafety.OrphansAreUnused | internal/handlers/trash.go:547-564 | No file collected by a purge is used by a remaining row |
| Finality.ReachableIsSafe | internal/handlers/transaction.go:80-134 | In every reachable state every body and attachment path names a file |
| Ledger.MarkMoves | internal/handlers/trash.go:314-346 | Marking messages purged takes exactly what is released off what the address holds |
| Ledger.UnheldCountsNothing | internal/handlers/trash.go:485-502 | What leaves the host counts for no local address |
| Ledger.PurgeMoves | internal/handlers/trash.go:258-312 | A purge takes off the caller's holdings what it releases and nothing off any other local address's |
| Ledger.DeliveryMoves | internal/handlers/messages.go:130-175 | Local delivery adds to a recipient's holdings one recorded size per delivery, unless the recipient had already deleted the message for good |
| Accounting.HandleMoves | internal/handlers/messages.go:1068-1076 | Every request changes what a local address holds by exactly what it leaves to be posted |
| Accounting.StepDrifts | internal/handlers/trash.go:374-405 | Every event moves an address's totals away from what it holds by exactly its drift, which is read off the event and the state before it |
| Accounting.StepConserves | internal/handlers/trash.go:374-405 | A step keeps an address's totals equal to its holdings if and only if the event does not drift for it |
| Accounting.UsageIs | internal/handlers/trash.go:314-405 | From an empty host, over every run, fmsgid's totals are the recorded sizes of what is sent or delivered, stored and not deleted for good, plus deliveries made after deleting for good, plus the drifts of the run's events |
| Accounting.UsageIsConserved | internal/handlers/trash.go:314-405 | Over every run without a drifting event the totals are exactly what is held plus what came late |
| ChargeLaws.DeliveryCharges | internal/handlers/messages.go:157-173 | An acknowledged send or reaction charges the stored size to its sender once, and it or an add charges it to each recipient once for each row it newly delivered, and to nobody else |
| ChargeLaws.PurgeReleases | internal/handlers/trash.go:374-445 | An acknowledged purge gives back to the caller, and to nobody else, the sizes its thread's messages not yet purged were recorded at: once as sent and once for each delivery |
| ChargeLaws.OthersChargeNothing | internal/handlers/transaction.go:98-134 | No other request, and none that is not acknowledged, changes a total |
| ChargeLaws.ReceiveStores | internal/handlers/trash.go:374-378 | A message from another host is stored with its files and counted at its expanded size for each local address it was delivered to |
| Witnesses.LostAcknowledgementDrifts | internal/handlers/transaction.go:113-122 | A concrete run whose lost acknowledgement of a send leaves the sender's total short by its size |
| Witnesses.CompressedAddToDrifts | internal/handlers/trash.go:407-444 | A concrete run that adds a recipient to a compressed received message and leaves a total the purge will not match |
| Handlers.MessageStoredSize | internal/handlers/quota.go:133-141 | The sum taken is the total of the parts' sizes |
| Handlers.Handler.TrashSubtree | internal/handlers/trash.go:105-134 | The rows are the subtree, each once, by falling greatest depth and then by falling id |
| Handlers.Handler.RecordedSizeOf | internal/handlers/trash.go:407-444 | The size read back, part by part, is the one quotas recorded: the stored size of what was sent from here, and of what was received the size on disk of each compressed part |
| Handlers.Handler.UsageOf | internal/handlers/trash.go:374-405 | The releases listed add up to what the message counted as sent and as received |
| Handlers.Handler.MarkEachPurged | internal/handlers/trash.go:314-346 | The loop leaves the rows of marking each in turn, counts the newly purged, and its releases add up |
| Handlers.MarkEachIs | internal/handlers/trash.go:318-346 | Marking in turn comes to marking the whole set at once |
| Handlers.GivenEachIs | internal/handlers/trash.go:340-345 | What is given back in turn comes to the total released for the set |
| Handlers.Handler.UnsharedFiles | internal/handlers/trash.go:547-564 | The files listed are those of the removed message's parts that no row uses |
| Handlers.Handler.RemoveIfUnheld | internal/handlers/trash.go:477-566 | The message goes exactly when unheld, with its rows, its trash and its replies' links, and its unshared files are listed |
| Handlers.Handler.RemoveEachUnheld | internal/handlers/trash.go:348-366 | The loop removes exactly the unheld ones, lists exactly the orphaned files and counts what it removed |
| Handlers.Handler.PurgeFrom | internal/handlers/trash.go:258-312 | The purge ends as its step says, with the file removals and the releases left for after the commit, tells the caller's connections of exactly its subtree, and reports how many it purged and removed |
| Handlers.Handler.TrashSentMessage | internal/handlers/trash.go:146-201 | Deleting a sent message ends as its step says, refusals included; the notifications are of what it moved, and the state reported is the one it then has |
| Handlers.Handler.RestoreMessage | internal/handlers/trash.go:203-250 | The handler ends as its step (TrashLaws.RestoreDeletesRows says which rows that deletes), notifies of those rows, and reports the state the message then has |
| Handlers.Handler.ResolveParent | internal/handlers/references.go:46-127 | A parent resolves exactly when stored, sent, not terminal, the caller's to reply to (through its own batch for added recipients) and not deleted for good |
| Handlers.Handler.CreateMessage | internal/handlers/messages.go:531-627 | A draft is stored with its parent, recipients and saved file, or nothing changes |
| Handlers.Handler.UpdateMessage | internal/handlers/messages.go:776-896 | Only an own draft is rewritten, within the size limits, its old file left for after the commit |
| Handlers.Handler.DeleteOwnDraft | internal/handlers/messages.go:926-976 | An own draft goes with every file of its parts |
| Handlers.Handler.DeleteMessage | internal/handlers/messages.go:898-925 | A draft is deleted and a sent message trashed or purged |
| Handlers.Handler.SendMessage | internal/handlers/messages.go:981-1077 | An own draft becomes sent, leaving its recording and local delivery for after the commit |
| Handlers.Handler.CheckAdd | internal/handlers/messages.go:1208-1258 | The checks pass exactly when the caller may add those recipients |
| Handlers.Handler.InsertBatch | internal/handlers/messages.go:1270-1318 | One batch, its recipients' rows and one notification per other host that has none of them |
| Handlers.Handler.AddRecipientsTo | internal/handlers/messages.go:1162-1352 | Adding recipients ends as its step says, with local delivery only for a sent message |
| Handlers.Handler.ReactTo | internal/handlers/reactions.go:300-473 | A reaction is a sent terminal reply to everybody else the subject concerns, or nothing changes |
| Handlers.Handler.UploadAttachment | internal/handlers/attachments.go:34-169 | A file too big is gone again, and otherwise the draft names it |
| Handlers.Handler.DeleteAttachmentOf | internal/handlers/attachments.go:249-321 | The draft no longer names the file, which is left for after the commit |
| Handlers.Handler.Exec | internal/handlers/transaction.go:36-78 | Wherever a handler runs a statement that may fail, what is registered for a rollback undoes all files it created |
| Attachments.ResolveFilePath | internal/handlers/attachments.go:323-338 | The name itself if no file has it, and otherwise the first of it with _1, _2 and so on before its extension that no file has, which always exists |
| Attachments.DecimalReads | internal/handlers/attachments.go:332-336 | The number put into a name is written in decimal digits without leading zeros and reads back as itself |
| Transaction.Server.ResolveLocalDelivery | internal/handlers/messages.go:114-175 | Each local row without an outcome gets its answer, once, and each delivery is recorded at the stored size |
| Transaction.DeliveriesAgree | internal/handlers/messages.go:1068-1076 | Resolving the two recipient tables one after the other comes to one delivery |
| Transaction.Server.RunCommitHooks | internal/handlers/transaction.go:121-124 | The registered functions, in order, do what the request left for after its commit |
| Transaction.Server.Abandon | internal/handlers/transaction.go:80-97 | A handler that stops at a statement, wherever, is undone: rows and files are as before |
| Transaction.Server.Atomic | internal/handlers/transaction.go:80-134 | A request served in one transaction changes the world as its step says, for every way its commit can end |
| Threads.ThreadIsExactOrRefused | internal/handlers/thread.go:384-511 | Not found when deleted for good or someone else's draft, forbidden when not the caller's to see; otherwise the whole lineage, root first, each message with its state or only its id when it may not be seen, marked complete exactly when all may; or too deep precisely when it is longer than 100 messages |
| Threads.ThreadAnswers | internal/handlers/thread.go:384-511 | Shown exactly to one of whose addresses wrote or received the message, at most 100 long and not purged; every message in order, with its state exactly when it too may be read and is not purged; complete exactly when none is hidden |
| Threads.LineageExists | internal/handlers/thread.go:381-383 | Every stored message has a path of parents from a root |
| Threads.PushRootIsRoot | internal/handlers/push.go:239-261 | The uncapped walk finds the first message of the lineage and nothing else |
| Threads.IndicatorRootIsRoot | internal/handlers/indicators.go:185-199 | The capped walk finds it if and only if the lineage is no longer than 10001 messages |
| Witnesses.RootsComeApart | internal/handlers/indicators.go:185-199 | For every length beyond that a run leads to a lineage on which the indicator walk misses the push walk's root |
| Threads.RootsAgree | internal/handlers/thread.go:511 | Whenever a thread is shown its root is the one both other walks find |
| Threads.JoinedIsSameHead | internal/handlers/count.go:10-15 | Two visible messages are connected through visible parents exactly when they climb to the same head |
| Threads.CountIsNumberOfClasses | internal/handlers/count.go:35-49 | The count is the number of groups that joining each visible message to its visible parent makes |
| Quota.ResolveLocalDelivery | internal/handlers/messages.go:130-175 | The loop does what resolving each recipient in turn does, asking fmsgid afresh for each |
| Quota.ResolveAllIsSafe | internal/handlers/messages.go:130-175 | However many recipients share it, a pool within its limits stays within them |
| Quota.RecordedIsDelivered | internal/handlers/messages.go:157-173 | A row with an outcome keeps it, and a pool is charged once for each of its addresses delivered |
| Quota.ResolveAllDelivers | internal/handlers/messages.go:130-175 | The rows the loop leaves are those of one local delivery with the answers it got |
| Quota.RunsStayWithinLimits | internal/handlers/quota.go:13-31 | No sequence of sends, of deliveries to added recipients and of lapses takes a pool over its limits |
| Quota.TurnDecidesRow | internal/handlers/quota.go:39-65 | A pending local row ends with 100 exactly when its address has no pool, 102 exactly when it has one and is not accepting, 101 exactly when it accepts and a receive limit would be passed at its turn, and otherwise, and only then, 200 and delivered |
| Quota.TurnCharges | internal/handlers/messages.go:130-175 | A turn charges one message of this size to the recipient's pool exactly when it delivers, and passes over rows that are not local, not answered for or resolved |
| Quota.OthersRowsStay | internal/handlers/messages.go:130-175 | Rows of addresses the loop is not given stay |
| Quota.SendDecides | internal/handlers/quota.go:75-123 | A send is allowed exactly to an accepting address with a pool none of whose four send limits it passes, and counts once |
| Quota.RefusedForFirst | internal/handlers/quota.go:75-95 | The refusal names the first limit passed, in the order per message, count, size per day, total |
| Reactions.NewerIsOrder | internal/handlers/reactions.go:131-138 | Superseding is a strict order, tied only on equal time and hash |
| Reactions.WinnerIsLatest | internal/handlers/reactions.go:146-156 | The row kept is one nothing of the reactor's supersedes, and the first such if it leads |
| Reactions.WinnerIgnoresOrder | internal/handlers/reactions.go:140-156 | Without a tie at the top the kept row is the same for every order of the rows |
| Reactions.HashAboveIs | internal/handlers/reactions.go:131-138 | One hash is above another exactly when it is greater where they first differ or goes on after all of it |
| Reactions.LatestIsKept | internal/handlers/reactions.go:131-156 | A row later than each other of its reactor's, or as late with the hash above, is the one kept and shown |
| Reactions.ShownSettledIff | internal/handlers/reactions.go:140-156 | What is shown for a reactor is the same for every order of the rows if and only if all its rows that nothing supersedes carry one emoji |
| Reactions.LoadedTieKeepsLowestId | internal/handlers/reactions.go:193-214 | As the rows are loaded, of those tied at the top the one with the lowest id is kept |
| Reactions.GroupsAre | internal/handlers/reactions.go:172-182 | One group per emoji in order of first occurrence, listing its reactors in row order |
| Reactions.FirstSeenIs | internal/handlers/reactions.go:173-180 | Exactly the emoji that occur lead a group, each one group |
| Reactions.ListedOnce | internal/handlers/reactions.go:140-188 | A reactor is listed once, under the emoji its latest row shows, and not at all if that is empty |
| Reactions.EffectiveIgnoresOrder | internal/handlers/reactions.go:140-188 | The reactions shown are the same for every order of the rows, when nobody's latest tie |
| Reactions.ListingSettledIff | internal/handlers/reactions.go:140-188 | Who is listed under which emoji is the same for every order of the rows if and only if no reactor's latest rows tie with different emoji |
| Reactions.GroupsStandInOrder | internal/handlers/reactions.go:140-143 | The first reactor of a group reacted before every reactor of every later group |
| Reactions.ReactorsStandInOrder | internal/handlers/reactions.go:140-143 | Within a group reactors stand in the order of their effective reactions |
| Reactions.Reduce | internal/handlers/reactions.go:145-156 | After the first loop each subject's map holds each reactor's kept row |
| Reactions.SortRows | internal/handlers/reactions.go:166-171 | Whatever order the map gave, the sorted rows are the one order by time and id |
| Reactions.GroupRows | internal/handlers/reactions.go:172-182 | The grouping loop builds the groups of its rows |
| Reactions.EffectiveReactions | internal/handlers/reactions.go:144-188 | For every subject the result is its effective reactions, and absent when there are none |
| Reactions.ScanMine | internal/handlers/reactions.go:348-374 | The scan keeps the same row, and sends nothing exactly when the wanted emoji is already shown |
| Reactions.MineDecides | internal/handlers/reactions.go:193-231 | Loading only the caller's rows decides as loading everybody's does |
| Reactions.SendingShows | internal/handlers/reactions.go:411-473 | A reaction sent later than all of the caller's others is the one shown |
| Reactions.ReactionRecipients | internal/handlers/reactions.go:260-285 | Each other participant once, in the order in which they first stand in the message, and the reactor never |
| Emoji.LeadIsUnique | internal/emoji/emoji.go:86-124 | An element at the front can end in one place only |
| Emoji.DerivationIsPieces | internal/emoji/emoji.go:43-47 | A sequence of the grammar has one derivation, its pieces between joiners |
| Emoji.ReadableIff | internal/emoji/emoji.go:39-77 | What the recogniser reads is what the grammar derives and whose every piece presents as emoji and passes the recogniser's three guards |
| Emoji.RefusedThoughPossible | internal/emoji/emoji.go:88-113 | A modifier on an emoji that takes none, tags on another emoji than the black flag, and a lone regional indicator are of the grammar, present as emoji, and are refused |
| Emoji.ZwjElement | internal/emoji/emoji.go:86-124 | What is consumed is an element, and if any element ending at a joiner or the end leads, it is the one consumed |
| Emoji.IsPossible | internal/emoji/emoji.go:39-77 | Accepted if and only if the text is at most 64 bytes and encodes from 1 to 24 code points that are of the possible_emoji grammar and a flag, or every piece of which presents as emoji and passes the guards |
| Emoji.RecognisedExamples | internal/emoji/emoji.go:39-124 | By code point: a keycap, a modified base, a flag, a tagged flag, a joined pair and a text character with U+FE0F are recognised; bare text characters and an open joiner are not |
| Emoji.RefusedExamples | internal/emoji/emoji.go:79-113 | The characters just outside the tags and the regional indicators are neither |
| Utf8.DecodeEncode | internal/emoji/emoji.go:52 | Every scalar value's encoding by the ranges of section 3 of RFC 3629 is well formed and decodes to it |
| Utf8.EncodeDecode | internal/emoji/emoji.go:52 | Every well-formed character decodes to a scalar value whose encoding it is |
| Utf8.RunesOfEncoded | internal/emoji/emoji.go:52 | A text that encodes code points decodes to just those |
| Utf8.RunesEncode | internal/emoji/emoji.go:52 | And every valid text encodes what it decodes to |
| Utf8.ValidIsOctets | internal/handlers/messages.go:1806-1813 | Valid reading from the front is the grammar of section 4 of RFC 3629 |
| Utf8.CutNear | internal/handlers/messages.go:1804-1816 | A valid text cut anywhere is valid again at most 3 bytes earlier |
| Utf8.ShortText | internal/handlers/messages.go:1804-1821 | The longest valid prefix within the size: the whole of a valid body that fits, at most 3 bytes short otherwise |
| Spans.NormalIsUnique | internal/emoji/gen/main.go:167-182 | A set of code points has one sorted, disjoint and non-adjacent form |
| Spans.SortByLo | internal/emoji/gen/main.go:169 | A rearrangement sorted by lower bound |
| Spans.MergeInPlace | internal/emoji/gen/main.go:170-181 | Overwriting the array it reads, the merge keeps the code points covered and, for well-formed spans, leaves them in normal form |
| Spans.Normalize | internal/emoji/gen/main.go:167-182 | The result is the one normal form of the input's code points, whatever their order |
| Spans.Split | internal/emoji/gen/main.go:189-200 | Each half covers exactly its side of 0x10000 and stays in normal form |
| Hub.Hub.Register | internal/handlers/hub.go:82-92 | The client is added to its address's set and no other changes |
| Hub.Hub.Unregister | internal/handlers/hub.go:94-105 | The client is gone from every set and no empty set remains |
| Hub.Hub.ClientsOf | internal/handlers/hub.go:297-307 | Exactly the address's clients, each once |
| Hub.Hub.Send | internal/handlers/hub.go:309-327 | Each client listed, once, has the payload queued last and is as open as it was if fewer than 16 were queued, and is otherwise closed with its queue kept; no other changes |
| Hub.Hub.Dispatch | internal/handlers/hub.go:252-273 | The same of the address's clients and of nobody else; nothing changes for a message that could not be built or is purged for the address |
| Hub.Hub.DispatchTrash | internal/handlers/hub.go:284-295 | Each of the address's clients with room has one event queued, the message's or that it is gone, and a full one is closed |
| Hub.Hub.RouteIndicator | internal/handlers/hub.go:329-362 | Each participant's clients with room have it queued once, however often listed, full ones are closed, and the indicating address's clients are as they were |
| Hub.OfferingShown | internal/handlers/hub.go:252-362 | What the hub's methods promise of its connections is what the state machine makes of one payload's way, whatever order the clients are reached in |
| Hub.ReachedQueuesOrCloses | internal/handlers/hub.go:309-327 | A client reached with fewer than 16 queued gets the payload queued last and stays as open as it was; one with 16 keeps its queue and is closed |
| Hub.DispatchFindsClients | internal/handlers/hub.go:252-307 | A dispatched payload is on its way to every client registered for its address |
| Hub.ClosedOnlyIf | internal/handlers/hub.go:317-325 | Over every run a client is closed only by a close of its own or by a payload that reached it with 16 queued |
| Hub.StaysLive | internal/handlers/hub.go:252-327 | A client that nothing unregisters, closes or fails to write to stays live, however many payloads reach it |
| Hub.StepKeepsNoGap | internal/handlers/hub.go:252-327 | Every interleaved step keeps what was dispatched for a live client in order and complete |
| Hub.DeliveryHasNoGaps | internal/handlers/hub.go:252-327 | In every run a live client's written, queued and coming payloads are exactly those dispatched since it registered; no queue exceeds 16; the registry has no empty set |
| Hub.AtRestNothingIsMissing | internal/handlers/ws.go:155-178 | Between payloads written and queued is all there was |
| Throttle.IndicatorThrottle.Call | internal/handlers/indicators.go:65-80 | The entries and the answer are those of one throttled call, stale entries dropped only above the bound |
| Throttle.PruningChangesNothing | internal/handlers/indicators.go:65-80 | When times do not go back, the answers are those of a throttle that never forgets |
| Throttle.AllowedInWindow | internal/handlers/indicators.go:35-37 | A key's allowed calls are an interval apart, and a window admits at most one per interval plus one |
| Throttle.AllowedIff | internal/handlers/indicators.go:65-80 | When times do not go back, a call is allowed exactly when no earlier call of its key was allowed less than a second before |
| Throttle.StaleEntriesGo | internal/handlers/indicators.go:70-77 | Of more than 10000 entries an allowed call leaves only its own and those noted less than a second before, and otherwise all |

## Left out

- HTTP, JSON binding, authentication, scopes, API keys, sub-accounts and logging: case analysis over libraries and services outside this repository.
- Reading routes other than the list modes, the thread roots and the count: they compute views with no state of their own.
- MarkRead, read events, push subscriptions and the sending of Web Push: they change nothing the results here depend on.
- Message finalization, hashing and wire compression: they live in fmsgd's message package, which is not part of this model.
- Structure.StepKeepsGood: add-to batches received from other hosts are no step of the machine; fmsgd writes them, and its code is not part of this model.
- Handlers.Handler.ResolveParent: looking a hash up as a message or as a batch enters as the reference it finds.
- Handlers.Handler.CreateMessage: address syntax and the fields nothing here depends on (topic text, type, importance) are not modelled.
- Handlers.Handler.UpdateMessage: the same fields are left out.
- Handlers.Handler.SendMessage: completeness of the draft, the check that remote hosts can accept a reply, and fmsgid's send check enter as one flag, because they only refuse.
- Handlers.Handler.ReactTo: whether the wanted reaction already holds enters as a flag; Reactions.ScanMine decides it.
- Transaction.Server.ResolveLocalDelivery: fmsgid's answers enter as codes per address; Quota.ResolveLocalDelivery is the same loop against limits and usage.
- Transaction.DeliveriesAgree: added recipients are resolved in one call, where Send makes one for each batch; each row is still resolved once.
- Handlers.Handler.UnsharedFiles: all paths are inside the data directory, so the filter on others is not modelled.
- Handlers.Handler.RemoveIfUnheld: the paths outside the data directory that are never deleted are not modelled; all paths are inside.
- SQL execution and transaction isolation: requests are serialised steps over maps, and queries are functions of them.
- Failing usage posts after an acknowledged commit: not steps of the model.
- Emoji.IsPossible: the property tables are parameters constrained only where the recogniser needs it, and membership of the RGI set is not modelled.
- The library sort: two simple sorts with its contract stand for it.
- Hub: JSON payloads, pings, deadlines and reconnecting of the listener; a failed write ends a client's part in the claim, as does closing it.
- Thread bodies, download paths and cache keys of ThreadMessages: plumbing over files.
