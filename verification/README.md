# Verified model of the Notion proxy backend

A Dafny model of the stateful parts of the Go backend, with proofs of what they keep over all their runs.
Text is a sequence of runes; times are nanoseconds.

| Component | Modules |
|---|---|
| Dispatch slots: credential and workspace counters raised by compare-and-swap, leases, rebuilds of the slot map | `DispatchProtocol` (interleaved steps), `DispatchSlots` (classes and loops) |
| Upstream patch stream: visible-text sanitizer, patch dictionaries, composed text, deltas to the client | `Sanitizer`, `LangTags`, `AgentText`, `PatchEntries`, `StreamDecoder`, `StreamDelivery` |
| Transcript merge and local deletion | `TranscriptMerge`, `MessageDeletion`, `TurnPairing` |
| Conversation store: entries, recency list, append buffers, frozen previews, turns, deletion claims | `ConversationEntries`, `TurnOutcomes`, `RecencyList`, `RecencyArray`, `ConversationRuns`, `ConversationTurns`, `ConversationBuffers`, `ConversationStore` |
| Persistence of conversations | `ConversationPersistence` |
| History matching | `ConversationHistory`, `ResentTranscripts` |
| Account pool: quota windows, cooldowns, candidate order | `AccountPool`, `UsageQuota`, `WorkspaceRests`, `CandidateOrder` |
| Bounded note walk | `NoteWalk` |
| Login-attempt limiter | `LoginLimiter` |
| Shared | `Text`, `Orders`, `Wrappers` |

Each stateful component has a specification on values, a class or methods with the source's loops and
fields proved equal to it, and theorems about every run of the specification. Concurrency is a state
machine over the steps between which other threads may run. Fresh ids, the clock, the outcome of a save,
and the plan, status and file checks of a workspace are parameters.

Where a promise does not hold on all inputs, the model keeps the code and states when it does:

- Sanitising is prefix-monotone on text without `<`; `Sanitizer.TagRetractsText` and
  `StreamDelivery.TagMakesClientDiffer` show why not on all text, and `StreamDelivery.ClientHoldsRecordedText`
  gives the exact condition for any run.
- A merge can repeat messages, and again repeat them when done twice, only for a remote message without an id
  (`TranscriptMerge.MergeConservesExactly`, `TranscriptMerge.MergeIdempotent`)
  and can reorder local messages only if the shared ones are ordered differently (`TranscriptMerge.LocalOrderKept`).
- The comment at `internal/app/conversations.go:1497-1499` says an older snapshot can never land after a newer
  one. A conversation that is evicted and restored while a copy newer than its row is being saved comes back
  older than that copy, and a snapshot of it can then take the row back, a finished answer included.
  `ConversationPersistence.HarmlessExactly` tells exactly which restores do this, `RowsNeverGoBack` is the claim
  for all runs of other steps, and `HarmfulRestoreIsReached` gives a run.
- A row left by an interrupted turn is repaired in memory when it is loaded but not written; until
  something else is saved the row differs (`ConversationPersistence.QuietRowsMatch`).
- The six-hour rest of a workspace whose quota is spent does not last if another request on it was still in
  flight: its success ends the rest, and its failure replaces it by its own (`WorkspaceRests.QuotaRestCutShort`).
  `WorkspaceRests.RestSurvivesExactly` gives the exact steps, and `WorkspaceRests.EarlyStartWasShortened` shows that over
  any run of begin, finish, remove and refresh steps there are no others.
- The comment at `internal/app/account_pool.go:629-632` says a refresh must not clear an active quota cooldown.
  A failed refresh takes its status away, and the next healthy one then clears it
  (`WorkspaceRests.RelabelledRestIsCleared`); `WorkspaceRests.QuotaRestSurvivesExactly` and
  `WorkspaceRests.EarlyStartAfterQuota` say what ends such a rest and that a healthy refresh alone never does.
- A version of a conversation that is evicted before its snapshot is read is lost: reading an absent entry
  writes nothing (`ConversationPersistence.UnwrittenEvictionIsReached`).
  `ConversationPersistence.VersionReachesRowExactly` is the exact condition.
- A remote message that carries the id of an edited local message under another role is shown in its place
  (`MessageDeletion.EditShownExactly`).
- A status restored over a running turn, as by the second of two deleters, leaves a buffer behind
  (`ConversationBuffers.OperationKeepsExact`), which does no harm (`ConversationBuffers.RunKeepsAgreement`).
- A patch to an entry that does not exist leaves a stale key (`StreamDecoder.TranscriptState.ApplyPatchOperation`).
- A configured limit above the largest int32 does not take effect as written
  (`DispatchSlots.ConfiguredLimitTakesEffect`).

## Model

| member | source | states |
|---|---|---|
| `DispatchProtocol.AccountingIsExact` | internal/app/main.go:201-371 | over every interleaving of look-ups, count reads, compare-and-swaps, roll-backs, releases and rebuilds from an empty server, each slot object's count is the number of outstanding holds on it and each held object is the one mapped at its key |
| `DispatchProtocol.EveryStepKeepsInv` | internal/app/main.go:201-371 | no single step of any request and no configuration change breaks the accounting, or makes a request inside the lock work with a slot or limit that is no longer current |
| `DispatchProtocol.RebuildKeepsInv` | internal/app/main.go:201-250 | a rebuild, with the lock held exclusively, keeps the accounting exact for every lease that is out |
| `DispatchProtocol.SwapKeepsInv` | internal/app/main.go:340-355 | a compare-and-swap that succeeds adds exactly one hold, one that fails starts over with nothing changed |
| `DispatchProtocol.DropSwapKeepsInv` | internal/app/main.go:357-371 | lowering a count removes exactly the hold taken last |
| `DispatchProtocol.RaisedOnlyBelowLimit` | internal/app/main.go:340-355 | a hold is added only while the holds on the slot are below its present limit, and no other object ever made for that key is held then |
| `DispatchProtocol.LeaseIsAllOrNothing` | internal/app/main.go:303-338 | outside the lock a request holds either exactly the objects now mapped at its credential and workspace keys, in that order, or nothing at all |
| `DispatchProtocol.HeldIsPositive` | internal/app/main.go:357-365 | a slot somebody holds has a positive count, so a release never meets the zero floor |
| `DispatchProtocol.ReleaseLowersTheHeldSlot` | internal/app/main.go:285-296 | an undisturbed release step lowers the count of the slot taken last by one, never below zero, and moves on to the one before it |
| `DispatchProtocol.QuietCountsAreZero` | internal/app/main.go:268-296 | once every lease is released and no request runs, every count is zero, on retired objects too |
| `DispatchProtocol.LoweredLimitOnlyDrains` | internal/app/main.go:224-228 | over any run without a rebuild a count stays at most its limit, or at most what it was if the limit had been lowered below it |
| `DispatchProtocol.RebuildResumesCount` | internal/app/main.go:236-247 | whatever a rebuild asks for, a held object stays mapped at its key with the count of its real holds, so a key that vanishes and returns resumes its count |
| `DispatchProtocol.RebuiltAnswers` | internal/app/main.go:209-248 | after a rebuild a key is mapped exactly if it was asked for or was busy, and a key asked for has the limit of its last mention |
| `DispatchSlots.ConfiguredLimitTakesEffect` | internal/app/main.go:193-198 | a configured limit takes effect as written if it is positive and fits an int32, as one if it is not positive, and otherwise as some smaller limit of at least one |
| `DispatchSlots.KeysAskedFor` | internal/app/main.go:211-226 | exactly the credentials and the workspaces with a key are asked a slot for |
| `DispatchSlots.CredentialLimit` | internal/app/main.go:211-217 | a credential that is no workspace of its account and is not named later gets the account limit |
| `DispatchSlots.WorkspaceLimit` | internal/app/main.go:218-234 | a workspace that is not named later gets its own limit, or one if that is not positive |
| `DispatchSlots.AccountSlot.TryAcquire` | internal/app/main.go:340-355 | raises the count by one exactly when it is below the limit |
| `DispatchSlots.AccountSlot.Release` | internal/app/main.go:357-371 | lowers the count by one exactly when it is positive |
| `DispatchSlots.DispatchSlotLease.Release` | internal/app/main.go:285-296 | the first release lowers each slot once per hold, any later one changes nothing |
| `DispatchSlots.ServerState.AcquireDispatchSlots` | internal/app/main.go:303-338 | succeeds exactly when both slots exist and are below their limits, then holds one of each; otherwise every count is as before |
| `DispatchSlots.ServerState.RollBack` | internal/app/main.go:329-333 | undoes exactly the raise that had succeeded |
| `DispatchSlots.ServerState.RebuildAccountSlots` | internal/app/main.go:201-250 | maps exactly the configured keys and the busy leftovers, keeps the object and count of every key that was mapped, starts new keys idle, and gives each key the limit configured where it is named last: a credential the account limit, a workspace its own |
| `DispatchSlots.ServerState.KeepBusyLeftovers` | internal/app/main.go:236-247 | adds exactly the old keys that are not asked for and have requests in flight |
| `Sanitizer.SanitizeMonotone` | internal/app/notion_client.go:149-218 | growing a text without '<' never retracts anything already visible, whatever the citation automaton was holding back |
| `Sanitizer.SanitizeTagFree` | internal/app/notion_client.go:149-187 | on text without '<' only the byte-order mark, outer space and an unfinished citation are removed |
| `Sanitizer.TrimCitationMonotone` | internal/app/notion_client.go:188-218 | an unfinished citation only ever hides a tail that later text reveals or keeps hiding |
| `Sanitizer.TagRetractsText` | internal/app/notion_client.go:149-187 | with '<' growth can retract visible text: a concrete text of which the claim fails |
| `Sanitizer.SanitizeText` | internal/app/notion_client.go:149-165 | the loops of the sanitizer compute its specification |
| `Sanitizer.CleanLangTags` | internal/app/notion_client.go:166-187 | the tag-removing loop computes the repeated removal of the first tag |
| `Sanitizer.TrimCitation` | internal/app/notion_client.go:188-218 | the citation loop cuts at the start of the open citation the automaton is in |
| `LangTags.FirstTagIsCut` | internal/app/notion_client.go:166-180 | the first opening tag is cut out of the text around it, from '<lang' to its first '>', and the rest is cleaned on |
| `LangTags.UnfinishedTagIsCut` | internal/app/notion_client.go:181-184 | an opening tag without end takes the rest of the text with it |
| `LangTags.OnlyClosingTags` | internal/app/notion_client.go:166-187 | without an opening tag nothing but closing tags is removed |
| `LangTags.FirstIsRemoved` | internal/app/notion_client.go:183-186 | removing closing tags cuts out the first and goes on behind it |
| `LangTags.NothingIsRemoved` | internal/app/notion_client.go:183-186 | and leaves a text without them alone |
| `LangTags.LeadingTagIsCut` | internal/app/notion_client.go:40-40 | a leading tag in any case goes, with the blanks around it |
| `LangTags.OnlyLeadingTagsAreCut` | internal/app/notion_client.go:156-163 | and what a round of the last loop removes is such a tag with such blanks |
| `LangTags.MarkIsDropped` | internal/app/notion_client.go:149-152 | one byte-order mark in front is dropped before trimming, and no text without one is changed by that |
| `Text.TrimCutsSpace` | internal/app/conversations.go:322-324 | trimming takes away outer white space and nothing else |
| `Text.SpaceRunes` | internal/app/conversations.go:322-324 | white space is the 25 runes of unicode.IsSpace |
| `Text.WordsAreJoined` | internal/app/conversations.go:322-324 | collapsing leaves the words and puts one space between them |
| `Text.SpaceHasNoWords` | internal/app/conversations.go:322-324 | and makes nothing of white space |
| `Text.TruncationFits` | internal/app/conversations.go:326-338 | a truncated text fits the limit, and ends in an ellipsis exactly when it was cut |
| `Text.IndexIsFirst` | internal/app/notion_client.go:168-172 | the index of a pattern is that of its first occurrence, if there is one |
| `Text.LowerCase` | internal/app/notion_client.go:154-154 | lower case replaces the 26 capital letters and nothing else |
| `Text.FirstNonBlank` | internal/app/accounts.go:79-87 | the first of two texts that is not blank, trimmed |
| `AgentText.AppendGrowsVisible` | internal/app/notion_client.go:2575-2597 | an append patch on text without '<' never retracts visible text, though it may replace the raw text |
| `AgentText.AppendIsConcatenation` | internal/app/notion_client.go:2575-2597 | an append patch is concatenated, blank and repeated fragments included, unless it properly extends the text held, raw or as shown, which it then replaces; the result always ends with it |
| `AgentText.NewerSnapshotIsKept` | internal/app/notion_client.go:2522-2545 | of two snapshots the later is kept unless it shows no more than a beginning of the earlier, or is a beginning of it |
| `AgentText.CombinedIsConcatenation` | internal/app/notion_client.go:2547-2562 | neighbouring entries are concatenated, unless one begins with the other, which then stands for both |
| `AgentText.ReplacementStands` | internal/app/notion_client.go:2599-2618 | a replace patch stands from the last language tag on; without a tag it is the whole text if it extends the text held, and is concatenated otherwise |
| `AgentText.CombineMonotone` | internal/app/notion_client.go:2547-2562 | extending a part extends the text it is combined into |
| `AgentText.FoldMonotone` | internal/app/notion_client.go:2262-2297 | appending an entry or extending the last one only ever extends the composed text |
| `AgentText.TextDeltaSuffix` | internal/app/notion_client.go:4331-4351 | the fragment sent is exactly what the client lacks when the text grew, and what follows the common prefix otherwise |
| `AgentText.DeliveredExactly` | internal/app/notion_client.go:2441-2460 | the client ends up with exactly the recorded text if and only if every text offered extended the one before |
| `PatchEntries.RemovalShifts` | internal/app/notion_client.go:2383-2413 | the key-by-key removal with shifting cuts the entry out of the sequence and leaves no key at or above the count |
| `PatchEntries.RegisteredAll` | internal/app/notion_client.go:2343-2361 | registering the values of a step makes the dictionaries read back as those values |
| `PatchEntries.AppendStores` | internal/app/notion_client.go:2362-2382 | an appended part becomes the last entry and nothing else changes |
| `PatchEntries.AbsentReadsEmpty` | internal/app/notion_client.go:2262-2297 | what was never stored reads as no entry, no type and no text |
| `PatchEntries.TextWritten` | internal/app/notion_client.go:2658-2674 | writing a text keeps the dictionaries free of stale keys if and only if the index is below the count |
| `StreamDecoder.TranscriptState.ApplyPatchOperation` | internal/app/notion_client.go:2675-2759 | every patch on the dictionaries does what it does to the plain sequences of entries; a stale key appears exactly for a patch to an index that does not exist |
| `StreamDecoder.TranscriptState.HandlePatchLine` | internal/app/notion_client.go:2813-2855 | a whole line of patches refines the plain run of its operations |
| `StreamDecoder.TranscriptState.ApplySnapshotFrame` | internal/app/notion_client.go:2760-2811 | a snapshot replaces every step and entry, remembers what was already sent and sends only the rest |
| `StreamDecoder.TranscriptState.RemovePatchValueEntry` | internal/app/notion_client.go:2383-2413 | the shifting loop over the three dictionaries cuts out one entry |
| `StreamDecoder.TranscriptState.ComposeStepAgentContent` | internal/app/notion_client.go:2262-2297 | the visible and the reasoning text of a step are the folds of its text and of its reasoning entries |
| `StreamDecoder.TranscriptState.EmitFullText` | internal/app/notion_client.go:2441-2460 | the sink receives exactly the delta of the sanitised text, which is recorded as sent |
| `StreamDecoder.TranscriptState.RegisterPatchValueAppend` | internal/app/notion_client.go:2362-2382 | an appended value becomes the last entry of its step |
| `StreamDecoder.TranscriptState.RegisterStepValueTypes` | internal/app/notion_client.go:2343-2361 | the values of a new step become its entries |
| `StreamDecoder.JoinedInTurn` | internal/app/notion_client.go:1896-1907 | the text of a step as it arrives is its trimmed contents of one kind, in turn |
| `StreamDecoder.ParagraphsInTurn` | internal/app/notion_client.go:2427-2440 | the reasoning of the steps is separated by blank lines |
| `StreamDelivery.ClientHoldsRecordedText` | internal/app/notion_client.go:2441-2460 | over any run of patches and snapshots the client holds exactly the recorded text if and only if each non-empty text offered extended the previous one |
| `StreamDelivery.SnapshotReplaysNothing` | internal/app/notion_client.go:2760-2811 | a snapshot sends only what is missing, and nothing when the same snapshot comes again |
| `StreamDelivery.StreamedTextIsFinalText` | internal/app/notion_client.go:2299-2325 | for one text entry grown by any run of append patches over '<'-free text, the deltas received are, run together, the sanitised final entry and the recorded answer |
| `StreamDelivery.StreamedTextIsConcatenation` | internal/app/notion_client.go:2575-2597 | while no fragment is a grown snapshot, the final entry is the text at the start followed by all fragments, and the client has received its sanitised form |
| `StreamDelivery.SnapshotStartsOver` | internal/app/notion_client.go:2575-2597 | a grown snapshot starts the text over, and everything after it is concatenated |
| `StreamDelivery.ExtendingRunStaysInSync` | internal/app/notion_client.go:2675-2759 | the same for a step of any number of entries while patches only extend it at its end |
| `StreamDelivery.FreshStepInSync` | internal/app/notion_client.go:2675-2759 | a new answer step with one text part, trimmed as every part is where it is extracted, starts in that state |
| `StreamDelivery.TagMakesClientDiffer` | internal/app/notion_client.go:166-187 | with '<' the client can differ from the record: a concrete run |
| `TranscriptMerge.RetainLocalMessages` | internal/app/admin_conversations.go:262-291 | the bucket loops compute the merge specification |
| `TranscriptMerge.MergeConserves` | internal/app/admin_conversations.go:262-291 | the output is, as a multiset, the deduplicated remote list, each undeleted local-only message once, and one extra copy of the unanchored ones for a remote message without an id |
| `TranscriptMerge.MergeConservesExactly` | internal/app/admin_conversations.go:262-291 | nothing is lost or repeated if and only if all remote ids are non-empty or nothing local-only precedes the anchors |
| `TranscriptMerge.RemoteOrderKept` | internal/app/admin_conversations.go:262-291 | restricted to remote ids the output is the deduplicated remote list, in remote order |
| `TranscriptMerge.LocalOrderKept` | internal/app/admin_conversations.go:262-291 | the kept local messages appear in local order if and only if the shared ones do so remotely, for any remote ids |
| `TranscriptMerge.MergeIdempotent` | internal/app/admin_conversations.go:262-291 | merging the result with the same remote list changes nothing, if and only if all remote ids are non-empty or nothing local-only precedes the anchors |
| `MessageDeletion.DeleteMessage` | internal/app/conversation_message_delete.go:26-93 | deletes the first message with the id and records tombstones and turn anchors as specified, or fails without change |
| `MessageDeletion.FindTurnUser` | internal/app/admin_conversations.go:119-135 | the backward scan finds the single user step of the turn or nothing |
| `MessageDeletion.CaptureTurns` | internal/app/conversation_message_delete.go:54-71 | records an anchor for every pair not yet recorded, in one pass |
| `MessageDeletion.MergeConversation` | internal/app/admin_conversations.go:185-257 | a running or failed conversation is left as it is; any other shows the remote transcript, adopted and filtered through a pairing with the local messages, with the local-only messages retained |
| `MessageDeletion.PairWithLocal` | internal/app/admin_conversations.go:137-183 | the loops compute the pairing of remote ids with local messages, up to which of two users recorded for one answer the map iteration finds |
| `MessageDeletion.LegacyUsers` | internal/app/admin_conversations.go:157-163 | every answer with a recorded user that is still there gets one, and no other |
| `MessageDeletion.PairsHaveReasons` | internal/app/admin_conversations.go:137-183 | an id that names a local message is paired with it, and any other id is paired only with the last answer, under the conversation's own message id, or with a local user step that has no upstream id |
| `TurnPairing.TurnUserExactly` | internal/app/admin_conversations.go:119-135 | the scan finds a user step if and only if it is the one text step with an id of the turn, later blank ones apart |
| `TurnPairing.RecordedUserIsFound` | internal/app/admin_conversations.go:157-172 | a user step recorded for an answer no longer there is found through the record, if it is the only one recorded for it |
| `TurnPairing.QuestionIsRecognised` | internal/app/admin_conversations.go:137-183 | a local question without an upstream id is paired with the remote question of the turn whose answer both sides have, so it is shown under the local id and not twice |
| `TurnPairing.AdoptOutcome` | internal/app/admin_conversations.go:219-242 | a remote message paired with a local one of its role takes over its id and what only the local one knows, and any other is shown as it is |
| `TurnPairing.ContainedExactly` | internal/app/notion_client.go:3624-3635 | a blank id is contained nowhere, any other is compared without its outer space |
| `MessageDeletion.EditSurvivesSync` | internal/app/admin_conversations.go:219-242 | a hand-edited message is never reverted: whatever the remote transcript says, what is shown under its id and role has the edited text, something is shown under its id unless it was deleted, and that is the edited text unless a remote message has the id under another role |
| `MessageDeletion.EditShownExactly` | internal/app/admin_conversations.go:219-291 | an edited message that is not hidden is shown with its text if and only if the first remote message shown under its id has its role, or there is none |
| `MessageDeletion.DeletionSurvivesSync` | internal/app/admin_conversations.go:185-291 | after any sequence of deletions no later sync shows a message whose local or upstream id is tombstoned |
| `MessageDeletion.RequestedDeletionHappens` | internal/app/conversation_message_delete.go:26-93 | every deletion asked for of an existing message leaves its tombstone |
| `MessageDeletion.DeletionHoldsWhenFailed` | internal/app/conversation_message_delete.go:26-93 | a failed conversation, which a sync leaves alone, shows nothing that was deleted |
| `MessageDeletion.AnchorRecorded` | internal/app/conversation_message_delete.go:54-71 | in any sequence of deletions of which one succeeds, the anchor of every pair is recorded for good, or the one recorded before is kept |
| `MessageDeletion.RecordedTurnStaysHidden` | internal/app/admin_conversations.go:200-216 | a deleted user message whose turn is recorded, whenever that was, stays hidden through the recorded answer, if the remote turn is unambiguous |
| `MessageDeletion.DeletedTurnStaysHidden` | internal/app/admin_conversations.go:185-257 | so after any sequence of deletions a deleted user message without an upstream id stays hidden, whichever of the pair went first and whichever deletion recorded the anchor, if both turns are unambiguous |
| `RecencyList.ToFrontDistinct` | internal/app/conversations.go:546-561 | moving to the front keeps the list duplicate-free and adds no other id |
| `RecencyList.WithoutAt` | internal/app/conversations.go:546-561 | what follows the moved id is the rest of the list in unchanged order |
| `RecencyList.TrimEvictsExactly` | internal/app/conversations.go:563-574 | trimming keeps the order and the protected ids, evicts an id only with every less recent evictable one, and stops at the capacity or when only protected ids are left |
| `RecencyList.DroppedExactly` | internal/app/conversations.go:563-574 | an id is evicted exactly when it is evictable and too few evictable ids are less recent |
| `RecencyArray.OrderList.MoveToFront` | internal/app/conversations.go:548-561 | the in-place copy puts the id in front of the rest, prepends an unknown id, and leaves an empty list empty |
| `RecencyArray.OrderList.RemoveAt` | internal/app/conversations.go:563-574 | closing the gap in place removes exactly the one position |
| `RecencyArray.OrderList.Remove` | internal/app/conversations.go:994-1001 | the rebuilt list lacks exactly the one id |
| `ConversationEntries.ComputePreview` | internal/app/conversations.go:467-483 | the backward loop finds the start of the last message that shows anything |
| `ConversationEntries.FullPreviewIsStable` | internal/app/conversations.go:322-338 | once more than 96 collapsed runes are there, appended text does not change the truncated preview |
| `TurnOutcomes.PreviewIsLastShown` | internal/app/conversations.go:467-483 | the preview is the start of what the last message shows that is no process step and has text or attachments |
| `TurnOutcomes.DecimalDigits` | internal/app/conversations.go:475-477 | the number of attachments is written in digits that stand for it |
| `TurnOutcomes.CreatedOutcome` | internal/app/conversations.go:576-648 | a new conversation is running and holds the history sent, without a final prompt of its own, and then the prompt, and nothing else |
| `TurnOutcomes.ContinuedOutcome` | internal/app/conversations.go:676-724 | a turn continued changes the status, error and model, fails an answer left open, adds the prompt, and keeps every other message and field |
| `TurnOutcomes.DeltaOutcome` | internal/app/conversations.go:800-862 | a delta makes the open answer, or a new one, longer by its text and changes no other message or field |
| `TurnOutcomes.StampedUser` | internal/app/conversations.go:892-899 | the id of the user step goes to the last message of a user and to no other |
| `TurnOutcomes.CompletedMessagesOutcome` | internal/app/conversations.go:864-931 | completing a turn finishes one answer, the open one or a new one at the end, stamps the last user message, and keeps every other message |
| `TurnOutcomes.CompletedOutcome` | internal/app/conversations.go:864-931 | and records where the turn ran, and changes no other field |
| `TurnOutcomes.FailedOutcome` | internal/app/conversations.go:933-980 | failing a turn keeps the transcript, but marks an answer left open as failed |
| `TurnOutcomes.InterruptedOutcome` | internal/app/conversations.go:1479-1490 | a running or claimed row read from disk has failed, as have exactly its messages that were being written; any other row is as it was |
| `TurnOutcomes.EditOutcome` | internal/app/conversations.go:1233-1292 | an edit changes the text and edit time of one message |
| `TurnOutcomes.EditedIsFirst` | internal/app/conversations.go:1245-1262 | the message edited is the first with the id |
| `TurnOutcomes.HeaderOutcome` | internal/app/conversations.go:758-798 | envelope ids that are not blank replace those recorded, a target replaces the one pinned |
| `Text.CollapsePrefixStable` | internal/app/conversations.go:322-324 | appending text never changes the collapsed form of what came before |
| `ConversationRuns.EveryOperationKeepsInv` | internal/app/conversations.go:546-1358 | every store operation keeps the recency list duplicate-free and within the entries, and every cached preview equal to the recomputed one |
| `ConversationRuns.EveryRunKeepsInv` | internal/app/conversations.go:546-1499 | so does every run of operations |
| `ConversationRuns.TrimIsExact` | internal/app/conversations.go:563-574 | trimming the store never evicts a running or deleting conversation and otherwise leaves the capacity or only such conversations |
| `ConversationRuns.TrimEvictsLeastRecent` | internal/app/conversations.go:563-574 | a conversation that survives behind an evicted one is running or being deleted |
| `ConversationTurns.TurnsExclude` | internal/app/conversations.go:650-738 | between two turns started on one conversation there is a Complete, a Fail or a restored status on it, over any operations in between |
| `ConversationTurns.StreamedTextIsAppended` | internal/app/conversations.go:800-862 | while a turn runs its conversation is never evicted, removed or overwritten, no message before the answer changes, and the answer is its text at the start followed by every delta |
| `ConversationTurns.ClaimExcludesTurns` | internal/app/conversations.go:1294-1358 | from a claim until its restore or final delete no turn starts, not even a replay, and no delta lands, with one deleter and finishes only on running turns |
| `ConversationTurns.RestoredTurnIsOver` | internal/app/conversations.go:1479-1490 | a conversation restored from disk has no turn in flight, no claim and no message still being written, and all its texts |
| `ConversationBuffers.BufferHoldsText` | internal/app/conversations.go:819-831 | comparing lengths is enough: the buffer a delta is appended to holds the published text |
| `ConversationBuffers.OperationKeepsAgreement` | internal/app/conversations.go:546-1358 | every operation as callers make it, a status restored over a running turn included, leaves each buffer that could be used next with the published text |
| `ConversationBuffers.RunKeepsAgreement` | internal/app/conversations.go:546-1358 | so over every run of operations the next delta is appended to the published text |
| `ConversationBuffers.OperationKeepsExact` | internal/app/conversations.go:546-1358 | an operation leaves a buffer only with running conversations, holding exactly the open answer's text, if and only if it does not end a turn by restoring a status over it |
| `ConversationBuffers.BuffersBelongToRunningTurns` | internal/app/conversations.go:178-181 | so it is over every run without such a restore |
| `ConversationBuffers.BufferIsReused` | internal/app/conversations.go:819-831 | the next delta of a running conversation with a buffer is appended to that buffer, so nothing is copied again and a frozen preview stays frozen |
| `ConversationBuffers.FrozenPreview` | internal/app/conversations.go:838-845 | a preview frozen over a long answer equals the recomputed one after any delta |
| `ConversationStore.ConversationStore.AppendAssistantDelta` | internal/app/conversations.go:800-862 | the buffered fast path leaves the store as appending the text and recomputing the preview would, and the buffer with the grown text |
| `ConversationStore.ConversationStore.Create` | internal/app/conversations.go:576-648 | inserts the conversation in front under its id or a new one, then trims |
| `ConversationStore.ConversationStore.Continue` | internal/app/conversations.go:650-738 | starts a turn exactly when none runs and no deletion is claimed, and says which of the three refusals it is otherwise |
| `ConversationStore.ConversationStore.SetEnvelopeIds` | internal/app/conversations.go:758-798 | records the ids and brings the conversation to the front |
| `ConversationStore.ConversationStore.Complete` | internal/app/conversations.go:864-931 | finishes the turn as specified and drops its buffer; a cached replay changes nothing |
| `ConversationStore.ConversationStore.Fail` | internal/app/conversations.go:933-980 | fails the turn as specified and drops its buffer |
| `ConversationStore.ConversationStore.Delete` | internal/app/conversations.go:982-1003 | removes the entry, its buffer and its place in the list, unless it is running |
| `ConversationStore.ConversationStore.TrimEntries` | internal/app/conversations.go:563-574 | the in-place loop evicts exactly what the trimming specification says |
| `ConversationStore.ConversationStore.SetExecutionTarget` | internal/app/conversations.go:1146-1176 | pins the target exactly on a running conversation |
| `ConversationStore.ConversationStore.SetTitle` | internal/app/conversations.go:1181-1226 | renames exactly when the conversation is idle, the title fits and the save succeeded |
| `ConversationStore.ConversationStore.SetMessageContent` | internal/app/conversations.go:1233-1292 | edits exactly one message of an idle conversation, if the save succeeded |
| `ConversationStore.ConversationStore.DeleteMessage` | internal/app/conversation_message_delete.go:26-93 | replaces the entry by the one with the message deleted, if the save succeeded |
| `ConversationStore.ConversationStore.ClaimForDeletion` | internal/app/conversations.go:1298-1327 | claims exactly a conversation without a turn in flight |
| `ConversationStore.ConversationStore.RestoreDeletionClaim` | internal/app/conversations.go:1332-1358 | puts the recorded status back, over a running turn too |
| `ConversationStore.ConversationStore.ImportRemote` | internal/app/conversation_message_delete.go:9-24 | returns the existing entry or inserts the remote one in front and trims |
| `ConversationStore.ConversationStore.LoadConversation` | internal/app/conversations.go:1456-1495 | restores a cache miss, with an interrupted turn marked as failed |
| `ConversationHistory.LongerHistoryMustMatch` | internal/app/conversation_history.go:38-60 | a request with more segments than the stored transcript is accepted if and only if it is that transcript followed by one user prompt, or is a single incremental segment |
| `ConversationHistory.ReusedHistoryIsStored` | internal/app/conversation_history.go:25-60 | any accepted history is stored in one piece at most one question and answer from the end |
| `ConversationHistory.ReusedExactly` | internal/app/conversation_history.go:25-60 | a request is reused if and only if it is incremental with at most one segment, or its history without a final prompt is a non-empty end of the stored transcript, or its whole history is a non-empty end of it up to its last answer |
| `ConversationHistory.RegenerationIsReused` | internal/app/conversation_history.go:52-60 | so asking for the last answer again is recognised |
| `ConversationHistory.ExactSegmentsFixed` | internal/app/conversation_history.go:13-23 | normalising any segments twice is normalising them once, and the segments it leaves alone are exactly those with a plain role and trimmed text |
| `ResentTranscripts.StoredIsHeld` | internal/app/conversations.go:492-512 | after any number of successful turns, with any streamed deltas, the stored segments are the transcript the client holds |
| `ResentTranscripts.ResentTranscriptIsRecognised` | internal/app/conversation_history.go:38-60 | so the client's whole transcript with a next prompt is always accepted |
| `ResentTranscripts.CompletedStores` | internal/app/conversations.go:864-931 | whatever was streamed, completing stores the final text as the one new answer |
| `ResentTranscripts.CreatedStores` | internal/app/conversations.go:608-632 | a new conversation stores the history sent, without its trailing prompt, and then the prompt |
| `ConversationPersistence.RowsNeverGoBack` | internal/app/conversations.go:1497-1573 | over every interleaving of turns, throttled deltas, snapshots, flushes, edits, evictions and harmless restores no row returns to an older version, nor a repaired one to its unrepaired form |
| `ConversationPersistence.HarmlessExactly` | internal/app/conversations.go:1456-1495 | a restore is harmless if and only if no run of further harmless steps takes the row back; whether it is can be told beforehand from the copy being saved and the row |
| `ConversationPersistence.LoadKeepsInvExactly` | internal/app/conversations.go:1456-1495 | a restore keeps rows, copies in flight and memory in order if and only if it is harmless |
| `ConversationPersistence.HarmfulRestoreLosesRow` | internal/app/conversations.go:1456-1532 | after any harmful restore, a snapshot that another thread owes replaces the newer row by the one from before, or by its repair |
| `ConversationPersistence.EveryStepKeepsInv` | internal/app/conversations.go:1181-1292 | every version in memory that is not on disk is owed by a caller, marked dirty, or an unsaved repair of an interrupted turn |
| `ConversationPersistence.ThrottledByASnapshot` | internal/app/conversations.go:1534-1555 | a delta is only held back by the time of a snapshot of its conversation that was really read |
| `ConversationPersistence.SnapshotIsOneCall` | internal/app/conversations.go:1497-1532 | the two steps of a snapshot, uninterrupted, do what one call does |
| `ConversationPersistence.DeltaIsOneCall` | internal/app/conversations.go:1534-1555 | the three steps of a delta, uninterrupted, do what one call does: mark the conversation within the interval and write it otherwise |
| `ConversationPersistence.OtherStepsExactly` | internal/app/conversations.go:1557-1573 | a flush takes on exactly the dirty conversations; claims and their restores change only the phase of a conversation that is not running; an edit reaches memory and row together; all but claims wait for the lock |
| `ConversationPersistence.QuietRowsMatch` | internal/app/conversations.go:1497-1573 | with nothing owed and nothing dirty, a resident conversation is stored as in memory if and only if it is not such an unsaved repair |
| `ConversationPersistence.FlushStoresEverything` | internal/app/conversations.go:1557-1573 | once callers are quiescent and a flush has run, every resident conversation's stored messages equal those in memory, with the same exception |
| `ConversationPersistence.HarmfulRestoreIsReached` | internal/app/conversations.go:1456-1532 | such a restore happens: a run from an empty server leads to a state in which the finished answer is in flight and its conversation, evicted, would be restored from the unfinished row |
| `ConversationPersistence.VersionReachesRowExactly` | internal/app/conversations.go:1497-1573 | over any run with harmless restores that ends with nothing owed and nothing dirty, a version that was in memory has reached its row, itself or in a later one made from it, if and only if it was never evicted while neither the row nor a save in flight had it |
| `ConversationPersistence.DroppedIsGone` | internal/app/conversations.go:1497-1512 | a version evicted like that, and whatever was made from it, never comes back into memory, a save or the row |
| `ConversationPersistence.UnwrittenEvictionIsReached` | internal/app/conversations.go:1497-1512 | this happens: a run in which a finished turn is evicted before its snapshot is read, which then writes nothing |
| `ConversationPersistence.ConversationPersister.PersistSnapshot` | internal/app/conversations.go:1497-1532 | writes the present copy, clears the mark and keeps throttle state only for a running turn |
| `ConversationPersistence.ConversationPersister.PersistDelta` | internal/app/conversations.go:1534-1555 | marks the conversation within the interval and writes it otherwise |
| `ConversationPersistence.ConversationPersister.Flush` | internal/app/conversations.go:1557-1573 | nothing stays dirty, what was dirty is stored as in memory, other rows are untouched |
| `UsageQuota.QuotaHolds` | internal/app/account_pool.go:42-131 | over every run with non-decreasing times a usage window admits at most the quota and any half-open hour at most twice the quota |
| `UsageQuota.RefusedOnlyAfterQuota` | internal/app/account_pool.go:42-66 | conversely, after any run that began without a usage window, a start refused for the quota alone means that the running window has admitted exactly the quota |
| `AccountPool.EligibleExactly` | internal/app/account_pool.go:77-98 | a start is refused if and only if the account is switched off or not ready, its credential or the workspace cools down, or the running hour has used up the quota |
| `UsageQuota.AdmittedStart` | internal/app/account_pool.go:118-131 | an admitted start takes one more of its window or opens a new one an hour or more after the last |
| `AccountPool.DeadlineNeverDecreases` | internal/app/account_pool.go:533-564 | a credential's cooldown deadline never decreases over any run of steps on any of its workspaces |
| `AccountPool.FailureRaisesDeadline` | internal/app/dispatch_safety.go:22-37 | a trust denial or a 429 raises the deadline to at least its base backoff and to a later Retry-After, also when the workspace is gone |
| `AccountPool.DeadlineExactly` | internal/app/dispatch_safety.go:11-37 | after a failure the credential deadline is the later of the one before and thirty minutes for a trust denial, two minutes for a 429, or a later Retry-After; no other failure touches it |
| `AccountPool.NoStartBeforeDeadline` | internal/app/account_pool.go:77-98 | no workspace of the account is started before the stored deadline, over every run |
| `WorkspaceRests.RestSurvivesExactly` | internal/app/account_pool.go:162-192 | a rest survives a step if and only if the step is neither a success on the workspace, nor a failure on it whose own rest ends earlier, nor a healthy refresh of unchanged bookkeeping while no spent quota is sat out |
| `WorkspaceRests.EarlyStartWasShortened` | internal/app/account_pool.go:66-69 | over every run, a start before the end of a rest means that some step since cut the rest short in one of these ways |
| `WorkspaceRests.PlainFailureShortens` | internal/app/account_pool.go:100-116 | any failure without a spent quota or a late Retry-After, more than half an hour before a rest ends, cuts it short |
| `WorkspaceRests.RestGrowsWithFailures` | internal/app/account_pool.go:162-192 | after a success, whatever failures follow in a row, each is counted and the rest is that of the last: six hours for a spent quota, otherwise the backoff for that many failures or a later Retry-After |
| `WorkspaceRests.QuotaRestIsShortenedFor` | internal/app/account_pool.go:181-190 | a plain failure in the first five and a half hours after the quota was found spent always cuts the six hours short |
| `WorkspaceRests.QuotaRestCutShort` | internal/app/account_pool.go:162-192 | two runs with two requests in flight in which the six hours of a spent quota become four minutes, or nothing, and the workspace is started again |
| `WorkspaceRests.QuotaRestSurvivesExactly` | internal/app/account_pool.go:445-454 | before its end the rest of a spent quota, with its status, survives every step but a success, an ordinary failure, a failed refresh with another status, and a quota found spent more than six hours before that end; no healthy refresh ends it |
| `WorkspaceRests.EarlyStartAfterQuota` | internal/app/account_pool.go:628-645 | over every run, a start before the end of such a rest follows one of those four |
| `WorkspaceRests.RelabelledRestIsCleared` | internal/app/account_pool.go:628-645 | healthy refreshes leave the six hours alone, but a failed refresh followed by a healthy one ends them: two runs |
| `AccountPool.CooldownBounds` | internal/app/account_pool.go:100-116 | the n-th failure in a row costs n times two minutes, or n minutes if not worth a retry, up to half an hour; the lower bound of half a minute is never reached |
| `AccountPool.SuccessOutcome` | internal/app/account_pool.go:133-143 | a success clears what failures left on the workspace and nothing else |
| `WorkspaceRests.FailureOutcome` | internal/app/account_pool.go:162-192 | a failure is counted, sets the rest, records whether and when the quota was found spent, and leaves the usage window |
| `AccountPool.RemovalOutcome` | internal/app/account_pool.go:538-564 | removing a workspace takes away that one and no other, and not the deadline of its credential |
| `AccountPool.RefreshOutcome` | internal/app/account_pool.go:435-454 | a healthy refresh clears the failures if and only if nothing was added to them and no spent quota is sat out; any other changes at most the status |
| `AccountPool.ServerState.BeginWorkspaceDispatch` | internal/app/account_pool.go:469-506 | fails exactly when the workspace is gone, refuses exactly for one of the reasons above, and records every other start |
| `AccountPool.ServerState.MarkDispatchStart` | internal/app/account_pool.go:118-131 | the staged updates give the specified window and count |
| `AccountPool.ServerState.FinishWorkspaceDispatchSuccess` | internal/app/account_pool.go:508-532 | clears the workspace's failures, if it is still there |
| `AccountPool.ServerState.FinishWorkspaceDispatchFailure` | internal/app/account_pool.go:538-564 | cools down the credential and, if it is still there, the workspace |
| `AccountPool.ServerState.CommitAccountRefresh` | internal/app/account_pool.go:584-668 | clears or relabels the failure bookkeeping as specified, and fails exactly when the workspace is gone |
| `CandidateOrder.LessIsStrictTotal` | internal/app/account_pool.go:205-246 | the comparator is irreflexive, asymmetric and transitive, and candidates with different keys never tie |
| `CandidateOrder.TiesAreTransitive` | internal/app/account_pool.go:205-246 | not being ordered is transitive, so the comparator is a strict weak order |
| `CandidateOrder.OrderIgnoresConfiguration` | internal/app/account_pool.go:205-260 | any two sortings of the eligible workspaces of the same accounts, listed in whatever order, are equal |
| `CandidateOrder.OrderIsByPreference` | internal/app/account_pool.go:205-246 | the order puts workspaces of the active account first, then the active workspace of the active account and the default workspace of any other, then higher priority, no quota, more quota left, fewer failures, the longest unused and the smaller key |
| `CandidateOrder.OrderListsEligible` | internal/app/account_pool.go:248-260 | the order lists each workspace once, and exactly those of accounts switched on that are ready, whose rests are over and that have not used up the running hour |
| `CandidateOrder.SortedIsUnique` | internal/app/account_pool.go:205-246 | a list with distinct keys has one sorted permutation |
| `CandidateOrder.OrderExists` | internal/app/account_pool.go:205-246 | every list has a sorted permutation |
| `CandidateOrder.KeysAreDistinct` | internal/app/account_pool.go:248-260 | distinct emails and workspace ids give distinct candidate keys |
| `CandidateOrder.CollectCandidates` | internal/app/account_pool.go:248-258 | the nested loops collect exactly the eligible workspaces in configured order |
| `NoteWalk.PartialExactly` | internal/app/admin_notes.go:118-173 | a note is not partial if and only if the blocks below it form a finite tree of plain blocks within the depth, block and character limits |
| `NoteWalk.WholeNoteIsFullRendering` | internal/app/admin_notes.go:118-173 | and then its lines are the full preorder rendering of that tree, each block once |
| `NoteWalk.UnfoldingIsReachability` | internal/app/admin_notes.go:118-173 | the blocks of that tree are exactly those reachable from the note |
| `NoteWalk.UnfoldingIsUnique` | internal/app/admin_notes.go:118-173 | a block has at most one unfolding, so the full rendering is well defined |
| `NoteWalk.WalkIsBounded` | internal/app/admin_notes.go:122-168 | on any block graph, cycles included, the walk visits at most 200 blocks and collects at most 12000 characters |
| `NoteWalk.NoteReader.Walk` | internal/app/admin_notes.go:122-172 | the recursive closure over the collected state computes the specified walk |
| `NoteWalk.NoteReader.Prefixed` | internal/app/admin_notes.go:141-157 | the switch gives each kind its prefix and tells plain kinds from others |
| `NoteWalk.PlainKinds` | internal/app/admin_notes.go:138-154 | the fourteen kinds of block that do not make a note partial |
| `LoginLimiter.AtMostFiveAttempts` | internal/app/admin.go:226-276 | any half-open fifteen minutes without a successful login admit at most five attempts of one client, over every run with other clients' steps |
| `LoginLimiter.RunKeepsRate` | internal/app/admin.go:260-276 | between an admitted attempt and the fifth after it lie at least fifteen minutes |
| `LoginLimiter.RefusedOnlyAfterFive` | internal/app/admin.go:243-276 | a client is refused only after five admitted attempts, the last less than fifteen minutes ago |
| `LoginLimiter.EntriesStaySound` | internal/app/admin.go:226-276 | an entry is locked exactly from its fifth failure on, in every reachable state |
| `LoginLimiter.ExpiredExactly` | internal/app/admin.go:226-241 | in such a state an entry is dropped exactly when its last failure is more than fifteen minutes ago |
| `LoginLimiter.LoginLimiter.ReserveAttempt` | internal/app/admin.go:260-276 | refuses exactly a locked client and counts every other attempt beforehand |
| `LoginLimiter.LoginLimiter.LockedUntil` | internal/app/admin.go:243-252 | reports the lock of a client that has one |
| `LoginLimiter.LoginLimiter.Cleanup` | internal/app/admin.go:226-241 | drops exactly the expired entries |
| `LoginLimiter.LoginLimiter.ClearFailures` | internal/app/admin.go:290-294 | forgets the client |

## Left out

- ConversationTurns.ClaimExcludesTurns: assumes one deleter per conversation and that Complete and Fail meet running turns, because `ClaimForDeletion` does not reject an existing claim and `Complete` and `Fail` do not check the status.
- ConversationPersistence.FlushStoresEverything: speaks of messages; a deletion claim and its restore change only the status and write nothing.
- ConversationPersistence.RowsNeverGoBack: leaves out harmful restores, for which it is false; ConversationPersistence.HarmlessExactly is the exact condition.
- ConversationBuffers.RunKeepsAgreement: assumes, as callers do, that no busy status is restored and no running conversation imported.
- StreamDecoder.TranscriptState.ApplyPatchOperation: starts without stale keys and says exactly which patch makes one, not what later patches make of it; StreamDecoder.TranscriptState.HandlePatchLine is about lines without such a patch.
- Deleting the row of a conversation from the database, failed saves and the other tables: the store on disk is a map of rows whose saves succeed.
- StreamDelivery.StreamedTextIsFinalText: text without `<`; what happens otherwise is covered by the exact condition of StreamDelivery.ClientHoldsRecordedText.
- MessageDeletion.DeletedTurnStaysHidden: requires unambiguous turns on both sides, as the source's own pairing does.
- MessageDeletion.EditSurvivesSync: requires that no id, own or upstream, names two local messages.
- Idempotence of the whole entry merge: the entry's message id names the last message, so a second merge may pair differently; TranscriptMerge.MergeIdempotent is about the list merge.
- Which local message a remote id is paired with when several carry it: the source iterates a Go map, so the theorems hold for every pairing.
- UsageQuota.QuotaHolds: the quota is fixed over the run; changing it in the configuration is not a step.
- Workspace status texts but for the one of a spent quota, plan checks, file checks, sessions and active-account fields of the account pool: parameters or easy field copies.
- Refreshing an account: commits refused because the account changed meanwhile, and the session fields a commit copies.
- The sorting algorithm: `sort.Slice` is a library; the theorems are about any sorted permutation.
- TryAcquireWorkspaceDispatchSlot and ReleaseWorkspaceDispatchSlot without a lease: they release by look-up and do not keep the accounting.
- The account look-up and the retry admission check before slots are acquired, and the slot metrics.
- Step decoding: JSON, paths and role names arrive parsed; agent-inference and record-map lines, message ids, observations and completion flags of the decoder are not modelled.
- Titles derived from prompts, times of entries, attachment metadata, ephemeral sweeping, listings, subscriptions, search by thread or by segments: easy or I/O.
- Starting the store from saved entries: the runs start from any store that satisfies the invariant.
- Unicode case folding beyond ASCII in roles, statuses and email keys.
- Joining the note lines with blank lines, the list of notes, and paging cursors, which also mark a note as partial.
- HTTP handlers, transports, login, attachments and the frontend.
