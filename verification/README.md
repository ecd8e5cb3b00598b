# Branching chat conversations: a verified model of the state logic

CustomChatGPT is a chat client for a language model. Each conversation can
hold several *versions*. Regenerating a reply or editing an earlier user
message starts a new version, which branches off its parent at one message.
This project models, as pure Dafny functions, the state logic behind those
branches:

- the Redux slice holding the conversation list (`Conversations`);
- the slice holding the version shown in the chat window (`CurrentConversation`);
- the decisions the chat window takes (`ChatController`): which messages go
  to the model, how a streamed reply is assembled, which buttons are
  enabled, when a title is generated, and what is persisted;
- the placeholder-id helpers (`MockIds`);
- the backend routine that annotates every message with the versions it
  belongs to (`Branching`, `BranchingProofs`, `BranchingChains`);
- the split of a message into prose, code blocks and inline code (`TextSplit`,
  `MessageRender`);
- the password and e-mail validators (`Validation`).

Shared modules:

- `Wrappers`: `Option` and `Result`.
- `Seqs`: `findIndex`.
- `Constants`: the fixed strings of `frontend/utils/constants.js`.
- `ChatTypes`: the frontend records.

## Modelling choices

- A reducer is a function from the old state and the payload to the new state.
- JavaScript dereferences the result of some `find`/`findIndex` calls
  without checking it. When such a call finds nothing, the reducer throws
  and the store keeps its state. The model returns `Err` in those cases.
- An assignment to `state[-1]` changes no element, so the model returns the
  list unchanged.
- Randomness becomes a parameter: the UUID suffix of a mock id.
- Replies from the server and the model become parameters: the title
  service's answer and the decoded stream chunks.
- The backend's dictionaries become the datatypes `BVersion`, `Msg` and
  `Stamp`.
- An empty `OrderedDict()` that stands for "no message" becomes `Cell.Empty`.
- Python's `str(None)` becomes the string `"None"`.
- `created_at` becomes an integer key with the same order as the source's
  ISO timestamps.
- `bisect.insort` is modelled as the exact right-bisection, so a new stamp
  lands after equal keys.
- The order in which Python iterates a set is unknown. The model picks any
  order, and every property is proved for all of them.
- The chain pass (`MakeBranchedConversationChains`, `WalkChains`) is written
  as methods with loop invariants. The rest of the model is functions and
  lemmas.

**Streaming.** The stream loop appends every decoded chunk to the text so
far (`data += …` in `frontend/components/chat/Main.js:216`) and dispatches
that running text, so each dispatch carries everything received up to that
chunk. `ChatController.HelloScenario` uses the chunks "Hi", " the" and "re",
which dispatch "Hi", "Hi the" and "Hi there".

**String lengths.** JavaScript's `length` counts UTF-16 code units, while a
Dafny `char` is a Unicode scalar value. `Validation.Utf16Length` counts two
units for a character beyond U+FFFF, and the password length check uses it.
The character-class tests and the e-mail pattern are unaffected: a surrogate
code unit is in none of their classes, so testing a non-BMP character as one
`char` gives the same answer as testing its two units.

## Model

| member | source | states |
|---|---|---|
| `MockIds.GenerateMockId` | frontend/utils/functions.js:5-7 | the generated id is a mock id whatever the UUID suffix; it is "mock id", then '_', then the suffix |
| `MockIds.MockIdOnlyAtStart` | frontend/utils/functions.js:9-11 | "mock id" followed by anything, itself included, is a mock id; "mock id" after a first character other than 'm' is not |
| `MockIds.GenerateMockIdInjective` | frontend/utils/functions.js:5-7 | two generated ids are equal iff their suffixes are |
| `Seqs.FindIndex` | frontend/redux/conversations.js:161 | the first index whose element satisfies the predicate, or None iff no element does |
| `ChatTypes.ActiveVersionIndex` | frontend/redux/conversations.js:188 | the first active version, or None iff no version is active |
| `ChatTypes.VersionIndexOf` | frontend/redux/conversations.js:208 | the first version with the id, or None iff no version has it |
| `Conversations.DeactivateAll` | frontend/redux/conversations.js:146 | the same conversations in the same order, each inactive, with no other field changed |
| `Conversations.FetchThunk` | frontend/redux/conversations.js:5-22 | the fetched list keeps its length and order; every entry is inactive and otherwise unchanged |
| `Conversations.FetchReplacesWithInactive` | frontend/redux/conversations.js:167-169 | after a fetch the list is the response with every entry inactive, so at most one entry is active |
| `Conversations.CreateConversationRequest` | frontend/redux/conversations.js:27-29 | rejected, with the fixed reason, iff there are fewer than two messages; otherwise the request carries the title and the messages unchanged |
| `Conversations.ActivePayloadOf` | frontend/redux/conversations.js:37-40 | the created conversation arrives active and otherwise as the server sent it |
| `Conversations.AddConversation` | frontend/redux/conversations.js:144-148 | the list grows by one and the new conversation is last; every earlier entry is inactive and otherwise unchanged |
| `Conversations.SetActiveConversation` | frontend/redux/conversations.js:149-159 | only `active` flags change; a falsy payload clears every flag; otherwise an entry is active iff the payload is a record whose id is the entry's id |
| `Conversations.SetActiveRecordSelectsExactlyOne` | frontend/redux/conversations.js:149-159 | when ids are unique, selecting a present id leaves exactly that conversation active |
| `Conversations.ReplaceFirst` | frontend/redux/conversations.js:159-162 | the length is kept; with no key, or no entry with the key, the list is unchanged; otherwise the first entry with the key becomes the payload |
| `Conversations.UpdateConversation` | frontend/redux/conversations.js:160-163 | the first entry with the payload's id is replaced by the payload; when no entry has that id the list is unchanged |
| `Conversations.CreateFulfilled` | frontend/redux/conversations.js:170-173 | the list grows by exactly one, the payload is last, and every earlier entry is inactive and otherwise unchanged |
| `Conversations.CreateLeavesOnlyNewActive` | frontend/redux/conversations.js:37-40 | after a create the new conversation is the only active one |
| `Conversations.ChangeTitleFulfilled` | frontend/redux/conversations.js:174-177 | fails iff no conversation has the id; otherwise only the title of the first entry with the id changes |
| `Conversations.DeleteFulfilled` | frontend/redux/conversations.js:178-180 | a conversation is in the result iff it was in the list and has another id |
| `Conversations.DeleteKeepsOrder` | frontend/redux/conversations.js:179 | a kept conversation stays in front of what is kept from the rest of the list |
| `Conversations.DeleteAppend` | frontend/redux/conversations.js:179 | deleting from a concatenation is deleting from each part, in order |
| `Conversations.DeleteAbsentIsIdentity` | frontend/redux/conversations.js:179 | deleting an id no conversation has leaves the list unchanged |
| `Conversations.DeleteIdempotent` | frontend/redux/conversations.js:179 | deleting twice is deleting once |
| `Conversations.AddMessageFulfilled` | frontend/redux/conversations.js:181-192 | fails when no conversation has the id; for the first conversation with the id it fails iff no version is active |
| `Conversations.AddMessageAppendsToActive` | frontend/redux/conversations.js:186-191 | the message is appended to the first active version of the first conversation with the id, and nothing else changes |
| `Conversations.AddVersionFulfilled` | frontend/redux/conversations.js:193-198 | the entry found under the payload's `conversation_id` is replaced; with no such field, or no entry with that id (index -1 writes no element), the list is unchanged |
| `Conversations.ActivateOnly` | frontend/redux/conversations.js:206-209 | exactly the chosen version is active, and no other field changes |
| `Conversations.SwitchVersionFulfilled` | frontend/redux/conversations.js:199-211 | fails when no conversation has the id; otherwise it fails iff the conversation has no version with the version id; the length is kept |
| `Conversations.SwitchVersionIn` | frontend/redux/conversations.js:204-209 | fails, as version-not-found, iff no version carries the id |
| `Conversations.SwitchVersionSpec` | frontend/redux/conversations.js:199-211 | other conversations are untouched; in the named one only `active` flags change, and a version is active iff it is the first with the version id |
| `Conversations.SwitchLeavesExactlyOneActive` | frontend/redux/conversations.js:199-211 | after a successful switch the conversation has exactly one active version |
| `Conversations.SelectConversationAsWritten` | frontend/components/sidebars/history/HistorySidebar.js:76-84 | selecting from the history list with a bare id keeps the list's length |
| `Conversations.SelectAsWrittenActivatesNothing` | frontend/components/sidebars/history/HistorySidebar.js:80 | with a bare id as payload, no conversation is active afterwards, whichever one was selected |
| `Conversations.SelectConversation` | frontend/redux/conversations.js:156-158 | with the record as payload, a conversation is active iff its id is the selected id |
| `Conversations.SelectConversationActivatesSelected` | frontend/redux/conversations.js:156-158 | when ids are unique, the selected conversation is the only active one |
| `CurrentConversation.StreamBase` | frontend/redux/currentConversation.js:26-29 | the messages kept while a reply streams: all but the last when the last is an assistant message, all of them otherwise |
| `CurrentConversation.AddMessage` | frontend/redux/currentConversation.js:25-33 | only the messages change and the payload ends them; if the last message and the payload are both assistant messages, the length is kept and the earlier messages are unchanged; otherwise the payload is appended |
| `CurrentConversation.AddAssistantMessages` | frontend/redux/currentConversation.js:25-33 | a non-empty run of assistant messages adds at most one message: the messages before a trailing reply stay, and the last payload ends the list |
| `CurrentConversation.ChangeTitle` | frontend/redux/currentConversation.js:34-36 | the title becomes the payload and no other field changes |
| `CurrentConversation.StartNewConversation` | frontend/redux/currentConversation.js:11-19 | the result has no messages, the title "mock title", the id and conversation id "mock id", the root message "mock message" and the parent version "mock version", and is active |
| `CurrentConversation.StartNewConversationIdempotent` | frontend/redux/currentConversation.js:37-39 | the result does not depend on the prior state, so starting twice is starting once |
| `ChatTypes.ViewOf` | frontend/redux/currentConversation.js:49-50 | the view spread from a version: every field of the version (id, conversation id, root message, messages, active flag, parent version), under the given title |
| `CurrentConversation.CreateFulfilled` | frontend/redux/currentConversation.js:47-51 | the view becomes the payload's first active version under the payload's title |
| `CurrentConversation.AddMessageFulfilled` | frontend/redux/currentConversation.js:52-55 | the length is kept; every mock-id message becomes the persisted message; every other message is unchanged |
| `CurrentConversation.ReconciliationLeavesNoMockIds` | frontend/redux/currentConversation.js:54 | when the server's id is not a mock id, no mock id is left after reconciliation |
| `CurrentConversation.AddVersionFulfilled` | frontend/redux/currentConversation.js:56-62 | the view becomes the payload's first active version, but keeps its own title |
| `ChatController.HasUserInput` | frontend/components/chat/Main.js:45 | true iff some message has the user role |
| `ChatController.CanRegenerate` | frontend/components/chat/Main.js:45-48 | true iff some user message exists, the last message is a non-empty assistant message, and no reply is streaming |
| `ChatController.CanStop` | frontend/components/chat/Main.js:46-49 | true iff a reply is streaming and the last message is a non-empty assistant message |
| `ChatController.CanGenerate` | frontend/components/chat/Main.js:315 | true iff the input is non-empty and no reply is streaming |
| `ChatController.StopAndRegenerateExclusive` | frontend/components/chat/Main.js:45-49 | stop and regenerate are never enabled together |
| `ChatController.ShouldGenerateTitle` | frontend/components/chat/Main.js:51-53 | the title is generated iff there are exactly two messages, no reply is streaming and the title is "mock title" |
| `ChatController.LastTwo` | frontend/components/chat/Main.js:81 | the last two messages, or all of them when there are fewer |
| `ChatController.TitleRequest` | frontend/components/chat/Main.js:81-90 | fails iff the last two messages lack a user message or lack an assistant message; otherwise it carries the content of a user message and of an assistant message among them |
| `ChatController.TitleOrFallback` | frontend/components/chat/Main.js:91-94 | the service's title, or "Error generating title" when the request failed |
| `ChatController.GenerateTitle` | frontend/components/chat/Main.js:80-103 | fails exactly when the title request cannot be built; otherwise the view takes the new title and the create request carries that title and the messages |
| `ChatController.TitleTriggerCreatesOnce` | frontend/components/chat/Main.js:51-53 | after a user turn and its reply the trigger leads to an accepted create request; unless the service answers "mock title", the trigger does not fire again |
| `ChatController.AddMessageToConversation` | frontend/components/chat/Main.js:262-275 | nothing is persisted iff the title is "mock title"; otherwise the post carries the conversation id, the role and the content, and is hidden iff asked or it is a user message sent while the view has exactly two messages |
| `ChatController.AddVersionToConversation` | frontend/components/chat/Main.js:277-287 | nothing under "mock title"; a truthy root id is used as given; otherwise the branch point is the last message, and the call fails iff there is none |
| `ChatController.LastIndexOfRole` | frontend/components/chat/Main.js:243-249 | the last index with the role, or None iff no message has the role |
| `ChatController.RegenerateAssistantResponse` | frontend/components/chat/Main.js:243-249 | does nothing iff there is no user message; otherwise the prompt is the content of the last user message |
| `ChatController.LocalMessage` | frontend/components/chat/Main.js:158 | a locally created message has a mock id, the role and content asked for, and no `versions` |
| `ChatController.StartResponse` | frontend/components/chat/Main.js:152-184 | starting a reply keeps the view's title and conversation id |
| `ChatController.StartUserMessage` | frontend/components/chat/Main.js:157-161 | a new user message: the model receives the current messages followed by the new message, and the view shows that list |
| `ChatController.StartRegenerateAssistant` | frontend/components/chat/Main.js:162-166 | regenerating: the model receives every message but the last, and the empty placeholder takes the place of a trailing assistant reply |
| `ChatController.StartRegenerateUser` | frontend/components/chat/Main.js:167-184 | editing a user message: the view is cut at the first message with the id, which becomes a new user message; the model receives that list and the placeholder follows it |
| `ChatController.RequestTurns` | frontend/components/chat/Main.js:193-194 | the model receives the role and content of every message, in order |
| `ChatController.Snapshots` | frontend/components/chat/Main.js:199-216 | one dispatched text per chunk, the last being the whole text |
| `ChatController.SnapshotsAreRunningTexts` | frontend/components/chat/Main.js:199-216 | the text dispatched after chunk i is the concatenation of chunks 0 to i |
| `ChatController.AssembleStream` | frontend/components/chat/Main.js:199-218 | every chunk dispatches the concatenation of the chunks so far, and the end of the stream dispatches the whole text once more |
| `ChatController.ProcessText` | frontend/components/chat/Main.js:257-260 | the view ends with an assistant message holding the text, after the messages a streamed reply keeps |
| `ChatController.StreamKeepsLast` | frontend/components/chat/Main.js:199-218 | a run of dispatches leaves only the last text, after the fixed messages |
| `ChatController.StreamLeavesOneReply` | frontend/components/chat/Main.js:199-218 | a completed stream leaves exactly one assistant reply, holding the concatenation of all chunks |
| `ChatController.StreamAfterUser` | frontend/components/chat/Main.js:199-218 | after a user message the streamed reply is appended and replaces nothing |
| `ChatController.UserTurnEndsWithReply` | frontend/components/chat/Main.js:152-218 | a user turn ends with the earlier messages, the user message, and one reply holding the whole stream |
| `ChatController.RegenerateReplacesReply` | frontend/components/chat/Main.js:162-218 | regenerating replaces the trailing reply by the new streamed text |
| `ChatController.HelloScenario` | frontend/components/chat/Main.js:152-218 | "Hello" in a fresh conversation, answered in three chunks, leaves exactly the user message "Hello" and the reply "Hi there" |
| `TextSplit.FirstOccurrenceFrom` | frontend/components/chat/Message.js:22 | the leftmost occurrence of the separator at or after a position, or None iff there is none |
| `TextSplit.Split` | frontend/components/chat/Message.js:22 | `String.prototype.split`: at least one piece, and no piece contains the separator |
| `TextSplit.SplitCutsLeftmost` | frontend/components/chat/Message.js:22 | every piece but the last is cut at the first occurrence of the separator after it |
| `TextSplit.SplitUnique` | frontend/components/chat/Message.js:22 | the split is the only list of pieces that rejoins to the input, is cut leftmost, and ends with a piece free of the separator |
| `TextSplit.SplitCons` | frontend/components/chat/Message.js:22 | a piece cut at its end comes off the front: splitting a + sep + b gives a, then the split of b |
| `TextSplit.SplitFourBackticks` | frontend/components/chat/Message.js:22 | "````" split on ``` gives "" and "`" |
| `TextSplit.SplitJoin` | frontend/components/chat/Message.js:22 | joining the pieces with the separator gives back the input |
| `TextSplit.SplitWithoutSeparator` | frontend/components/chat/Message.js:22 | a string without the separator splits into itself alone |
| `TextSplit.SplitLastIsSuffix` | frontend/components/chat/Message.js:22 | the last piece is a suffix of the input |
| `TextSplit.SplitCharCount` | frontend/components/chat/Message.js:7 | splitting on one character gives one more piece than the character's occurrences |
| `TextSplit.CountAppend` | frontend/components/chat/Message.js:7 | occurrences in a concatenation add up |
| `MessageRender.ParseInlineCode` | frontend/components/chat/Message.js:6-14 | one more piece than backticks; odd-index pieces are code and even-index pieces are text; rejoining with "`" gives back the line |
| `MessageRender.MessageParts` | frontend/components/chat/Message.js:22 | user content is one part equal to the content; other content is split on ``` into parts free of ```; rejoining gives back the content |
| `MessageRender.CodeBlockOf` | frontend/components/chat/Message.js:53-54 | the language has no newline; with a newline, language + "\n" + code rebuilds the part; without one, the whole part is the language and the code is empty |
| `MessageRender.CodeBlockLines` | frontend/components/chat/Message.js:53-54 | the first line and the rest rejoined with "\n" rebuild a part that has a newline |
| `MessageRender.NonEmptyLines` | frontend/components/chat/Message.js:49-51 | a line is kept iff it is a non-empty line of the input |
| `MessageRender.NonEmptyLinesOne` | frontend/components/chat/Message.js:49-51 | one line is kept iff it is not empty |
| `MessageRender.NonEmptyLinesAppend` | frontend/components/chat/Message.js:49-51 | filtering consecutive lists of lines filters each, in order |
| `MessageRender.ProseSegments` | frontend/components/chat/Message.js:48-51 | one paragraph per non-empty line, whose pieces rejoined with "`" give that line; a user's paragraph is one plain text; an assistant's pieces alternate text and code, starting with text |
| `MessageRender.ProseOfLine` | frontend/components/chat/Message.js:48-51 | a part without a newline renders nothing when empty and one paragraph of its line otherwise |
| `MessageRender.ProseOfFirstLine` | frontend/components/chat/Message.js:48-51 | the paragraphs of a part are those of its first line followed by those of the rest, so line order is kept |
| `MessageRender.ShowsVersionIndicator` | frontend/components/chat/Message.js:28-42 | fails iff the message has no `versions`; otherwise the indicator shows iff there is more than one version |
| `MessageRender.CodeBlocksAppend` | frontend/components/chat/Message.js:47-56 | code blocks in a concatenation of segments add up |
| `MessageRender.ProseHasNoCodeBlocks` | frontend/components/chat/Message.js:48-51 | a prose part renders no code block |
| `MessageRender.RenderPartsCodeBlocks` | frontend/components/chat/Message.js:47-56 | rendering parts from an index yields one code block per odd-index part |
| `MessageRender.UserMessageIsPlainProse` | frontend/components/chat/Message.js:22 | a user message renders as plain paragraphs of its non-empty lines, with no code block |
| `MessageRender.AssistantCodeBlockCount` | frontend/components/chat/Message.js:47-56 | an assistant message has as many code blocks as odd-index parts of its split on ``` |
| `Validation.AnyChar` | frontend/utils/validation.js:10-24 | true iff some character satisfies the test |
| `Validation.Utf16Length` | frontend/utils/validation.js:7 | a string's `length` in UTF-16 code units lies between its number of characters and twice that |
| `Validation.Utf16LengthAppend` | frontend/utils/validation.js:7 | code units of a concatenation add up |
| `Validation.Utf16LengthBmp` | frontend/utils/validation.js:7 | below U+10000 the length in code units is the number of characters |
| `Validation.IsLongEnough` | frontend/utils/validation.js:6-8 | 8 characters always suffice and fewer than 4 never do; without characters beyond U+FFFF the length test is exactly "at least 8 characters" |
| `Validation.EmojiLength` | frontend/utils/validation.js:6-8 | four emoji beyond U+FFFF are long enough, three are not |
| `Validation.HasUppercase` | frontend/utils/validation.js:10-12 | true iff some character is in A-Z |
| `Validation.HasLowercase` | frontend/utils/validation.js:14-16 | true iff some character is in a-z |
| `Validation.HasNumber` | frontend/utils/validation.js:18-20 | true iff some character is in 0-9 |
| `Validation.HasSpecialCharacter` | frontend/utils/validation.js:22-24 | true iff some character is one of ! @ # $ % ^ & * |
| `Validation.ValidatePassword` | frontend/utils/validation.js:26-32 | true iff the password has at least 8 UTF-16 code units and an upper-case letter, a lower-case letter, a digit and a special character |
| `Validation.ValidPasswordStaysValid` | frontend/utils/validation.js:26-32 | appending characters to a valid password keeps it valid |
| `Validation.SamplePasswordIsValid` | frontend/utils/validation.js:26-32 | "Abcdef1!" is accepted; "abcdef1!", without an upper-case letter, is not |
| `Validation.ValidateEmail` | frontend/utils/validation.js:1-4 | an accepted address contains an '@' |
| `Validation.HostNameEnding` | frontend/utils/validation.js:2 | a host name ends with at least two ASCII letters |
| `Validation.AcceptedEmailEnding` | frontend/utils/validation.js:1-4 | an accepted address ends with ']' or with two ASCII letters |
| `Branching.VersionIndex` | backend/chat/utils/branching.py:81-85 | the first version with the id, or None iff no version has it |
| `Branching.GetConversationVersion` | backend/chat/utils/branching.py:81-85 | returns the first version whose id matches; None iff no version's id matches |
| `Branching.SetConversationVersion` | backend/chat/utils/branching.py:177-182 | raises iff no version has the id; otherwise replaces the first version with the id |
| `Branching.SetOwnVersionIsIdentity` | backend/chat/utils/branching.py:58-59 | when ids are unique, writing a version back under its own id changes nothing |
| `Branching.ScanPairsSpec` | backend/chat/utils/branching.py:108-119 | the pair scan returns the pair at n-1 when the first n-1 pairs agree; at the first mismatch it returns that pair iff the parent message's id is the child's root message, and raises otherwise |
| `Branching.ScanPairsBounded` | backend/chat/utils/branching.py:108-119 | a found index lies inside the compared range; the only error is a content mismatch |
| `Branching.BranchingIndex` | backend/chat/utils/branching.py:104-122 | no index iff a version has no messages; otherwise the index of the pair at n-1 when the first n-1 pairs agree; at the first mismatch, that index if the parent message is the child's root message, else a content mismatch |
| `Branching.GetBranchingMessages` | backend/chat/utils/branching.py:104-122 | fails exactly when the index search does; two empty cells when a version has no messages; otherwise the child's and the parent's message at the branching index |
| `Branching.MessageHasVersion` | backend/chat/utils/branching.py:141-145 | true iff the cell is a message and some entry of its `versions` has the id; an empty cell has none |
| `Branching.BisectRightSplits` | backend/chat/utils/branching.py:161 | on a sorted list, the search returns the point with every key at or below the new key before it and every larger key after it |
| `Branching.InsertAt` | backend/chat/utils/branching.py:161 | one element inserted at a position, the others shifted; sortedness is kept when the position separates the smaller and the larger keys |
| `Branching.Insort` | backend/chat/utils/branching.py:161 | the list grows by one, the stamp is inserted at one position with the rest in order, and its id joins the ids |
| `Branching.InsortSorted` | backend/chat/utils/branching.py:161 | a sorted list stays sorted, and the new stamp lands after every equal key |
| `Branching.MessageInsortVersion` | backend/chat/utils/branching.py:159-161 | an empty cell stays empty; a message keeps its id and content, and the stamp is inserted into its `versions` |
| `Branching.InsortAt` | backend/chat/utils/branching.py:159-161 | only the one message's `versions` change, by inserting the stamp |
| `Branching.ParentIndex` | backend/chat/utils/branching.py:43-46 | the parent is the version whose id is `str` of the parent id; None iff no version has that id |
| `Branching.BranchStep` | backend/chat/utils/branching.py:39-59 | a version whose parent is not found is skipped; otherwise the step keeps the number of versions |
| `Branching.NullParentSkipped` | backend/chat/utils/branching.py:43-46 | a null parent is looked up as "None", which no real id is, so the version is skipped |
| `BranchingProofs.GrowsTransitive` | backend/chat/utils/branching.py:39-59 | two annotation steps that only add version ids compose into one that only adds them |
| `BranchingProofs.ShapeKeepsBranchingIndex` | backend/chat/utils/branching.py:104-122 | the branching point depends only on ids and contents, not on the `versions` lists already recorded |
| `BranchingProofs.InsortAtGrows` | backend/chat/utils/branching.py:159-161 | inserting a stamp adds its id, loses no id, and keeps every list sorted |
| `BranchingProofs.InsortIfMissingGrows` | backend/chat/utils/branching.py:51-54 | the guarded insert adds the id, loses no id, and keeps every list sorted |
| `BranchingProofs.RecordBranchSpec` | backend/chat/utils/branching.py:51-56 | after the four inserts, both branch messages hold both version ids; no id is lost and the lists stay sorted |
| `BranchingProofs.BranchStepSpec` | backend/chat/utils/branching.py:39-59 | a step raises, as a content mismatch, iff the version has a parent and the two cannot be aligned; otherwise it records the branch, loses no id and keeps the lists sorted |
| `BranchingProofs.StepOnShape` | backend/chat/utils/branching.py:39-59 | steps taken after earlier steps fail and record exactly as they would on the input |
| `BranchingProofs.BranchLoopFails` | backend/chat/utils/branching.py:39-59 | the loop raises iff some version still to pop fails to align |
| `BranchingProofs.BranchLoopGrows` | backend/chat/utils/branching.py:39-59 | a successful loop loses no id and keeps the lists sorted |
| `BranchingProofs.BranchLoopRecords` | backend/chat/utils/branching.py:39-59 | after a successful loop every version's branch is recorded |
| `BranchingProofs.AnnotateBranchesSpec` | backend/chat/utils/branching.py:38-59 | the first pass raises iff some version with a found parent cannot be aligned with it; otherwise the branch messages of every version and its parent hold both ids, no id is lost, and sorted lists stay sorted |
| `BranchingChains.Consecutive` | backend/chat/utils/branching.py:234-235 | the neighbouring pairs of a list; a list of length at most one gives none |
| `BranchingChains.ShortListAddsNoPairs` | backend/chat/utils/branching.py:233-238 | a `versions` list of length at most one contributes no pair and no node |
| `BranchingChains.AddPairsKeys` | backend/chat/utils/branching.py:233-242 | the nodes are exactly the ids of both ends of every pair |
| `BranchingChains.AddPairsEdges` | backend/chat/utils/branching.py:233-242 | an edge exists iff some pair goes from the one id to the other |
| `BranchingChains.BuildGraph` | backend/chat/utils/branching.py:229-242 | every id with a neighbour in its list is a node, stored under a stamp carrying that id |
| `BranchingChains.BuildGraphStamps` | backend/chat/utils/branching.py:237-238 | every node's stamp is taken from one of the lists |
| `BranchingChains.BuildGraphEdges` | backend/chat/utils/branching.py:233-242 | an edge goes from a to b iff b directly follows a in some list |
| `BranchingChains.ReachesLinked` | backend/chat/utils/branching.py:233-242 | a path of graph edges is a path along neighbouring pairs of the lists |
| `BranchingChains.LinkedReaches` | backend/chat/utils/branching.py:233-242 | a path along neighbouring pairs of the lists is a path of graph edges |
| `BranchingChains.WalkFrom` | backend/chat/utils/branching.py:256-267 | the depth-first walk from a start node yields a non-empty chain starting there, of stamps stored in the graph and reachable from the start, adding no id twice, each after a node with an edge to it, and holding every node reachable from the start that was not visited before |
| `BranchingChains.WalkChains` | backend/chat/utils/branching.py:249-267 | every chain is non-empty, starts at a node with no incoming edge, holds only nodes reachable from its start, each after a node of the chain with an edge to it, and holds every node reachable from its start that no earlier chain holds; the chains share no id; every start node is covered; the covered ids are closed under edges |
| `BranchingChains.GetVersionTimeIdChain` | backend/chat/utils/branching.py:229-269 | chains are non-empty, start at an id nothing follows, and hold exactly the ids linked to their start that no earlier chain holds, each after an id of the chain it follows in some list; stamps come from the lists and no id is listed twice; every such start is covered; whatever follows a covered id is covered |
| `BranchingChains.MeetingListsMisSplit` | backend/chat/utils/branching.py:249-267 | for the lists [a, x, y] and [b, x, z], the chains [a, z] and [b, x, y] are not a possible result: the walk from `a` reaches `x` first |
| `BranchingChains.MeetingListsFirstChain` | backend/chat/utils/branching.py:249-267 | for those lists, in every order, the first chain starts at `a` or `b` and holds `x`, `y` and `z` too |
| `BranchingChains.SeparateListsAreNotLinked` | backend/chat/utils/branching.py:229-269 | for the lists [a, b] and [c, d], the single chain [a, b, c, d] is not a possible result |
| `BranchingChains.GetVersionChainMatches` | backend/chat/utils/branching.py:288-296 | at most one match per candidate; each match pairs a candidate's id with the first chain that contains all of the candidate's version ids |
| `BranchingChains.MatchesAppend` | backend/chat/utils/branching.py:288-296 | the matches of consecutive candidate lists are the matches of each, in order |
| `BranchingChains.MatchesOfOne` | backend/chat/utils/branching.py:288-296 | one candidate gives one match, with the first chain covering it, or none when no chain covers it |
| `BranchingChains.MatchesComplete` | backend/chat/utils/branching.py:288-296 | every candidate that some chain covers gets a match |
| `BranchingChains.HolderIndex` | backend/chat/utils/branching.py:209-212 | the first version holding the message id at the row, or None iff none does |
| `BranchingChains.ReplaceChainSpec` | backend/chat/utils/branching.py:206-212 | one replacement sets the chain on the first version holding the id at the row and changes nothing else |
| `BranchingChains.ApplyMatchesShape` | backend/chat/utils/branching.py:205-212 | the replacement loop changes only `versions` lists, and only in its own row |
| `BranchingChains.ApplyMatchesRow` | backend/chat/utils/branching.py:205-212 | applying the matches last first leaves, at each holder, the chain of the earliest match for its id |
| `BranchingChains.CandidatesSound` | backend/chat/utils/branching.py:199 | every candidate is a message of the row with a non-empty `versions` list |
| `BranchingChains.CandidatesComplete` | backend/chat/utils/branching.py:199 | every message of the row with a non-empty `versions` list is a candidate |
| `BranchingChains.CandidatesAppend` | backend/chat/utils/branching.py:199 | the candidates of consecutive versions are the candidates of each, in version order |
| `BranchingChains.CandidatesOfOne` | backend/chat/utils/branching.py:199 | one version contributes its message at the row iff it has one with a non-empty `versions` list |
| `BranchingChains.RowCount` | backend/chat/utils/branching.py:195 | `zip_longest` produces as many rows as the longest version has messages |
| `BranchingChains.ChainRow` | backend/chat/utils/branching.py:199-212 | one row's pass is the replacement loop applied to the matches of the row's candidates against chains of their `versions` lists |
| `BranchingChains.MakeBranchedConversationChains` | backend/chat/utils/branching.py:185-212 | only `versions` lists change; every row is what one row's pass makes of the input's row; each list is kept or becomes a chain of stamps from the same row, with no id twice, covering the ids of a message with the same id |
| `BranchingChains.HolderGetsCoveringChain` | backend/chat/utils/branching.py:199-212 | the first version holding a message with a non-empty `versions` list receives the first chain covering that message, when one does |
| `BranchingChains.ChainPassCoversHolders` | backend/chat/utils/branching.py:185-212 | after the pass, such a first holder carries the first chain of its row that covers its message |
| `BranchingChains.MeetingPassRewrites` | backend/chat/utils/branching.py:197-212 | two versions whose first messages record [a, x, y] and [b, x, z]: after the pass one of the two messages holds a chain with all of `x`, `y` and `z` and its own start |
| `BranchingChains.MeetingPassIsNotIdentity` | backend/chat/utils/branching.py:197-212 | so for those versions, leaving the input unchanged does not satisfy the chain pass's contract |
| `BranchingChains.MakeBranchedConversation` | backend/chat/utils/branching.py:38-62 | raises, as a content mismatch, iff some version with a found parent cannot be aligned with it; otherwise only `versions` lists change; without chains every branch message of a version and its parent holds both ids and no id is lost; with chains the result is the chain pass applied to the annotated versions |

Members without a row are helpers whose properties are stated by the members
named here:
- `Branching.AnnotateBranches`, `Branching.BranchLoop`: `BranchingProofs.AnnotateBranchesSpec` and the `BranchLoop` lemmas.
- `Branching.ScanPairs`: `Branching.ScanPairsSpec`.
- `Branching.BisectRight`: `Branching.BisectRightSplits`.
- `Branching.RecordBranch`: `BranchingProofs.RecordBranchSpec`.
- `Branching.InsortIfMissing`: `BranchingProofs.InsortIfMissingGrows`.
- `BranchingChains.AddPairs`: `AddPairsKeys` and `AddPairsEdges`.
- `BranchingChains.StartNodes`: `WalkChains`.
- `BranchingChains.ClosedUnderReach`, `FirstReachedAppend`, `WalkedFromStartsAppend`, `WalkCoreStep`, `WalkReachStep`, `EdgeOrderStep`: the loop steps behind `WalkFrom` and `WalkChains`.
- `BranchingChains.MeetingPairs`, `MeetingStarts`, `MeetingLinked`, `MeetingIds`, `MeetingCandidates`, `MeetingRowRewrites`, `RowIsHolderCell`: steps of the `Meeting` lemmas.
- `BranchingChains.Candidates`: `CandidatesSound`, `CandidatesComplete`, `CandidatesAppend` and `CandidatesOfOne`.
- `BranchingChains.ReplaceChain`: `ReplaceChainSpec`.
- `BranchingChains.ApplyMatches`: `ApplyMatchesShape` and `ApplyMatchesRow`.
- `BranchingChains.RowStep` and the lemmas around it: the loop step behind `MakeBranchedConversationChains`.
- `MessageRender.RenderParts`, `MessageRender.RenderMessage`: `RenderPartsCodeBlocks`, `UserMessageIsPlainProse` and `AssistantCodeBlockCount`.
- `MessageRender.Paragraphs`: `ProseSegments`, `ProseOfLine` and `ProseOfFirstLine`.
- `CurrentConversation.AddMessages`: `AddAssistantMessages`.
- `ChatController.StreamInto`: `StreamLeavesOneReply`.
- `ChatController.Concat`: `SnapshotsAreRunningTexts` and `AssembleStream`.
- `TextSplit.Join`: `SplitJoin` and `SplitUnique`.
- `TextSplit.Count`: `SplitCharCount` and `CountAppend`.

## Left out

- Asynchronous orchestration in `frontend/components/chat/Main.js` is not modelled, because it is concurrency: awaits, promise chains, `versionUpdatePromise` and React state closures.
- `abortResponse` (Main.js:230-241) is left out. It aborts the request, clears the streaming flag, persists the partial reply and reloads the branched conversation, all of which are asynchronous effects or calls to the missing thunk.
- Network requests are not modelled. This covers every thunk's HTTP call, `rejectWithValue` on failure, the title service and the chat stream. Their answers are parameters: `FetchThunk`'s response, `GenerateTitle`'s reply, `AssembleStream`'s chunks.
- UTF-8 decoding by `TextDecoder` is not modelled; the chunks are already-decoded strings.
- `uuidv4` is not modelled; the suffix of a mock id is a parameter.
- Main.js imports `addConversationVersionThunk` and `getConversationBranchedThunk` (Main.js:10,12), but `frontend/redux/conversations.js` does not define them. `ChatController.AddVersionToConversation` therefore returns the argument it would pass, and nothing models what the missing thunk would do.
- The hidden flag is computed only up to the argument of `addConversationMessageThunk`, because the thunk posts just the role and the content (conversations.js:77-84).
- The dispatch of `updateConversation` with the current view in Main.js's effect (Main.js:43) is not modelled. The view's `id` is a version id, so in the list the call normally replaces nothing, which is the `UpdateConversation` case for an absent id.
- The `MessageTypes` value is a datatype, so the `default: throw` branch (Main.js:181-182) cannot arise.
- `MessageRender.MessageParts`: a message's `content` is typed as a string, so the `try`/`catch` around the split (Message.js:21-26), which logs and renders nothing when `content` is not a string, cannot arise.
- The version-indicator label `n/n` and every other piece of JSX, styling, scrolling and input handling are left out, because they only affect display.
- `ChatController.StartResponse`: its ensures says only that the title and the conversation id are kept. `StartUserMessage`, `StartRegenerateAssistant` and `StartRegenerateUser` state the message lists for each kind.
- `CurrentConversation.CreateFulfilled`: requires the payload to have an active version. Without one the source spreads `undefined` and the view loses every version field.
- `CurrentConversation.AddVersionFulfilled`: requires the payload to have an active version, for the same reason.
- `CurrentConversation.SetConversation` and `Conversations.FetchFulfilled` replace the state with the payload and carry no contract of their own. `FetchReplacesWithInactive` states the fetch.
- `Conversations.SelectConversationAsWritten`: its ensures states only the length. `SelectAsWrittenActivatesNothing` states the effect.
- `Validation.ValidateEmail`: its ensures states only that an accepted address contains an '@'. The full regular expression is the body's grammar of local part, '@' and domain, and `AcceptedEmailEnding` states its ending. The grammar follows the regular expression's structure, but backtracking subtleties of the JavaScript engine are not proved equivalent.
- `Branching.BranchStep`: its ensures covers the skip and the length. `BranchingProofs.BranchStepSpec` states the rest.
- `Branching.RecordBranch` and `Branching.BisectRight` carry only size facts. `BranchingProofs.RecordBranchSpec` and `Branching.BisectRightSplits` state what they compute.
- `BranchingChains.MakeBranchedConversation`: requires unique version ids. Version ids are database primary keys, and the source's write-back relies on finding each version under its own id.
- Python aliasing is not modelled in general. The popped versions are the same objects as the conversation's, which the model reproduces by writing them back. Messages of different versions are assumed to be distinct objects, as serialized data is.
- `BranchingChains.GetVersionTimeIdChain`: does not fix which chain comes first or the order of ids inside a chain beyond "after an id it follows". Both depend on the iteration order of Python sets, which the model leaves open. It states what holds for every order: given the order of starts, the id set of each chain is fixed. `MakeBranchedConversationChains` states each row's result relative to such chains.
- `created_at` is an integer key, not an ISO string, because only its order is used.
- Django serializers, views, models, authentication and the OpenAI wrappers are outside this model.

## Findings

| source | as written | input that shows it | evidently intended | confidence | as-written member | corrected member |
|---|---|---|---|---|---|---|
| frontend/components/sidebars/history/HistorySidebar.js:80 | passes the bare id `selectedConversation.id` to `setActiveConversation`, whose reducer compares each id with `payload.id` (frontend/redux/conversations.js:157); a string has no `id` field, so every conversation becomes inactive | a list with one conversation of id "c1"; selecting "c1" leaves no conversation active | pass the conversation record, so the selected conversation becomes the only active one | not executed | `Conversations.SelectConversationAsWritten` (with `SelectAsWrittenActivatesNothing`) | `Conversations.SelectConversation` (with `SelectConversationActivatesSelected`) |
