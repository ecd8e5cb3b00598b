/**
 * The decision logic of the chat window (`frontend/components/chat/Main.js`),
 * as pure functions of the current view, the streaming flag and the user's
 * input.  Network replies and random UUIDs are parameters.
 */
module ChatController {
  import opened Wrappers
  import opened Seqs
  import opened Constants
  import opened ChatTypes
  import opened MockIds
  import Conversations
  import opened CurrentConversation

  datatype ControllerError =
    | NoLastMessage        // `messages[messages.length - 1].id` of an empty list
    | NoTitleMessage       // `find(...).content` found no user or no assistant message

  // ------------------------------------------------------- enable predicates

  /** `currMessages.some(m => m.role === UserRole)`. */
  function HasUserInput(ms: seq<Message>): (r: bool)
    ensures r <==> exists i :: 0 <= i < |ms| && ms[i].role == User
  {
    FindIndex(ms, (m: Message) => m.role == User).Some?
  }

  /** The last message is a non-empty assistant reply. */
  predicate HasChatResponse(ms: seq<Message>) {
    |ms| > 0 && ms[|ms| - 1].role == Assistant && ms[|ms| - 1].content != ""
  }

  /** Whether the regenerate button is enabled. */
  function CanRegenerate(ms: seq<Message>, isStreaming: bool): (r: bool)
    ensures r <==> (exists i :: 0 <= i < |ms| && ms[i].role == User)
                   && |ms| > 0 && ms[|ms| - 1].role == Assistant && ms[|ms| - 1].content != ""
                   && !isStreaming
  {
    HasUserInput(ms) && HasChatResponse(ms) && !isStreaming
  }

  /** Whether the stop button is enabled. */
  function CanStop(ms: seq<Message>, isStreaming: bool): (r: bool)
    ensures r <==> isStreaming && |ms| > 0 && ms[|ms| - 1].role == Assistant && ms[|ms| - 1].content != ""
  {
    isStreaming && HasChatResponse(ms)
  }

  /** Whether the generate button is enabled: `disabled: !userInput || isStreaming`. */
  function CanGenerate(userInput: string, isStreaming: bool): (r: bool)
    ensures r <==> |userInput| > 0 && !isStreaming
  {
    !(userInput == "" || isStreaming)
  }

  /** Stop and regenerate are never enabled together. */
  lemma StopAndRegenerateExclusive(ms: seq<Message>, isStreaming: bool)
    ensures !(CanStop(ms, isStreaming) && CanRegenerate(ms, isStreaming))
  {
  }

  // -------------------------------------------------------- title generation

  /** The effect's trigger: two messages, not streaming, and no title yet. */
  function ShouldGenerateTitle(v: View, isStreaming: bool): (r: bool)
    ensures r ==> v.title == MockTitle && |v.messages| == 2 && !isStreaming
    ensures !isStreaming && v.title == MockTitle && |v.messages| == 2 ==> r
  {
    |v.messages| == 2 && !isStreaming && v.title == MockTitle
  }

  /** The title request body: the user and assistant contents among the last two messages. */
  datatype TitleQuestion = TitleQuestion(userQuestion: string, chatbotResponse: string)

  /** `messages.slice(-2)`. */
  function LastTwo(ms: seq<Message>): (r: seq<Message>)
    ensures |r| == if |ms| < 2 then |ms| else 2
    ensures forall i :: 0 <= i < |r| ==> r[i] == ms[|ms| - |r| + i]
  {
    if |ms| < 2 then ms else ms[|ms| - 2..]
  }

  function TitleRequest(ms: seq<Message>): (r: Result<TitleQuestion, ControllerError>)
    ensures r.Err? <==> (forall i :: 0 <= i < |LastTwo(ms)| ==> LastTwo(ms)[i].role != User)
                        || (forall i :: 0 <= i < |LastTwo(ms)| ==> LastTwo(ms)[i].role != Assistant)
    ensures r.Ok? ==> exists i :: 0 <= i < |LastTwo(ms)| && LastTwo(ms)[i].role == User
                                  && LastTwo(ms)[i].content == r.value.userQuestion
    ensures r.Ok? ==> exists i :: 0 <= i < |LastTwo(ms)| && LastTwo(ms)[i].role == Assistant
                                  && LastTwo(ms)[i].content == r.value.chatbotResponse
  {
    var last := LastTwo(ms);
    match FindIndex(last, (m: Message) => m.role == User)
    case None => Err(NoTitleMessage)
    case Some(u) =>
      match FindIndex(last, (m: Message) => m.role == Assistant)
      case None => Err(NoTitleMessage)
      case Some(a) => Ok(TitleQuestion(last[u].content, last[a].content))
  }

  /** The generated title, or the fixed fallback when the title request failed. */
  function TitleOrFallback(reply: Option<string>): (r: string)
    ensures reply.Some? ==> r == reply.value
    ensures reply.None? ==> r == "Error generating title"
  {
    match reply
    case Some(t) => t
    case None => TitleFallback
  }

  /** What `generateTitle` dispatches: the new title, then the create thunk. */
  datatype TitleOutcome = TitleOutcome(view: View, create: Result<Conversations.NewConversation, string>)

  /**
   * `generateTitle`, given the title service's reply (`None` when it failed).
   * It fails before any request when the last two messages lack a user or an
   * assistant message.
   */
  function GenerateTitle(v: View, reply: Option<string>): (r: Result<TitleOutcome, ControllerError>)
    ensures r.Err? <==> TitleRequest(v.messages).Err?
    ensures r.Ok? ==> r.value.view == v.(title := TitleOrFallback(reply))
    ensures r.Ok? ==> r.value.create == Conversations.CreateConversationRequest(TitleOrFallback(reply), v.messages)
  {
    match TitleRequest(v.messages)
    case Err(e) => Err(e)
    case Ok(_) =>
      var title := TitleOrFallback(reply);
      Ok(TitleOutcome(ChangeTitle(v, title), Conversations.CreateConversationRequest(title, v.messages)))
  }

  /**
   * When the trigger fires on a user turn and its reply, the create request is
   * accepted, and unless the service itself answers "mock title" the trigger
   * does not fire again.
   */
  lemma TitleTriggerCreatesOnce(v: View, isStreaming: bool, reply: Option<string>)
    requires ShouldGenerateTitle(v, isStreaming)
    requires v.messages[0].role == User && v.messages[1].role == Assistant
    requires reply != Some(MockTitle)
    ensures GenerateTitle(v, reply).Ok?
    ensures GenerateTitle(v, reply).value.create.Ok?
    ensures !ShouldGenerateTitle(GenerateTitle(v, reply).value.view, isStreaming)
  {
    assert LastTwo(v.messages)[0].role == User;
    assert LastTwo(v.messages)[1].role == Assistant;
  }

  // ------------------------------------------------------------- persistence

  /** The `addConversationMessageThunk` argument. */
  datatype PostMessage = PostMessage(conversationId: string, role: Role, content: string, hidden: bool)

  /**
   * `addMessageToConversation`: nothing is persisted while the conversation is
   * unsaved; a user message persisted while the view has exactly two messages
   * is flagged hidden.
   */
  function AddMessageToConversation(v: View, content: string, role: Role, hidden: bool): (r: Option<PostMessage>)
    ensures r.None? <==> v.title == MockTitle
    ensures r.Some? ==> r.value.conversationId == v.conversationId && r.value.role == role && r.value.content == content
    ensures r.Some? ==> (r.value.hidden <==> hidden || (role == User && |v.messages| == 2))
  {
    if v.title == MockTitle then None
    else
      var flagged := if role == User && |v.messages| == 2 then true else hidden;
      Some(PostMessage(v.conversationId, role, content, flagged))
  }

  /** The `addConversationVersionThunk` argument. */
  datatype PostVersion = PostVersion(conversationId: string, rootMessageId: string)

  /**
   * `addVersionToConversation`: nothing under the mock title; without a
   * (truthy) root id the branch point is the last message, which must exist.
   */
  function AddVersionToConversation(v: View, rootMessageId: Option<string>): (r: Result<Option<PostVersion>, ControllerError>)
    ensures v.title == MockTitle ==> r == Ok(None)
    ensures v.title != MockTitle && rootMessageId.Some? && rootMessageId.value != "" ==>
              r == Ok(Some(PostVersion(v.conversationId, rootMessageId.value)))
    ensures v.title != MockTitle && (rootMessageId.None? || rootMessageId == Some("")) ==>
              (r.Err? <==> |v.messages| == 0)
              && (|v.messages| > 0 ==> r == Ok(Some(PostVersion(v.conversationId, v.messages[|v.messages| - 1].id))))
  {
    if v.title == MockTitle then Ok(None)
    else if rootMessageId.Some? && rootMessageId.value != "" then
      Ok(Some(PostVersion(v.conversationId, rootMessageId.value)))
    else if |v.messages| == 0 then Err(NoLastMessage)
    else Ok(Some(PostVersion(v.conversationId, v.messages[|v.messages| - 1].id)))
  }

  /** Index of the last message with the given role (`[...ms].reverse().find(...)`). */
  function LastIndexOfRole(ms: seq<Message>, role: Role): (r: Option<nat>)
    ensures r.Some? ==> r.value < |ms| && ms[r.value].role == role
                        && forall j :: r.value < j < |ms| ==> ms[j].role != role
    ensures r.None? <==> forall j :: 0 <= j < |ms| ==> ms[j].role != role
    decreases |ms|
  {
    if |ms| == 0 then None
    else if ms[|ms| - 1].role == role then Some(|ms| - 1)
    else LastIndexOfRole(ms[..|ms| - 1], role)
  }

  /**
   * `regenerateAssistantResponse`: does nothing when there is no user message;
   * otherwise regenerates, with the last user message's content as the prompt.
   */
  function RegenerateAssistantResponse(v: View): (r: Option<string>)
    ensures r.None? <==> forall j :: 0 <= j < |v.messages| ==> v.messages[j].role != User
    ensures r.Some? ==> exists i :: 0 <= i < |v.messages| && v.messages[i].role == User
                                    && v.messages[i].content == r.value
                                    && forall j :: i < j < |v.messages| ==> v.messages[j].role != User
  {
    match LastIndexOfRole(v.messages, User)
    case None => None
    case Some(i) => Some(v.messages[i].content)
  }

  // ------------------------------------------------------- starting a reply

  /** The messages sent to the model and the view after the placeholder is dispatched. */
  datatype Start = Start(sent: seq<Message>, view: View)

  /** A locally created message: a fresh mock id and no `versions` field. */
  function LocalMessage(role: Role, content: string, suffix: string): (m: Message)
    ensures IsMockId(m.id) && m.role == role && m.content == content && m.versions.None?
  {
    Message(GenerateMockId(suffix), role, content, None)
  }

  /**
   * The synchronous part of `generateResponse`: the message list sent to the
   * model and the view after its dispatches.  `suffix` and `editSuffix` are
   * the UUIDs of the new mock ids.
   */
  function StartResponse(v: View, kind: MessageType, prompt: string, messageId: string,
                         suffix: string, editSuffix: string): (r: Start)
    ensures r.view.title == v.title && r.view.conversationId == v.conversationId
  {
    match kind
    case UserMessage =>
      var m := LocalMessage(User, prompt, suffix);
      Start(v.messages + [m], AddMessage(v, m))
    case RegenerateAssistantMessage =>
      var sent := if |v.messages| == 0 then [] else v.messages[..|v.messages| - 1];
      Start(sent, AddMessage(v, LocalMessage(Assistant, "", suffix)))
    case RegenerateUserMessage =>
      // With no such id, `slice(0, 0)` is empty and `messages[-1] = ...` adds no element.
      var kept := match FindIndex(v.messages, (m: Message) => m.id == messageId)
                  case None => []
                  case Some(i) => v.messages[..i] + [LocalMessage(User, prompt, editSuffix)];
      var edited := SetConversation(v, v.(messages := kept));
      Start(kept, AddMessage(edited, LocalMessage(Assistant, "", suffix)))
  }

  /** A new user message: the model receives the current messages and the new one, which the view shows too. */
  lemma StartUserMessage(v: View, prompt: string, suffix: string)
    ensures var r := StartResponse(v, UserMessage, prompt, "", suffix, "");
            r.sent == v.messages + [LocalMessage(User, prompt, suffix)]
            && r.view.messages == r.sent
  {
  }

  /**
   * Regenerating the reply: the model receives every message but the last,
   * and the empty placeholder takes the place of a trailing reply.
   */
  lemma StartRegenerateAssistant(v: View, suffix: string)
    ensures var r := StartResponse(v, RegenerateAssistantMessage, "", "", suffix, "");
            r.sent == (if |v.messages| == 0 then [] else v.messages[..|v.messages| - 1])
            && (EndsWithAssistant(v.messages) ==>
                  r.view.messages == v.messages[..|v.messages| - 1] + [LocalMessage(Assistant, "", suffix)])
  {
  }

  /**
   * Editing a user message: the view is cut at the first message with the id,
   * which becomes a new user message; the placeholder follows it.
   */
  lemma StartRegenerateUser(v: View, prompt: string, messageId: string, suffix: string, editSuffix: string, i: nat)
    requires i < |v.messages| && v.messages[i].id == messageId
    requires forall j :: 0 <= j < i ==> v.messages[j].id != messageId
    ensures var r := StartResponse(v, RegenerateUserMessage, prompt, messageId, suffix, editSuffix);
            r.sent == v.messages[..i] + [LocalMessage(User, prompt, editSuffix)]
            && r.view.messages == r.sent + [LocalMessage(Assistant, "", suffix)]
  {
    assert FindIndex(v.messages, (m: Message) => m.id == messageId) == Some(i);
  }

  /** A message as the model receives it: role and content only. */
  datatype Turn = Turn(role: Role, content: string)

  function RequestTurns(ms: seq<Message>): (r: seq<Turn>)
    ensures |r| == |ms|
    ensures forall i :: 0 <= i < |ms| ==> r[i].role == ms[i].role && r[i].content == ms[i].content
  {
    seq(|ms|, i requires 0 <= i < |ms| => Turn(ms[i].role, ms[i].content))
  }

  // --------------------------------------------------------------- streaming

  /** The decoded text received so far: `data += chunk`, left to right. */
  function Concat(chunks: seq<string>): string
    decreases |chunks|
  {
    if |chunks| == 0 then "" else Concat(chunks[..|chunks| - 1]) + chunks[|chunks| - 1]
  }

  /** The text dispatched after each chunk: the whole text so far. */
  function Snapshots(chunks: seq<string>): (r: seq<string>)
    ensures |r| == |chunks|
    ensures |chunks| > 0 ==> r[|chunks| - 1] == Concat(chunks)
    decreases |chunks|
  {
    if |chunks| == 0 then [] else Snapshots(chunks[..|chunks| - 1]) + [Concat(chunks)]
  }

  /** Each snapshot is the concatenation of the chunks up to and including its own. */
  lemma {:induction false} SnapshotsAreRunningTexts(chunks: seq<string>)
    ensures forall i :: 0 <= i < |chunks| ==> Snapshots(chunks)[i] == Concat(chunks[..i + 1])
    decreases |chunks|
  {
    if |chunks| > 0 {
      var prefix := chunks[..|chunks| - 1];
      SnapshotsAreRunningTexts(prefix);
      forall i | 0 <= i < |chunks|
        ensures Snapshots(chunks)[i] == Concat(chunks[..i + 1])
      {
        if i < |prefix| {
          assert prefix[..i + 1] == chunks[..i + 1];
        } else {
          assert chunks[..i + 1] == chunks;
        }
      }
    }
  }

  /**
   * The read loop of `generateResponse`: each chunk appends to `data` and
   * `processText(data)` dispatches it; at the end of the stream the final
   * text is dispatched once more.
   */
  method AssembleStream(chunks: seq<string>) returns (dispatched: seq<string>)
    ensures |dispatched| == |chunks| + 1
    ensures forall i :: 0 <= i < |chunks| ==> dispatched[i] == Concat(chunks[..i + 1])
    ensures dispatched[|chunks|] == Concat(chunks)
    ensures dispatched == Snapshots(chunks) + [Concat(chunks)]
  {
    var data := "";
    dispatched := [];
    var n := 0;
    while n < |chunks|
      invariant 0 <= n <= |chunks|
      invariant data == Concat(chunks[..n])
      invariant dispatched == Snapshots(chunks[..n])
    {
      SnapshotStep(chunks, n);
      data := data + chunks[n];
      dispatched := dispatched + [data];
      n := n + 1;
    }
    assert chunks[..n] == chunks;
    SnapshotsAreRunningTexts(chunks);
    dispatched := dispatched + [data];
  }

  /** One more chunk: one more snapshot, the old text followed by the chunk. */
  lemma SnapshotStep(chunks: seq<string>, n: nat)
    requires n < |chunks|
    ensures Concat(chunks[..n + 1]) == Concat(chunks[..n]) + chunks[n]
    ensures Snapshots(chunks[..n + 1]) == Snapshots(chunks[..n]) + [Concat(chunks[..n + 1])]
  {
    assert chunks[..n + 1][..n] == chunks[..n];
  }

  /** `processText`: an assistant message with the text so far, dispatched through `addMessage`. */
  function ProcessText(v: View, data: string, suffix: string): (r: View)
    ensures r.messages == StreamBase(v.messages) + [LocalMessage(Assistant, data, suffix)]
  {
    AddMessage(v, LocalMessage(Assistant, data, suffix))
  }

  /** The dispatched texts as the assistant messages `processText` builds. */
  function StreamMessages(texts: seq<string>, suffixOf: nat -> string): (r: seq<Message>)
    ensures |r| == |texts|
    ensures forall i :: 0 <= i < |texts| ==> r[i] == LocalMessage(Assistant, texts[i], suffixOf(i))
  {
    seq(|texts|, i requires 0 <= i < |texts| => LocalMessage(Assistant, texts[i], suffixOf(i)))
  }

  /** The view after every `processText` dispatch of a completed stream. */
  function StreamInto(v: View, chunks: seq<string>, suffixOf: nat -> string): View {
    AddMessages(v, StreamMessages(Snapshots(chunks) + [Concat(chunks)], suffixOf))
  }

  /** A run of `processText` dispatches leaves only the last text, after the fixed messages. */
  lemma {:induction false} StreamKeepsLast(v: View, texts: seq<string>, suffixOf: nat -> string)
    requires |texts| > 0
    ensures var r := AddMessages(v, StreamMessages(texts, suffixOf));
            r.(messages := v.messages) == v
            && r.messages == StreamBase(v.messages) + [LocalMessage(Assistant, texts[|texts| - 1], suffixOf(|texts| - 1))]
  {
    var ms := StreamMessages(texts, suffixOf);
    assert forall i :: 0 <= i < |ms| ==> ms[i].role == Assistant;
    AddAssistantMessages(v, ms);
  }

  /**
   * A completed stream leaves exactly one assistant reply, holding the
   * concatenation of all chunks, after the messages that precede it.
   */
  lemma {:induction false} StreamLeavesOneReply(v: View, chunks: seq<string>, suffixOf: nat -> string)
    ensures var r := StreamInto(v, chunks, suffixOf);
            r.(messages := v.messages) == v
            && r.messages == StreamBase(v.messages) + [LocalMessage(Assistant, Concat(chunks), suffixOf(|chunks|))]
  {
    var texts := Snapshots(chunks) + [Concat(chunks)];
    assert |texts| == |chunks| + 1 && texts[|chunks|] == Concat(chunks);
    StreamKeepsLast(v, texts, suffixOf);
  }

  /**
   * Sending a user message and streaming the reply: the view ends with the
   * user message followed by one assistant message holding the whole reply.
   */
  lemma {:induction false} UserTurnEndsWithReply(v: View, prompt: string, suffix: string, chunks: seq<string>, suffixOf: nat -> string)
    ensures var s := StartResponse(v, UserMessage, prompt, "", suffix, "");
            StreamInto(s.view, chunks, suffixOf).messages
              == v.messages + [LocalMessage(User, prompt, suffix), LocalMessage(Assistant, Concat(chunks), suffixOf(|chunks|))]
  {
    var s := StartResponse(v, UserMessage, prompt, "", suffix, "");
    StartUserMessage(v, prompt, suffix);
    StreamAfterUser(s.view, v.messages, LocalMessage(User, prompt, suffix), chunks, suffixOf);
  }

  /** After a user message the reply is appended: nothing before it is replaced. */
  lemma {:induction false} StreamAfterUser(w: View, before: seq<Message>, user: Message, chunks: seq<string>, suffixOf: nat -> string)
    requires w.messages == before + [user] && user.role == User
    ensures StreamInto(w, chunks, suffixOf).messages
              == before + [user, LocalMessage(Assistant, Concat(chunks), suffixOf(|chunks|))]
  {
    var reply := LocalMessage(Assistant, Concat(chunks), suffixOf(|chunks|));
    assert StreamBase(w.messages) == w.messages by {
      assert w.messages[|w.messages| - 1] == user;
    }
    StreamLeavesOneReply(w, chunks, suffixOf);
    assert (before + [user]) + [reply] == before + [user, reply];
  }

  /** Regenerating replaces the trailing reply: the regenerated text takes its place. */
  lemma {:induction false} RegenerateReplacesReply(v: View, suffix: string, chunks: seq<string>, suffixOf: nat -> string)
    requires EndsWithAssistant(v.messages)
    ensures var s := StartResponse(v, RegenerateAssistantMessage, "", "", suffix, "");
            StreamInto(s.view, chunks, suffixOf).messages
              == v.messages[..|v.messages| - 1] + [LocalMessage(Assistant, Concat(chunks), suffixOf(|chunks|))]
  {
    var s := StartResponse(v, RegenerateAssistantMessage, "", "", suffix, "");
    StartRegenerateAssistant(v, suffix);
    StreamLeavesOneReply(s.view, chunks, suffixOf);
    var base := v.messages[..|v.messages| - 1];
    assert s.view.messages == base + [LocalMessage(Assistant, "", suffix)];
    assert (base + [LocalMessage(Assistant, "", suffix)])[..|base|] == base;
  }

  /**
   * The first message of a fresh conversation, "Hello", answered by the chunks
   * "Hi", " the" and "re": the view holds the user message and "Hi there".
   */
  lemma HelloScenario(suffix: string, suffixOf: nat -> string)
    ensures var s := StartResponse(StartNewConversation(Initial), UserMessage, "Hello", "", suffix, "");
            var r := StreamInto(s.view, ["Hi", " the", "re"], suffixOf);
            |r.messages| == 2
            && r.messages[0].role == User && r.messages[0].content == "Hello"
            && r.messages[1].role == Assistant && r.messages[1].content == "Hi there"
  {
    var chunks := ["Hi", " the", "re"];
    UserTurnEndsWithReply(Initial, "Hello", suffix, chunks, suffixOf);
    assert chunks[..2][..1] == ["Hi"];
    assert chunks[..2] == ["Hi", " the"];
    assert Concat(chunks[..1]) == "Hi";
    assert Concat(chunks[..2]) == "Hi the";
    assert Concat(chunks) == "Hi there";
  }
}
