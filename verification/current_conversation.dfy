/**
 * The current-conversation slice (`frontend/redux/currentConversation.js`):
 * the view of the one version the chat window displays and edits.
 */
module CurrentConversation {
  import opened Wrappers
  import opened Seqs
  import opened Constants
  import opened ChatTypes
  import opened MockIds

  /** `initialState`: an unsaved conversation with placeholder ids and title. */
  const Initial: View := View(MockId, MockTitle, MockId, "mock message", [], true, "mock version")

  /** The last message is an assistant message that a streamed update may overwrite. */
  predicate EndsWithAssistant(ms: seq<Message>) {
    |ms| > 0 && ms[|ms| - 1].role == Assistant
  }

  /** The messages that stay fixed while an assistant reply streams in after them. */
  function StreamBase(ms: seq<Message>): (r: seq<Message>)
    ensures EndsWithAssistant(ms) ==> r == ms[..|ms| - 1]
    ensures !EndsWithAssistant(ms) ==> r == ms
  {
    if EndsWithAssistant(ms) then ms[..|ms| - 1] else ms
  }

  /**
   * `addMessage`: an assistant message that follows an assistant message
   * replaces it (the reply is streaming); anything else is appended.
   */
  function AddMessage(v: View, m: Message): (r: View)
    ensures r.(messages := v.messages) == v
    ensures |r.messages| > 0 && r.messages[|r.messages| - 1] == m
    ensures EndsWithAssistant(v.messages) && m.role == Assistant ==>
              |r.messages| == |v.messages| && r.messages[..|v.messages| - 1] == v.messages[..|v.messages| - 1]
    ensures !(EndsWithAssistant(v.messages) && m.role == Assistant) ==> r.messages == v.messages + [m]
  {
    var ms := v.messages;
    if |ms| > 0 && ms[|ms| - 1].role == Assistant && m.role == Assistant then
      v.(messages := ms[|ms| - 1 := m])
    else
      v.(messages := ms + [m])
  }

  /** Dispatching `addMessage` once per message, in order. */
  function AddMessages(v: View, ms: seq<Message>): View
    decreases |ms|
  {
    if |ms| == 0 then v else AddMessages(AddMessage(v, ms[0]), ms[1..])
  }

  /** `changeTitle`: only the title changes. */
  function ChangeTitle(v: View, title: string): (r: View)
    ensures r.title == title
    ensures r.(title := v.title) == v
  {
    v.(title := title)
  }

  /** `startNewConversation`: back to the placeholder state, whatever came before. */
  function StartNewConversation(v: View): (r: View)
    ensures r.messages == [] && r.title == MockTitle && r.id == MockId && r.conversationId == MockId
    ensures r.active && r.rootMessage == "mock message" && r.parentVersion == "mock version"
  {
    Initial
  }

  /** `setConversation`: the state is replaced wholesale by the payload. */
  function SetConversation(v: View, payload: View): (r: View)
  {
    payload
  }

  /**
   * `createConversationThunk.fulfilled`: the state becomes the payload's first
   * active version under the payload's title.  With no active version the
   * source spreads `undefined`; the model requires one.
   */
  function CreateFulfilled(v: View, payload: Conversation): (r: View)
    requires HasActiveVersion(payload)
    ensures forall j :: FirstActiveVersion(payload.versions, j) ==> r == ViewOf(payload.versions[j], payload.title)
    ensures r.active && r.title == payload.title
  {
    var j := ActiveVersionIndex(payload.versions).value;
    ViewOf(payload.versions[j], payload.title)
  }

  /**
   * `addConversationMessageThunk.fulfilled`: every message whose id is a mock
   * id is replaced by the persisted message the server returned.
   */
  function AddMessageFulfilled(v: View, persisted: Message): (r: View)
    ensures r.(messages := v.messages) == v
    ensures |r.messages| == |v.messages|
    ensures forall i :: 0 <= i < |v.messages| && IsMockId(v.messages[i].id) ==> r.messages[i] == persisted
    ensures forall i :: 0 <= i < |v.messages| && !IsMockId(v.messages[i].id) ==> r.messages[i] == v.messages[i]
  {
    v.(messages := seq(|v.messages|, i requires 0 <= i < |v.messages| =>
                        if IsMockId(v.messages[i].id) then persisted else v.messages[i]))
  }

  /**
   * `addVersionAndUpdateConversationThunk.fulfilled`: the state becomes the
   * payload's first active version, but keeps its own title.
   */
  function AddVersionFulfilled(v: View, payload: Conversation): (r: View)
    requires HasActiveVersion(payload)
    ensures forall j :: FirstActiveVersion(payload.versions, j) ==> r == ViewOf(payload.versions[j], v.title)
    ensures r.active && r.title == v.title
  {
    var j := ActiveVersionIndex(payload.versions).value;
    ViewOf(payload.versions[j], v.title)
  }

  // ------------------------------------------------------------ properties

  /**
   * Folding a non-empty run of assistant messages onto a view adds at most one
   * message: the messages before a trailing assistant reply stay, and the last
   * payload ends the list.
   */
  lemma {:induction false} AddAssistantMessages(v: View, ms: seq<Message>)
    requires |ms| > 0
    requires forall i :: 0 <= i < |ms| ==> ms[i].role == Assistant
    ensures var r := AddMessages(v, ms);
            r.(messages := v.messages) == v
            && r.messages == StreamBase(v.messages) + [ms[|ms| - 1]]
            && |r.messages| <= |v.messages| + 1
    decreases |ms|
  {
    var v1 := AddMessage(v, ms[0]);
    assert v1.messages == StreamBase(v.messages) + [ms[0]];
    if |ms| > 1 {
      AddAssistantMessages(v1, ms[1..]);
      assert StreamBase(v1.messages) == StreamBase(v.messages);
    }
  }

  /** Starting a new conversation ignores the prior state, so doing it twice is doing it once. */
  lemma StartNewConversationIdempotent(a: View, b: View)
    ensures StartNewConversation(a) == StartNewConversation(b)
    ensures StartNewConversation(StartNewConversation(a)) == StartNewConversation(a)
  {
  }

  /** After reconciliation no placeholder message is left, unless the server's own id is one. */
  lemma ReconciliationLeavesNoMockIds(v: View, persisted: Message)
    requires !IsMockId(persisted.id)
    ensures forall i :: 0 <= i < |v.messages| ==> !IsMockId(AddMessageFulfilled(v, persisted).messages[i].id)
  {
  }
}
