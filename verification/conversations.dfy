/**
 * The conversation-list slice (`frontend/redux/conversations.js`): the
 * synchronous reducers, the `extraReducers` cases that run when a thunk is
 * fulfilled, and the parts of the thunks that shape their payloads.
 *
 * Where the source dereferences the result of a `find`/`findIndex` that found
 * nothing, JavaScript throws inside the reducer and the store keeps its old
 * state; the model returns `Err`.  Where it assigns to `state[-1]`, the array's
 * elements are untouched; the model returns the list unchanged.
 */
module Conversations {
  import opened Wrappers
  import opened Seqs
  import opened ChatTypes

  type State = seq<Conversation>

  datatype ReducerError = ConversationNotFound | NoActiveVersion | VersionNotFound

  /**
   * The payload of `setActiveConversation`: `null`, a record with an `id`
   * field, or a bare id string (whose `.id` is `undefined`).
   */
  datatype ActivePayload = Null | Record(id: string) | BareId(value: string)

  /** JavaScript truthiness of the payload: `null` and `""` are falsy. */
  predicate Truthy(p: ActivePayload) {
    match p
    case Null => false
    case Record(_) => true
    case BareId(s) => s != ""
  }

  /** `payload.id`: only a record has one. */
  function PayloadId(p: ActivePayload): Option<string> {
    if p.Record? then Some(p.id) else None
  }

  /** No two conversations are active. */
  predicate AtMostOneActive(s: State) {
    forall i, j :: 0 <= i < |s| && 0 <= j < |s| && s[i].active && s[j].active ==> i == j
  }

  predicate UniqueIds(s: State) {
    forall i, j :: 0 <= i < |s| && 0 <= j < |s| && s[i].id == s[j].id ==> i == j
  }

  /** `state.forEach(c => c.active = false)`. */
  function DeactivateAll(s: State): (r: State)
    ensures |r| == |s|
    ensures forall i :: 0 <= i < |s| ==> !r[i].active && r[i].(active := s[i].active) == s[i]
  {
    seq(|s|, i requires 0 <= i < |s| => s[i].(active := false))
  }

  function IndexOfId(s: State, id: string): (r: Option<nat>)
    ensures r.Some? ==> FirstWithId(s, id, r.value)
    ensures r.None? <==> forall i :: 0 <= i < |s| ==> s[i].id != id
  {
    FindIndex(s, (c: Conversation) => c.id == id)
  }

  // ---------------------------------------------------------------- thunks

  /** `fetchConversationsThunk`: every fetched conversation is marked inactive. */
  function FetchThunk(response: State): (r: State)
    ensures |r| == |response|
    ensures forall i :: 0 <= i < |r| ==> !r[i].active && r[i].(active := response[i].active) == response[i]
  {
    DeactivateAll(response)
  }

  /** The request body `createConversationThunk` posts. */
  datatype NewConversation = NewConversation(title: string, messages: seq<Message>)

  /**
   * `createConversationThunk` before the network call: fewer than two messages
   * are rejected with a fixed reason, so no request is made.
   */
  function CreateConversationRequest(title: string, messages: seq<Message>): (r: Result<NewConversation, string>)
    ensures r.Err? <==> |messages| < 2
    ensures r.Err? ==> r.error == Constants.TooFewMessages
    ensures r.Ok? ==> r.value.title == title && r.value.messages == messages
  {
    if |messages| < 2 then Err(Constants.TooFewMessages) else Ok(NewConversation(title, messages))
  }

  /** The payload `createConversationThunk` and `addVersionAndUpdateConversationThunk` fulfil with. */
  function ActivePayloadOf(response: Conversation): (r: Conversation)
    ensures r.active && r.(active := response.active) == response
  {
    response.(active := true)
  }

  // -------------------------------------------------------------- reducers

  /** `addConversation`: deactivate every conversation, then append the new one. */
  function AddConversation(s: State, c: Conversation): (r: State)
    ensures |r| == |s| + 1 && r[|s|] == c
    ensures forall i :: 0 <= i < |s| ==> !r[i].active && r[i].(active := s[i].active) == s[i]
  {
    DeactivateAll(s) + [c]
  }

  /** `setActiveConversation`. */
  function SetActiveConversation(s: State, payload: ActivePayload): (r: State)
    ensures |r| == |s|
    ensures forall i :: 0 <= i < |s| ==> r[i].(active := s[i].active) == s[i]
    ensures !Truthy(payload) ==> forall i :: 0 <= i < |s| ==> !r[i].active
    ensures forall i :: 0 <= i < |s| ==> (r[i].active <==> payload.Record? && s[i].id == payload.id)
  {
    if !Truthy(payload) then DeactivateAll(s)
    else seq(|s|, i requires 0 <= i < |s| => s[i].(active := PayloadId(payload) == Some(s[i].id)))
  }

  /**
   * `state[findIndex(c => c.id === key)] = payload`: the first conversation whose
   * id is `key` is replaced; when none is (or the key is `undefined`) the index
   * is -1 and no element changes.
   */
  function ReplaceFirst(s: State, key: Option<string>, payload: Conversation): (r: State)
    ensures |r| == |s|
    ensures (key.None? || forall i :: 0 <= i < |s| ==> s[i].id != key.value) ==> r == s
    ensures forall k :: key.Some? && FirstWithId(s, key.value, k) ==> r == s[k := payload]
  {
    if key.None? then s
    else match IndexOfId(s, key.value)
      case None => s
      case Some(k) => s[k := payload]
  }

  /** `updateConversation`: keyed by the payload's own id. */
  function UpdateConversation(s: State, payload: Conversation): (r: State)
    ensures |r| == |s|
    ensures (forall i :: 0 <= i < |s| ==> s[i].id != payload.id) ==> r == s
    ensures forall k :: FirstWithId(s, payload.id, k) ==> r == s[k := payload]
  {
    ReplaceFirst(s, Some(payload.id), payload)
  }

  /** `fetchConversationsThunk.fulfilled`: the list becomes the payload. */
  function FetchFulfilled(s: State, payload: State): (r: State)
  {
    payload
  }

  /** `createConversationThunk.fulfilled`: the same update as `addConversation`. */
  function CreateFulfilled(s: State, payload: Conversation): (r: State)
    ensures |r| == |s| + 1 && r[|s|] == payload
    ensures forall i :: 0 <= i < |s| ==> !r[i].active && r[i].(active := s[i].active) == s[i]
  {
    AddConversation(s, payload)
  }

  /** `changeConversationTitleThunk.fulfilled`. */
  function ChangeTitleFulfilled(s: State, id: string, title: string): (r: Result<State, ReducerError>)
    ensures r.Err? <==> forall i :: 0 <= i < |s| ==> s[i].id != id
    ensures r.Err? ==> r.error == ConversationNotFound
    ensures forall k :: FirstWithId(s, id, k) ==> r == Ok(s[k := s[k].(title := title)])
  {
    match IndexOfId(s, id)
    case None => Err(ConversationNotFound)
    case Some(k) => Ok(s[k := s[k].(title := title)])
  }

  /** `deleteConversationThunk.fulfilled`: `state.filter(c => c.id !== id)`. */
  function DeleteFulfilled(s: State, id: string): (r: State)
    ensures |r| <= |s|
    ensures forall c :: c in r <==> c in s && c.id != id
  {
    if |s| == 0 then []
    else (if s[0].id != id then [s[0]] else []) + DeleteFulfilled(s[1..], id)
  }

  /** `addConversationMessageThunk.fulfilled`. */
  function AddMessageFulfilled(s: State, conversationId: string, message: Message): (r: Result<State, ReducerError>)
    ensures (forall i :: 0 <= i < |s| ==> s[i].id != conversationId) ==> r == Err(ConversationNotFound)
    ensures forall k :: FirstWithId(s, conversationId, k) ==>
              (r.Err? <==> forall j :: 0 <= j < |s[k].versions| ==> !s[k].versions[j].active)
  {
    match IndexOfId(s, conversationId)
    case None => Err(ConversationNotFound)
    case Some(k) =>
      var vs := s[k].versions;
      match ActiveVersionIndex(vs)
      case None => Err(NoActiveVersion)
      case Some(j) =>
        Ok(s[k := s[k].(versions := vs[j := vs[j].(messages := vs[j].messages + [message])])])
  }

  /**
   * `addVersionAndUpdateConversationThunk.fulfilled`: the entry found under
   * `payload.conversation_id` is replaced.  `key` is the value of that field,
   * `None` when the payload has no such field.
   */
  function AddVersionFulfilled(s: State, key: Option<string>, payload: Conversation): (r: State)
    ensures |r| == |s|
    ensures key.None? ==> r == s
    ensures forall k :: key.Some? && FirstWithId(s, key.value, k) ==> r == s[k := payload]
    ensures key.Some? && (forall i :: 0 <= i < |s| ==> s[i].id != key.value) ==> r == s
  {
    ReplaceFirst(s, key, payload)
  }

  /** Versions with exactly the one at index `j` active. */
  function ActivateOnly(vs: seq<Version>, j: nat): (r: seq<Version>)
    requires j < |vs|
    ensures |r| == |vs|
    ensures forall i :: 0 <= i < |vs| ==> (r[i].active <==> i == j) && r[i].(active := vs[i].active) == vs[i]
  {
    seq(|vs|, i requires 0 <= i < |vs| => vs[i].(active := i == j))
  }

  /** `switchConversationVersionThunk.fulfilled`. */
  function SwitchVersionFulfilled(s: State, conversationId: string, versionId: string): (r: Result<State, ReducerError>)
    ensures (forall i :: 0 <= i < |s| ==> s[i].id != conversationId) ==> r == Err(ConversationNotFound)
    ensures forall k :: FirstWithId(s, conversationId, k) ==> (r.Err? <==> LacksVersionId(s[k].versions, versionId))
    ensures r.Ok? ==> |r.value| == |s|
  {
    match IndexOfId(s, conversationId)
    case None => Err(ConversationNotFound)
    case Some(k) =>
      match SwitchVersionIn(s[k], versionId)
      case Err(e) => Err(e)
      case Ok(c) => Ok(s[k := c])
  }

  /** The found conversation with only the version carrying `versionId` active. */
  function SwitchVersionIn(c: Conversation, versionId: string): (r: Result<Conversation, ReducerError>)
    ensures r.Err? <==> LacksVersionId(c.versions, versionId)
    ensures r.Err? ==> r.error == VersionNotFound
  {
    match VersionIndexOf(c.versions, versionId)
    case None => Err(VersionNotFound)
    case Some(j) => Ok(c.(versions := ActivateOnly(c.versions, j)))
  }

  // ------------------------------------------------------------ properties

  /** Fetching replaces the list wholesale with the response, every entry inactive. */
  lemma FetchReplacesWithInactive(s: State, response: State)
    ensures var r := FetchFulfilled(s, FetchThunk(response));
            |r| == |response| && AtMostOneActive(r)
            && forall i :: 0 <= i < |r| ==> !r[i].active && r[i].(active := response[i].active) == response[i]
  {
  }

  /** Creating a conversation leaves the new one as the only active conversation. */
  lemma CreateLeavesOnlyNewActive(s: State, response: Conversation)
    ensures var r := CreateFulfilled(s, ActivePayloadOf(response));
            AtMostOneActive(r) && r[|s|].active
  {
  }

  /** Selecting a present id among unique ids makes exactly that conversation active. */
  lemma SetActiveRecordSelectsExactlyOne(s: State, id: string, k: nat)
    requires UniqueIds(s) && k < |s| && s[k].id == id
    ensures var r := SetActiveConversation(s, Record(id));
            AtMostOneActive(r) && r[k].active
  {
  }

  /** The filter distributes over concatenation, so it keeps the relative order of what it keeps. */
  lemma {:induction false} DeleteAppend(a: State, b: State, id: string)
    ensures DeleteFulfilled(a + b, id) == DeleteFulfilled(a, id) + DeleteFulfilled(b, id)
    decreases |a|
  {
    if |a| == 0 {
      assert a + b == b;
    } else {
      assert (a + b)[1..] == a[1..] + b;
      DeleteAppend(a[1..], b, id);
    }
  }

  /** Deleting an id no conversation has changes nothing; order is kept. */
  lemma {:induction false} DeleteAbsentIsIdentity(s: State, id: string)
    requires forall i :: 0 <= i < |s| ==> s[i].id != id
    ensures DeleteFulfilled(s, id) == s
    decreases |s|
  {
    if |s| > 0 {
      DeleteAbsentIsIdentity(s[1..], id);
    }
  }

  /** Deleting twice is deleting once. */
  lemma DeleteIdempotent(s: State, id: string)
    ensures DeleteFulfilled(DeleteFulfilled(s, id), id) == DeleteFulfilled(s, id)
  {
    var r := DeleteFulfilled(s, id);
    forall i | 0 <= i < |r|
      ensures r[i].id != id
    {
      assert r[i] in r;
    }
    DeleteAbsentIsIdentity(r, id);
  }

  /**
   * Deleting keeps the other conversations in their original order: a
   * conversation with another id followed by a list is kept in front of what
   * deleting from that list keeps.
   */
  lemma DeleteKeepsOrder(c: Conversation, rest: State, id: string)
    requires c.id != id
    ensures DeleteFulfilled([c] + rest, id) == [c] + DeleteFulfilled(rest, id)
  {
    assert ([c] + rest)[1..] == rest;
  }

  /**
   * Adding a message appends exactly that message to the first active version
   * of the first conversation with the id; nothing else changes.
   */
  lemma AddMessageAppendsToActive(s: State, conversationId: string, message: Message, k: nat, j: nat)
    requires FirstWithId(s, conversationId, k) && FirstActiveVersion(s[k].versions, j)
    ensures AddMessageFulfilled(s, conversationId, message) ==
            Ok(s[k := s[k].(versions := s[k].versions[j := s[k].versions[j].(messages := s[k].versions[j].messages + [message])])])
  {
    assert IndexOfId(s, conversationId) == Some(k);
    assert ActiveVersionIndex(s[k].versions) == Some(j);
  }

  /**
   * A successful switch changes only the named conversation's versions, and
   * only their `active` flags: the first version with the id is active and
   * every other is not.
   */
  lemma SwitchVersionSpec(s: State, conversationId: string, versionId: string, k: nat)
    requires FirstWithId(s, conversationId, k)
    requires SwitchVersionFulfilled(s, conversationId, versionId).Ok?
    ensures var r := SwitchVersionFulfilled(s, conversationId, versionId).value;
            |r| == |s|
            && (forall i :: 0 <= i < |s| && i != k ==> r[i] == s[i])
            && r[k].(versions := s[k].versions) == s[k]
            && |r[k].versions| == |s[k].versions|
            && (forall j :: 0 <= j < |s[k].versions| ==>
                  r[k].versions[j].(active := s[k].versions[j].active) == s[k].versions[j])
            && (forall j :: 0 <= j < |s[k].versions| ==>
                  (r[k].versions[j].active <==> FirstVersionWithId(s[k].versions, versionId, j)))
  {
    assert IndexOfId(s, conversationId) == Some(k);
    var vs := s[k].versions;
    var j := VersionIndexOf(vs, versionId).value;
    assert FirstVersionWithId(vs, versionId, j);
    forall i | 0 <= i < |vs| ensures FirstVersionWithId(vs, versionId, i) <==> i == j {
    }
  }

  /** After a successful switch the named conversation has exactly one active version. */
  lemma SwitchLeavesExactlyOneActive(s: State, conversationId: string, versionId: string, k: nat)
    requires FirstWithId(s, conversationId, k)
    requires SwitchVersionFulfilled(s, conversationId, versionId).Ok?
    ensures var vs := SwitchVersionFulfilled(s, conversationId, versionId).value[k].versions;
            exists j :: 0 <= j < |vs| && vs[j].active && forall i :: 0 <= i < |vs| && vs[i].active ==> i == j
  {
    var vs0 := s[k].versions;
    var j :| 0 <= j < |vs0| && vs0[j].id == versionId;
    var first := VersionIndexOf(vs0, versionId).value;
    assert FirstVersionWithId(vs0, versionId, first);
  }

  // -------------------------------------------- selecting from the history list

  /**
   * The history sidebar selects a conversation by dispatching
   * `setActiveConversation(selectedConversation.id)`: a bare id.  The reducer
   * reads `payload.id`, which a string does not have.
   */
  function SelectConversationAsWritten(s: State, id: string): (r: State)
    ensures |r| == |s|
  {
    SetActiveConversation(s, BareId(id))
  }

  /** As written, selecting any conversation leaves none of them active. */
  lemma SelectAsWrittenActivatesNothing(s: State, id: string)
    ensures forall i :: 0 <= i < |s| ==> !SelectConversationAsWritten(s, id)[i].active
  {
  }

  /** The evidently intended call passes the record, whose `id` the reducer reads. */
  function SelectConversation(s: State, id: string): (r: State)
    ensures |r| == |s|
    ensures forall i :: 0 <= i < |s| ==> (r[i].active <==> s[i].id == id)
  {
    SetActiveConversation(s, Record(id))
  }

  /** With the record passed, the selected conversation is the only active one. */
  lemma SelectConversationActivatesSelected(s: State, k: nat)
    requires UniqueIds(s) && k < |s|
    ensures var r := SelectConversation(s, s[k].id);
            r[k].active && forall i :: 0 <= i < |s| && i != k ==> !r[i].active
  {
  }
}
