/**
 * The records the frontend stores keep: messages, versions of a conversation,
 * conversations, and the denormalised view of the version being displayed.
 */
module ChatTypes {
  import opened Wrappers
  import opened Constants
  import opened Seqs

  /**
   * A chat message.  `versions` is the list of version ids the branched view
   * attaches to server messages; locally created messages have no such field.
   */
  datatype Message = Message(id: string, role: Role, content: string, versions: Option<seq<string>>)

  /** One branch of a conversation's history, rooted at `rootMessage`. */
  datatype Version = Version(
    id: string,
    conversationId: string,
    rootMessage: string,
    messages: seq<Message>,
    active: bool,
    parentVersion: string)

  /** A conversation in the history list. */
  datatype Conversation = Conversation(
    id: string,
    title: string,
    versions: seq<Version>,
    active: bool,
    modifiedAt: string)

  /** The current-conversation state: the fields of one version plus the conversation's title. */
  datatype View = View(
    id: string,
    title: string,
    conversationId: string,
    rootMessage: string,
    messages: seq<Message>,
    active: bool,
    parentVersion: string)

  /** `{...version, title}`: a version spread into a view under the given title. */
  function ViewOf(v: Version, title: string): (r: View)
    ensures r.title == title && r.messages == v.messages && r.id == v.id
    ensures r.conversationId == v.conversationId && r.active == v.active
    ensures r.rootMessage == v.rootMessage && r.parentVersion == v.parentVersion
  {
    View(v.id, title, v.conversationId, v.rootMessage, v.messages, v.active, v.parentVersion)
  }

  /** `k` is the index `findIndex(c => c.id === id)` returns. */
  predicate FirstWithId(s: seq<Conversation>, id: string, k: int) {
    0 <= k < |s| && s[k].id == id && forall j :: 0 <= j < k ==> s[j].id != id
  }

  /** `j` is the index of the version `versions.find(v => v.active)` returns. */
  predicate FirstActiveVersion(vs: seq<Version>, j: int) {
    0 <= j < |vs| && vs[j].active && forall i :: 0 <= i < j ==> !vs[i].active
  }

  /** `j` is the index of the version `versions.find(v => v.id === id)` returns. */
  predicate FirstVersionWithId(vs: seq<Version>, id: string, j: int) {
    0 <= j < |vs| && vs[j].id == id && forall i :: 0 <= i < j ==> vs[i].id != id
  }

  /** No version of the list carries the id. */
  predicate LacksVersionId(vs: seq<Version>, id: string) {
    forall i :: 0 <= i < |vs| ==> vs[i].id != id
  }

  predicate HasActiveVersion(c: Conversation) {
    exists j :: 0 <= j < |c.versions| && c.versions[j].active
  }

  /** `versions.find(v => v.active)`, as an index. */
  function ActiveVersionIndex(vs: seq<Version>): (r: Option<nat>)
    ensures r.Some? ==> FirstActiveVersion(vs, r.value)
    ensures r.None? <==> forall i :: 0 <= i < |vs| ==> !vs[i].active
  {
    FindIndex(vs, (v: Version) => v.active)
  }

  /** `versions.find(v => v.id === id)`, as an index. */
  function VersionIndexOf(vs: seq<Version>, id: string): (r: Option<nat>)
    ensures r.Some? ==> FirstVersionWithId(vs, id, r.value)
    ensures r.None? <==> LacksVersionId(vs, id)
  {
    FindIndex(vs, (v: Version) => v.id == id)
  }
}
