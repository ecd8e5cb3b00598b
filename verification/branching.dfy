/**
 * The backend's branch annotation (`backend/chat/utils/branching.py`, first
 * pass): for every version whose parent version exists, the message where the
 * two diverge records both versions' time stamps in its `versions` list.
 *
 * The source mutates dictionaries in place.  Here a conversation is a sequence
 * of versions; an in-place change to "the message at index k of version j" is
 * an update at (j, k).  Version ids are database primary keys, so they are
 * unique; with that, writing a version back under its own id is the identity,
 * as it is in the source, where the very same object is written back.
 */
module Branching {
  import opened Wrappers
  import opened Seqs

  /** `VersionTimeIdSerializer` output.  `createdAt` is the timestamp, as an ordered key. */
  datatype Stamp = Stamp(id: string, createdAt: int)

  /** A serialized message: the serializer starts every `versions` list empty. */
  datatype Msg = Msg(id: string, content: string, versions: seq<Stamp>)

  /** A message, or the empty `OrderedDict()` the helpers use for "no message". */
  datatype Cell = Empty | Filled(msg: Msg)

  /** A serialized version.  `None` is a null parent or root. */
  datatype BVersion = BVersion(
    id: string,
    parentVersion: Option<string>,
    rootMessage: Option<string>,
    createdAt: int,
    messages: seq<Msg>)

  datatype BranchError = ContentMismatch | NoVersionWithId

  /** Python's `str` of an optional id: `None` becomes "None". */
  function Str(o: Option<string>): (r: string)
    ensures o.Some? ==> r == o.value
    ensures o.None? ==> r == "None"
  {
    match o
    case None => "None"
    case Some(s) => s
  }

  /** `VersionTimeIdSerializer(version).data`. */
  function StampOf(v: BVersion): Stamp {
    Stamp(v.id, v.createdAt)
  }

  /** The set of version ids in a `versions` list. */
  function IdsOf(vs: seq<Stamp>): set<string> {
    set t | t in vs :: t.id
  }

  predicate UniqueIds(s: seq<BVersion>) {
    forall i, j :: 0 <= i < |s| && 0 <= j < |s| && s[i].id == s[j].id ==> i == j
  }

  // ------------------------------------------------------- version lookups

  function VersionIndex(vs: seq<BVersion>, id: string): (r: Option<nat>)
    ensures r.Some? ==> r.value < |vs| && vs[r.value].id == id && forall i :: 0 <= i < r.value ==> vs[i].id != id
    ensures r.None? <==> forall i :: 0 <= i < |vs| ==> vs[i].id != id
  {
    FindIndex(vs, (v: BVersion) => v.id == id)
  }

  /** `_get_conversation_version`: the first version with the id, else None. */
  function GetConversationVersion(vs: seq<BVersion>, id: string): (r: Option<BVersion>)
    ensures r.None? <==> forall i :: 0 <= i < |vs| ==> vs[i].id != id
    ensures r.Some? ==> exists i :: 0 <= i < |vs| && vs[i] == r.value && r.value.id == id
                                    && forall j :: 0 <= j < i ==> vs[j].id != id
  {
    match VersionIndex(vs, id)
    case None => None
    case Some(i) => Some(vs[i])
  }

  /** `_set_conversation_version`: the first version with the id is replaced; none is an error. */
  function SetConversationVersion(vs: seq<BVersion>, id: string, v: BVersion): (r: Result<seq<BVersion>, BranchError>)
    ensures r.Err? <==> forall i :: 0 <= i < |vs| ==> vs[i].id != id
    ensures r.Err? ==> r.error == NoVersionWithId
    ensures r.Ok? ==> |r.value| == |vs|
    ensures forall k :: 0 <= k < |vs| && vs[k].id == id && (forall i :: 0 <= i < k ==> vs[i].id != id) ==>
              r == Ok(vs[k := v])
  {
    match VersionIndex(vs, id)
    case None => Err(NoVersionWithId)
    case Some(k) => Ok(vs[k := v])
  }

  /** With unique ids, writing a version back under its own id changes nothing. */
  lemma SetOwnVersionIsIdentity(vs: seq<BVersion>, j: nat)
    requires UniqueIds(vs) && j < |vs|
    ensures SetConversationVersion(vs, vs[j].id, vs[j]) == Ok(vs)
  {
    assert vs[j := vs[j]] == vs;
  }

  // ------------------------------------------------------- branching point

  function Min(a: nat, b: nat): nat {
    if a < b then a else b
  }

  /** How many leading message pairs `zip` produces. */
  function CommonLength(child: BVersion, parent: BVersion): nat {
    Min(|child.messages|, |parent.messages|)
  }

  /** `m` is the first of the first n-1 pairs whose contents differ. */
  predicate FirstMismatch(child: BVersion, parent: BVersion, m: int) {
    0 <= m < CommonLength(child, parent) - 1
    && child.messages[m].content != parent.messages[m].content
    && forall i :: 0 <= i < m ==> child.messages[i].content == parent.messages[i].content
  }

  function ScanPairs(child: BVersion, parent: BVersion, idx: nat): (r: Result<Option<nat>, BranchError>)
    requires idx < CommonLength(child, parent)
    decreases CommonLength(child, parent) - idx
  {
    var n := CommonLength(child, parent);
    if idx == n - 1 then Ok(Some(n - 1))
    else if child.messages[idx].content != parent.messages[idx].content then
      if parent.messages[idx].id == Str(child.rootMessage) then Ok(Some(idx)) else Err(ContentMismatch)
    else ScanPairs(child, parent, idx + 1)
  }

  lemma {:induction false} ScanPairsSpec(child: BVersion, parent: BVersion, idx: nat)
    requires idx < CommonLength(child, parent)
    requires forall i :: 0 <= i < idx ==> child.messages[i].content == parent.messages[i].content
    ensures var n := CommonLength(child, parent);
            var r := ScanPairs(child, parent, idx);
            ((forall i :: 0 <= i < n - 1 ==> child.messages[i].content == parent.messages[i].content) ==> r == Ok(Some(n - 1)))
            && (forall m :: FirstMismatch(child, parent, m) ==>
                  r == if parent.messages[m].id == Str(child.rootMessage) then Ok(Some(m)) else Err(ContentMismatch))
    decreases CommonLength(child, parent) - idx
  {
    var n := CommonLength(child, parent);
    if idx < n - 1 && child.messages[idx].content == parent.messages[idx].content {
      ScanPairsSpec(child, parent, idx + 1);
    }
  }

  /**
   * `_get_branching_messages`, as the index of the returned pair: `None` when
   * either version has no messages; the first content mismatch among the first
   * n-1 pairs if the parent's message there is the child's root message (an
   * error otherwise); else the pair at n-1.
   */
  function BranchingIndex(child: BVersion, parent: BVersion): (r: Result<Option<nat>, BranchError>)
    ensures CommonLength(child, parent) == 0 <==> r == Ok(None)
    ensures r.Ok? && r.value.Some? ==> r.value.value < CommonLength(child, parent)
    ensures r.Err? ==> r.error == ContentMismatch
    ensures var n := CommonLength(child, parent);
            n > 0 && (forall i :: 0 <= i < n - 1 ==> child.messages[i].content == parent.messages[i].content) ==>
              r == Ok(Some(n - 1))
    ensures forall m :: FirstMismatch(child, parent, m) ==>
              r == if parent.messages[m].id == Str(child.rootMessage) then Ok(Some(m)) else Err(ContentMismatch)
  {
    if CommonLength(child, parent) == 0 then Ok(None)
    else
      ScanPairsSpec(child, parent, 0);
      ScanPairsBounded(child, parent, 0);
      ScanPairs(child, parent, 0)
  }

  lemma {:induction false} ScanPairsBounded(child: BVersion, parent: BVersion, idx: nat)
    requires idx < CommonLength(child, parent)
    ensures var r := ScanPairs(child, parent, idx);
            (r.Ok? ==> r.value.Some? && idx <= r.value.value < CommonLength(child, parent))
            && (r.Err? ==> r.error == ContentMismatch)
    decreases CommonLength(child, parent) - idx
  {
    var n := CommonLength(child, parent);
    if idx < n - 1 && child.messages[idx].content == parent.messages[idx].content {
      ScanPairsBounded(child, parent, idx + 1);
    }
  }

  function CellAt(v: BVersion, k: Option<nat>): (c: Cell)
    ensures k.Some? && k.value < |v.messages| ==> c == Filled(v.messages[k.value])
    ensures k.None? || k.value >= |v.messages| ==> c == Empty
  {
    if k.Some? && k.value < |v.messages| then Filled(v.messages[k.value]) else Empty
  }

  /** `_get_branching_messages` proper: the two messages, or two empty cells. */
  function GetBranchingMessages(child: BVersion, parent: BVersion): (r: Result<(Cell, Cell), BranchError>)
    ensures r.Err? <==> BranchingIndex(child, parent).Err?
    ensures CommonLength(child, parent) == 0 ==> r == Ok((Empty, Empty))
    ensures forall k :: BranchingIndex(child, parent) == Ok(Some(k)) ==>
              r == Ok((Filled(child.messages[k]), Filled(parent.messages[k])))
  {
    match BranchingIndex(child, parent)
    case Err(e) => Err(e)
    case Ok(k) => Ok((CellAt(child, k), CellAt(parent, k)))
  }

  // ------------------------------------------------- version stamps on messages

  /** `_message_has_version`: an empty cell has no `versions` and so no version. */
  function MessageHasVersion(c: Cell, id: string): (r: bool)
    ensures r <==> c.Filled? && id in IdsOf(c.msg.versions)
  {
    match c
    case Empty => false
    case Filled(m) =>
      var i := FindIndex(m.versions, (t: Stamp) => t.id == id);
      assert i.Some? ==> m.versions[i.value] in m.versions;
      assert id in IdsOf(m.versions) ==> exists t :: 0 <= t < |m.versions| && m.versions[t].id == id;
      i.Some?
  }

  /** `bisect_right` keyed on `created_at`, exactly as its binary search runs. */
  function BisectRight(a: seq<Stamp>, key: int, lo: nat, hi: nat): (r: nat)
    requires lo <= hi <= |a|
    ensures lo <= r <= hi
    decreases hi - lo
  {
    if lo < hi then
      var mid := (lo + hi) / 2;
      if key < a[mid].createdAt then BisectRight(a, key, lo, mid) else BisectRight(a, key, mid + 1, hi)
    else lo
  }

  predicate SortedByTime(a: seq<Stamp>) {
    forall i, j :: 0 <= i < j < |a| ==> a[i].createdAt <= a[j].createdAt
  }

  /** On a sorted list the search finds the point after every key not above `key`. */
  lemma {:induction false} BisectRightSplits(a: seq<Stamp>, key: int, lo: nat, hi: nat)
    requires lo <= hi <= |a| && SortedByTime(a)
    requires forall i :: 0 <= i < lo ==> a[i].createdAt <= key
    requires forall i :: hi <= i < |a| ==> key < a[i].createdAt
    ensures var r := BisectRight(a, key, lo, hi);
            (forall i :: 0 <= i < r ==> a[i].createdAt <= key) && (forall i :: r <= i < |a| ==> key < a[i].createdAt)
    decreases hi - lo
  {
    if lo < hi {
      var mid := (lo + hi) / 2;
      if key < a[mid].createdAt {
        BisectRightSplits(a, key, lo, mid);
      } else {
        BisectRightSplits(a, key, mid + 1, hi);
      }
    }
  }

  /** `x` placed at index `i` of `a`, everything from `i` on moved one place up. */
  function InsertAt(a: seq<Stamp>, x: Stamp, i: nat): (r: seq<Stamp>)
    requires i <= |a|
    ensures |r| == |a| + 1 && r[i] == x
    ensures forall q :: 0 <= q < i ==> r[q] == a[q]
    ensures forall q :: i < q < |r| ==> r[q] == a[q - 1]
    ensures (SortedByTime(a) && (forall q :: 0 <= q < i ==> a[q].createdAt <= x.createdAt)
             && (forall q :: i <= q < |a| ==> x.createdAt < a[q].createdAt)) ==> SortedByTime(r)
  {
    a[..i] + [x] + a[i..]
  }

  /** `insort(versions, stamp, key=itemgetter("created_at"))`. */
  function Insort(a: seq<Stamp>, x: Stamp): (r: seq<Stamp>)
    ensures |r| == |a| + 1
    ensures exists i :: 0 <= i <= |a| && r == a[..i] + [x] + a[i..]
    ensures IdsOf(r) == IdsOf(a) + {x.id}
  {
    var i := BisectRight(a, x.createdAt, 0, |a|);
    var r := InsertAt(a, x, i);
    assert r == a[..i] + [x] + a[i..];
    assert a == a[..i] + a[i..];
    assert forall t :: t in r <==> t in a || t == x;
    r
  }

  /**
   * On a sorted list, insort keeps it sorted and places the new stamp after
   * every stamp with an equal key.
   */
  lemma {:induction false} InsortSorted(a: seq<Stamp>, x: Stamp)
    requires SortedByTime(a)
    ensures SortedByTime(Insort(a, x))
    ensures var r := Insort(a, x);
            exists i :: 0 <= i <= |a| && r[i] == x
                        && (forall j :: 0 <= j < i ==> r[j].createdAt <= x.createdAt)
                        && (forall j :: i < j < |r| ==> x.createdAt < r[j].createdAt)
  {
    var i := BisectRight(a, x.createdAt, 0, |a|);
    BisectRightSplits(a, x.createdAt, 0, |a|);
    var r := InsertAt(a, x, i);
    assert r == Insort(a, x);
  }

  /** `_message_insort_version`: an empty cell is left alone. */
  function MessageInsortVersion(c: Cell, stamp: Stamp): (r: Cell)
    ensures c.Empty? ==> r == Empty
    ensures c.Filled? ==> r.Filled? && r.msg.id == c.msg.id && r.msg.content == c.msg.content
                          && r.msg.versions == Insort(c.msg.versions, stamp)
  {
    match c
    case Empty => Empty
    case Filled(m) => Filled(m.(versions := Insort(m.versions, stamp)))
  }

  /** The in-place insort into message `k` of version `j`. */
  function InsortAt(s: seq<BVersion>, j: nat, k: nat, stamp: Stamp): (r: seq<BVersion>)
    requires j < |s| && k < |s[j].messages|
    ensures |r| == |s|
    ensures forall i :: 0 <= i < |s| && i != j ==> r[i] == s[i]
    ensures r[j].(messages := s[j].messages) == s[j] && |r[j].messages| == |s[j].messages|
    ensures forall i :: 0 <= i < |s[j].messages| && i != k ==> r[j].messages[i] == s[j].messages[i]
    ensures Filled(r[j].messages[k]) == MessageInsortVersion(Filled(s[j].messages[k]), stamp)
  {
    var m := s[j].messages[k];
    s[j := s[j].(messages := s[j].messages[k := m.(versions := Insort(m.versions, stamp))])]
  }

  // ---------------------------------------------------------- the first pass

  /** The index of a version's parent, looked up under `str(parent_version)`. */
  function ParentIndex(s: seq<BVersion>, j: nat): (r: Option<nat>)
    requires j < |s|
    ensures r.Some? ==> r.value < |s| && s[r.value].id == Str(s[j].parentVersion)
    ensures r.None? <==> forall i :: 0 <= i < |s| ==> s[i].id != Str(s[j].parentVersion)
  {
    VersionIndex(s, Str(s[j].parentVersion))
  }

  /** Both branch messages record both versions; the has-checks keep a version from being added twice. */
  function RecordBranch(s: seq<BVersion>, j: nat, p: nat, k: nat): (r: seq<BVersion>)
    requires j < |s| && p < |s| && k < |s[j].messages| && k < |s[p].messages|
    ensures |r| == |s|
  {
    var child, parent := StampOf(s[j]), StampOf(s[p]);
    var s1 := InsortIfMissing(s, j, k, child);
    var s2 := InsortIfMissing(s1, p, k, parent);
    var s3 := InsortAt(s2, j, k, parent);
    InsortAt(s3, p, k, child)
  }

  /** `if not _message_has_version(...): _message_insort_version(...)`. */
  function InsortIfMissing(s: seq<BVersion>, j: nat, k: nat, stamp: Stamp): (r: seq<BVersion>)
    requires j < |s| && k < |s[j].messages|
    ensures |r| == |s| && k < |r[j].messages|
  {
    if !MessageHasVersion(Filled(s[j].messages[k]), stamp.id) then InsortAt(s, j, k, stamp) else s
  }

  /** One iteration of the `while versions:` loop, for the version at index `j`. */
  function BranchStep(s: seq<BVersion>, j: nat): (r: Result<seq<BVersion>, BranchError>)
    requires j < |s|
    ensures ParentIndex(s, j).None? ==> r == Ok(s)
    ensures r.Ok? ==> |r.value| == |s|
  {
    match ParentIndex(s, j)
    case None => Ok(s)
    case Some(p) =>
      match BranchingIndex(s[j], s[p])
      case Err(e) => Err(e)
      case Ok(k) =>
        var s4 := if k.Some? then RecordBranch(s, j, p, k.value) else s;
        match SetConversationVersion(s4, s[j].id, s4[j])
        case Err(e) => Err(e)
        case Ok(s5) => SetConversationVersion(s5, Str(s[j].parentVersion), s4[p])
  }

  /** A null parent is looked up as "None", which no real version id is: the version is skipped. */
  lemma NullParentSkipped(s: seq<BVersion>, j: nat)
    requires j < |s| && s[j].parentVersion.None?
    requires forall i :: 0 <= i < |s| ==> s[i].id != "None"
    ensures BranchStep(s, j) == Ok(s)
  {
  }

  /** The loop over the versions still to pop: indices `j - 1` down to 0. */
  function BranchLoop(s: seq<BVersion>, j: nat): Result<seq<BVersion>, BranchError>
    requires j <= |s|
    decreases j
  {
    if j == 0 then Ok(s)
    else match BranchStep(s, j - 1)
      case Err(e) => Err(e)
      case Ok(s1) => BranchLoop(s1, j - 1)
  }

  /** The first pass of `make_branched_conversation` over a conversation's versions. */
  function AnnotateBranches(versions: seq<BVersion>): Result<seq<BVersion>, BranchError> {
    BranchLoop(versions, |versions|)
  }
}

module BranchingProofs {
  import opened Wrappers
  import opened Branching

  predicate SameMessages(a: seq<Msg>, b: seq<Msg>) {
    |a| == |b| && forall k :: 0 <= k < |a| ==> a[k].id == b[k].id && a[k].content == b[k].content
  }

  /** Everything but the `versions` lists of the messages is the same. */
  predicate SameVersion(a: BVersion, b: BVersion) {
    a.id == b.id && a.parentVersion == b.parentVersion && a.rootMessage == b.rootMessage
    && a.createdAt == b.createdAt && SameMessages(a.messages, b.messages)
  }

  predicate SameShape(a: seq<BVersion>, b: seq<BVersion>) {
    |a| == |b| && forall i :: 0 <= i < |a| ==> SameVersion(a[i], b[i])
  }

  /** Same shape, and no message loses a version id. */
  predicate Grows(a: seq<BVersion>, b: seq<BVersion>) {
    SameShape(a, b)
    && forall i, k :: 0 <= i < |a| && 0 <= k < |a[i].messages| ==>
         IdsOf(a[i].messages[k].versions) <= IdsOf(b[i].messages[k].versions)
  }

  /** Every message's `versions` list is ordered by time. */
  predicate AllSorted(s: seq<BVersion>) {
    forall i, k :: 0 <= i < |s| && 0 <= k < |s[i].messages| ==> SortedByTime(s[i].messages[k].versions)
  }

  /** Both messages at the branching point of version j and its parent record both ids. */
  predicate BranchRecorded(s0: seq<BVersion>, r: seq<BVersion>, j: nat)
    requires j < |s0| && SameShape(s0, r)
  {
    match ParentIndex(s0, j)
    case None => true
    case Some(p) =>
      match BranchingIndex(s0[j], s0[p])
      case Ok(Some(k)) =>
        assert SameVersion(s0[j], r[j]) && SameVersion(s0[p], r[p]);
        {s0[j].id, s0[p].id} <= IdsOf(r[j].messages[k].versions)
        && {s0[j].id, s0[p].id} <= IdsOf(r[p].messages[k].versions)
      case _ => true
  }

  /** Version j has a parent and the two cannot be aligned. */
  predicate StepFails(s: seq<BVersion>, j: nat)
    requires j < |s|
  {
    ParentIndex(s, j).Some? && BranchingIndex(s[j], s[ParentIndex(s, j).value]).Err?
  }

  // ----------------------------------------------------------- shape facts

  lemma GrowsTransitive(a: seq<BVersion>, b: seq<BVersion>, c: seq<BVersion>)
    requires Grows(a, b) && Grows(b, c)
    ensures Grows(a, c)
  {
    assert SameShape(a, c) by {
      forall i | 0 <= i < |a| ensures SameVersion(a[i], c[i]) {
        assert SameVersion(a[i], b[i]) && SameVersion(b[i], c[i]);
      }
    }
    forall i, k | 0 <= i < |a| && 0 <= k < |a[i].messages|
      ensures IdsOf(a[i].messages[k].versions) <= IdsOf(c[i].messages[k].versions)
    {
      assert SameVersion(a[i], b[i]);
    }
  }

  lemma ShapeTransitive(s0: seq<BVersion>, a: seq<BVersion>, b: seq<BVersion>)
    requires SameShape(s0, a) && SameShape(a, b)
    ensures SameShape(s0, b)
  {
    forall i | 0 <= i < |s0| ensures SameVersion(s0[i], b[i]) {
      assert SameVersion(s0[i], a[i]) && SameVersion(a[i], b[i]);
    }
  }

  lemma ShapeKeepsUniqueIds(a: seq<BVersion>, b: seq<BVersion>)
    requires SameShape(a, b) && UniqueIds(a)
    ensures UniqueIds(b)
  {
    forall i, j | 0 <= i < |b| && 0 <= j < |b| && b[i].id == b[j].id ensures i == j {
      assert SameVersion(a[i], b[i]) && SameVersion(a[j], b[j]);
    }
  }

  lemma ShapeKeepsParentIndex(a: seq<BVersion>, b: seq<BVersion>, j: nat)
    requires SameShape(a, b) && j < |a|
    ensures ParentIndex(a, j) == ParentIndex(b, j)
  {
    assert SameVersion(a[j], b[j]);
    var key := Str(a[j].parentVersion);
    assert forall i :: 0 <= i < |a| ==> (a[i].id == key <==> b[i].id == key) by {
      forall i | 0 <= i < |a| ensures a[i].id == key <==> b[i].id == key {
        assert SameVersion(a[i], b[i]);
      }
    }
  }

  lemma {:induction false} ShapeKeepsScan(c: BVersion, p: BVersion, c2: BVersion, p2: BVersion, idx: nat)
    requires SameVersion(c, c2) && SameVersion(p, p2) && idx < CommonLength(c, p)
    ensures CommonLength(c, p) == CommonLength(c2, p2)
    ensures ScanPairs(c, p, idx) == ScanPairs(c2, p2, idx)
    decreases CommonLength(c, p) - idx
  {
    var n := CommonLength(c, p);
    if idx < n - 1 && c.messages[idx].content == p.messages[idx].content {
      ShapeKeepsScan(c, p, c2, p2, idx + 1);
    }
  }

  lemma ShapeKeepsBranchingIndex(c: BVersion, p: BVersion, c2: BVersion, p2: BVersion)
    requires SameVersion(c, c2) && SameVersion(p, p2)
    ensures BranchingIndex(c, p) == BranchingIndex(c2, p2)
  {
    if CommonLength(c, p) > 0 {
      ShapeKeepsScan(c, p, c2, p2, 0);
    }
  }

  lemma RecordedGrows(s0: seq<BVersion>, a: seq<BVersion>, b: seq<BVersion>, j: nat)
    requires j < |s0| && SameShape(s0, a) && Grows(a, b) && BranchRecorded(s0, a, j)
    ensures SameShape(s0, b) && BranchRecorded(s0, b, j)
  {
    ShapeTransitive(s0, a, b);
    match ParentIndex(s0, j)
    case None =>
    case Some(p) =>
      match BranchingIndex(s0[j], s0[p])
      case Ok(Some(k)) =>
        assert SameVersion(s0[j], a[j]) && SameVersion(s0[p], a[p]);
        assert IdsOf(a[j].messages[k].versions) <= IdsOf(b[j].messages[k].versions);
        assert IdsOf(a[p].messages[k].versions) <= IdsOf(b[p].messages[k].versions);
      case _ =>
  }

  // ----------------------------------------------------------- one insort

  lemma {:induction false} InsortAtGrows(s: seq<BVersion>, j: nat, k: nat, stamp: Stamp)
    requires j < |s| && k < |s[j].messages|
    ensures var r := InsortAt(s, j, k, stamp);
            Grows(s, r) && stamp.id in IdsOf(r[j].messages[k].versions)
            && (AllSorted(s) ==> AllSorted(r))
  {
    var r := InsortAt(s, j, k, stamp);
    assert r[j].messages[k].versions == Insort(s[j].messages[k].versions, stamp);
    InsortAtShape(s, j, k, stamp);
    if AllSorted(s) {
      InsortSorted(s[j].messages[k].versions, stamp);
      InsortAtSorted(s, j, k, stamp);
    }
  }

  lemma {:induction false} InsortAtShape(s: seq<BVersion>, j: nat, k: nat, stamp: Stamp)
    requires j < |s| && k < |s[j].messages|
    ensures SameShape(s, InsortAt(s, j, k, stamp))
  {
    var r := InsortAt(s, j, k, stamp);
    forall i | 0 <= i < |s| ensures SameVersion(s[i], r[i]) {
      if i == j {
        assert r[j].(messages := s[j].messages) == s[j];
      }
    }
  }

  lemma {:induction false} InsortAtSorted(s: seq<BVersion>, j: nat, k: nat, stamp: Stamp)
    requires j < |s| && k < |s[j].messages| && AllSorted(s)
    requires SortedByTime(Insort(s[j].messages[k].versions, stamp))
    ensures AllSorted(InsortAt(s, j, k, stamp))
  {
    var r := InsortAt(s, j, k, stamp);
    assert r[j].messages[k].versions == Insort(s[j].messages[k].versions, stamp);
  }


  /** The guarded insertion: the id is present afterwards, nothing is lost, order is kept. */
  lemma InsortIfMissingGrows(s: seq<BVersion>, j: nat, k: nat, stamp: Stamp)
    requires j < |s| && k < |s[j].messages|
    ensures var r := InsortIfMissing(s, j, k, stamp);
            Grows(s, r) && stamp.id in IdsOf(r[j].messages[k].versions)
            && (AllSorted(s) ==> AllSorted(r))
  {
    if MessageHasVersion(Filled(s[j].messages[k]), stamp.id) {
      assert Grows(s, s);
    } else {
      InsortAtGrows(s, j, k, stamp);
    }
  }

  /** An id recorded on a message stays recorded as the sequence grows. */
  lemma GrowsKeepsId(a: seq<BVersion>, b: seq<BVersion>, i: nat, k: nat, id: string)
    requires Grows(a, b) && i < |a| && k < |a[i].messages| && id in IdsOf(a[i].messages[k].versions)
    ensures i < |b| && k < |b[i].messages| && id in IdsOf(b[i].messages[k].versions)
  {
    assert SameVersion(a[i], b[i]);
    assert IdsOf(a[i].messages[k].versions) <= IdsOf(b[i].messages[k].versions);
  }

  lemma {:induction false} RecordBranchSpec(s: seq<BVersion>, j: nat, p: nat, k: nat)
    requires j < |s| && p < |s| && k < |s[j].messages| && k < |s[p].messages|
    ensures var r := RecordBranch(s, j, p, k);
            Grows(s, r) && (AllSorted(s) ==> AllSorted(r))
            && {s[j].id, s[p].id} <= IdsOf(r[j].messages[k].versions)
            && {s[j].id, s[p].id} <= IdsOf(r[p].messages[k].versions)
  {
    var child, parent := StampOf(s[j]), StampOf(s[p]);
    var s1 := InsortIfMissing(s, j, k, child);
    InsortIfMissingGrows(s, j, k, child);
    var s2 := InsortIfMissing(s1, p, k, parent);
    InsortIfMissingGrows(s1, p, k, parent);
    GrowsKeepsId(s1, s2, j, k, child.id);
    var s3 := InsortAt(s2, j, k, parent);
    InsortAtGrows(s2, j, k, parent);
    GrowsKeepsId(s2, s3, j, k, child.id);
    GrowsKeepsId(s2, s3, p, k, parent.id);
    var s4 := InsortAt(s3, p, k, child);
    InsortAtGrows(s3, p, k, child);
    GrowsKeepsId(s3, s4, j, k, child.id);
    GrowsKeepsId(s3, s4, j, k, parent.id);
    GrowsKeepsId(s3, s4, p, k, parent.id);
    GrowsTransitive(s, s1, s2);
    GrowsTransitive(s, s2, s3);
    GrowsTransitive(s, s3, s4);
  }

  // ----------------------------------------------------------- one step

  lemma BranchStepSpec(s: seq<BVersion>, j: nat)
    requires j < |s| && UniqueIds(s)
    ensures BranchStep(s, j).Err? <==> StepFails(s, j)
    ensures BranchStep(s, j).Err? ==> BranchStep(s, j).error == ContentMismatch
    ensures var r := BranchStep(s, j);
            r.Ok? ==> Grows(s, r.value) && BranchRecorded(s, r.value, j) && (AllSorted(s) ==> AllSorted(r.value))
  {
    match ParentIndex(s, j)
    case None =>
      assert Grows(s, s);
    case Some(p) =>
      match BranchingIndex(s[j], s[p])
      case Err(e) =>
      case Ok(k) =>
        var s4 := if k.Some? then RecordBranch(s, j, p, k.value) else s;
        if k.Some? {
          RecordBranchSpec(s, j, p, k.value);
        } else {
          assert Grows(s, s4);
        }
        assert SameVersion(s[j], s4[j]) && SameVersion(s[p], s4[p]);
        ShapeKeepsUniqueIds(s, s4);
        SetOwnVersionIsIdentity(s4, j);
        SetOwnVersionIsIdentity(s4, p);
        assert BranchStep(s, j) == Ok(s4);
  }

  // ----------------------------------------------------------- the loop

  /** A step taken on a conversation of the original shape behaves as on the original. */
  lemma StepOnShape(s0: seq<BVersion>, s: seq<BVersion>, j: nat)
    requires j < |s| && SameShape(s0, s) && UniqueIds(s0)
    ensures BranchStep(s, j).Err? <==> StepFails(s0, j)
    ensures BranchStep(s, j).Err? ==> BranchStep(s, j).error == ContentMismatch
    ensures var r := BranchStep(s, j);
            r.Ok? ==> Grows(s, r.value) && SameShape(s0, r.value) && BranchRecorded(s0, r.value, j)
                      && (AllSorted(s) ==> AllSorted(r.value))
  {
    ShapeKeepsUniqueIds(s0, s);
    BranchStepSpec(s, j);
    ShapeKeepsParentIndex(s0, s, j);
    assert SameVersion(s0[j], s[j]);
    match ParentIndex(s0, j)
    case None =>
      if BranchStep(s, j).Ok? {
        ShapeTransitive(s0, s, BranchStep(s, j).value);
      }
    case Some(p) =>
      assert SameVersion(s0[p], s[p]);
      ShapeKeepsBranchingIndex(s0[j], s0[p], s[j], s[p]);
      if BranchStep(s, j).Ok? {
        var s1 := BranchStep(s, j).value;
        ShapeTransitive(s0, s, s1);
        assert BranchRecorded(s, s1, j);
      }
  }

  /** Which versions fail to align with their parent, by index. */
  function Failures(s0: seq<BVersion>): (r: seq<bool>)
    ensures |r| == |s0| && forall i :: 0 <= i < |s0| ==> r[i] == StepFails(s0, i)
  {
    seq(|s0|, i requires 0 <= i < |s0| => StepFails(s0, i))
  }

  /** One of the first j flags is set. */
  predicate AnyBefore(b: seq<bool>, j: nat)
    requires j <= |b|
  {
    j > 0 && (b[j - 1] || AnyBefore(b, j - 1))
  }

  lemma {:induction false} AnyBeforeExists(b: seq<bool>, j: nat)
    requires j <= |b|
    ensures AnyBefore(b, j) <==> exists i :: 0 <= i < j && b[i]
  {
    if j > 0 {
      AnyBeforeExists(b, j - 1);
      if b[j - 1] {
        assert exists i :: 0 <= i < j && b[i];
      }
    }
  }

  lemma {:induction false} BranchLoopFails(s0: seq<BVersion>, s: seq<BVersion>, j: nat)
    requires j <= |s| && SameShape(s0, s) && UniqueIds(s0)
    ensures BranchLoop(s, j).Err? <==> AnyBefore(Failures(s0), j)
    ensures BranchLoop(s, j).Err? ==> BranchLoop(s, j).error == ContentMismatch
    decreases j
  {
    if j > 0 {
      StepOnShape(s0, s, j - 1);
      var st := BranchStep(s, j - 1);
      if st.Ok? {
        BranchLoopFails(s0, st.value, j - 1);
      }
    }
  }

  lemma {:induction false} BranchLoopGrows(s0: seq<BVersion>, s: seq<BVersion>, j: nat)
    requires j <= |s| && SameShape(s0, s) && UniqueIds(s0)
    ensures var r := BranchLoop(s, j);
            r.Ok? ==> Grows(s, r.value) && SameShape(s0, r.value) && (AllSorted(s) ==> AllSorted(r.value))
    decreases j
  {
    if j == 0 {
      assert Grows(s, s);
    } else {
      StepOnShape(s0, s, j - 1);
      var st := BranchStep(s, j - 1);
      if st.Ok? {
        BranchLoopGrows(s0, st.value, j - 1);
        var r := BranchLoop(st.value, j - 1);
        if r.Ok? {
          GrowsTransitive(s, st.value, r.value);
        }
      }
    }
  }

  lemma RecordedAllGrow(s0: seq<BVersion>, a: seq<BVersion>, b: seq<BVersion>, j: nat)
    requires j <= |s0| && SameShape(s0, a) && Grows(a, b)
    requires forall i :: j <= i < |s0| ==> BranchRecorded(s0, a, i)
    ensures SameShape(s0, b) && forall i :: j <= i < |s0| ==> BranchRecorded(s0, b, i)
  {
    ShapeTransitive(s0, a, b);
    forall i | j <= i < |s0| ensures BranchRecorded(s0, b, i) {
      RecordedGrows(s0, a, b, i);
    }
  }

  lemma {:induction false} BranchLoopRecords(s0: seq<BVersion>, s: seq<BVersion>, j: nat)
    requires j <= |s| && SameShape(s0, s) && UniqueIds(s0)
    requires forall i :: j <= i < |s0| ==> BranchRecorded(s0, s, i)
    ensures var r := BranchLoop(s, j);
            r.Ok? ==> SameShape(s0, r.value) && forall i :: 0 <= i < |s0| ==> BranchRecorded(s0, r.value, i)
    decreases j
  {
    if j > 0 {
      StepOnShape(s0, s, j - 1);
      var st := BranchStep(s, j - 1);
      if st.Ok? {
        RecordedAllGrow(s0, s, st.value, j);
        BranchLoopRecords(s0, st.value, j - 1);
      }
    }
  }

  /**
   * The first pass of `make_branched_conversation`: it fails exactly when some
   * version with a parent cannot be aligned with it; otherwise no message
   * loses a version id, every list stays ordered by time, and at the
   * branching point of every version and its parent both messages record
   * both ids.
   */
  lemma AnnotateBranchesSpec(versions: seq<BVersion>)
    requires UniqueIds(versions)
    ensures AnnotateBranches(versions).Err? <==> exists i :: 0 <= i < |versions| && StepFails(versions, i)
    ensures AnnotateBranches(versions).Err? ==> AnnotateBranches(versions).error == ContentMismatch
    ensures var r := AnnotateBranches(versions);
            r.Ok? ==> Grows(versions, r.value)
                      && (forall i :: 0 <= i < |versions| ==> BranchRecorded(versions, r.value, i))
                      && (AllSorted(versions) ==> AllSorted(r.value))
  {
    assert SameShape(versions, versions);
    BranchLoopFails(versions, versions, |versions|);
    AnyBeforeExists(Failures(versions), |versions|);
    BranchLoopGrows(versions, versions, |versions|);
    BranchLoopRecords(versions, versions, |versions|);
  }
}
