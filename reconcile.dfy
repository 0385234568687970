/** The in-memory part of UpdateGroupMembers (internal/repo/group.go:109-135):
    given the current Normal member rows of one group and user and the
    members the caller asks for, soft-delete the rows nobody asked for,
    retarget the rows that were asked for, and append the requests that match
    no current row. */
module Reconcile {
  import opened Rows

  /** Some request carries id `id`. */
  ghost predicate Requested(requested: seq<Member>, id: int) {
    exists k :: 0 <= k < |requested| && requested[k].id == id
  }

  /** `requested[k]` is the last request carrying id `id`. */
  ghost predicate LastRequestFor(requested: seq<Member>, k: int, id: int) {
    0 <= k < |requested| && requested[k].id == id &&
    forall j :: k < j < |requested| ==> requested[j].id != id
  }

  /** The requests keyed by id, the lookup `array.ToMap` builds at line 109.
      The helper is not part of this model; it is read as inserting the
      requests in order, so that of two requests with one id the later wins
      (IndexByIdLastWins). */
  function IndexById(requested: seq<Member>): (m: map<int, Member>)
    ensures forall id :: id in m <==> Requested(requested, id)
    decreases |requested|
  {
    if |requested| == 0 then map[]
    else
      var init, last := requested[..|requested| - 1], requested[|requested| - 1];
      assert forall id :: Requested(requested, id) <==> Requested(init, id) || id == last.id by {
        forall id | Requested(init, id) ensures Requested(requested, id) {
          var k :| 0 <= k < |init| && init[k].id == id;
          assert requested[k].id == id;
        }
      }
      IndexById(init)[last.id := last]
  }

  /** Of several requests with one id, the lookup keeps the last. */
  lemma {:induction false} IndexByIdLastWins(requested: seq<Member>, k: int, id: int)
    requires LastRequestFor(requested, k, id)
    ensures id in IndexById(requested) && IndexById(requested)[id] == requested[k]
    decreases |requested|
  {
    var init, last := requested[..|requested| - 1], requested[|requested| - 1];
    if k < |requested| - 1 {
      assert last.id != id;
      assert LastRequestFor(init, k, id);
      IndexByIdLastWins(init, k, id);
    }
  }

  /** The ids of the current rows: the keys of the map built at line 110. */
  function IdsOf(rows: seq<MemberRow>): (ids: set<int>)
    ensures forall i :: 0 <= i < |rows| ==> rows[i].id in ids
    ensures forall id :: id in ids ==> exists i :: 0 <= i < |rows| && rows[i].id == id
  {
    var ids := set r | r in rows :: r.id;
    assert forall i :: 0 <= i < |rows| ==> rows[i] in rows;
    ids
  }

  /** What the first loop (lines 112-122) makes of one current row: the
      requested model when its id is asked for, status Deleted otherwise. */
  function Revise(row: MemberRow, wanted: map<int, Member>): (r: MemberRow)
    ensures r.id == row.id && r.groupId == row.groupId && r.userId == row.userId
    ensures row.id !in wanted ==>
      r.status == MemberStatusDeleted && r.modelId == row.modelId && r.modelName == row.modelName
    ensures row.id in wanted ==>
      r.status == row.status && r.modelId == wanted[row.id].modelId && r.modelName == wanted[row.id].modelName
  {
    if row.id in wanted then row.(modelId := wanted[row.id].modelId, modelName := wanted[row.id].modelName)
    else row.(status := MemberStatusDeleted)
  }

  /** The row the second loop (lines 125-135) appends for a request; its id
      is 0 (absent) until the row is saved. */
  function NewRow(groupID: int, userID: int, m: Member): (r: MemberRow)
    ensures r.id == 0 && r.groupId == groupID && r.userId == Some(userID) && r.status == MemberStatusNormal
    ensures r.modelId == m.modelId && r.modelName == m.modelName
  {
    MemberRow(0, groupID, Some(userID), m.modelId, m.modelName, MemberStatusNormal)
  }

  /** The requests whose id is not among `ids`, in request order; a request
      repeated n times stays repeated n times. */
  function Unmatched(ids: set<int>, requested: seq<Member>): (r: seq<Member>)
    ensures |r| <= |requested|
    decreases |requested|
  {
    if |requested| == 0 then []
    else
      var init, last := requested[..|requested| - 1], requested[|requested| - 1];
      assert requested == init + [last];
      Unmatched(ids, init) + (if last.id in ids then [] else [last])
  }

  /** Only requests whose id is not among `ids` are kept. */
  lemma {:induction false} UnmatchedMembers(ids: set<int>, requested: seq<Member>)
    ensures forall x :: x in Unmatched(ids, requested) ==> x in requested && x.id !in ids
    decreases |requested|
  {
    if |requested| > 0 {
      var init := requested[..|requested| - 1];
      UnmatchedMembers(ids, init);
      assert forall x :: x in init ==> x in requested;
    }
  }

  /** Current ids that no request carries, such as the fresh ids of rows an
      earlier call appended, do not change which requests are unmatched: a
      repeated call appends the unmatched requests again. */
  lemma {:induction false} FreshIdsDoNotMatch(ids: set<int>, newIds: set<int>, requested: seq<Member>)
    requires forall id :: id in newIds ==> !Requested(requested, id)
    ensures Unmatched(ids + newIds, requested) == Unmatched(ids, requested)
    decreases |requested|
  {
    if |requested| > 0 {
      var init, last := requested[..|requested| - 1], requested[|requested| - 1];
      assert Requested(requested, last.id);
      forall id | Requested(init, id) ensures Requested(requested, id) {
        var k :| 0 <= k < |init| && init[k].id == id;
        assert requested[k].id == id;
      }
      FreshIdsDoNotMatch(ids, newIds, init);
    }
  }

  /** Each unmatched request is kept as often as it was made, each matched
      one is dropped entirely. */
  lemma {:induction false} UnmatchedCount(ids: set<int>, requested: seq<Member>, m: Member)
    ensures multiset(Unmatched(ids, requested))[m] == if m.id in ids then 0 else multiset(requested)[m]
    decreases |requested|
  {
    if |requested| > 0 {
      var init, last := requested[..|requested| - 1], requested[|requested| - 1];
      assert requested == init + [last];
      UnmatchedCount(ids, init, m);
    }
  }

  /** What the first loop makes of a current row, in terms of the requests
      themselves: a row no request names becomes Deleted and nothing else
      about it changes; a row some request names keeps its id, group, user
      and status and takes the model of the last request naming it. */
  lemma ReviseByRequests(row: MemberRow, requested: seq<Member>)
    ensures !Requested(requested, row.id) ==>
      Revise(row, IndexById(requested)) == row.(status := MemberStatusDeleted)
    ensures forall k :: LastRequestFor(requested, k, row.id) ==>
      Revise(row, IndexById(requested)) == row.(modelId := requested[k].modelId, modelName := requested[k].modelName)
  {
    forall k | LastRequestFor(requested, k, row.id)
      ensures Revise(row, IndexById(requested)) == row.(modelId := requested[k].modelId, modelName := requested[k].modelName)
    {
      IndexByIdLastWins(requested, k, row.id);
    }
  }

  /** Unmatched grows by at most the next request. */
  lemma UnmatchedStep(ids: set<int>, requested: seq<Member>, j: nat)
    requires j < |requested|
    ensures Unmatched(ids, requested[..j + 1]) ==
      Unmatched(ids, requested[..j]) + (if requested[j].id in ids then [] else [requested[j]])
  {
    assert requested[..j + 1][..j] == requested[..j];
  }

  /** Lines 109-135: the rows to save, in order. Each current row keeps its
      place and is revised as ReviseByRequests describes; after them comes
      one fresh Normal row of `groupID` and `userID` for every request whose
      id matches no current row, in request order. */
  method ReconcileMembers(current: seq<MemberRow>, requested: seq<Member>, groupID: int, userID: int)
    returns (rows: seq<MemberRow>)
    ensures |rows| == |current| + |Unmatched(IdsOf(current), requested)|
    ensures forall i :: 0 <= i < |current| ==> rows[i] == Revise(current[i], IndexById(requested))
    ensures forall k :: |current| <= k < |rows| ==>
      rows[k] == NewRow(groupID, userID, Unmatched(IdsOf(current), requested)[k - |current|])
  {
    var wanted := IndexById(requested);
    var currentIds := IdsOf(current);
    rows := current;
    for i := 0 to |current|
      invariant |rows| == |current|
      invariant forall k :: 0 <= k < i ==> rows[k] == Revise(current[k], wanted)
      invariant forall k :: i <= k < |current| ==> rows[k] == current[k]
    {
      var member := current[i];
      if member.id !in wanted {
        rows := rows[i := rows[i].(status := MemberStatusDeleted)];
      } else {
        var change := wanted[member.id];
        member := member.(modelId := change.modelId, modelName := change.modelName);
        rows := rows[i := member];
      }
    }
    ghost var revised := rows;
    for j := 0 to |requested|
      invariant |rows| == |current| + |Unmatched(currentIds, requested[..j])|
      invariant rows[..|current|] == revised
      invariant forall k :: |current| <= k < |rows| ==>
        rows[k] == NewRow(groupID, userID, Unmatched(currentIds, requested[..j])[k - |current|])
    {
      UnmatchedStep(currentIds, requested, j);
      if requested[j].id !in currentIds {
        rows := rows + [NewRow(groupID, userID, requested[j])];
      }
    }
    assert requested[..|requested|] == requested;
    forall i | 0 <= i < |current|
      ensures rows[i] == Revise(current[i], wanted)
    {
      assert rows[i] == rows[..|current|][i];
    }
  }

  /** A request with id 0 never names a stored row, whose ids are positive:
      every such request gets a row of its own, duplicates included. */
  lemma ZeroIdRequestsAreAppended(current: seq<MemberRow>, requested: seq<Member>, m: Member)
    requires forall i :: 0 <= i < |current| ==> current[i].id > 0
    requires m.id == 0
    ensures multiset(Unmatched(IdsOf(current), requested))[m] == multiset(requested)[m]
  {
    assert 0 !in IdsOf(current);
    UnmatchedCount(IdsOf(current), requested, m);
  }
}
