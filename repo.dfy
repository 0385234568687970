/** The chat-group repository of internal/repo/group.go over three in-memory
    tables. Each table is a sequence of rows in insertion order with its own
    auto-increment counter; each repository method is one transaction that
    either completes or, when the database reports an error (`dbFails`),
    leaves every table as it was. */
module Repo {
  import opened Rows
  import opened Listing
  import opened Reconcile

  /** A row the member queries at lines 101-104 and 173-176 select: a Normal
      member of `groupID` whose user id is `userID`. */
  predicate IsActiveMember(r: MemberRow, groupID: int, userID: int)
    ensures IsActiveMember(r, groupID, userID) ==> r.userId.Some? && r.status != MemberStatusDeleted
  {
    r.groupId == groupID && r.userId == Some(userID) && r.status == MemberStatusNormal
  }

  /** The ids of the rows IsActiveMember selects. */
  function ActiveIds(rows: seq<MemberRow>, groupID: int, userID: int): (ids: set<int>)
    ensures forall i :: 0 <= i < |rows| && IsActiveMember(rows[i], groupID, userID) ==> rows[i].id in ids
    ensures forall id :: id in ids ==>
      exists i :: 0 <= i < |rows| && rows[i].id == id && IsActiveMember(rows[i], groupID, userID)
  {
    var ids := set r | r in rows && IsActiveMember(r, groupID, userID) :: r.id;
    assert forall i :: 0 <= i < |rows| ==> rows[i] in rows;
    ids
  }

  /** The row the creation loops (lines 57-66, 151-160) insert for a member:
      its id comes from the table, its user id is left unset. */
  function CreatedRow(id: int, groupID: int, m: Member): (r: MemberRow)
    ensures r.id == id && r.groupId == groupID && r.status == MemberStatusNormal
    ensures r.modelId == m.modelId && r.modelName == m.modelName
    ensures forall g, u :: !IsActiveMember(r, g, u)
  {
    MemberRow(id, groupID, None, m.modelId, m.modelName, MemberStatusNormal)
  }

  /** Ids positive, below the table's counter, ascending in table order. */
  ghost predicate WellKeyed<T>(s: seq<T>, key: T -> int, next: int) {
    0 < next && Ascending(s, key) && forall i :: 0 <= i < |s| ==> 0 < key(s[i]) < next
  }

  /** A row inserted under the counter's id keeps the table well keyed. */
  lemma AppendWellKeyed<T>(s: seq<T>, key: T -> int, next: int, x: T)
    requires WellKeyed(s, key, next) && key(x) == next
    ensures WellKeyed(s + [x], key, next + 1)
  {
  }

  /** Rewriting rows without touching their ids keeps the table well keyed. */
  lemma SameKeysWellKeyed<T>(s: seq<T>, t: seq<T>, key: T -> int, next: int)
    requires WellKeyed(s, key, next)
    requires |t| == |s| && forall i :: 0 <= i < |s| ==> key(t[i]) == key(s[i])
    ensures WellKeyed(t, key, next)
  {
  }

  /** Rows rewritten in place under their own ids, followed by `count` rows
      inserted under the next ids, keep the table well keyed. */
  lemma ExtendedWellKeyed(s: seq<MemberRow>, t: seq<MemberRow>, next: int, count: nat)
    requires WellKeyed(s, MemberKey, next)
    requires |t| == |s| + count
    requires forall i :: 0 <= i < |s| ==> t[i].id == s[i].id
    requires forall i :: |s| <= i < |t| ==> t[i].id == next + (i - |s|)
    ensures WellKeyed(t, MemberKey, next + count)
  {
    forall i, j | 0 <= i < j < |t| ensures MemberKey(t[i]) < MemberKey(t[j]) {
      if j < |s| {
        assert MemberKey(s[i]) < MemberKey(s[j]);
      } else if i < |s| {
        assert MemberKey(s[i]) < next;
      }
    }
    forall i | 0 <= i < |t| ensures 0 < MemberKey(t[i]) < next + count {
      if i < |s| {
        assert 0 < MemberKey(s[i]) < next;
      }
    }
  }

  /** Dropping rows keeps the table well keyed. */
  lemma FilterWellKeyed<T(!new)>(s: seq<T>, keep: T -> bool, key: T -> int, next: int)
    requires WellKeyed(s, key, next)
    ensures WellKeyed(Filter(s, keep), key, next)
  {
    FilterAscending(s, keep, key);
    var r := Filter(s, keep);
    forall i | 0 <= i < |r| ensures 0 < key(r[i]) < next {
      assert r[i] in s;
    }
  }

  /** Group `groupID` exists and belongs to `userID`. */
  ghost predicate OwnsGroup(gs: seq<GroupRow>, groupID: int, userID: int) {
    exists g :: g in gs && g.id == groupID && g.userId == userID
  }

  /** The group query of lines 77-78 and 191-193. */
  function FindGroup(gs: seq<GroupRow>, groupID: int, userID: int): (r: Option<GroupRow>)
    ensures r.None? <==> !OwnsGroup(gs, groupID, userID)
    ensures r.Some? ==> r.value in gs && r.value.id == groupID && r.value.userId == userID
  {
    First(gs, (g: GroupRow) => g.id == groupID && g.userId == userID)
  }

  /** The groups table after group `groupID` of `userID` is named `name`. */
  function Renamed(gs: seq<GroupRow>, groupID: int, userID: int, name: string): (r: seq<GroupRow>)
    ensures |r| == |gs|
    ensures forall i :: 0 <= i < |gs| ==> r[i].id == gs[i].id && r[i].userId == gs[i].userId
    ensures forall i :: 0 <= i < |gs| ==>
      r[i].name == if gs[i].id == groupID && gs[i].userId == userID then name else gs[i].name
  {
    seq(|gs|, i requires 0 <= i < |gs| =>
      if gs[i].id == groupID && gs[i].userId == userID then gs[i].(name := name) else gs[i])
  }

  /** Message `messageID` exists in group `groupID` and was written for `userID`. */
  predicate IsMessageOf(m: MessageRow, groupID: int, userID: int, messageID: int) {
    m.groupId == groupID && m.userId == userID && m.id == messageID
  }

  /** The message query of lines 285-289. */
  function FindMessage(ms: seq<MessageRow>, groupID: int, userID: int, messageID: int): (r: Option<MessageRow>)
    ensures r.None? <==> forall x :: x in ms ==> !IsMessageOf(x, groupID, userID, messageID)
    ensures r.Some? ==> r.value in ms && IsMessageOf(r.value, groupID, userID, messageID)
  {
    First(ms, (m: MessageRow) => IsMessageOf(m, groupID, userID, messageID))
  }

  /** A row saved by id (eloquent's Save on a row that has an id): the
      stored row with that id is overwritten, nothing else changes. */
  function SaveById<T>(s: seq<T>, key: T -> int, row: T): (r: seq<T>)
    ensures |r| == |s|
    ensures forall i :: 0 <= i < |s| ==> key(r[i]) == key(s[i])
    ensures forall i :: 0 <= i < |s| ==> r[i] == if key(s[i]) == key(row) then row else s[i]
  {
    seq(|s|, i requires 0 <= i < |s| => if key(s[i]) == key(row) then row else s[i])
  }

  class ChatGroupRepo {
    var groups: seq<GroupRow>
    var members: seq<MemberRow>
    var messages: seq<MessageRow>
    var nextGroupId: int
    var nextMemberId: int
    var nextMessageId: int

    ghost predicate Valid()
      reads this
    {
      && WellKeyed(groups, GroupKey, nextGroupId)
      && WellKeyed(members, MemberKey, nextMemberId)
      && WellKeyed(messages, MessageKey, nextMessageId)
    }

    /** NewChatGroupRepo, over empty tables. */
    constructor ()
      ensures Valid()
      ensures groups == [] && members == [] && messages == []
    {
      groups, members, messages := [], [], [];
      nextGroupId, nextMemberId, nextMessageId := 1, 1, 1;
    }

    /** One Normal member row of `groupID` per entry of `input`, in order,
        with fresh ids and no user id. */
    method InsertMembers(groupID: int, input: seq<Member>)
      requires Valid()
      modifies this
      ensures Valid()
      ensures groups == old(groups) && messages == old(messages)
      ensures nextGroupId == old(nextGroupId) && nextMessageId == old(nextMessageId)
      ensures nextMemberId == old(nextMemberId) + |input|
      ensures |members| == |old(members)| + |input| && members[..|old(members)|] == old(members)
      ensures forall k :: 0 <= k < |input| ==>
        members[|old(members)| + k] == CreatedRow(old(nextMemberId) + k, groupID, input[k])
    {
      for k := 0 to |input|
        invariant Valid()
        invariant groups == old(groups) && messages == old(messages)
        invariant nextGroupId == old(nextGroupId) && nextMessageId == old(nextMessageId)
        invariant nextMemberId == old(nextMemberId) + k
        invariant |members| == |old(members)| + k && members[..|old(members)|] == old(members)
        invariant forall t :: 0 <= t < k ==>
          members[|old(members)| + t] == CreatedRow(old(nextMemberId) + t, groupID, input[t])
      {
        AppendWellKeyed(members, MemberKey, nextMemberId, CreatedRow(nextMemberId, groupID, input[k]));
        members := members + [CreatedRow(nextMemberId, groupID, input[k])];
        nextMemberId := nextMemberId + 1;
      }
    }

    /** CreateGroup: a group row owned by `userID`, then one Normal member
        row per input member linked to it; returns the new group's id. */
    method CreateGroup(userID: int, name: string, input: seq<Member>, dbFails: bool)
      returns (r: Result<int>)
      requires Valid()
      modifies this
      ensures Valid()
      ensures dbFails ==> r == Err(DbFailure) && unchanged(this)
      ensures !dbFails ==> r == Ok(old(nextGroupId))
      ensures !dbFails ==> groups == old(groups) + [GroupRow(old(nextGroupId), userID, name)]
      ensures !dbFails ==> nextGroupId == old(nextGroupId) + 1 && nextMemberId == old(nextMemberId) + |input|
      ensures !dbFails ==> |members| == |old(members)| + |input| && members[..|old(members)|] == old(members)
      ensures !dbFails ==> forall k :: 0 <= k < |input| ==>
        members[|old(members)| + k] == CreatedRow(old(nextMemberId) + k, old(nextGroupId), input[k])
      ensures messages == old(messages) && nextMessageId == old(nextMessageId)
    {
      if dbFails {
        return Err(DbFailure);
      }
      var gid := nextGroupId;
      AppendWellKeyed(groups, GroupKey, nextGroupId, GroupRow(gid, userID, name));
      groups := groups + [GroupRow(gid, userID, name)];
      nextGroupId := nextGroupId + 1;
      InsertMembers(gid, input);
      r := Ok(gid);
    }

    /** UpdateGroup: ErrNotFound unless `userID` owns group `groupID`; the
        name is written only when it differs from the stored one. */
    method UpdateGroup(groupID: int, userID: int, name: string, dbFails: bool) returns (r: Outcome)
      requires Valid()
      modifies this
      ensures Valid()
      ensures dbFails ==> r == Fail(DbFailure) && unchanged(this)
      ensures !dbFails && !OwnsGroup(old(groups), groupID, userID) ==> r == Fail(NotFound) && unchanged(this)
      ensures !dbFails && OwnsGroup(old(groups), groupID, userID) ==> r == Pass
      ensures !dbFails && OwnsGroup(old(groups), groupID, userID) ==>
        if FindGroup(old(groups), groupID, userID).value.name == name then unchanged(this)
        else groups == Renamed(old(groups), groupID, userID, name)
      ensures members == old(members) && messages == old(messages)
      ensures nextGroupId == old(nextGroupId) && nextMemberId == old(nextMemberId) && nextMessageId == old(nextMessageId)
    {
      if dbFails {
        return Fail(DbFailure);
      }
      var found := FindGroup(groups, groupID, userID);
      if found.None? {
        return Fail(NotFound);
      }
      var grp := found.value;
      if name != grp.name {
        ghost var before := groups;
        groups := SaveById(groups, GroupKey, grp.(name := name));
        SameKeysWellKeyed(before, groups, GroupKey, nextGroupId);
        forall i | 0 <= i < |before|
          ensures groups[i] == Renamed(before, groupID, userID, name)[i]
        {
          if before[i].id == groupID {
            KeyDetermines(before, GroupKey, grp, i);
          }
        }
      }
      r := Pass;
    }

    /** UpdateGroupMembers (lines 99-146): reconciles the Normal member rows
        of `groupID` and `userID` with `requested` and saves every row. A
        selected row stays in place, soft-deleted or retargeted as Revise
        says; every other row is untouched; each request whose id matches no
        selected row becomes a fresh Normal row at the end of the table. */
    method UpdateGroupMembers(groupID: int, userID: int, requested: seq<Member>, dbFails: bool)
      returns (r: Outcome)
      requires Valid()
      modifies this
      ensures Valid()
      ensures groups == old(groups) && messages == old(messages)
      ensures nextGroupId == old(nextGroupId) && nextMessageId == old(nextMessageId)
      ensures dbFails ==> r == Fail(DbFailure) && unchanged(this)
      ensures !dbFails ==> r == Pass
      ensures !dbFails ==>
        var added := Unmatched(ActiveIds(old(members), groupID, userID), requested);
        && |members| == |old(members)| + |added|
        && nextMemberId == old(nextMemberId) + |added|
        && (forall i :: 0 <= i < |old(members)| ==>
              members[i] == if IsActiveMember(old(members)[i], groupID, userID)
                            then Revise(old(members)[i], IndexById(requested))
                            else old(members)[i])
        && (forall i :: |old(members)| <= i < |members| ==>
              members[i] == NewRow(groupID, userID, added[i - |old(members)|]).(id := old(nextMemberId) + (i - |old(members)|)))
    {
      if dbFails {
        return Fail(DbFailure);
      }
      var current := Filter(members, (x: MemberRow) => IsActiveMember(x, groupID, userID));
      var rows := ReconcileMembers(current, requested, groupID, userID);

      ghost var table, n0 := members, nextMemberId;
      ghost var wanted := IndexById(requested);
      ghost var added := Unmatched(IdsOf(current), requested);
      SelectedByIds(table, current, groupID, userID);
      SelectedIds(table, current, groupID, userID);
      SaveMembers(rows, current, wanted);
      forall i | |table| <= i < |members|
        ensures members[i] == NewRow(groupID, userID, added[i - |table|]).(id := n0 + (i - |table|))
      {
        var k := |current| + (i - |table|);
        assert members[i] == rows[k].(id := n0 + (i - |table|));
      }
      r := Pass;
    }

    /** The save loop of lines 138-142 over the reconciled rows: the first
        |current| rows are revisions of stored rows and are written back by
        id, the rest are new (id 0) and are inserted under fresh ids. */
    method SaveMembers(rows: seq<MemberRow>, ghost current: seq<MemberRow>, ghost wanted: map<int, Member>)
      requires Valid()
      requires forall x :: x in current ==> x in members
      requires |current| <= |rows|
      requires forall k :: 0 <= k < |current| ==> rows[k] == Revise(current[k], wanted)
      requires forall k :: |current| <= k < |rows| ==> rows[k].id == 0
      modifies this
      ensures Valid()
      ensures groups == old(groups) && messages == old(messages)
      ensures nextGroupId == old(nextGroupId) && nextMessageId == old(nextMessageId)
      ensures |members| == |old(members)| + (|rows| - |current|)
      ensures nextMemberId == old(nextMemberId) + (|rows| - |current|)
      ensures forall i :: 0 <= i < |old(members)| ==>
        members[i] == if old(members)[i].id in IdsOf(current) then Revise(old(members)[i], wanted) else old(members)[i]
      ensures forall i :: |old(members)| <= i < |members| ==>
        members[i] == rows[|current| + (i - |old(members)|)].(id := old(nextMemberId) + (i - |old(members)|))
    {
      ghost var table, n0 := members, nextMemberId;
      // `updated` and `inserted` count the two kinds of save done so far.
      ghost var updated, inserted := 0, 0;
      for k := 0 to |rows|
        invariant groups == old(groups) && messages == old(messages)
        invariant nextGroupId == old(nextGroupId) && nextMessageId == old(nextMessageId)
        invariant updated + inserted == k && updated <= |current|
        invariant inserted > 0 ==> updated == |current|
        invariant |members| == |table| + inserted && nextMemberId == n0 + inserted
        invariant forall i :: 0 <= i < |table| ==>
          members[i] == if table[i].id in IdsOf(current[..updated]) then Revise(table[i], wanted) else table[i]
        invariant forall i :: |table| <= i < |members| ==>
          members[i] == rows[|current| + (i - |table|)].(id := n0 + (i - |table|))
        invariant forall i :: 0 <= i < |table| ==> members[i].id == table[i].id
        invariant forall i :: |table| <= i < |members| ==> members[i].id == n0 + (i - |table|)
      {
        var row := rows[k];
        if k < |current| {
          assert row.id == current[k].id && current[k] in table;
        }
        if row.id > 0 {
          // a stored row: UPDATE by id
          SaveStep(table, current, members, wanted, k);
          members := SaveById(members, MemberKey, row);
          updated := updated + 1;
        } else {
          // a new row: INSERT under the next id
          members := members + [row.(id := nextMemberId)];
          nextMemberId := nextMemberId + 1;
          inserted := inserted + 1;
        }
      }
      assert current[..|current|] == current;
      ExtendedWellKeyed(table, members, n0, inserted);
    }

    /** AddMembersToGroup: one Normal member row of `groupID` per input
        member. Neither the group nor its owner is checked, and `userID` is
        not stored. */
    method AddMembersToGroup(groupID: int, userID: int, input: seq<Member>, dbFails: bool)
      returns (r: Outcome)
      requires Valid()
      modifies this
      ensures Valid()
      ensures groups == old(groups) && messages == old(messages)
      ensures nextGroupId == old(nextGroupId) && nextMessageId == old(nextMessageId)
      ensures dbFails ==> r == Fail(DbFailure) && unchanged(this)
      ensures !dbFails ==> r == Pass && nextMemberId == old(nextMemberId) + |input|
      ensures !dbFails ==> |members| == |old(members)| + |input| && members[..|old(members)|] == old(members)
      ensures !dbFails ==> forall k :: 0 <= k < |input| ==>
        members[|old(members)| + k] == CreatedRow(old(nextMemberId) + k, groupID, input[k])
    {
      if dbFails {
        return Fail(DbFailure);
      }
      InsertMembers(groupID, input);
      r := Pass;
    }

    /** RemoveMembersFromGroup: nothing to do for an empty id list; otherwise
        exactly the Normal rows of `groupID` and `userID` whose id is listed
        become Deleted. */
    method RemoveMembersFromGroup(groupID: int, userID: int, memberIDs: seq<int>, dbFails: bool)
      returns (r: Outcome)
      requires Valid()
      modifies this
      ensures Valid()
      ensures |memberIDs| == 0 ==> r == Pass && unchanged(this)
      ensures |memberIDs| > 0 && dbFails ==> r == Fail(DbFailure) && unchanged(this)
      ensures |memberIDs| > 0 && !dbFails ==> r == Pass
      ensures |memberIDs| > 0 && !dbFails ==> |members| == |old(members)|
      ensures |memberIDs| > 0 && !dbFails ==> forall i :: 0 <= i < |members| ==>
        members[i] == if IsActiveMember(old(members)[i], groupID, userID) && old(members)[i].id in memberIDs
                      then old(members)[i].(status := MemberStatusDeleted)
                      else old(members)[i]
      ensures groups == old(groups) && messages == old(messages)
      ensures nextGroupId == old(nextGroupId) && nextMemberId == old(nextMemberId) && nextMessageId == old(nextMessageId)
    {
      if |memberIDs| == 0 {
        return Pass;
      }
      if dbFails {
        return Fail(DbFailure);
      }
      var table := members;
      members := seq(|table|, i requires 0 <= i < |table| =>
        if IsActiveMember(table[i], groupID, userID) && table[i].id in memberIDs
        then table[i].(status := MemberStatusDeleted)
        else table[i]);
      SameKeysWellKeyed(table, members, MemberKey, nextMemberId);
      r := Pass;
    }

    /** GetGroup: ErrNotFound unless `userID` owns group `groupID`; then the
        group and all its Normal members, whoever they belong to, in table
        order. */
    function GetGroup(groupID: int, userID: int, dbFails: bool): (r: Result<GroupView>)
      reads this
      requires Valid()
      ensures dbFails ==> r == Err(DbFailure)
      ensures !dbFails ==> (r == Err(NotFound) <==> !OwnsGroup(groups, groupID, userID))
      ensures !dbFails ==> r.Ok? || r == Err(NotFound)
      ensures r.Ok? ==> r.value.group in groups && r.value.group.id == groupID && r.value.group.userId == userID
      ensures r.Ok? ==> forall x :: x in r.value.members <==>
        x in members && x.groupId == groupID && x.status == MemberStatusNormal
      ensures r.Ok? ==> Ascending(r.value.members, MemberKey)
    {
      if dbFails then Err(DbFailure)
      else
        match FindGroup(groups, groupID, userID)
        case None => Err(NotFound)
        case Some(g) =>
          var keep := (x: MemberRow) => x.groupId == groupID && x.status == MemberStatusNormal;
          FilterAscending(members, keep, MemberKey);
          Ok(GroupView(g, Filter(members, keep)))
    }

    /** Groups: the groups of `userID`, newest first, at most `limit`. */
    function Groups(userID: int, limit: nat, dbFails: bool): (r: Result<seq<GroupRow>>)
      reads this
      requires Valid()
      ensures dbFails <==> r.Err?
      ensures r.Err? ==> r.error == DbFailure
      ensures r.Ok? ==> |r.value| <= limit
      ensures r.Ok? ==> forall x :: x in r.value ==> x in groups && x.userId == userID
      ensures r.Ok? ==> Descending(r.value, GroupKey)
      ensures r.Ok? ==> forall x :: x in groups && x.userId == userID && x !in r.value ==>
        |r.value| == limit && forall y :: y in r.value ==> y.id > x.id
    {
      if dbFails then Err(DbFailure)
      else
        var keep := (g: GroupRow) => g.userId == userID;
        NewestFirstDescending(groups, keep, limit, GroupKey);
        NewestFirstComplete(groups, keep, limit, GroupKey);
        Ok(NewestFirst(groups, keep, limit))
    }

    /** AddChatMessage: stores the message for `groupID` and `userID` under a
        fresh id, which it returns. */
    method AddChatMessage(groupID: int, userID: int, msg: ChatGroupMessage, dbFails: bool)
      returns (r: Result<int>)
      requires Valid()
      modifies this
      ensures Valid()
      ensures groups == old(groups) && members == old(members)
      ensures nextGroupId == old(nextGroupId) && nextMemberId == old(nextMemberId)
      ensures dbFails ==> r == Err(DbFailure) && unchanged(this)
      ensures !dbFails ==> r == Ok(old(nextMessageId)) && nextMessageId == old(nextMessageId) + 1
      ensures !dbFails ==> messages == old(messages) + [MessageRow(old(nextMessageId), groupID, userID,
        msg.message, msg.role, msg.tokenConsumed, msg.quotaConsumed, msg.pid, msg.memberId, msg.status)]
    {
      if dbFails {
        return Err(DbFailure);
      }
      var id := nextMessageId;
      AppendWellKeyed(messages, MessageKey, nextMessageId, MessageRow(id, groupID, userID,
        msg.message, msg.role, msg.tokenConsumed, msg.quotaConsumed, msg.pid, msg.memberId, msg.status));
      messages := messages + [MessageRow(id, groupID, userID,
        msg.message, msg.role, msg.tokenConsumed, msg.quotaConsumed, msg.pid, msg.memberId, msg.status)];
      nextMessageId := nextMessageId + 1;
      r := Ok(id);
    }

    /** GetChatMessage: the message with that id in that group for that
        user, or ErrNotFound. */
    function GetChatMessage(groupID: int, userID: int, messageID: int, dbFails: bool): (r: Result<MessageRow>)
      reads this
      ensures dbFails ==> r == Err(DbFailure)
      ensures !dbFails ==> (r == Err(NotFound) <==> forall x :: x in messages ==> !IsMessageOf(x, groupID, userID, messageID))
      ensures !dbFails ==> r.Ok? || r == Err(NotFound)
      ensures r.Ok? ==> r.value in messages && IsMessageOf(r.value, groupID, userID, messageID)
    {
      if dbFails then Err(DbFailure)
      else
        match FindMessage(messages, groupID, userID, messageID)
        case None => Err(NotFound)
        case Some(m) => Ok(m)
    }

    /** GetChatMessages: the messages of `groupID`, newest first, at most
        `limit`; no user filter. */
    function GetChatMessages(groupID: int, limit: nat, dbFails: bool): (r: Result<seq<MessageRow>>)
      reads this
      requires Valid()
      ensures dbFails <==> r.Err?
      ensures r.Err? ==> r.error == DbFailure
      ensures r.Ok? ==> |r.value| <= limit
      ensures r.Ok? ==> forall x :: x in r.value ==> x in messages && x.groupId == groupID
      ensures r.Ok? ==> Descending(r.value, MessageKey)
      ensures r.Ok? ==> forall x :: x in messages && x.groupId == groupID && x !in r.value ==>
        |r.value| == limit && forall y :: y in r.value ==> y.id > x.id
    {
      if dbFails then Err(DbFailure)
      else
        var keep := (m: MessageRow) => m.groupId == groupID;
        NewestFirstDescending(messages, keep, limit, MessageKey);
        NewestFirstComplete(messages, keep, limit, MessageKey);
        Ok(NewestFirst(messages, keep, limit))
    }

    /** DeleteChatMessage: removes the message with that id in that group for
        that user, if there is one; succeeds either way. */
    method DeleteChatMessage(groupID: int, userID: int, messageID: int, dbFails: bool)
      returns (r: Outcome)
      requires Valid()
      modifies this
      ensures Valid()
      ensures groups == old(groups) && members == old(members)
      ensures nextGroupId == old(nextGroupId) && nextMemberId == old(nextMemberId) && nextMessageId == old(nextMessageId)
      ensures dbFails ==> r == Fail(DbFailure) && unchanged(this)
      ensures !dbFails ==> r == Pass
      ensures !dbFails ==> forall x :: x in messages <==>
        x in old(messages) && !IsMessageOf(x, groupID, userID, messageID)
    {
      if dbFails {
        return Fail(DbFailure);
      }
      var keep := (m: MessageRow) => !IsMessageOf(m, groupID, userID, messageID);
      FilterWellKeyed(messages, keep, MessageKey, nextMessageId);
      messages := Filter(messages, keep);
      r := Pass;
    }

    /** UpdateChatMessage: overwrites text, token and quota consumption and
        status of the message with that id in that group for that user, if
        there is one; succeeds either way. */
    method UpdateChatMessage(groupID: int, userID: int, messageID: int, msg: ChatGroupMessageUpdate, dbFails: bool)
      returns (r: Outcome)
      requires Valid()
      modifies this
      ensures Valid()
      ensures groups == old(groups) && members == old(members)
      ensures nextGroupId == old(nextGroupId) && nextMemberId == old(nextMemberId) && nextMessageId == old(nextMessageId)
      ensures dbFails ==> r == Fail(DbFailure) && unchanged(this)
      ensures !dbFails ==> r == Pass && |messages| == |old(messages)|
      ensures !dbFails ==> forall i :: 0 <= i < |messages| ==>
        messages[i] == if IsMessageOf(old(messages)[i], groupID, userID, messageID)
                       then old(messages)[i].(message := msg.message, tokenConsumed := msg.tokenConsumed,
                                              quotaConsumed := msg.quotaConsumed, status := msg.status)
                       else old(messages)[i]
    {
      if dbFails {
        return Fail(DbFailure);
      }
      var table := messages;
      messages := seq(|table|, i requires 0 <= i < |table| =>
        if IsMessageOf(table[i], groupID, userID, messageID)
        then table[i].(message := msg.message, tokenConsumed := msg.tokenConsumed,
                       quotaConsumed := msg.quotaConsumed, status := msg.status)
        else table[i]);
      SameKeysWellKeyed(table, messages, MessageKey, nextMessageId);
      r := Pass;
    }
  }

  /** The rows the member query selects are the table rows whose id the
      selection carries: ids identify rows. */
  lemma SelectedByIds(table: seq<MemberRow>, current: seq<MemberRow>, groupID: int, userID: int)
    requires Ascending(table, MemberKey)
    requires forall x :: x in current <==> x in table && IsActiveMember(x, groupID, userID)
    ensures forall i :: 0 <= i < |table| ==> (table[i].id in IdsOf(current) <==> IsActiveMember(table[i], groupID, userID))
  {
    forall i | 0 <= i < |table| && table[i].id in IdsOf(current)
      ensures IsActiveMember(table[i], groupID, userID)
    {
      var c :| c in current && c.id == table[i].id;
      KeyDetermines(table, MemberKey, c, i);
    }
  }

  /** The ids the member query selects. */
  lemma SelectedIds(table: seq<MemberRow>, current: seq<MemberRow>, groupID: int, userID: int)
    requires forall x :: x in current <==> x in table && IsActiveMember(x, groupID, userID)
    ensures IdsOf(current) == ActiveIds(table, groupID, userID)
  {
  }

  /** Saving the k-th selected row overwrites exactly its own table row. */
  lemma SaveStep(table: seq<MemberRow>, current: seq<MemberRow>, members: seq<MemberRow>, wanted: map<int, Member>, k: int)
    requires Ascending(table, MemberKey)
    requires forall x :: x in current ==> x in table
    requires 0 <= k < |current| && |members| == |table|
    requires forall i :: 0 <= i < |table| ==>
      members[i] == if table[i].id in IdsOf(current[..k]) then Revise(table[i], wanted) else table[i]
    ensures forall i :: 0 <= i < |table| ==>
      SaveById(members, MemberKey, Revise(current[k], wanted))[i] ==
      if table[i].id in IdsOf(current[..k + 1]) then Revise(table[i], wanted) else table[i]
  {
    assert current[..k + 1] == current[..k] + [current[k]];
    assert IdsOf(current[..k + 1]) == IdsOf(current[..k]) + {current[k].id};
    forall i | 0 <= i < |table| && table[i].id == current[k].id
      ensures table[i] == current[k]
    {
      KeyDetermines(table, MemberKey, current[k], i);
    }
  }

  /** What a second UpdateGroupMembers call with the same requests makes of
      a row the first call appended under the fresh id `n`: the member query
      selects it, and since no request carries `n` (a request for a new
      member has id 0, say) the first loop soft-deletes it. */
  lemma RepeatedCallDeletesAppendedRow(groupID: int, userID: int, m: Member, n: int, requested: seq<Member>)
    requires !Requested(requested, n)
    ensures IsActiveMember(NewRow(groupID, userID, m).(id := n), groupID, userID)
    ensures Revise(NewRow(groupID, userID, m).(id := n), IndexById(requested)) ==
      NewRow(groupID, userID, m).(id := n, status := MemberStatusDeleted)
  {
  }

  /** Renaming twice with the same name is renaming once, and after a
      rename the stored name equals the requested one, so a second
      UpdateGroup call takes the branch that writes nothing. */
  lemma RenameIsIdempotent(gs: seq<GroupRow>, groupID: int, userID: int, name: string)
    requires OwnsGroup(gs, groupID, userID)
    ensures Renamed(Renamed(gs, groupID, userID, name), groupID, userID, name) == Renamed(gs, groupID, userID, name)
    ensures OwnsGroup(Renamed(gs, groupID, userID, name), groupID, userID)
    ensures FindGroup(Renamed(gs, groupID, userID, name), groupID, userID).value.name == name
  {
    var r := Renamed(gs, groupID, userID, name);
    var i :| 0 <= i < |gs| && gs[i].id == groupID && gs[i].userId == userID;
    assert r[i].id == groupID && r[i].userId == userID;
  }
}
