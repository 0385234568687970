# Chat-group repository, modelled in Dafny

This project models `ChatGroupRepo`, the persistence layer of a group-chat
feature (internal/repo/group.go). The repository keeps three tables: chat
groups, group members (one row per AI model taking part in a group) and chat
messages. It creates, renames and lists groups, adds, removes and
reconciles members, and stores, reads, lists, updates and deletes messages.

The model replaces the SQL database with three sequences of rows held by a
class, `Repo.ChatGroupRepo`. Each table has its own auto-increment counter,
so it stays in insertion order, ascending by id. Each repository method is a
Dafny method (when it writes) or a function (when it only reads) over that
state. Every call takes a flag `dbFails` that stands for an error reported
by the database. The call then returns `DbFailure` and, because the work
runs in one transaction, leaves all three tables as they were.

Files:

- `rows.dfy` (module `Rows`): the row types of the three tables, the
  caller-side `Member`, message and update values, the status constants, and
  `Result`/`Outcome`/`Error`.
- `listing.dfy` (module `Listing`): the query shapes the repository uses. A
  WHERE filter in table order (`Filter`), the first matching row (`First`),
  and `ORDER BY id DESC LIMIT n` (`NewestFirst`), with lemmas on ordering
  and completeness.
- `reconcile.dfy` (module `Reconcile`): the in-memory heart of
  `UpdateGroupMembers` (lines 109-135). The id lookup built by
  `array.ToMap`, the first loop (soft-delete or retarget each current row),
  and the second loop (append a row for each request that matches no current
  row), written as the method `ReconcileMembers` with its loops.
- `repo.dfy` (module `Repo`): the class and its twelve operations, with the
  save loop of `UpdateGroupMembers` and lemmas about the tables.

Modelling choices that follow the code:

- Member rows inserted by `CreateGroup` and `AddMembersToGroup` never get a
  user id (lines 58-62, 152-157). `MemberRow.userId` is then `None`, which
  the `user_id = ?` filters of `UpdateGroupMembers` and
  `RemoveMembersFromGroup` never match (lines 103, 174). Such rows can be
  neither reconciled nor removed by those two calls. `GetGroup` lists
  members without a user filter (lines 203-205) and does see them.
- In `UpdateGroupMembers` a requested `ID` serves only as a lookup key.
  Appended rows get fresh ids from the table. Stored ids are positive, so
  every request with id 0 gets its own new row, duplicates included.
- `array.ToMap` is not part of this model. It is read as inserting the
  requests in order, so when two requests share an id the later one wins
  (`Reconcile.IndexByIdLastWins`).
- eloquent's generated `Save` is not part of this model either. It is read
  as: a row with a positive id overwrites the stored row with that id; a row
  without an id is inserted under the next id. The rows appended at line 127
  are struct literals that were never loaded through a model, so this
  reading also assumes that `Save` at line 139 accepts such a row and
  inserts it. The whole append path of `UpdateGroupMembers` rests on that.
- `UpdateGroup` writes only when the name differs from the stored one.
  Writing the same name would leave the table the same, so in the model the
  skipped write shows only as "nothing changed".

## Model

| member | source | states |
|---|---|---|
| `Listing.Filter` | internal/repo/group.go:101-104 | the selected rows are exactly the table rows that satisfy the WHERE condition, no more rows than the table |
| `Listing.FilterAscending` | internal/repo/group.go:203-205 | a filtered listing of an id-ordered table is still in ascending id order |
| `Listing.First` | internal/repo/group.go:77-78 | no row exactly when no table row matches (sql.ErrNoRows); otherwise a matching table row |
| `Listing.NewestFirst` | internal/repo/group.go:219-223 | the listing has min(limit, number of matching rows) rows, each a matching table row |
| `Listing.NewestFirstDescending` | internal/repo/group.go:222 | on an id-ordered table the listing is in strictly descending id order |
| `Listing.NewestFirstIsNewest` | internal/repo/group.go:305-308 | a matching row left out of the listing is older than every listed row, and only once the limit is reached |
| `Listing.KeyDetermines` | internal/repo/group.go:139 | in an id-ordered table a row is determined by its id, so a save by id hits exactly one row |
| `Reconcile.IndexById` | internal/repo/group.go:109 | the lookup has a key exactly for each id some request carries |
| `Reconcile.IndexByIdLastWins` | internal/repo/group.go:109 | of several requests with one id, the lookup maps that id to the last of them |
| `Reconcile.IdsOf` | internal/repo/group.go:110 | every current row's id is a key, and every key is the id of some current row |
| `Reconcile.Revise` | internal/repo/group.go:112-121 | the row keeps its id, group and user, so saving it by id writes it back in place; an id missing from the lookup changes only the status, to Deleted; a looked-up id keeps the status and takes the looked-up model id and name |
| `Reconcile.NewRow` | internal/repo/group.go:127-133 | an unsaved row (id 0, so that Save inserts it) of the given group and user, with status Normal and the requested model id and name |
| `Reconcile.Unmatched` | internal/repo/group.go:125-126 | never more rows than requests; its content is stated by UnmatchedMembers and UnmatchedCount |
| `Reconcile.UnmatchedMembers` | internal/repo/group.go:125-126 | only requests whose id matches no current row are kept |
| `Reconcile.UnmatchedCount` | internal/repo/group.go:125-134 | each request whose id matches no current row is kept as many times as it was made; matched ones are dropped |
| `Reconcile.FreshIdsDoNotMatch` | internal/repo/group.go:125-126 | current ids no request carries, such as the fresh ids of rows appended earlier, leave the unmatched requests as they were, so a repeated call appends them again |
| `Reconcile.ReconcileMembers` | internal/repo/group.go:109-135 | the result holds every current row in its place, revised by the first loop (soft-deleted unless its id is in the lookup, else given the looked-up model), followed by one Normal row of the given group and user for each request whose id matches no current row, in request order |
| `Reconcile.ReviseByRequests` | internal/repo/group.go:112-121 | a current row no request names becomes Deleted with nothing else changed; a named one keeps its id, group, user and status and takes the model id and name of the last request naming it |
| `Reconcile.ZeroIdRequestsAreAppended` | internal/repo/group.go:126 | when stored ids are positive, every request with id 0 becomes its own new row |
| `Repo.IsActiveMember` | internal/repo/group.go:101-103 | the member filter of UpdateGroupMembers and, with the id list, of RemoveMembersFromGroup (lines 173-175): a selected row has a user id and is not Deleted, so rows left without a user id and soft-deleted rows are never selected |
| `Repo.ActiveIds` | internal/repo/group.go:101-110 | contains the id of every row the member filter selects, and only such ids: the keys of the current-member map |
| `Repo.CreatedRow` | internal/repo/group.go:58-62 | the row CreateGroup and AddMembersToGroup (lines 152-157) insert: the given id, group and model, status Normal, and no user id, so no user-scoped member filter ever selects it |
| `Repo.FindGroup` | internal/repo/group.go:77-85 | finds a group exactly when one with that id belongs to that user |
| `Repo.FindMessage` | internal/repo/group.go:285-292 | finds a message exactly when one has that id, group and user |
| `Repo.ChatGroupRepo.constructor` | internal/repo/group.go:19-21 | a repository over empty tables satisfies the table invariant |
| `Repo.ChatGroupRepo.InsertMembers` | internal/repo/group.go:57-66 | appends one Normal row per input member, in order, with consecutive fresh ids, the given group and no user id; the other tables are unchanged |
| `Repo.ChatGroupRepo.CreateGroup` | internal/repo/group.go:44-72 | on success inserts one group owned by the user under a fresh id, which it returns, and one Normal member row per input linked to it; on failure nothing changes |
| `Repo.ChatGroupRepo.UpdateGroup` | internal/repo/group.go:75-96 | NotFound and no change unless the user owns the group; no change when the name is the stored one; otherwise only that group's name changes |
| `Repo.Renamed` | internal/repo/group.go:87-92 | the same rows with the same ids and owners; only the named group of that user gets the new name, every other row keeps its name |
| `Repo.RenameIsIdempotent` | internal/repo/group.go:87-92 | renaming twice equals renaming once, and after a rename the stored name is the new one, so a repeated call writes nothing |
| `Repo.ChatGroupRepo.UpdateGroupMembers` | internal/repo/group.go:99-146 | only Normal rows of that group and user are rewritten (soft-deleted or retargeted, in place); every other row is unchanged; no row is removed; one new row per unmatched request is appended under fresh ids; on failure nothing changes |
| `Repo.ChatGroupRepo.SaveMembers` | internal/repo/group.go:137-142 | saving the reconciled rows overwrites exactly the stored rows they revise and inserts the new rows under consecutive fresh ids |
| `Repo.SelectedByIds` | internal/repo/group.go:110 | a table row's id is among the selected ids exactly when the member query selects that row |
| `Repo.SaveById` | internal/repo/group.go:139 | eloquent's Save of a row that has an id, as used at lines 89 and 139: the table keeps its length and every row keeps its id; the stored row with the saved row's id is overwritten and all other rows stay as they were |
| `Repo.SaveStep` | internal/repo/group.go:138-140 | saving one revised row by id changes only the stored row with that id |
| `Repo.ChatGroupRepo.AddMembersToGroup` | internal/repo/group.go:149-164 | on success appends one Normal row per input member with fresh ids and no user id, without checking the group or its owner |
| `Repo.RepeatedCallDeletesAppendedRow` | internal/repo/group.go:112-133 | on a second call with the same requests, a row the first call appended under a fresh id no request carries is selected again and soft-deleted (for instance every row appended for an id-0 request) |
| `Repo.ChatGroupRepo.RemoveMembersFromGroup` | internal/repo/group.go:167-181 | an empty id list succeeds and changes nothing; otherwise exactly the Normal rows of that group and user with a listed id become Deleted and all other rows stay as they were |
| `Repo.ChatGroupRepo.GetGroup` | internal/repo/group.go:189-216 | NotFound unless the user owns the group; otherwise that group and exactly the Normal members of the group, of any user, in table order |
| `Repo.ChatGroupRepo.Groups` | internal/repo/group.go:219-231 | at most limit of the user's groups, in strictly descending id order, and any of the user's groups left out is older than all listed ones |
| `Repo.ChatGroupRepo.AddChatMessage` | internal/repo/group.go:244-281 | on success appends the message for that group and user under a fresh id and returns it; on failure nothing changes |
| `Repo.ChatGroupRepo.GetChatMessage` | internal/repo/group.go:284-301 | NotFound exactly when no message has that id, group and user; otherwise that message |
| `Repo.ChatGroupRepo.GetChatMessages` | internal/repo/group.go:304-316 | at most limit messages of the group, of any user, in strictly descending id order, and any message of the group left out is older than all listed ones |
| `Repo.ChatGroupRepo.DeleteChatMessage` | internal/repo/group.go:319-329 | on success the remaining messages are exactly those that are not that id in that group for that user; it succeeds whether or not one matched |
| `Repo.ChatGroupRepo.UpdateChatMessage` | internal/repo/group.go:339-355 | on success only a message with that id, group and user changes, and only its text, token and quota consumption and status |

## Left out

- SQL, eloquent transactions, query builders, `context.Context` and
  `*sql.DB` are foreign library code. Each method is modelled as
  all-or-nothing on the in-memory tables. Any database error is the
  `dbFails` flag: it leaves the tables unchanged and its wrapped message text
  is not modelled.
- Repo.ChatGroupRepo.CreateGroup: when the member inserts fail after the
  group insert, the source returns the new group id together with the error.
  The model returns only the error, since the transaction rolls back.
- Concurrency: calls are modelled one at a time, so concurrent
  transactions and their isolation are not modelled. In the source, two
  concurrent `UpdateGroupMembers` calls can read the same current rows (the
  query at line 104 takes no lock) and both append. The source promises only
  fresh ids. Two things in the contracts come from the model, not from the
  source: the exact, consecutive ids (`CreateGroup`'s `Ok(old(nextGroupId))`,
  and the consecutive member ids of `InsertMembers` and `SaveMembers`), and
  counters left unchanged after a failure. A database need not hand back
  auto-increment values used by a rolled-back insert.
- Integer widths: ids, limits and counters are unbounded integers, so the
  64-bit range of `int64` and overflow of the id counters are not modelled.
- Repo.ChatGroupRepo.Groups and Repo.ChatGroupRepo.GetChatMessages take the
  limit as a natural number with the meaning of SQL `LIMIT n`, so a limit of
  0 yields an empty listing. A query builder that drops a zero `LIMIT`, and
  so lists every matching row, would behave differently. Negative limits are
  outside the model, since the builder's handling of them is not shown.
- Row order without ORDER BY: `GetGroup`'s member list is returned in table
  (insertion) order, one order a database may pick.
- The `null.*` wrappers are plain values read as "0 or empty when absent".
  The one exception is the member's user id, which is `Option` because the
  code leaves it unset. Whether the schema gives that column a default is not
  shown; the model treats it as NULL.
- Timestamps the ORM may keep (creation and update times) are not modelled,
  so the skipped write in `UpdateGroup` is visible only as "nothing changed".
- The `To...`/`From...` model conversions and `array.Map` are read as the
  identity on rows. They are not shown, and JSON tags are not modelled.
- internal/coins/constants.go holds reward constants only, two of them
  floating-point rates, and no logic; it is not part of this model.
