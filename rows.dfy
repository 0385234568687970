/** The rows of the three chat-group tables, the values callers pass in, and
    the status constants of internal/repo/group.go. Nullable columns are read
    as "0 or empty when absent", except a member's user id, which the code
    sometimes leaves unset and then filters on. */
module Rows {

  // Member status.
  const MemberStatusNormal: int := 1
  const MemberStatusDeleted: int := 2

  // Message status.
  const MessageStatusWaiting: int := 0
  const MessageStatusSucceed: int := 1
  const MessageStatusFailed: int := 2

  datatype Option<T> = None | Some(value: T)

  /** The two ways a repository call fails: no row in the caller's scope
      (ErrNotFound), or an error reported by the database, after which the
      transaction is rolled back. */
  datatype Error = NotFound | DbFailure

  datatype Result<T> = Ok(value: T) | Err(error: Error)

  /** What a repository method that returns only an error yields. */
  datatype Outcome = Pass | Fail(error: Error)

  /** A row of the chat group table. */
  datatype GroupRow = GroupRow(id: int, userId: int, name: string)

  /** A row of the chat group member table. `userId` is None when the row was
      inserted without the column, which no equality filter then matches. */
  datatype MemberRow = MemberRow(
    id: int,
    groupId: int,
    userId: Option<int>,
    modelId: string,
    modelName: string,
    status: int)

  /** A row of the chat group message table. */
  datatype MessageRow = MessageRow(
    id: int,
    groupId: int,
    userId: int,
    message: string,
    role: int,
    tokenConsumed: int,
    quotaConsumed: int,
    pid: int,
    memberId: int,
    status: int)

  /** A member as a caller names it; `id` is 0 when omitted. */
  datatype Member = Member(id: int, modelId: string, modelName: string)

  /** The message a caller adds. */
  datatype ChatGroupMessage = ChatGroupMessage(
    message: string,
    role: int,
    tokenConsumed: int,
    quotaConsumed: int,
    pid: int,
    memberId: int,
    status: int)

  /** The fields of a message a caller may overwrite. */
  datatype ChatGroupMessageUpdate = ChatGroupMessageUpdate(
    message: string,
    tokenConsumed: int,
    quotaConsumed: int,
    status: int)

  /** A group together with its members, as GetGroup returns it. */
  datatype GroupView = GroupView(group: GroupRow, members: seq<MemberRow>)

  // Primary keys, as function values for the generic listings.
  function GroupKey(g: GroupRow): int { g.id }
  function MemberKey(m: MemberRow): int { m.id }
  function MessageKey(m: MessageRow): int { m.id }
}
