/**
 * The record shape of the `messages` table: the fields that the ORM model and the
 * request schema have in common.
 *
 * Fields that only one side has are not part of this record:
 *  - the schema's `req_times` (default 1) has no column, so building the ORM object from
 *    the schema's full field dictionary would hand it a keyword it does not map;
 *  - the ORM model's `msg_id` and `time_elapsed` columns have no schema field;
 *  - `create_time` is a datetime in the schema but an Integer column; it is an `int` here.
 */
module Models {
  import opened Wrappers

  /** One stored inbound chat message. `id` is the table's primary key. */
  datatype Message = Message(
    id: int,
    source: string,
    target: string,
    content: string,
    createTime: int,
    reply: Option<string>,
    isFulfilled: bool)

  /** The "same user request" key used to detect repeated deliveries of one webhook. */
  datatype Fingerprint = Fingerprint(source: string, content: string)

  function FingerprintOf(m: Message): Fingerprint
  {
    Fingerprint(m.source, m.content)
  }

  /**
   * A request built by the schema from its mandatory fields only: `reply` and
   * `is_fulfilled` take their declared defaults.
   */
  function NewRequest(id: int, source: string, target: string, content: string, createTime: int): Message
  {
    Message(id, source, target, content, createTime, None, false)
  }

  /** A table: the stored rows in storage order. */
  type Table = seq<Message>

  /** The primary-key constraint: no two rows share an `id`. */
  ghost predicate UniqueIds(t: Table)
  {
    forall i, j :: 0 <= i < |t| && 0 <= j < |t| && t[i].id == t[j].id ==> i == j
  }

  /** Rows in non-decreasing `create_time` order. */
  ghost predicate SortedByTime(t: Table)
  {
    forall i, j :: 0 <= i < j < |t| ==> t[i].createTime <= t[j].createTime
  }
}
