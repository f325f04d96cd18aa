/**
 * The message store: the queries and writes that the webhook bridge performs on the
 * `messages` table. Queries are functions of the table's rows; writes are methods of
 * `MessageDb`, the in-memory stand-in for the database session, each specified by a
 * function of the rows before the call.
 */
module Crud {
  import opened Wrappers
  import opened Models

  // ---------------------------------------------------------------------------
  // Queries
  // ---------------------------------------------------------------------------

  /** `get_message`: the first row whose primary key is `msgId`, or `None`. */
  function GetMessage(t: Table, msgId: int): (r: Option<Message>)
    ensures r.Some? ==> r.value in t && r.value.id == msgId
    ensures r.None? <==> forall x :: x in t ==> x.id != msgId
  {
    if t == [] then None
    else if t[0].id == msgId then Some(t[0])
    else GetMessage(t[1..], msgId)
  }

  /** Because `id` is the primary key, the row that has it is the one `GetMessage` returns. */
  lemma GetMessageIsTheKeyedRow(t: Table, i: int)
    requires UniqueIds(t)
    requires 0 <= i < |t|
    ensures GetMessage(t, t[i].id) == Some(t[i])
  {
  }

  /** A row that answers an unfulfilled request with the fingerprint of `msg`. */
  predicate IsUnhandledMatch(x: Message, msg: Message)
  {
    FingerprintOf(x) == FingerprintOf(msg) && !x.isFulfilled
  }

  /**
   * `get_unhandled_message`: the first row, in storage order, with the same source and
   * content as `msg` that is not yet fulfilled.
   */
  function GetUnhandledMessage(t: Table, msg: Message): (r: Option<Message>)
    ensures r.Some? ==> r.value in t
    ensures r.Some? ==> FingerprintOf(r.value) == FingerprintOf(msg) && !r.value.isFulfilled
    ensures r.None? <==> forall x :: x in t ==> !IsUnhandledMatch(x, msg)
    ensures r.Some? ==> exists i :: 0 <= i < |t| && t[i] == r.value &&
                                    forall j :: 0 <= j < i ==> !IsUnhandledMatch(t[j], msg)
  {
    if t == [] then None
    else if IsUnhandledMatch(t[0], msg) then Some(t[0])
    else
      var r := GetUnhandledMessage(t[1..], msg);
      assert r.Some? ==> exists i :: 0 <= i < |t[1..]| && t[1..][i] == r.value &&
                                     forall j :: 0 <= j < i ==> !IsUnhandledMatch(t[1..][j], msg);
      assert forall x :: x in t ==> x == t[0] || x in t[1..];
      r
  }

  /** Inserts `m` into time-ordered `s` before the first row that is not older. */
  function InsertByTime(m: Message, s: Table): (r: Table)
    requires SortedByTime(s)
    ensures SortedByTime(r)
    ensures multiset(r) == multiset(s) + multiset{m}
    ensures forall x :: x in r ==> x == m || x in s
  {
    if s == [] then [m]
    else if m.createTime <= s[0].createTime then [m] + s
    else
      assert SortedByTime(s[1..]) by {
        forall i, j | 0 <= i < j < |s[1..]| ensures s[1..][i].createTime <= s[1..][j].createTime {
          assert s[1..][i] == s[i + 1] && s[1..][j] == s[j + 1];
        }
      }
      var rest := InsertByTime(m, s[1..]);
      assert s == [s[0]] + s[1..];
      PrependOldest(s[0], rest, m, s[1..]);
      [s[0]] + rest
  }

  /** A row no newer than every row of a time-ordered table can be put in front of it. */
  lemma PrependOldest(h: Message, rest: Table, m: Message, tail: Table)
    requires SortedByTime(rest) && SortedByTime([h] + tail)
    requires h.createTime < m.createTime
    requires forall x :: x in rest ==> x == m || x in tail
    ensures SortedByTime([h] + rest)
  {
    var r := [h] + rest;
    forall i, j | 0 <= i < j < |r| ensures r[i].createTime <= r[j].createTime {
      if i > 0 {
        assert r[i] == rest[i - 1] && r[j] == rest[j - 1];
      } else {
        assert r[j] == rest[j - 1] && rest[j - 1] in rest;
        if r[j] != m {
          var k :| 0 <= k < |tail| && tail[k] == r[j];
          assert ([h] + tail)[0] == h && ([h] + tail)[k + 1] == r[j];
        }
      }
    }
  }

  /**
   * `get_all_messages`: every row, in ascending `create_time` order; rows with the same
   * time keep their storage order.
   */
  function GetAllMessages(t: Table): (r: Table)
    ensures SortedByTime(r)
    ensures multiset(r) == multiset(t)
  {
    if t == [] then []
    else
      assert t == [t[0]] + t[1..];
      InsertByTime(t[0], GetAllMessages(t[1..]))
  }

  /** The rows after the first keep the primary-key constraint and do not reuse its key. */
  lemma UniqueIdsTail(t: Table)
    requires UniqueIds(t) && t != []
    ensures UniqueIds(t[1..])
    ensures forall x :: x in t[1..] ==> x.id != t[0].id
  {
  }

  /** Under the primary-key constraint every row occurs exactly once in the table. */
  lemma {:induction false} RowOccursOnce(t: Table, i: int)
    requires UniqueIds(t)
    requires 0 <= i < |t|
    ensures multiset(t)[t[i]] == 1
  {
    assert t == [t[0]] + t[1..];
    var rest := t[1..];
    UniqueIdsTail(t);
    if i == 0 {
      assert t[0] !in rest;
    } else {
      RowOccursOnce(rest, i - 1);
      assert t[0] != t[i];
    }
  }

  /** The listing holds every stored row exactly once. */
  lemma ListingHoldsEachRowOnce(t: Table, i: int)
    requires UniqueIds(t)
    requires 0 <= i < |t|
    ensures multiset(GetAllMessages(t))[t[i]] == 1
    ensures |GetAllMessages(t)| == |t|
  {
    RowOccursOnce(t, i);
    assert |multiset(GetAllMessages(t))| == |multiset(t)|;
  }

  // ---------------------------------------------------------------------------
  // Writes, as functions of the rows before the write
  // ---------------------------------------------------------------------------

  /**
   * The rows after `update_message(m)`: the row with `m.id` is replaced in place by `m`,
   * or `m` is appended when no row has that key.
   */
  function Upserted(t: Table, m: Message): (r: Table)
    ensures m in r
    ensures forall x :: x in r ==> x == m || x in t
    ensures |r| == if GetMessage(t, m.id).Some? then |t| else |t| + 1
    ensures forall i :: 0 <= i < |t| && t[i].id != m.id ==> r[i] == t[i]
  {
    if t == [] then [m]
    else if t[0].id == m.id then [m] + t[1..]
    else
      var rest := Upserted(t[1..], m);
      assert forall x :: x in [t[0]] + rest ==> x == t[0] || x in rest;
      [t[0]] + rest
  }

  /** Inserting a row whose key is new keeps every key unique and makes the row findable. */
  lemma {:induction false} InsertOnlyAddsRow(t: Table, m: Message)
    requires GetMessage(t, m.id).None?
    ensures GetMessage(t + [m], m.id) == Some(m)
    ensures forall k :: k != m.id ==> GetMessage(t + [m], k) == GetMessage(t, k)
  {
    if t != [] {
      assert (t + [m])[1..] == t[1..] + [m];
      InsertOnlyAddsRow(t[1..], m);
    }
  }

  /** The primary-key constraint survives inserting a row with a fresh key. */
  lemma InsertKeepsIdsUnique(t: Table, m: Message)
    requires UniqueIds(t)
    requires GetMessage(t, m.id).None?
    ensures UniqueIds(t + [m])
  {
  }

  /**
   * After an upsert exactly one row has `m.id`, that row is `m`, and the primary-key
   * constraint still holds.
   */
  lemma {:induction false} UpsertStoresRow(t: Table, m: Message)
    requires UniqueIds(t)
    ensures UniqueIds(Upserted(t, m))
    ensures forall x :: x in Upserted(t, m) && x.id == m.id ==> x == m
    ensures GetMessage(Upserted(t, m), m.id) == Some(m)
  {
    if t != [] {
      UniqueIdsTail(t);
      var rest := t[1..];
      if t[0].id == m.id {
        UpsertReplacesHead(t, m);
      } else {
        UpsertStoresRow(rest, m);
        UpsertPrependsHead(t, m);
      }
    }
  }

  /** The upsert step that replaces the first row. */
  lemma UpsertReplacesHead(t: Table, m: Message)
    requires t != [] && t[0].id == m.id
    requires UniqueIds(t[1..]) && forall x :: x in t[1..] ==> x.id != t[0].id
    ensures UniqueIds(Upserted(t, m))
    ensures forall x :: x in Upserted(t, m) && x.id == m.id ==> x == m
    ensures GetMessage(Upserted(t, m), m.id) == Some(m)
  {
  }

  /** The upsert step that keeps the first row and upserts into the rest. */
  lemma UpsertPrependsHead(t: Table, m: Message)
    requires t != [] && t[0].id != m.id
    requires UniqueIds(t[1..]) && forall x :: x in t[1..] ==> x.id != t[0].id
    requires UniqueIds(Upserted(t[1..], m))
    requires forall x :: x in Upserted(t[1..], m) && x.id == m.id ==> x == m
    requires GetMessage(Upserted(t[1..], m), m.id) == Some(m)
    ensures UniqueIds(Upserted(t, m))
    ensures forall x :: x in Upserted(t, m) && x.id == m.id ==> x == m
    ensures GetMessage(Upserted(t, m), m.id) == Some(m)
  {
    var u := Upserted(t, m);
    var v := Upserted(t[1..], m);
    assert u == [t[0]] + v;
    assert forall x :: x in v ==> x.id != t[0].id;
    forall i, j | 0 <= i < |u| && 0 <= j < |u| && u[i].id == u[j].id ensures i == j {
      if i > 0 { assert u[i] == v[i - 1] && v[i - 1] in v; }
      if j > 0 { assert u[j] == v[j - 1] && v[j - 1] in v; }
      if i > 0 && j > 0 { assert v[i - 1].id == v[j - 1].id; }
    }
  }

  /** Every key other than `m.id` is looked up exactly as before the upsert. */
  lemma {:induction false} UpsertKeepsOtherKeys(t: Table, m: Message, k: int)
    requires k != m.id
    ensures GetMessage(Upserted(t, m), k) == GetMessage(t, k)
  {
    if t != [] {
      if t[0].id == m.id {
        assert Upserted(t, m)[1..] == t[1..];
      } else {
        assert Upserted(t, m)[1..] == Upserted(t[1..], m);
        UpsertKeepsOtherKeys(t[1..], m, k);
      }
    }
  }

  /**
   * Once `update_message` writes a row whose `is_fulfilled` is true, the fingerprint
   * query no longer answers with any row of that key.
   */
  lemma FulfilledRowIsNotUnhandled(t: Table, m: Message, msg: Message)
    requires UniqueIds(t)
    requires m.isFulfilled
    ensures GetUnhandledMessage(Upserted(t, m), msg).Some? ==>
              GetUnhandledMessage(Upserted(t, m), msg).value.id != m.id
  {
  }

  /** What `get_or_create_message` returns, and the rows it leaves behind. */
  datatype Stored = Stored(record: Message, table: Table)

  /** `get_or_create_message` as a function of the rows before the call. */
  function GetOrCreate(t: Table, msg: Message): (s: Stored)
    ensures s.record.id == msg.id
    ensures s.record in s.table
    ensures t <= s.table && |s.table| <= |t| + 1
  {
    match GetMessage(t, msg.id)
    case Some(found) => Stored(found, t)
    case None => Stored(msg, t + [msg])
  }

  /**
   * When a row with `msg.id` is stored, get-or-create hands back that row untouched,
   * whatever the other fields of `msg` say, and writes nothing.
   */
  lemma GetOrCreateReturnsStoredRow(t: Table, msg: Message, i: int)
    requires UniqueIds(t)
    requires 0 <= i < |t| && t[i].id == msg.id
    ensures GetOrCreate(t, msg) == Stored(t[i], t)
  {
  }

  /**
   * When no row has `msg.id`, get-or-create is an insert of `msg`: the table grows by
   * exactly that row and the primary-key constraint still holds.
   */
  lemma GetOrCreateInsertsWhenAbsent(t: Table, msg: Message)
    requires UniqueIds(t)
    requires forall x :: x in t ==> x.id != msg.id
    ensures GetOrCreate(t, msg) == Stored(msg, t + [msg])
    ensures UniqueIds(GetOrCreate(t, msg).table)
  {
  }

  /** A second get-or-create with the same request returns the same row and writes nothing. */
  lemma GetOrCreateIdempotent(t: Table, msg: Message)
    requires UniqueIds(t)
    ensures UniqueIds(GetOrCreate(t, msg).table)
    ensures GetOrCreate(GetOrCreate(t, msg).table, msg) == GetOrCreate(t, msg)
  {
  }

  /**
   * After an unfulfilled request is appended, the fingerprint query answers with the
   * earliest unfulfilled row of that fingerprint stored before it, or with the request
   * itself when there is none.
   */
  lemma {:induction false} CreatedRequestIsUnhandled(t: Table, msg: Message)
    requires !msg.isFulfilled
    ensures GetUnhandledMessage(t + [msg], msg) ==
              if GetUnhandledMessage(t, msg).Some? then GetUnhandledMessage(t, msg) else Some(msg)
  {
    if t != [] {
      assert (t + [msg])[1..] == t[1..] + [msg];
      CreatedRequestIsUnhandled(t[1..], msg);
    }
  }

  /**
   * A request built with the schema's defaults (no reply, not fulfilled) and created
   * under a new id is appended, and the fingerprint query then finds an unfulfilled row
   * for it: the request itself unless an older unfulfilled row has the same fingerprint.
   */
  lemma NewRequestIsUnhandledAfterCreate(t: Table, id: int, source: string, target: string,
                                         content: string, createTime: int)
    requires forall x :: x in t ==> x.id != id
    ensures var m := NewRequest(id, source, target, content, createTime);
            GetOrCreate(t, m) == Stored(m, t + [m]) && GetUnhandledMessage(t + [m], m).Some?
    ensures var m := NewRequest(id, source, target, content, createTime);
            (forall x :: x in t ==> x.isFulfilled || FingerprintOf(x) != Fingerprint(source, content)) ==>
              GetUnhandledMessage(t + [m], m) == Some(m)
  {
    var m := NewRequest(id, source, target, content, createTime);
    CreatedRequestIsUnhandled(t, m);
  }

  // ---------------------------------------------------------------------------
  // The store
  // ---------------------------------------------------------------------------

  /** Why a write was refused by the database. */
  datatype DbError = DuplicateId(id: int)

  /** The `messages` table behind a session; `rows` is its content in storage order. */
  class MessageDb {
    var rows: Table

    /** The primary-key constraint. */
    ghost predicate Valid()
      reads this
    {
      UniqueIds(rows)
    }

    constructor ()
      ensures Valid() && rows == []
    {
      rows := [];
    }

    /**
     * `create_message`: adds one row carrying exactly the request's fields. A key that is
     * already stored violates the primary key; the commit fails and nothing is written.
     */
    method CreateMessage(msg: Message) returns (r: Result<Message, DbError>)
      requires Valid()
      modifies this
      ensures Valid()
      ensures GetMessage(old(rows), msg.id).Some? ==>
                r == Err(DuplicateId(msg.id)) && rows == old(rows)
      ensures GetMessage(old(rows), msg.id).None? ==>
                r == Ok(msg) && rows == old(rows) + [msg] && GetMessage(rows, msg.id) == Some(msg)
    {
      if GetMessage(rows, msg.id).Some? {
        return Err(DuplicateId(msg.id));
      }
      InsertKeepsIdsUnique(rows, msg);
      InsertOnlyAddsRow(rows, msg);
      rows := rows + [msg];
      r := Ok(msg);
    }

    /**
     * `update_message`: after the commit exactly one row has `msg.id` and it equals `msg`;
     * every other row is where and what it was.
     */
    method UpdateMessage(msg: Message) returns (r: Message)
      requires Valid()
      modifies this
      ensures Valid()
      ensures r == msg && rows == Upserted(old(rows), msg)
      ensures GetMessage(rows, msg.id) == Some(msg)
    {
      UpsertStoresRow(rows, msg);
      rows := Upserted(rows, msg);
      r := msg;
    }

    /** `get_or_create_message`: fetch by key, create only when the key is absent. */
    method GetOrCreateMessage(msg: Message) returns (r: Message)
      requires Valid()
      modifies this
      ensures Valid()
      ensures Stored(r, rows) == GetOrCreate(old(rows), msg)
      ensures GetMessage(old(rows), msg.id).Some? ==>
                r == GetMessage(old(rows), msg.id).value && rows == old(rows)
      ensures GetMessage(old(rows), msg.id).None? ==>
                r == msg && rows == old(rows) + [msg]
    {
      var found := GetMessage(rows, msg.id);
      if found.Some? {
        return found.value;
      }
      var created := CreateMessage(msg);
      r := created.value;
    }
  }
}
