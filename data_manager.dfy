/**
 * The ODK Tables row store (DataManager) of one table: rows keyed by rowId, each
 * carrying its column values, a server-assigned row etag and the identity that wrote
 * it. Writes follow optimistic concurrency: an update must present the row etag it
 * last saw, and every successful write stamps a fresh etag.
 */
module OdkTables {
  import opened Wrappers
  import opened JavaStrings

  /** A row: its id, its version token, the writer's identity, its column values and its tombstone mark. */
  datatype Row = Row(
    rowId: string,
    rowEtag: Option<string>,
    groupOrUserId: Option<string>,
    values: map<string, string>,
    deleted: bool)

  /** The three exceptions callers tell apart. */
  datatype DataError =
    | NotFound            // ODKEntityNotFoundException
    | AlreadyExists       // ODKEntityPersistException
    | RowVersionMismatch  // RowVersionMismatchException

  /** The etag the store issues with serial number k: k rendered in decimal. */
  function EtagFor(serial: nat): string
  {
    NatToString(serial)
  }

  /** e is an etag this store issued before serial `bound`. */
  predicate IssuedBefore(e: string, bound: nat)
  {
    ParseNat(e).Some? && ParseNat(e).value < bound
  }

  /** An etag issued at serial `bound` or later differs from every etag issued before it. */
  lemma FreshEtagDiffers(e: string, bound: nat, serial: nat)
    requires IssuedBefore(e, bound) && bound <= serial
    ensures e != EtagFor(serial)
  {
    NatRoundTrip(serial);
  }

  /** The row as the store keeps it after a successful write by `user`. */
  function Stamp(row: Row, etag: string, user: string): Row
  {
    row.(rowEtag := Some(etag), groupOrUserId := Some(user), deleted := false)
  }

  /** A stored row that is not a tombstone. */
  predicate IsLive(rows: map<string, Row>, rowId: string)
  {
    rowId in rows && !rows[rowId].deleted
  }

  /** What getRows lists: the live rows, in the order their ids were inserted. */
  function LiveRows(order: seq<string>, rows: map<string, Row>): seq<Row>
  {
    if order == [] then []
    else
      var id := order[|order| - 1];
      LiveRows(order[..|order| - 1], rows) + (if IsLive(rows, id) then [rows[id]] else [])
  }

  /** Every listed row is live and stored under its id. */
  lemma {:induction false} LiveRowsMembers(order: seq<string>, rows: map<string, Row>)
    requires forall id :: id in rows ==> rows[id].rowId == id
    ensures forall r :: r in LiveRows(order, rows) ==> !r.deleted && IsLive(rows, r.rowId) && rows[r.rowId] == r
  {
    if order != [] {
      LiveRowsMembers(order[..|order| - 1], rows);
    }
  }

  /** Every live row whose id is in the order is listed. */
  lemma {:induction false} LiveRowsComplete(order: seq<string>, rows: map<string, Row>)
    ensures forall id :: id in order && IsLive(rows, id) ==> rows[id] in LiveRows(order, rows)
  {
    if order != [] {
      var front := order[..|order| - 1];
      LiveRowsComplete(front, rows);
      forall id | id in order && IsLive(rows, id)
        ensures rows[id] in LiveRows(order, rows)
      {
        if id != order[|order| - 1] {
          assert id in front by {
            var k :| 0 <= k < |order| && order[k] == id;
            assert front[k] == id;
          }
        }
      }
    }
  }

  /** The listing s with every row whose id is row's replaced by row, in place. */
  function Replaced(s: seq<Row>, row: Row): seq<Row>
  {
    if s == [] then []
    else Replaced(s[..|s| - 1], row) + [if s[|s| - 1].rowId == row.rowId then row else s[|s| - 1]]
  }

  /** Replacement keeps the length and, position by position, swaps in row exactly where the id matches. */
  lemma {:induction false} ReplacedAt(s: seq<Row>, row: Row)
    ensures |Replaced(s, row)| == |s|
    ensures forall i :: 0 <= i < |s| ==> Replaced(s, row)[i] == if s[i].rowId == row.rowId then row else s[i]
  {
    if s != [] {
      ReplacedAt(s[..|s| - 1], row);
    }
  }

  /** Overwriting a live row with a live row of the same id replaces it in the listing, in place. */
  lemma {:induction false} LiveRowsUpdate(order: seq<string>, rows: map<string, Row>, row: Row)
    requires forall id :: id in rows ==> rows[id].rowId == id
    requires IsLive(rows, row.rowId) && !row.deleted
    ensures LiveRows(order, rows[row.rowId := row]) == Replaced(LiveRows(order, rows), row)
  {
    if order != [] {
      var front := order[..|order| - 1];
      var id := order[|order| - 1];
      LiveRowsUpdate(front, rows, row);
      var tail := if IsLive(rows, id) then [rows[id]] else [];
      ReplacedAppend(LiveRows(front, rows), tail, row);
    }
  }

  lemma ReplacedAppend(a: seq<Row>, b: seq<Row>, row: Row)
    requires |b| <= 1
    ensures Replaced(a + b, row) == Replaced(a, row) + Replaced(b, row)
  {
    if |b| == 1 {
      assert (a + b)[..|a + b| - 1] == a;
      assert [b[0]][..0] == [];
    } else {
      assert a + b == a;
    }
  }

  /** A change to a row whose id is not in the order does not show in the listing. */
  lemma {:induction false} LiveRowsFrame(order: seq<string>, rows: map<string, Row>, id: string, row: Row)
    requires id !in order
    ensures LiveRows(order, rows[id := row]) == LiveRows(order, rows)
  {
    if order != [] {
      LiveRowsFrame(order[..|order| - 1], rows, id, row);
    }
  }

  /** Inserting a row under a new id appends it to the listing. */
  lemma LiveRowsInsert(order: seq<string>, rows: map<string, Row>, row: Row)
    requires row.rowId !in order && !row.deleted
    ensures LiveRows(order + [row.rowId], rows[row.rowId := row]) == LiveRows(order, rows) + [row]
  {
    assert (order + [row.rowId])[..|order|] == order;
    LiveRowsFrame(order, rows, row.rowId, row);
  }

  /** The rows of s whose ids are not in ids, in order. */
  function WithoutIds(s: seq<Row>, ids: seq<string>): seq<Row>
  {
    if s == [] then []
    else WithoutIds(s[..|s| - 1], ids) + (if s[|s| - 1].rowId in ids then [] else [s[|s| - 1]])
  }

  /** The stored rows after the rows named in ids are tombstoned. */
  function MarkDeleted(rows: map<string, Row>, ids: seq<string>): (r: map<string, Row>)
    ensures r.Keys == rows.Keys
  {
    map id | id in rows :: if id in ids then rows[id].(deleted := true) else rows[id]
  }

  /** Tombstoning removes exactly the named rows from the listing and keeps the others in order. */
  lemma {:induction false} LiveRowsAfterDelete(order: seq<string>, rows: map<string, Row>, ids: seq<string>)
    requires forall id :: id in rows ==> rows[id].rowId == id
    ensures LiveRows(order, MarkDeleted(rows, ids)) == WithoutIds(LiveRows(order, rows), ids)
  {
    if order != [] {
      var front := order[..|order| - 1];
      var id := order[|order| - 1];
      LiveRowsAfterDelete(front, rows, ids);
      WithoutIdsAppend(LiveRows(front, rows), if IsLive(rows, id) then [rows[id]] else [], ids);
    }
  }

  lemma WithoutIdsAppend(a: seq<Row>, b: seq<Row>, ids: seq<string>)
    requires |b| <= 1
    ensures WithoutIds(a + b, ids) == WithoutIds(a, ids) + WithoutIds(b, ids)
  {
    if |b| == 1 {
      assert (a + b)[..|a + b| - 1] == a;
      assert [b[0]][..0] == [];
    } else {
      assert a + b == a;
    }
  }

  /** Deleting the id of every live row leaves getRows empty. */
  lemma DeleteAllEmpties(order: seq<string>, rows: map<string, Row>, ids: seq<string>)
    requires forall id :: id in rows ==> rows[id].rowId == id
    requires forall id :: IsLive(rows, id) ==> id in ids
    ensures LiveRows(order, MarkDeleted(rows, ids)) == []
  {
    LiveRowsAfterDelete(order, rows, ids);
    LiveRowsMembers(order, rows);
    WithoutIdsEmpty(LiveRows(order, rows), ids);
  }

  lemma {:induction false} WithoutIdsEmpty(s: seq<Row>, ids: seq<string>)
    requires forall r :: r in s ==> r.rowId in ids
    ensures WithoutIds(s, ids) == []
  {
    if s != [] {
      WithoutIdsEmpty(s[..|s| - 1], ids);
    }
  }

  /** A batch can be inserted: none of its ids is stored (live or tombstoned), and no id repeats. */
  predicate Insertable(rows: map<string, Row>, batch: seq<Row>)
  {
    && (forall i :: 0 <= i < |batch| ==> batch[i].rowId !in rows)
    && (forall i, j :: 0 <= i < j < |batch| ==> batch[i].rowId != batch[j].rowId)
  }

  /** The ids of a batch, in order. */
  function IdsOf(batch: seq<Row>): (ids: seq<string>)
    ensures |ids| == |batch| && forall i :: 0 <= i < |batch| ==> ids[i] == batch[i].rowId
  {
    if batch == [] then [] else IdsOf(batch[..|batch| - 1]) + [batch[|batch| - 1].rowId]
  }

  /** The stored rows after the stamped rows of a batch are put under their ids. */
  function PutAll(rows: map<string, Row>, stamped: seq<Row>): map<string, Row>
  {
    if stamped == [] then rows
    else
      var last := stamped[|stamped| - 1];
      PutAll(rows, stamped[..|stamped| - 1])[last.rowId := last]
  }

  /** The stamped rows the store keeps for a batch whose first etag serial is `first`. */
  function StampAll(batch: seq<Row>, first: nat, user: string): (s: seq<Row>)
    ensures |s| == |batch|
  {
    if batch == [] then []
    else StampAll(batch[..|batch| - 1], first, user) + [Stamp(batch[|batch| - 1], EtagFor(first + |batch| - 1), user)]
  }

  /**
   * The store's invariant: the order lists every stored id exactly once, each row is stored
   * under its own id, and each carries an etag issued before serial `nextEtag`.
   */
  ghost predicate ValidStore(rows: map<string, Row>, order: seq<string>, nextEtag: nat)
  {
    && (forall i, j :: 0 <= i < j < |order| ==> order[i] != order[j])
    && (forall id :: id in rows <==> id in order)
    && (forall id :: id in rows ==> rows[id].rowId == id)
    && (forall id :: id in rows ==> rows[id].rowEtag.Some? && IssuedBefore(rows[id].rowEtag.value, nextEtag))
  }

  /** Tombstoning keeps the invariant: ids, etags and the listing order are untouched. */
  lemma DeleteKeepsValid(rows: map<string, Row>, order: seq<string>, nextEtag: nat, ids: seq<string>)
    requires ValidStore(rows, order, nextEtag)
    ensures ValidStore(MarkDeleted(rows, ids), order, nextEtag)
  {
    var marked := MarkDeleted(rows, ids);
    assert forall id :: id in marked ==> marked[id].rowId == rows[id].rowId && marked[id].rowEtag == rows[id].rowEtag;
  }

  /**
   * Overwriting a stored row with one carrying the next etag keeps the invariant, and that
   * etag differs from every etag stored before.
   */
  lemma UpdateKeepsValid(rows: map<string, Row>, order: seq<string>, nextEtag: nat, updated: Row)
    requires ValidStore(rows, order, nextEtag) && updated.rowId in rows
    requires updated.rowEtag == Some(EtagFor(nextEtag))
    ensures ValidStore(rows[updated.rowId := updated], order, nextEtag + 1)
    ensures forall id :: id in rows ==> rows[id].rowEtag != updated.rowEtag
  {
    forall id | id in rows
      ensures rows[id].rowEtag != updated.rowEtag
    {
      FreshEtagDiffers(rows[id].rowEtag.value, nextEtag, nextEtag);
    }
    NatRoundTrip(nextEtag);
  }

  /** Storing one new row stamped with the next etag keeps the invariant and appends the row to the listing. */
  lemma InsertKeepsValid(rows: map<string, Row>, order: seq<string>, nextEtag: nat, row: Row, user: string)
    requires ValidStore(rows, order, nextEtag) && row.rowId !in rows
    ensures ValidStore(rows[row.rowId := Stamp(row, EtagFor(nextEtag), user)], order + [row.rowId], nextEtag + 1)
    ensures LiveRows(order + [row.rowId], rows[row.rowId := Stamp(row, EtagFor(nextEtag), user)])
         == LiveRows(order, rows) + [Stamp(row, EtagFor(nextEtag), user)]
  {
    NatRoundTrip(nextEtag);
    LiveRowsInsert(order, rows, Stamp(row, EtagFor(nextEtag), user));
  }

  /** The i-th returned row is the i-th input stamped with the i-th etag of the batch. */
  lemma {:induction false} StampAllAt(batch: seq<Row>, first: nat, user: string, i: nat)
    requires i < |batch|
    ensures StampAll(batch, first, user)[i] == Stamp(batch[i], EtagFor(first + i), user)
  {
    if i < |batch| - 1 {
      StampAllAt(batch[..|batch| - 1], first, user, i);
    }
  }

  /**
   * The state of insertRows after the first k rows of the batch are written: `stamped` are
   * the rows written so far, `stored`, `ids` and `serial` the store they produced from
   * `rows0`, `order0` and `first`.
   */
  ghost predicate BatchWritten(batch: seq<Row>, k: nat, first: nat, user: string,
                               rows0: map<string, Row>, order0: seq<string>,
                               stamped: seq<Row>, stored: map<string, Row>, ids: seq<string>, serial: nat)
  {
    && k <= |batch|
    && serial == first + k
    && stamped == StampAll(batch[..k], first, user)
    && stored == PutAll(rows0, stamped)
    && ids == order0 + IdsOf(batch[..k])
  }

  /** What the partly written store guarantees: it is valid, lists the written rows, and misses the rest. */
  ghost predicate BatchConsistent(batch: seq<Row>, k: nat, rows0: map<string, Row>, order0: seq<string>,
                                  stamped: seq<Row>, stored: map<string, Row>, ids: seq<string>, serial: nat)
  {
    && LiveRows(ids, stored) == LiveRows(order0, rows0) + stamped
    && ValidStore(stored, ids, serial)
    && (forall j :: k <= j < |batch| ==> batch[j].rowId !in stored)
  }

  lemma BatchStart(batch: seq<Row>, first: nat, user: string, rows0: map<string, Row>, order0: seq<string>)
    requires ValidStore(rows0, order0, first) && Insertable(rows0, batch)
    ensures BatchWritten(batch, 0, first, user, rows0, order0, [], rows0, order0, first)
    ensures BatchConsistent(batch, 0, rows0, order0, [], rows0, order0, first)
  {
    assert batch[..0] == [];
    assert order0 + [] == order0;
  }

  /** Writing row k extends the stamped rows, the stored rows and the order by that row. */
  lemma BatchStep(batch: seq<Row>, k: nat, first: nat, user: string,
                  rows0: map<string, Row>, order0: seq<string>,
                  stamped: seq<Row>, stored: map<string, Row>, ids: seq<string>, serial: nat)
    requires BatchWritten(batch, k, first, user, rows0, order0, stamped, stored, ids, serial) && k < |batch|
    ensures var row := Stamp(batch[k], EtagFor(serial), user);
      BatchWritten(batch, k + 1, first, user, rows0, order0,
                   stamped + [row], stored[row.rowId := row], ids + [row.rowId], serial + 1)
  {
    var row := Stamp(batch[k], EtagFor(serial), user);
    PrefixSnoc(batch, k, first, user);
    assert ids + [row.rowId] == order0 + (IdsOf(batch[..k]) + [batch[k].rowId]);
    assert (stamped + [row])[..|stamped|] == stamped;
  }

  /** Writing row k keeps the partly written store consistent. */
  lemma BatchStepConsistent(batch: seq<Row>, k: nat, rows0: map<string, Row>, order0: seq<string>, user: string,
                            stamped: seq<Row>, stored: map<string, Row>, ids: seq<string>, serial: nat)
    requires Insertable(rows0, batch) && k < |batch|
    requires BatchConsistent(batch, k, rows0, order0, stamped, stored, ids, serial)
    ensures var row := Stamp(batch[k], EtagFor(serial), user);
      BatchConsistent(batch, k + 1, rows0, order0,
                      stamped + [row], stored[row.rowId := row], ids + [row.rowId], serial + 1)
  {
    var row := Stamp(batch[k], EtagFor(serial), user);
    InsertKeepsValid(stored, ids, serial, batch[k], user);
    assert forall j :: k + 1 <= j < |batch| ==> batch[j].rowId != row.rowId;
  }

  /**
   * The writing loop of insertRows, on values: stamps each row of an insertable batch with
   * the next etag and the writer, stores it and appends its id.
   */
  method WriteBatch(batch: seq<Row>, first: nat, user: string, rows0: map<string, Row>, order0: seq<string>)
    returns (stamped: seq<Row>, stored: map<string, Row>, ids: seq<string>, serial: nat)
    requires ValidStore(rows0, order0, first) && Insertable(rows0, batch)
    ensures BatchWritten(batch, |batch|, first, user, rows0, order0, stamped, stored, ids, serial)
    ensures BatchConsistent(batch, |batch|, rows0, order0, stamped, stored, ids, serial)
  {
    stored, ids, serial := rows0, order0, first;
    stamped := [];
    var k := 0;
    BatchStart(batch, first, user, rows0, order0);
    while k < |batch|
      invariant BatchWritten(batch, k, first, user, rows0, order0, stamped, stored, ids, serial)
      invariant BatchConsistent(batch, k, rows0, order0, stamped, stored, ids, serial)
    {
      BatchStep(batch, k, first, user, rows0, order0, stamped, stored, ids, serial);
      BatchStepConsistent(batch, k, rows0, order0, user, stamped, stored, ids, serial);
      var row := Stamp(batch[k], EtagFor(serial), user);
      stored := stored[row.rowId := row];
      ids := ids + [row.rowId];
      serial := serial + 1;
      stamped := stamped + [row];
      k := k + 1;
    }
  }

  /** Once the whole batch is written, the loop's state is the batch's stamped rows, stored and listed. */
  lemma BatchDone(batch: seq<Row>, first: nat, user: string, rows0: map<string, Row>, order0: seq<string>,
                  stamped: seq<Row>, stored: map<string, Row>, ids: seq<string>, serial: nat)
    requires BatchWritten(batch, |batch|, first, user, rows0, order0, stamped, stored, ids, serial)
    requires BatchConsistent(batch, |batch|, rows0, order0, stamped, stored, ids, serial)
    ensures stamped == StampAll(batch, first, user) && stored == PutAll(rows0, stamped)
    ensures ids == order0 + IdsOf(batch) && serial == first + |batch|
    ensures LiveRows(ids, stored) == LiveRows(order0, rows0) + stamped
    ensures ValidStore(stored, ids, serial)
  {
    assert batch[..|batch|] == batch;
  }

  /** The stamped rows and the ids of a batch prefix grow by one entry per row. */
  lemma PrefixSnoc(batch: seq<Row>, k: nat, first: nat, user: string)
    requires k < |batch|
    ensures StampAll(batch[..k + 1], first, user) == StampAll(batch[..k], first, user) + [Stamp(batch[k], EtagFor(first + k), user)]
    ensures IdsOf(batch[..k + 1]) == IdsOf(batch[..k]) + [batch[k].rowId]
  {
    assert batch[..k + 1][..k] == batch[..k];
    assert batch[..k + 1][k] == batch[k];
  }

  class DataManager {
    /** The identity of the calling context; every write records it as groupOrUserId. */
    const user: string
    /** Every row ever inserted into the table, tombstones included, by rowId. */
    var rows: map<string, Row>
    /** The rowIds in insertion order. */
    var order: seq<string>
    /** The serial of the next etag the store issues. */
    var nextEtag: nat

    ghost predicate Valid()
      reads this
    {
      ValidStore(rows, order, nextEtag)
    }

    /** The rows getRows reports. */
    ghost function Rows(): seq<Row>
      reads this
    {
      LiveRows(order, rows)
    }

    /** A DataManager bound to a freshly created table holds no rows. */
    constructor (user: string)
      ensures Valid()
      ensures this.user == user && rows == map[] && order == [] && nextEtag == 0
      ensures Rows() == []
    {
      this.user := user;
      rows := map[];
      order := [];
      nextEtag := 0;
    }

    /** getRows: the live rows, in insertion order. */
    method GetRows() returns (result: seq<Row>)
      requires Valid()
      ensures result == LiveRows(order, rows)
      ensures forall r :: r in result ==> !r.deleted && IsLive(rows, r.rowId) && rows[r.rowId] == r
      ensures forall id :: IsLive(rows, id) ==> rows[id] in result
    {
      result := [];
      var i := 0;
      while i < |order|
        invariant 0 <= i <= |order|
        invariant result == LiveRows(order[..i], rows)
      {
        var id := order[i];
        assert order[..i + 1][..i] == order[..i];
        if !rows[id].deleted {
          result := result + [rows[id]];
        }
        i := i + 1;
      }
      assert order[..i] == order;
      LiveRowsMembers(order, rows);
      LiveRowsComplete(order, rows);
    }

    /** getRow: the live row with that id, or null when there is none; never fails. */
    method GetRow(rowId: string) returns (r: Option<Row>)
      requires Valid()
      ensures r.Some? <==> IsLive(rows, rowId)
      ensures r.Some? ==> r.value == rows[rowId] && r.value.rowId == rowId
    {
      if rowId in rows && !rows[rowId].deleted {
        r := Some(rows[rowId]);
      } else {
        r := None;
      }
    }

    /** getRowNullSafe: the same lookup, but an absent row fails with NotFound. */
    method GetRowNullSafe(rowId: string) returns (r: Result<Row, DataError>)
      requires Valid()
      ensures r.Failure? <==> !IsLive(rows, rowId)
      ensures r.Failure? ==> r.error == NotFound
      ensures r.Success? ==> r.value == rows[rowId] && r.value.rowId == rowId
    {
      var row := GetRow(rowId);
      if row.None? {
        return Failure(NotFound);
      }
      r := Success(row.value);
    }

    /** The check insertRows makes before writing: no id of the batch is stored or repeated. */
    method CheckInsertable(batch: seq<Row>) returns (ok: bool)
      ensures ok == Insertable(rows, batch)
    {
      var i := 0;
      var seen: set<string> := {};
      while i < |batch|
        invariant 0 <= i <= |batch|
        invariant seen == set j | 0 <= j < i :: batch[j].rowId
        invariant Insertable(rows, batch[..i])
      {
        var id := batch[i].rowId;
        if id in rows || id in seen {
          assert !Insertable(rows, batch) by {
            if id in seen {
              var j :| 0 <= j < i && batch[j].rowId == id;
              assert batch[j].rowId == batch[i].rowId;
            }
          }
          return false;
        }
        seen := seen + {id};
        i := i + 1;
      }
      assert batch[..i] == batch;
      return true;
    }

    /**
     * insertRows: all or nothing. Fails with AlreadyExists, changing nothing, when an id is
     * already stored (tombstones included) or repeats in the batch; otherwise stamps every
     * row with a fresh etag and the caller's identity, stores it and appends its id to the order.
     */
    method InsertRows(batch: seq<Row>) returns (r: Result<seq<Row>, DataError>)
      requires Valid()
      modifies this
      ensures Valid()
      ensures r.Failure? <==> !Insertable(old(rows), batch)
      ensures r.Failure? ==>
        && r.error == AlreadyExists
        && rows == old(rows) && order == old(order) && nextEtag == old(nextEtag)
      ensures r.Success? ==>
        && r.value == StampAll(batch, old(nextEtag), user)
        && rows == PutAll(old(rows), r.value)
        && order == old(order) + IdsOf(batch)
        && nextEtag == old(nextEtag) + |batch|
        && Rows() == old(Rows()) + r.value
    {
      var ok := CheckInsertable(batch);
      if !ok {
        return Failure(AlreadyExists);
      }
      var stamped, stored, ids, serial := WriteBatch(batch, nextEtag, user, rows, order);
      BatchDone(batch, nextEtag, user, rows, order, stamped, stored, ids, serial);
      rows, order, nextEtag := stored, ids, serial;
      r := Success(stamped);
    }

    /** insertRow: insertRows on a one-row batch. */
    method InsertRow(row: Row) returns (r: Result<Row, DataError>)
      requires Valid()
      modifies this
      ensures Valid()
      ensures r.Failure? <==> row.rowId in old(rows)
      ensures r.Failure? ==>
        && r.error == AlreadyExists
        && rows == old(rows) && order == old(order) && nextEtag == old(nextEtag)
      ensures r.Success? ==>
        && r.value == Stamp(row, EtagFor(old(nextEtag)), user)
        && rows == old(rows)[row.rowId := r.value]
        && order == old(order) + [row.rowId]
        && nextEtag == old(nextEtag) + 1
        && Rows() == old(Rows()) + [r.value]
    {
      var batch := InsertRows([row]);
      if batch.Failure? {
        return Failure(batch.error);
      }
      assert [row][..0] == [];
      r := Success(batch.value[0]);
    }

    /**
     * updateRow: NotFound when no live row has the id (whatever etag is supplied); otherwise
     * RowVersionMismatch unless the supplied etag is the stored one; otherwise the row is
     * replaced by the caller's values under a fresh etag and the caller's identity.
     */
    method UpdateRow(row: Row) returns (r: Result<Row, DataError>)
      requires Valid()
      modifies this
      ensures Valid()
      ensures !IsLive(old(rows), row.rowId) ==> r == Failure(NotFound)
      ensures IsLive(old(rows), row.rowId) && row.rowEtag != old(rows)[row.rowId].rowEtag ==>
        r == Failure(RowVersionMismatch)
      ensures r.Failure? ==> rows == old(rows) && order == old(order) && nextEtag == old(nextEtag)
      ensures IsLive(old(rows), row.rowId) && row.rowEtag == old(rows)[row.rowId].rowEtag ==>
        r == Success(Stamp(row, EtagFor(old(nextEtag)), user))
      ensures r.Success? ==>
        && rows == old(rows)[row.rowId := r.value]
        && order == old(order)
        && nextEtag == old(nextEtag) + 1
        && (forall id :: id in old(rows) ==> old(rows)[id].rowEtag != r.value.rowEtag)
        && Rows() == Replaced(old(Rows()), r.value)
    {
      if !(row.rowId in rows) || rows[row.rowId].deleted {
        return Failure(NotFound);
      }
      var current := rows[row.rowId];
      if row.rowEtag != current.rowEtag {
        return Failure(RowVersionMismatch);
      }
      var updated := Stamp(row, EtagFor(nextEtag), user);
      UpdateKeepsValid(rows, order, nextEtag, updated);
      LiveRowsUpdate(order, rows, updated);
      rows := rows[row.rowId := updated];
      nextEtag := nextEtag + 1;
      r := Success(updated);
    }

    /**
     * deleteRows: all or nothing. Fails with NotFound, changing nothing, when some id names
     * no live row; otherwise tombstones every named row, which keeps its id and etag.
     */
    method DeleteRows(rowIds: seq<string>) returns (r: Result<(), DataError>)
      requires Valid()
      modifies this
      ensures Valid()
      ensures r.Failure? <==> exists i :: 0 <= i < |rowIds| && !IsLive(old(rows), rowIds[i])
      ensures r.Failure? ==> r.error == NotFound && rows == old(rows)
      ensures r.Success? ==> rows == MarkDeleted(old(rows), rowIds)
      ensures r.Success? ==> Rows() == WithoutIds(old(Rows()), rowIds)
      ensures order == old(order) && nextEtag == old(nextEtag)
    {
      var i := 0;
      while i < |rowIds|
        invariant 0 <= i <= |rowIds|
        invariant forall j :: 0 <= j < i ==> IsLive(rows, rowIds[j])
        invariant rows == old(rows) && order == old(order) && nextEtag == old(nextEtag)
      {
        if !(rowIds[i] in rows) || rows[rowIds[i]].deleted {
          return Failure(NotFound);
        }
        i := i + 1;
      }
      ghost var rows0 := rows;
      var k := 0;
      while k < |rowIds|
        invariant 0 <= k <= |rowIds|
        invariant rows.Keys == rows0.Keys
        invariant order == old(order) && nextEtag == old(nextEtag)
        invariant forall id :: id in rows ==> rows[id] == if id in rowIds[..k] then rows0[id].(deleted := true) else rows0[id]
      {
        var id := rowIds[k];
        assert rowIds[..k + 1] == rowIds[..k] + [id];
        rows := rows[id := rows[id].(deleted := true)];
        k := k + 1;
      }
      assert rowIds[..k] == rowIds;
      assert rows == MarkDeleted(rows0, rowIds);
      DeleteKeepsValid(rows0, order, nextEtag, rowIds);
      LiveRowsAfterDelete(order, rows0, rowIds);
      r := Success(());
    }
  }
}
