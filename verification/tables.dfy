/**
 * An in-memory stand-in for one database table: rows keyed by an
 * auto-increment id. The operations are the few ORM calls the handlers make
 * (`create`, `findFirst`/`findUnique`, `update`, `delete`, `deleteMany`).
 */
module Tables {
  import opened Js

  type Id = nat
  type Timestamp = int

  /** Rows by id, and the id the next insert receives. */
  datatype Table<T> = Table(rows: map<Id, T>, nextId: Id)

  /** Auto-increment: every id in use was handed out before `nextId`. */
  ghost predicate Valid<T>(t: Table<T>) {
    forall k :: k in t.rows ==> k < t.nextId
  }

  /** An empty table; ids start at 1, as database auto-increment does. */
  function Empty<T>(): (t: Table<T>)
    ensures Valid(t) && t.rows == map[]
  {
    Table(map[], 1)
  }

  /** `create`: adds exactly one row under a fresh id and leaves every other row alone. */
  function Insert<T>(t: Table<T>, row: T): (r: (Table<T>, Id))
    requires Valid(t)
    ensures Valid(r.0)
    ensures r.1 !in t.rows && r.1 == t.nextId && r.0.nextId > r.1
    ensures r.0.rows.Keys == t.rows.Keys + {r.1}
    ensures r.0.rows[r.1] == row
    ensures forall k :: k in t.rows ==> r.0.rows[k] == t.rows[k]
  {
    (Table(t.rows[t.nextId := row], t.nextId + 1), t.nextId)
  }

  /** Nested `create` of a list: one new row per element, in order, under consecutive fresh ids. */
  function InsertAll<T>(t: Table<T>, rows: seq<T>): (r: Table<T>)
    requires Valid(t)
    ensures Valid(r)
    ensures r.nextId == t.nextId + |rows|
    ensures forall k :: k in r.rows <==> k in t.rows || t.nextId <= k < t.nextId + |rows|
    ensures forall k :: k in t.rows ==> r.rows[k] == t.rows[k]
    ensures forall i :: 0 <= i < |rows| ==> r.rows[t.nextId + i] == rows[i]
    decreases |rows|
  {
    if |rows| == 0 then t
    else
      var t1 := Insert(t, rows[0]).0;
      var r := InsertAll(t1, rows[1..]);
      r
  }

  /** `update` by id: replaces one existing row and nothing else. */
  function Replace<T>(t: Table<T>, k: Id, row: T): (r: Table<T>)
    requires k in t.rows
    ensures Valid(t) ==> Valid(r)
    ensures r.nextId == t.nextId && r.rows.Keys == t.rows.Keys
    ensures r.rows[k] == row
    ensures forall j :: j in t.rows && j != k ==> r.rows[j] == t.rows[j]
  {
    Table(t.rows[k := row], t.nextId)
  }

  /** `delete` by id: removes one row and nothing else. */
  function Remove<T>(t: Table<T>, k: Id): (r: Table<T>)
    ensures Valid(t) ==> Valid(r)
    ensures r.nextId == t.nextId
    ensures r.rows.Keys == t.rows.Keys - {k}
    ensures forall j :: j in r.rows ==> r.rows[j] == t.rows[j]
  {
    Table(t.rows - {k}, t.nextId)
  }

  /** `deleteMany`: removes exactly the rows matching `p`, keeps the others as they were. */
  function RemoveWhere<T>(t: Table<T>, p: T -> bool): (r: Table<T>)
    ensures Valid(t) ==> Valid(r)
    ensures r.nextId == t.nextId
    ensures forall k :: k in r.rows <==> k in t.rows && !p(t.rows[k])
    ensures forall k :: k in r.rows ==> r.rows[k] == t.rows[k]
  {
    Table(map k | k in t.rows && !p(t.rows[k]) :: t.rows[k], t.nextId)
  }

  /** `findFirst`: the least id at or above `from` whose row satisfies `p`. */
  function FindFrom<T>(t: Table<T>, p: T -> bool, from: Id): (r: Option<Id>)
    ensures r.Some? ==> from <= r.value && r.value in t.rows && p(t.rows[r.value])
    ensures r.Some? ==> forall k :: from <= k < r.value && k in t.rows ==> !p(t.rows[k])
    ensures r.None? && Valid(t) ==> forall k :: from <= k && k in t.rows ==> !p(t.rows[k])
    decreases t.nextId - from
  {
    if from >= t.nextId then None
    else if from in t.rows && p(t.rows[from]) then Some(from)
    else FindFrom(t, p, from + 1)
  }

  /** `findFirst` over the whole table. */
  function FindFirst<T>(t: Table<T>, p: T -> bool): (r: Option<Id>)
    requires Valid(t)
    ensures r.Some? ==> r.value in t.rows && p(t.rows[r.value])
    ensures r.None? <==> forall k :: k in t.rows ==> !p(t.rows[k])
  {
    FindFrom(t, p, 0)
  }
}
