/** The `users` table: its row shape, the SET clauses the engine issues, the
    table as a value (for specifications) and the table as a mutable object
    (for the engine's statements). */
module UsersTable {
  import opened Common
  import opened Bcrypt

  /** One row of `users`; the SERIAL `id` is the key it is stored under. */
  datatype Row = Row(
    email: string,
    name: Option<string>,
    password: Digest,
    avatar: Option<string>,
    createdAt: int,
    updatedAt: int)

  /** The SET clause of an `UPDATE users ... WHERE id = ...` statement. Every
      form also sets `updated_at = NOW()`. */
  datatype Change =
    | SetNameAndAvatar(name: string, avatar: string)
    | SetName(name: string)
    | SetAvatar(avatar: string)
    | SetPassword(password: Digest)

  /** The table's contents and the next value of its SERIAL sequence. */
  datatype Table = Table(rows: map<int, Row>, nextId: int)

  /** The table's constraints: ids come from the sequence (positive, below its
      next value) and `email` is UNIQUE. The next value of the sequence is then
      never an id already in use. */
  ghost predicate WellFormed(t: Table)
    ensures WellFormed(t) ==> t.nextId !in t.rows
  {
    && t.nextId >= 1
    && (forall id :: id in t.rows ==> 1 <= id < t.nextId)
    && (forall i, j :: i in t.rows && j in t.rows && t.rows[i].email == t.rows[j].email ==> i == j)
  }

  /** `SELECT ... FROM users WHERE email = ...` returns at least one row. */
  predicate EmailTaken(rows: map<int, Row>, email: string)
    ensures EmailTaken(rows, email) <==> email in (set id | id in rows :: rows[id].email)
  {
    exists id :: id in rows && rows[id].email == email
  }

  /** `SELECT id FROM users WHERE email = ...`: the ids of the rows whose email
      is exactly `email`; it is empty exactly when the email is not taken. */
  function SelectByEmail(rows: map<int, Row>, email: string): (ids: set<int>)
    ensures forall id :: id in ids <==> id in rows && rows[id].email == email
    ensures ids == {} <==> !EmailTaken(rows, email)
  {
    var ids := set id | id in rows && rows[id].email == email;
    assert EmailTaken(rows, email) ==> ids != {} by {
      if EmailTaken(rows, email) {
        var w :| w in rows && rows[w].email == email;
        assert w in ids;
      }
    }
    assert !EmailTaken(rows, email) ==> ids == {} by {
      if !EmailTaken(rows, email) {
        assert forall id :: id !in ids;
      }
    }
    ids
  }

  /** The id of the row whose email is exactly `email`, if there is one. */
  ghost function FindByEmail(rows: map<int, Row>, email: string): (r: Option<int>)
    ensures r.Some? ==> r.value in rows && rows[r.value].email == email
    ensures r.None? <==> !EmailTaken(rows, email)
  {
    if EmailTaken(rows, email) then
      Some(var id :| id in rows && rows[id].email == email; id)
    else
      None
  }

  /** Because emails are unique, looking up a row's email finds that row. */
  lemma FindByEmailUnique(t: Table, id: int)
    requires WellFormed(t)
    requires id in t.rows
    ensures FindByEmail(t.rows, t.rows[id].email) == Some(id)
  {
  }

  /** The row as an UPDATE leaves it: the columns the SET clause names take
      their new values, `updated_at` becomes `now`, and every other column,
      `email` and `created_at` among them, keeps its value. */
  function Apply(row: Row, c: Change, now: int): (r: Row)
    ensures r.email == row.email && r.createdAt == row.createdAt && r.updatedAt == now
    ensures r.name == (if c.SetNameAndAvatar? || c.SetName? then Some(c.name) else row.name)
    ensures r.avatar == (if c.SetNameAndAvatar? || c.SetAvatar? then Some(c.avatar) else row.avatar)
    ensures r.password == (if c.SetPassword? then c.password else row.password)
  {
    match c
    case SetNameAndAvatar(n, a) => row.(name := Some(n), avatar := Some(a), updatedAt := now)
    case SetName(n) => row.(name := Some(n), updatedAt := now)
    case SetAvatar(a) => row.(avatar := Some(a), updatedAt := now)
    case SetPassword(d) => row.(password := d, updatedAt := now)
  }

  /** `INSERT INTO users ...`: the row gets the next SERIAL id. */
  function InsertRow(t: Table, row: Row): (r: Table)
    ensures r.rows.Keys == t.rows.Keys + {t.nextId} && r.rows[t.nextId] == row
    ensures forall id :: id in t.rows && id != t.nextId ==> r.rows[id] == t.rows[id]
    ensures r.nextId == t.nextId + 1
  {
    Table(t.rows[t.nextId := row], t.nextId + 1)
  }

  /** `UPDATE users SET ... WHERE id = ...`: changes the row with that id, or
      nothing when there is none. */
  function UpdateRow(t: Table, id: int, c: Change, now: int): (r: Table)
    ensures r.rows.Keys == t.rows.Keys && r.nextId == t.nextId
    ensures id in t.rows ==> r.rows[id] == Apply(t.rows[id], c, now)
    ensures forall other :: other in t.rows && other != id ==> r.rows[other] == t.rows[other]
  {
    if id in t.rows then t.(rows := t.rows[id := Apply(t.rows[id], c, now)]) else t
  }

  /** An insert whose email is not taken adds exactly one row, under a fresh
      id, keeps every other row and keeps the constraints. */
  lemma InsertKeepsWellFormed(t: Table, row: Row)
    requires WellFormed(t)
    requires !EmailTaken(t.rows, row.email)
    ensures WellFormed(InsertRow(t, row))
    ensures t.nextId !in t.rows
    ensures InsertRow(t, row).rows.Keys == t.rows.Keys + {t.nextId}
    ensures |InsertRow(t, row).rows| == |t.rows| + 1
    ensures InsertRow(t, row).rows[t.nextId] == row
    ensures forall id :: id in t.rows ==> InsertRow(t, row).rows[id] == t.rows[id]
  {
  }

  /** An update keeps the set of ids, every other row and the constraints. */
  lemma UpdateKeepsWellFormed(t: Table, id: int, c: Change, now: int)
    requires WellFormed(t)
    ensures WellFormed(UpdateRow(t, id, c, now))
    ensures UpdateRow(t, id, c, now).rows.Keys == t.rows.Keys
    ensures UpdateRow(t, id, c, now).nextId == t.nextId
    ensures forall other :: other in t.rows && other != id ==> UpdateRow(t, id, c, now).rows[other] == t.rows[other]
  {
  }

  /** The `users` table the engine reads and writes. */
  class Database {
    var users: map<int, Row>
    var nextId: int

    function Value(): Table
      reads this
    {
      Table(users, nextId)
    }

    ghost predicate Valid()
      reads this
    {
      WellFormed(Value())
    }

    /** The table as `CREATE TABLE IF NOT EXISTS users` leaves it. */
    constructor ()
      ensures Valid()
      ensures users == map[] && nextId == 1
    {
      users := map[];
      nextId := 1;
    }

    /** `INSERT INTO users (email, name, password) VALUES (...) RETURNING id`;
        `created_at` and `updated_at` come in the row. The UNIQUE constraint on
        `email` is the caller's to respect. */
    method Insert(row: Row) returns (id: int)
      requires Valid()
      requires !EmailTaken(users, row.email)
      modifies this
      ensures Valid()
      ensures id == old(nextId) && id !in old(users)
      ensures Value() == InsertRow(old(Value()), row)
    {
      InsertKeepsWellFormed(Value(), row);
      id := nextId;
      users := users[id := row];
      nextId := nextId + 1;
    }

    /** `UPDATE users SET ... WHERE id = ... RETURNING ...`: the updated row, or
        `None` when no row has that id. */
    method Update(id: int, c: Change, now: int) returns (updated: Option<Row>)
      requires Valid()
      modifies this
      ensures Valid()
      ensures Value() == UpdateRow(old(Value()), id, c, now)
      ensures updated == (if id in old(users) then Some(Apply(old(users)[id], c, now)) else None)
    {
      UpdateKeepsWellFormed(Value(), id, c, now);
      if id in users {
        var row := Apply(users[id], c, now);
        users := users[id := row];
        updated := Some(row);
      } else {
        updated := None;
      }
    }
  }
}
