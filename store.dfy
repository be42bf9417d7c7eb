/** The PostgreSQL tables the pipeline reads and writes, and a connection whose writes
    stay pending, visible only to that connection, until it commits. A connection that
    is dropped without a commit loses its writes. SQL itself is not modelled. */
module Store {

  import opened Wrappers

  datatype Date = Date(year: int, month: nat, day: nat)

  /** A `date`, or a `datetime` (its date and the time of day in seconds). */
  datatype Moment = OnDay(date: Date) | At(date: Date, second: nat)

  datatype Status = New | Processed

  /** A row of `reg_updates`; its id is its position in the table. */
  datatype Update = Update(
    regulator: string, title: string, url: string, pubDate: Moment, hash: string,
    rawFilePath: string, status: Status, insertedAt: Moment)

  /** A row of `reg_summaries` (`exec_summary`) or of `reg_actions` (`actions_json`). */
  datatype Note = Note(updateId: nat, text: string, createdAt: Moment)

  datatype Tables = Tables(updates: seq<Update>, summaries: seq<Note>, actions: seq<Note>)

  datatype Write =
    | InsertUpdate(row: Update)
    | InsertSummary(note: Note)
    | InsertActions(note: Note)
    | MarkProcessed(id: nat)          // UPDATE reg_updates SET status = 'PROCESSED' WHERE id = ...

  function Apply(t: Tables, w: Write): (r: Tables)
    ensures w.MarkProcessed? ==> |r.updates| == |t.updates| && r.summaries == t.summaries && r.actions == t.actions
    ensures w.MarkProcessed? ==> forall i | 0 <= i < |t.updates| ::
              r.updates[i] == if i == w.id then t.updates[i].(status := Processed) else t.updates[i]
    ensures w.InsertUpdate? ==> r == t.(updates := t.updates + [w.row])
    ensures w.InsertSummary? ==> r == t.(summaries := t.summaries + [w.note])
    ensures w.InsertActions? ==> r == t.(actions := t.actions + [w.note])
  {
    match w
    case InsertUpdate(row) => t.(updates := t.updates + [row])
    case InsertSummary(n) => t.(summaries := t.summaries + [n])
    case InsertActions(n) => t.(actions := t.actions + [n])
    case MarkProcessed(id) =>
      if id < |t.updates| then t.(updates := t.updates[id := t.updates[id].(status := Processed)]) else t
  }

  function ApplyAll(t: Tables, ws: seq<Write>): Tables
    decreases |ws|
  {
    if ws == [] then t else Apply(ApplyAll(t, ws[..|ws| - 1]), ws[|ws| - 1])
  }

  /** Writes applied in two batches are the writes applied in one. */
  lemma {:induction false} ApplyAllConcat(t: Tables, a: seq<Write>, b: seq<Write>)
    ensures ApplyAll(t, a + b) == ApplyAll(ApplyAll(t, a), b)
    decreases |b|
  {
    if b == [] {
      assert a + b == a;
    } else {
      assert (a + b)[..|a + b| - 1] == a + b[..|b| - 1];
      ApplyAllConcat(t, a, b[..|b| - 1]);
    }
  }

  /** A processed document's writes: its summary row, its actions row, then its status. */
  function ResultWrites(id: nat, summary: Note, actions: Note): seq<Write> {
    [InsertSummary(summary), InsertActions(actions), MarkProcessed(id)]
  }

  /** Those writes append exactly the document's summary row and actions row, and change
      only the document's own row of `reg_updates`, to `PROCESSED`. */
  lemma ResultWritesTouchOwnRow(t: Tables, id: nat, summary: Note, actions: Note)
    ensures ApplyAll(t, ResultWrites(id, summary, actions)).summaries == t.summaries + [summary]
    ensures ApplyAll(t, ResultWrites(id, summary, actions)).actions == t.actions + [actions]
    ensures |ApplyAll(t, ResultWrites(id, summary, actions)).updates| == |t.updates|
    ensures forall i | 0 <= i < |t.updates| ::
              ApplyAll(t, ResultWrites(id, summary, actions)).updates[i] ==
                if i == id then t.updates[i].(status := Processed) else t.updates[i]
  {
    var ws := ResultWrites(id, summary, actions);
    var t1 := t.(summaries := t.summaries + [summary]);
    var t2 := t1.(actions := t1.actions + [actions]);
    assert ws[..1] == [ws[0]] && ws[..1][..0] == [];
    assert ApplyAll(t, ws[..1]) == t1;
    assert ws[..2][..1] == ws[..1];
    assert ApplyAll(t, ws[..2]) == t2;
    assert ws[..3][..2] == ws[..2] && ws[..3] == ws;
    assert ApplyAll(t, ws) == Apply(t2, MarkProcessed(id));
  }

  /** `SELECT 1 FROM reg_updates WHERE hash = ...` finds a row. */
  predicate HasHash(t: Tables, hash: string) {
    exists i | 0 <= i < |t.updates| :: t.updates[i].hash == hash
  }

  /** No two rows of `reg_updates` share a hash. */
  predicate DistinctHashes(t: Tables) {
    forall i, j | 0 <= i < j < |t.updates| :: t.updates[i].hash != t.updates[j].hash
  }

  /** The ids of the rows whose status is `NEW`, in id order. */
  function NewIds(t: Tables): (r: seq<nat>)
    ensures forall k | 0 <= k < |r| :: r[k] < |t.updates| && t.updates[r[k]].status == New
    ensures forall i | 0 <= i < |t.updates| && t.updates[i].status == New :: i in r
    ensures forall k, l | 0 <= k < l < |r| :: r[k] < r[l]
  {
    NewIdsBelow(t, |t.updates|)
  }

  function NewIdsBelow(t: Tables, n: nat): (r: seq<nat>)
    requires n <= |t.updates|
    ensures forall k | 0 <= k < |r| :: r[k] < n && t.updates[r[k]].status == New
    ensures forall i | 0 <= i < n && t.updates[i].status == New :: i in r
    ensures forall k, l | 0 <= k < l < |r| :: r[k] < r[l]
  {
    if n == 0 then []
    else if t.updates[n - 1].status == New then NewIdsBelow(t, n - 1) + [n - 1]
    else NewIdsBelow(t, n - 1)
  }

  /** The database server's committed state. */
  class Database {
    var tables: Tables

    constructor(t: Tables)
      ensures tables == t
    {
      tables := t;
    }
  }

  /** A psycopg2 connection and its cursor: one open transaction. */
  class Connection {
    const db: Database
    var pending: seq<Write>

    constructor(db: Database)
      ensures this.db == db && pending == []
    {
      this.db := db;
      pending := [];
    }

    /** What this connection's own queries see: the committed tables and its own writes. */
    function View(): Tables
      reads this, db
    {
      ApplyAll(db.tables, pending)
    }

    /** `cursor.execute(...)` for a write. */
    method Execute(w: Write)
      modifies this
      ensures pending == old(pending) + [w]
      ensures View() == Apply(old(View()), w)
    {
      pending := pending + [w];
      assert pending[..|pending| - 1] == old(pending);
    }

    /** `check_if_exists(cursor, hash)`: sees this transaction's own inserts as well. */
    function Exists(hash: string): bool
      reads this, db
    {
      HasHash(View(), hash)
    }

    /** `conn.commit()`: the pending writes become the committed state, at once. */
    method Commit()
      modifies this, db
      ensures db.tables == old(View())
      ensures pending == []
    {
      db.tables := ApplyAll(db.tables, pending);
      pending := [];
    }
  }
}
