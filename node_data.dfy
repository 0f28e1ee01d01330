/** The `node_data` table as a set of rows, and the effect of the two SQL
    statements the poller issues against it. */
module NodeData {

  /** The cycle's `datetime.now()`, as an abstract instant. */
  type Timestamp = int

  datatype Row = Row(ipAddress: string, date: Timestamp, origin: string)

  /** The uniqueness constraint assumed for the table: at most one row per
      (`ip_address`, `origin`) pair. */
  ghost predicate KeysUnique(rows: set<Row>)
  {
    forall r1, r2 :: r1 in rows && r2 in rows && r1.ipAddress == r2.ipAddress && r1.origin == r2.origin ==> r1 == r2
  }

  /** Some row already holds the key (`ip`, `origin`). */
  predicate HasKey(rows: set<Row>, ip: string, origin: string)
  {
    exists r :: r in rows && r.ipAddress == ip && r.origin == origin
  }

  /** The rows a host reported. */
  function OriginRows(rows: set<Row>, origin: string): set<Row>
  {
    set r | r in rows && r.origin == origin
  }

  /** `DELETE FROM node_data WHERE origin = hostname`. */
  function DeleteOrigin(rows: set<Row>, origin: string): (r: set<Row>)
    ensures KeysUnique(rows) ==> KeysUnique(r)
  {
    set x | x in rows && x.origin != origin
  }

  /** `INSERT ... ON CONFLICT DO NOTHING`: the row goes in unless its key is
      taken. */
  function Insert(rows: set<Row>, row: Row): (r: set<Row>)
    ensures KeysUnique(rows) ==> KeysUnique(r)
    ensures HasKey(r, row.ipAddress, row.origin)
    ensures rows <= r && r <= rows + {row}
  {
    if HasKey(rows, row.ipAddress, row.origin) then rows else rows + {row}
  }

  /** The insert loop: one row (`a`, `date`, `origin`) per address of `ips`,
      in order. */
  function InsertAll(rows: set<Row>, ips: seq<string>, date: Timestamp, origin: string): (r: set<Row>)
    ensures KeysUnique(rows) ==> KeysUnique(r)
    ensures rows <= r
    ensures forall x :: x in r && x !in rows ==> x.ipAddress in ips && x.date == date && x.origin == origin
    ensures forall a :: a in ips ==> HasKey(r, a, origin)
    decreases |ips|
  {
    if ips == [] then rows
    else
      var front := ips[..|ips| - 1];
      var before := InsertAll(rows, front, date, origin);
      var r := Insert(before, Row(ips[|ips| - 1], date, origin));
      assert forall a :: a in ips ==> a in front || a == ips[|ips| - 1];
      assert forall a :: HasKey(before, a, origin) ==> HasKey(r, a, origin);
      r
  }

  /** Deleting a host's rows removes exactly those rows and leaves every
      other host's rows as they were. */
  lemma DeleteOriginIsolation(rows: set<Row>, origin: string, other: string)
    ensures OriginRows(DeleteOrigin(rows, origin), origin) == {}
    ensures other != origin ==> OriginRows(DeleteOrigin(rows, origin), other) == OriginRows(rows, other)
    ensures forall x :: x in rows ==> (x in DeleteOrigin(rows, origin) <==> x.origin != origin)
  {
  }

  /** Inserting a row whose key is present changes nothing; otherwise the
      row is added and nothing else. Inserting twice is inserting once. */
  lemma InsertIdempotent(rows: set<Row>, row: Row)
    ensures HasKey(rows, row.ipAddress, row.origin) ==> Insert(rows, row) == rows
    ensures !HasKey(rows, row.ipAddress, row.origin) ==> Insert(rows, row) == rows + {row}
    ensures Insert(Insert(rows, row), row) == Insert(rows, row)
  {
  }

  /** The insert loop keeps the uniqueness constraint and touches no other
      host's rows. */
  lemma {:induction false} InsertAllFrame(rows: set<Row>, ips: seq<string>, date: Timestamp, origin: string, other: string)
    requires other != origin
    ensures KeysUnique(rows) ==> KeysUnique(InsertAll(rows, ips, date, origin))
    ensures OriginRows(InsertAll(rows, ips, date, origin), other) == OriginRows(rows, other)
    decreases |ips|
  {
    if ips != [] {
      InsertAllFrame(rows, ips[..|ips| - 1], date, origin, other);
    }
  }

  /** The rows the insert loop adds to `rows` for the addresses `ips`. */
  ghost function Added(rows: set<Row>, ips: seq<string>, date: Timestamp, origin: string): set<Row>
  {
    set a | a in ips && !HasKey(rows, a, origin) :: Row(a, date, origin)
  }

  /** One more address adds its row exactly when neither the table nor an
      earlier address holds its key. */
  lemma InsertAddsStep(rows: set<Row>, front: seq<string>, x: string, date: Timestamp, origin: string)
    ensures Insert(rows + Added(rows, front, date, origin), Row(x, date, origin)) ==
      rows + Added(rows, front + [x], date, origin)
  {
    var before := rows + Added(rows, front, date, origin);
    var after := rows + Added(rows, front + [x], date, origin);
    assert forall a :: a in front + [x] <==> a in front || a == x;
    if HasKey(before, x, origin) {
      var r :| r in before && r.ipAddress == x && r.origin == origin;
      assert x in front || HasKey(rows, x, origin);
      assert after == before;
    } else {
      assert !HasKey(rows, x, origin) && x !in front;
      assert after == before + {Row(x, date, origin)};
    }
  }

  /** The insert loop adds one row for each address whose key was free,
      all stamped with `date` and `origin`; repeated addresses add nothing
      more. */
  lemma {:induction false} InsertAllAdds(rows: set<Row>, ips: seq<string>, date: Timestamp, origin: string)
    ensures InsertAll(rows, ips, date, origin) ==
      rows + set a | a in ips && !HasKey(rows, a, origin) :: Row(a, date, origin)
    decreases |ips|
  {
    if ips != [] {
      var front := ips[..|ips| - 1];
      var x := ips[|ips| - 1];
      InsertAllAdds(rows, front, date, origin);
      assert ips == front + [x];
      InsertAddsStep(rows, front, x, date, origin);
    }
  }

  /** Into a table that holds no row of `origin`, the insert loop puts
      exactly one row per distinct address, and nothing else for `origin`. */
  lemma InsertAllIntoCleared(rows: set<Row>, ips: seq<string>, date: Timestamp, origin: string)
    requires OriginRows(rows, origin) == {}
    ensures OriginRows(InsertAll(rows, ips, date, origin), origin) == set a | a in ips :: Row(a, date, origin)
  {
    InsertAllAdds(rows, ips, date, origin);
    forall r | r in rows ensures r.origin != origin {
      assert r.origin == origin ==> r in OriginRows(rows, origin);
    }
  }

  /** The table the poller writes to: the shared `node_data` relation. */
  class NodeDataTable {
    var rows: set<Row>

    /** The table's assumed unique key on (`ip_address`, `origin`), which
        the `ON CONFLICT` clause relies on; every statement of the poller
        keeps it. */
    ghost predicate Valid()
      reads this
    {
      KeysUnique(rows)
    }

    constructor (initial: set<Row>)
      requires KeysUnique(initial)
      ensures Valid() && rows == initial
    {
      rows := initial;
    }
  }
}
