# Mina node query: a Dafny model of the collect, dedup and replace cycle

`MinaNodeQuery.py` polls a Mina daemon for its status
(`mina advanced node-status -daemon-peers`), one JSON record per line, and
keeps a per-host snapshot of the addresses it learns in the shared
PostgreSQL table `node_data(ip_address, date, origin)`. Each pass of its
polling loop deletes the rows whose `origin` is this host, reads the time,
runs the status command, collects every record's `node_ip_addr` and every
peer's `host`, sorts and deduplicates them, and inserts one row per address
with `ON CONFLICT DO NOTHING`.

This project models that cycle:

- `lines.dfy` (module `Lines`): `filter(None, text.split('\n'))` as the
  functions `Split`, `RemoveEmpty` and `NonEmptyLines`, with `Join` as the
  inverse of `Split`.
- `string_order.dfy` (module `StringOrder`): Python's string order `Less`
  (code-point lexicographic) and `sorted(list(set(xs)))` as `Normalize`.
- `collection.dfy` (module `Collection`): the decoded records as datatypes
  (`Record`, `Peer`, `Decoded`), the exceptions collection can raise
  (`CollectError`), the nested loops of `execute` as the methods `Collect`
  (outer loop), `CollectLine` (its body) and `AppendPeerHosts` (inner
  loop), proved equal to the recursive definition `CollectAddresses`.
- `node_data.dfy` (module `NodeData`): the table as a set of `Row`s, with
  the two statements as functions `DeleteOrigin` and `Insert` (on-conflict
  key assumed to be `ip_address` and `origin`), the insert loop `InsertAll`, and the
  class `NodeDataTable` that holds the rows.
- `node_query.dfy` (module `NodeQuery`): the class `MinaNodeQuery` with
  `DropHostEntries`, `InsertIpAddress`, `Execute`, one loop pass
  `RunCycle` and a bounded run `RunCycles`, each proved against the
  functions `Snapshot`, `CycleRows` and `CyclesRows`.

Inputs the source obtains from its environment are parameters: the
daemon's decoded standard output is a `string`, `json.loads` is a function
`decode: string -> Decoded`, `datetime.now()` is a `Timestamp` argument,
and `HOSTNAME` is the `hostname` field.

What the code does, and what it does not do, as the model follows it:

- Malformed lines are not skipped. `execute` has no exception handling, so
  a line that does not decode, a record without `node_ip_addr`
  (`KeyError('node_ip_addr')`) or `peers` (`KeyError('peers')`), or a peer
  without `host` (`KeyError('host')`) aborts the whole collection and, uncaught in
  `__init__`, ends the process. The model returns `Failure` from `Collect`,
  `Execute` and `RunCycle`; since the drop already ran, that host's rows
  are gone after a failing cycle (`CycleReplacesSnapshot`). A run of cycles
  stops at the first failing one, returns its exception, and leaves the
  host with no rows; later outputs have no effect (`CyclesRows`,
  `RunCycles`, `FailureEndsRun`).
- Lines are split on `'\n'` only; `'\r\n'` is not treated as a line
  end, so a carriage return stays part of the line handed to `decode`.
- The delete predicate is built by string interpolation, not passed as a
  bound parameter; the model treats it as plain equality on `origin`.
- The drop runs at the start of every cycle, inside the loop.

## Model

| member | source | states |
|---|---|---|
| Lines.Split | MinaNodeQuery.py:62 | the pieces of `split('\n')`: at least one, none containing a newline |
| Lines.JoinSplit | MinaNodeQuery.py:62 | joining the pieces with newlines gives the output back: nothing is lost by splitting |
| Lines.SplitJoin | MinaNodeQuery.py:62 | any cut of a text into newline-free pieces is the split, so each piece is a maximal newline-free segment |
| Lines.RemoveEmpty | MinaNodeQuery.py:62 | `filter(None, …)` keeps exactly the non-empty pieces and no empty one |
| Lines.RemoveEmptyAppend | MinaNodeQuery.py:62 | `filter(None, …)` works piece by piece: it keeps a non-empty piece, drops an empty one, and keeps the order and repetitions of what it keeps |
| Lines.NonEmptyLines | MinaNodeQuery.py:62 | every line handed to the collector is non-empty and newline-free |
| Lines.NonEmptyLinesShape | MinaNodeQuery.py:62 | the lines are exactly the non-empty pieces of the split, and in order they spell the output without its newlines |
| Lines.NonEmptyLinesAppend | MinaNodeQuery.py:62 | the lines of two texts joined by a newline are the first text's lines followed by the second's: lines come in output order, each as often as it occurs |
| Lines.NonEmptyLinesSingle | MinaNodeQuery.py:62 | a newline-free text is one line, or no line when it is empty |
| StringOrder.Less | MinaNodeQuery.py:75 | the order `sorted` uses on strings: never between equal strings, and a proper prefix comes first |
| StringOrder.LessIrreflexive | MinaNodeQuery.py:75 | no string sorts before itself |
| StringOrder.LessTransitive | MinaNodeQuery.py:75 | the string order is transitive |
| StringOrder.LessTotal | MinaNodeQuery.py:75 | any two distinct strings are ordered one way or the other |
| StringOrder.LessAsymmetric | MinaNodeQuery.py:75 | two strings are never each before the other |
| StringOrder.StrictlySortedDistinct | MinaNodeQuery.py:75 | a strictly ascending list has no duplicates |
| StringOrder.InsertSorted | MinaNodeQuery.py:75 | inserting into a strictly ascending list keeps it strictly ascending and adds exactly the new element |
| StringOrder.Normalize | MinaNodeQuery.py:75 | `sorted(list(set(xs)))` is strictly ascending and holds exactly the elements of `xs` |
| StringOrder.SortedUnique | MinaNodeQuery.py:75 | two strictly ascending lists with the same elements are equal |
| StringOrder.NormalizeCanonical | MinaNodeQuery.py:75 | the normalised list depends only on which addresses occur, not on order or repetition |
| StringOrder.NormalizeSorted | MinaNodeQuery.py:75 | normalising a strictly ascending list returns it unchanged |
| Collection.PeerHosts | MinaNodeQuery.py:71-72 | the peers loop succeeds exactly when every peer has `host`, then yields each host in order; otherwise `KeyError('host')` |
| Collection.RecordAddresses | MinaNodeQuery.py:67-72 | one line succeeds exactly when its record is well formed, then yields its `node_ip_addr` first and each peer's `host` after it in peer order; otherwise it raises, checked in source order, the decode error for a line that does not decode, `KeyError('node_ip_addr')`, `KeyError('peers')`, or `KeyError('host')` |
| Collection.RecordAddressesSpec | MinaNodeQuery.py:67-72 | one line succeeds exactly when it decodes to a record with `node_ip_addr`, `peers` and a `host` in every peer, and then yields exactly the addresses the record names |
| Collection.CollectAddresses | MinaNodeQuery.py:66-72 | the loop over the lines succeeds exactly when every line's record is well formed |
| Collection.FailureIsFinal | MinaNodeQuery.py:66-72 | once a prefix of the lines raises, the whole collection raises the same error |
| Collection.CollectAddressesSpec | MinaNodeQuery.py:66-72 | collection succeeds exactly when every line is well formed, and then an address is collected exactly when some record names it as its own address or a peer's host |
| Collection.CollectFailsAtFirstBadLine | MinaNodeQuery.py:66-72 | a failing collection raises the error of the first line that is not well formed, all earlier lines being well formed |
| Collection.CollectFromFewerLines | MinaNodeQuery.py:66-72 | collecting from lines all present in a successful collection succeeds and collects no new address |
| Collection.NormalizedIgnoresLineOrder | MinaNodeQuery.py:66-75 | reordering or repeating lines changes neither whether collection succeeds nor the normalised list |
| Collection.SelfPeerIsRedundant | MinaNodeQuery.py:67-75 | adding a peer that repeats the record's own `node_ip_addr`, at any position, keeps the record exactly as well formed, leaves the set of addresses it names unchanged, raises the same error or yields the same addresses, and gives the same normalised list |
| Collection.CollectAgree | MinaNodeQuery.py:66-72 | two decoders that give every line the same error, or the same addresses, give the whole collection the same error or the same addresses |
| Collection.AppendPeerHosts | MinaNodeQuery.py:71-72 | the inner loop appends every peer's host to `ip_list` in order, or raises `KeyError('host')` |
| Collection.CollectLast | MinaNodeQuery.py:66-72 | the last line's outcome follows that of the lines before it: an earlier exception wins, otherwise its error or its addresses are appended |
| Collection.CollectStep | MinaNodeQuery.py:66-72 | after a successful prefix, the next line's exception is the whole collection's, or its addresses extend the list |
| Collection.CollectLine | MinaNodeQuery.py:67-72 | the loop body for one line appends its own address and its peers' hosts to `ip_list`, or raises that line's error |
| Collection.Collect | MinaNodeQuery.py:63-72 | the nested loops build exactly `CollectAddresses`: the records' addresses in line order, or the first error raised |
| NodeData.DeleteOrigin | MinaNodeQuery.py:112-119 | the delete keeps the uniqueness constraint |
| NodeData.Insert | MinaNodeQuery.py:102-110 | after the insert the key is present, at most the new row was added, and the uniqueness constraint still holds |
| NodeData.InsertAll | MinaNodeQuery.py:80-83 | the insert loop keeps the uniqueness constraint and every old row; every row it adds is `(a, date, origin)` for one of its addresses `a`; afterwards every address has a row for `origin` |
| NodeData.DeleteOriginIsolation | MinaNodeQuery.py:112-119 | the delete removes exactly the rows whose origin is the host; other origins' rows are unchanged |
| NodeData.InsertIdempotent | MinaNodeQuery.py:102-110 | an insert whose key is present leaves the table unchanged, otherwise adds exactly that row; inserting twice is inserting once |
| NodeData.InsertAllFrame | MinaNodeQuery.py:80-83 | the insert loop keeps the uniqueness constraint and leaves other origins' rows unchanged |
| NodeData.InsertAllAdds | MinaNodeQuery.py:80-83 | the insert loop adds exactly one row `(a, date, origin)` per address `a` whose key was free |
| NodeData.InsertAddsStep | MinaNodeQuery.py:80-83 | one more loop iteration adds its row exactly when neither the table nor an earlier address holds its key |
| NodeData.InsertAllIntoCleared | MinaNodeQuery.py:80-83 | into a table holding no row of the origin, the insert loop makes that origin's rows exactly one per address |
| NodeData.NodeDataTable.constructor | MinaNodeQuery.py:36-42 | the connected table starts with the rows it holds, which meet the uniqueness constraint; `Valid()` is that constraint, carried through every statement |
| NodeQuery.Snapshot | MinaNodeQuery.py:62-75 | the cycle's address list raises exactly when collection raises, with the same error; otherwise it is strictly ascending and holds exactly the collected addresses |
| NodeQuery.SnapshotSpec | MinaNodeQuery.py:62-75 | the cycle's address list exists exactly when every non-empty line is a well-formed record, and is then strictly ascending and holds exactly the addresses the records name |
| NodeQuery.SelfPeerLeavesSnapshot | MinaNodeQuery.py:62-75 | adding, on any one line of the output, a peer that repeats that record's own `node_ip_addr` leaves the cycle's result unchanged |
| NodeQuery.CycleRows | MinaNodeQuery.py:45-51 | one cycle keeps the uniqueness constraint and every other origin's rows, and each row of the host afterwards carries this cycle's time and exists only if collection succeeded |
| NodeQuery.CycleReplacesSnapshot | MinaNodeQuery.py:45-51 | after a cycle the host's rows are exactly `(a, now, host)` for the snapshot addresses, or none when collection raised; other origins' rows are untouched; the uniqueness constraint holds |
| NodeQuery.CycleSameOwnRows | MinaNodeQuery.py:45-51 | the host's rows after a cycle do not depend on what the table held before it |
| NodeQuery.DeleteAfterInsertAll | MinaNodeQuery.py:80-83 | the insert loop only adds rows of its own origin, so the next delete removes all of them |
| NodeQuery.CycleRepeat | MinaNodeQuery.py:45-51 | running the cycle twice on the same output leaves the table as one cycle at the later time does |
| NodeQuery.CycleKeyPairsIgnoreTime | MinaNodeQuery.py:45-51 | cycles on the same output store the same `(ip_address, origin)` pairs whatever their time |
| NodeQuery.CyclesRows | MinaNodeQuery.py:45-55 | a run of cycles, which stops after the first cycle whose collection raises, keeps the uniqueness constraint and every other origin's rows |
| NodeQuery.FirstFailure | MinaNodeQuery.py:45-51 | a run ends without an exception exactly when every cycle's collection succeeds |
| NodeQuery.FirstFailureAt | MinaNodeQuery.py:45-51 | the exception that ends a run is that of the first cycle whose collection raises |
| NodeQuery.CyclesRowsTail | MinaNodeQuery.py:45-51 | after a cycle whose collection succeeds the loop goes on with the next output |
| NodeQuery.RunSplit | MinaNodeQuery.py:45-51 | a run whose first part collects successfully throughout is that part's cycles followed by the rest |
| NodeQuery.FailureEndsRun | MinaNodeQuery.py:45-51 | the first failing cycle ends the run with its exception, leaves the host with no rows, and later outputs have no effect |
| NodeQuery.LastCycleDecides | MinaNodeQuery.py:45-55 | in a run where every cycle collects successfully, the host's rows at the end are those its last cycle alone produces |
| NodeQuery.MinaNodeQuery.constructor | MinaNodeQuery.py:22-26 | the poller holds the host name and the table it is given; `current_time` does not exist until line 50 sets it, and the model starts it at the placeholder 0, which no member reads before `RunCycle` sets it |
| NodeQuery.MinaNodeQuery.DropHostEntries | MinaNodeQuery.py:112-119 | the table becomes its rows minus those of this host, and keeps the uniqueness constraint |
| NodeQuery.MinaNodeQuery.InsertIpAddress | MinaNodeQuery.py:102-110 | the table becomes the on-conflict-do-nothing insert of the row, and keeps the uniqueness constraint |
| NodeQuery.MinaNodeQuery.Execute | MinaNodeQuery.py:57-85 | returns the normalised snapshot or the collection error; on error the table is untouched, otherwise one row per address is inserted with the current time and host |
| NodeQuery.MinaNodeQuery.RunCycle | MinaNodeQuery.py:45-51 | one loop pass sets the current time and leaves the table as `CycleRows` of its old rows |
| NodeQuery.MinaNodeQuery.RunCycles | MinaNodeQuery.py:45-55 | a bounded run of loop passes applies the cycles in order, stops at the first one whose collection raises and returns that exception, or returns none when every cycle succeeds |

## Left out

- Running the status command (`subprocess.check_output` and the shell
  string join, line 61) is process I/O: the decoded output is an input
  string. A non-zero exit of the command (`CalledProcessError`) is not
  modelled; like a collection error it would end the process after the
  drop.
- UTF-8 decoding of the command output: the model starts from the decoded
  text. Output that is not valid UTF-8 raises `UnicodeDecodeError` at line
  62, after the drop, and ends the process; this is not modelled.
- `json.loads` is a library parser: it is the parameter `decode`, and
  `Malformed` stands for a line it rejects. JSON values of other shapes lie
  outside the `Record` datatype and are not modelled: a record that is not
  an object, a `peers` value that is a string, an object or a number (an
  empty string or object is iterated without error, other values raise),
  `"peers": null` and peer entries that are not objects (such as
  `"peers": ["1.2.3.4"]`), which raise `TypeError` at lines 71-72 and end
  the process, and addresses that are numbers or `null` (these pass `set`, pass
  `sorted` as long as all collected addresses can be compared with each
  other, and reach the insert).
- The table definition is not part of the code: line 109 gives
  `ON CONFLICT` no target and no schema appears in the file. The model
  assumes a unique key on (`ip_address`, `origin`), which `Insert` and
  `Valid()` rely on.
- The database connection, cursor, autocommit setting and SQL engine
  (lines 87-100, 110, 119): replaced by the set of rows in
  `NodeDataTable`. A failed statement, and quoting or injection through the
  interpolated host name in the delete, are SQL-engine behaviour.
- The `.env` loading and `os.getenv` configuration, the choice of docker or
  direct command (lines 24-33), logging (lines 13-15 and the `logging`
  calls), and `time.sleep` (line 55): configuration and I/O. An unset
  `HOSTNAME` (Python `None`) is not modelled; `hostname` is always a string.
  An unset or non-integer `SLEEP_TIME` makes `int(self.sleep_time)` raise
  at line 55 after the first successful cycle and end the process;
  `RunCycles` assumes the sleep succeeds and goes on to the next cycle.
- The unbounded `while True` loop: modelled as a bounded run of cycles
  (`RunCycles`), since a non-terminating loop cannot be given a final
  state. The run ends early at the first cycle whose collection raises,
  as the process does.
- Concurrent pollers of other hosts writing the same table: only the
  sequential origin-isolation property is modelled (rows of another origin
  are untouched by this host's statements).
