/** The poller: one drop, collect and insert cycle against `node_data`,
    and a bounded run of such cycles. */
module NodeQuery {
  import opened Wrappers
  import opened Lines
  import opened StringOrder
  import opened Collection
  import opened NodeData

  /** The normalised address list `execute` inserts, or the exception it
      raises while collecting. */
  function Snapshot(stdout: string, decode: string -> Decoded): (r: Result<seq<string>, CollectError>)
    ensures r.Failure? <==> CollectAddresses(NonEmptyLines(stdout), decode).Failure?
    ensures r.Failure? ==> r == CollectAddresses(NonEmptyLines(stdout), decode)
    ensures r.Success? ==>
      && StrictlySorted(r.value)
      && forall a :: a in r.value <==> a in CollectAddresses(NonEmptyLines(stdout), decode).value
  {
    match CollectAddresses(NonEmptyLines(stdout), decode)
    case Failure(e) => Failure(e)
    case Success(ips) => Success(Normalize(ips))
  }

  /** The table after one cycle of host `hostname` at time `now`: its old
      rows deleted, then one row per collected address inserted, unless
      collecting raised. */
  function CycleRows(rows: set<Row>, hostname: string, now: Timestamp, stdout: string, decode: string -> Decoded): (r: set<Row>)
    ensures KeysUnique(rows) ==> KeysUnique(r)
    ensures forall x: Row :: x.origin != hostname ==> (x in r <==> x in rows)
    ensures forall x :: x in r && x.origin == hostname ==> x.date == now && Snapshot(stdout, decode).Success?
  {
    match Snapshot(stdout, decode)
    case Failure(_) => DeleteOrigin(rows, hostname)
    case Success(ips) => InsertAll(DeleteOrigin(rows, hostname), ips, now, hostname)
  }

  /** The table after a run of cycles, one per daemon output and time.
      A cycle whose collection raises is the last one: the exception is not
      caught, so the process ends after that cycle's drop. */
  function CyclesRows(rows: set<Row>, hostname: string, outputs: seq<string>, times: seq<Timestamp>, decode: string -> Decoded): (r: set<Row>)
    requires |outputs| == |times|
    ensures KeysUnique(rows) ==> KeysUnique(r)
    ensures forall x: Row :: x.origin != hostname ==> (x in r <==> x in rows)
    decreases |outputs|
  {
    if outputs == [] then rows
    else
      var after := CycleRows(rows, hostname, times[0], outputs[0], decode);
      if Snapshot(outputs[0], decode).Failure? then after
      else CyclesRows(after, hostname, outputs[1..], times[1..], decode)
  }

  /** The exception that ends a run of cycles, if any: that of the first
      output whose collection raises. */
  function FirstFailure(outputs: seq<string>, decode: string -> Decoded): (f: Option<CollectError>)
    ensures f.None? <==> forall i :: 0 <= i < |outputs| ==> Snapshot(outputs[i], decode).Success?
    decreases |outputs|
  {
    if outputs == [] then None
    else
      match Snapshot(outputs[0], decode)
      case Failure(e) => Some(e)
      case Success(_) => FirstFailure(outputs[1..], decode)
  }

  /** The (`ip_address`, `origin`) pairs of a table. */
  function KeyPairs(rows: set<Row>): set<(string, string)>
  {
    set r | r in rows :: (r.ipAddress, r.origin)
  }

  /** The snapshot is the sorted, duplicate-free list of exactly the
      addresses the lines name; it exists exactly when every line is a
      well-formed record. */
  lemma SnapshotSpec(stdout: string, decode: string -> Decoded)
    ensures Snapshot(stdout, decode).Success? <==>
      forall l :: l in NonEmptyLines(stdout) ==> WellFormed(decode(l))
    ensures Snapshot(stdout, decode).Success? ==>
      && StrictlySorted(Snapshot(stdout, decode).value)
      && forall a :: a in Snapshot(stdout, decode).value <==>
           exists l :: l in NonEmptyLines(stdout) && Names(decode(l), a)
  {
    var lines := NonEmptyLines(stdout);
    CollectAddressesSpec(lines, decode);
    if Snapshot(stdout, decode).Success? {
      var ips := CollectAddresses(lines, decode).value;
      forall a ensures a in Normalize(ips) <==> exists l :: l in lines && Names(decode(l), a) {
        if exists l :: l in lines && Names(decode(l), a) {
          var l :| l in lines && Names(decode(l), a);
          var i :| 0 <= i < |lines| && lines[i] == l;
        }
      }
    }
    forall l | l in lines && (forall i :: 0 <= i < |lines| ==> WellFormed(decode(lines[i])))
      ensures WellFormed(decode(l))
    {
      var i :| 0 <= i < |lines| && lines[i] == l;
    }
  }

  /** After a cycle the host's rows are exactly one row per snapshot
      address, stamped `now`, or none at all when collecting raised; every
      other host's rows are as before, and the uniqueness constraint holds. */
  lemma CycleReplacesSnapshot(rows: set<Row>, hostname: string, now: Timestamp, stdout: string, decode: string -> Decoded, other: string)
    requires other != hostname
    ensures Snapshot(stdout, decode).Failure? ==> OriginRows(CycleRows(rows, hostname, now, stdout, decode), hostname) == {}
    ensures Snapshot(stdout, decode).Success? ==>
      OriginRows(CycleRows(rows, hostname, now, stdout, decode), hostname) ==
        set a | a in Snapshot(stdout, decode).value :: Row(a, now, hostname)
    ensures OriginRows(CycleRows(rows, hostname, now, stdout, decode), other) == OriginRows(rows, other)
    ensures KeysUnique(rows) ==> KeysUnique(CycleRows(rows, hostname, now, stdout, decode))
  {
    var cleared := DeleteOrigin(rows, hostname);
    DeleteOriginIsolation(rows, hostname, other);
    if Snapshot(stdout, decode).Success? {
      InsertAllIntoCleared(cleared, Snapshot(stdout, decode).value, now, hostname);
      InsertAllFrame(cleared, Snapshot(stdout, decode).value, now, hostname, other);
    }
  }

  /** The insert loop adds only rows of its own origin, so deleting that
      origin afterwards undoes it. */
  lemma {:induction false} DeleteAfterInsertAll(rows: set<Row>, ips: seq<string>, date: Timestamp, origin: string)
    ensures DeleteOrigin(InsertAll(rows, ips, date, origin), origin) == DeleteOrigin(rows, origin)
  {
    InsertAllAdds(rows, ips, date, origin);
  }

  /** Repeating a cycle on the same daemon output gives what one cycle at
      the later time gives: the earlier cycle's rows for the host are
      replaced, everything else is unchanged. */
  lemma CycleRepeat(rows: set<Row>, hostname: string, t1: Timestamp, t2: Timestamp, stdout: string, decode: string -> Decoded)
    ensures CycleRows(CycleRows(rows, hostname, t1, stdout, decode), hostname, t2, stdout, decode) ==
      CycleRows(rows, hostname, t2, stdout, decode)
  {
    var once := CycleRows(rows, hostname, t1, stdout, decode);
    if Snapshot(stdout, decode).Success? {
      DeleteAfterInsertAll(DeleteOrigin(rows, hostname), Snapshot(stdout, decode).value, t1, hostname);
    }
    assert DeleteOrigin(DeleteOrigin(rows, hostname), hostname) == DeleteOrigin(rows, hostname);
    assert DeleteOrigin(once, hostname) == DeleteOrigin(rows, hostname);
  }

  /** Two cycles on the same output store the same (`ip_address`,
      `origin`) pairs, whatever their times. */
  lemma CycleKeyPairsIgnoreTime(rows: set<Row>, hostname: string, t1: Timestamp, t2: Timestamp, stdout: string, decode: string -> Decoded)
    ensures KeyPairs(CycleRows(rows, hostname, t1, stdout, decode)) == KeyPairs(CycleRows(rows, hostname, t2, stdout, decode))
  {
    if Snapshot(stdout, decode).Success? {
      var ips := Snapshot(stdout, decode).value;
      var cleared := DeleteOrigin(rows, hostname);
      InsertAllAdds(cleared, ips, t1, hostname);
      InsertAllAdds(cleared, ips, t2, hostname);
      var r1 := CycleRows(rows, hostname, t1, stdout, decode);
      var r2 := CycleRows(rows, hostname, t2, stdout, decode);
      forall p | p in KeyPairs(r1) ensures p in KeyPairs(r2) {
        var r :| r in r1 && p == (r.ipAddress, r.origin);
        if r !in cleared {
          assert Row(r.ipAddress, t2, hostname) in r2;
        }
      }
      forall p | p in KeyPairs(r2) ensures p in KeyPairs(r1) {
        var r :| r in r2 && p == (r.ipAddress, r.origin);
        if r !in cleared {
          assert Row(r.ipAddress, t1, hostname) in r1;
        }
      }
    }
  }

  /** In a run where every cycle collects successfully, the host's rows
      at the end are those its last cycle alone produces. */
  lemma {:induction false} LastCycleDecides(rows: set<Row>, hostname: string, outputs: seq<string>, times: seq<Timestamp>, decode: string -> Decoded)
    requires |outputs| == |times| && |outputs| > 0
    requires forall i :: 0 <= i < |outputs| ==> Snapshot(outputs[i], decode).Success?
    ensures var n := |outputs|;
      OriginRows(CyclesRows(rows, hostname, outputs, times, decode), hostname) ==
        OriginRows(CycleRows(rows, hostname, times[n - 1], outputs[n - 1], decode), hostname)
    decreases |outputs|
  {
    var n := |outputs|;
    if n > 1 {
      var after := CycleRows(rows, hostname, times[0], outputs[0], decode);
      assert Snapshot(outputs[0], decode).Success?;
      assert forall i :: 0 <= i < n - 1 ==> outputs[1..][i] == outputs[i + 1];
      LastCycleDecides(after, hostname, outputs[1..], times[1..], decode);
      assert outputs[1..][n - 2] == outputs[n - 1] && times[1..][n - 2] == times[n - 1];
      CycleSameOwnRows(after, rows, hostname, times[n - 1], outputs[n - 1], decode);
    }
  }

  /** The host's rows after a cycle do not depend on what the table held
      before it. */
  lemma CycleSameOwnRows(rows1: set<Row>, rows2: set<Row>, hostname: string, now: Timestamp, stdout: string, decode: string -> Decoded)
    ensures OriginRows(CycleRows(rows1, hostname, now, stdout, decode), hostname) ==
      OriginRows(CycleRows(rows2, hostname, now, stdout, decode), hostname)
  {
    CycleReplacesSnapshot(rows1, hostname, now, stdout, decode, hostname + "'");
    CycleReplacesSnapshot(rows2, hostname, now, stdout, decode, hostname + "'");
  }

  /** A run whose first collection succeeds fails as the rest of it does. */
  lemma FirstFailureTail(outputs: seq<string>, decode: string -> Decoded)
    requires |outputs| > 0 && Snapshot(outputs[0], decode).Success?
    ensures FirstFailure(outputs, decode) == FirstFailure(outputs[1..], decode)
  {
  }

  /** The first output whose collection raises gives the run's exception. */
  lemma {:induction false} FirstFailureAt(outputs: seq<string>, decode: string -> Decoded, k: nat)
    requires k < |outputs|
    requires Snapshot(outputs[k], decode).Failure?
    requires forall j :: 0 <= j < k ==> Snapshot(outputs[j], decode).Success?
    ensures FirstFailure(outputs, decode) == Some(Snapshot(outputs[k], decode).error)
    decreases k
  {
    if k > 0 {
      var rest := outputs[1..];
      FirstFailureTail(outputs, decode);
      forall j | 0 <= j < k - 1 ensures Snapshot(rest[j], decode).Success? {
        assert rest[j] == outputs[j + 1];
      }
      assert rest[k - 1] == outputs[k];
      FirstFailureAt(rest, decode, k - 1);
    }
  }

  /** A run whose first collection succeeds goes on with the rest. */
  lemma CyclesRowsTail(rows: set<Row>, hostname: string, outputs: seq<string>, times: seq<Timestamp>, decode: string -> Decoded)
    requires |outputs| == |times| && |outputs| > 0
    requires Snapshot(outputs[0], decode).Success?
    ensures CyclesRows(rows, hostname, outputs, times, decode) ==
      CyclesRows(CycleRows(rows, hostname, times[0], outputs[0], decode), hostname, outputs[1..], times[1..], decode)
  {
  }

  /** The head and tail of a concatenation with a non-empty front. */
  lemma ConcatTail<T>(a: seq<T>, b: seq<T>)
    requires a != []
    ensures (a + b)[0] == a[0] && (a + b)[1..] == a[1..] + b
  {
  }

  /** A sequence cut before index k, and its prefix through k. */
  lemma SplitAt<T>(s: seq<T>, k: nat)
    requires k < |s|
    ensures s == s[..k] + s[k..] && s[k..][0] == s[k]
    ensures s[..k + 1] == s[..k] + [s[k]]
  {
  }

  /** A run whose first part collects successfully throughout is that
      part followed by the rest. */
  lemma {:induction false} RunSplit(rows: set<Row>, hostname: string, o1: seq<string>, t1: seq<Timestamp>, o2: seq<string>, t2: seq<Timestamp>, decode: string -> Decoded)
    requires |o1| == |t1| && |o2| == |t2|
    requires forall j :: 0 <= j < |o1| ==> Snapshot(o1[j], decode).Success?
    ensures CyclesRows(rows, hostname, o1 + o2, t1 + t2, decode) ==
      CyclesRows(CyclesRows(rows, hostname, o1, t1, decode), hostname, o2, t2, decode)
    decreases |o1|
  {
    if o1 == [] {
      assert o1 + o2 == o2 && t1 + t2 == t2;
    } else {
      var after := CycleRows(rows, hostname, t1[0], o1[0], decode);
      assert Snapshot(o1[0], decode).Success?;
      forall j | 0 <= j < |o1| - 1 ensures Snapshot(o1[1..][j], decode).Success? {
        assert o1[1..][j] == o1[j + 1];
      }
      RunSplit(after, hostname, o1[1..], t1[1..], o2, t2, decode);
      ConcatTail(o1, o2);
      ConcatTail(t1, t2);
      CyclesRowsTail(rows, hostname, o1 + o2, t1 + t2, decode);
      CyclesRowsTail(rows, hostname, o1, t1, decode);
    }
  }

  /** The first cycle whose collection raises ends the run: its exception
      is the run's, the host is left with no rows at all, and the outputs
      after it have no effect. */
  lemma FailureEndsRun(rows: set<Row>, hostname: string, outputs: seq<string>, times: seq<Timestamp>, decode: string -> Decoded, k: nat)
    requires |outputs| == |times| && k < |outputs|
    requires Snapshot(outputs[k], decode).Failure?
    requires forall j :: 0 <= j < k ==> Snapshot(outputs[j], decode).Success?
    ensures FirstFailure(outputs, decode) == Some(Snapshot(outputs[k], decode).error)
    ensures OriginRows(CyclesRows(rows, hostname, outputs, times, decode), hostname) == {}
    ensures CyclesRows(rows, hostname, outputs, times, decode) ==
      CyclesRows(rows, hostname, outputs[..k + 1], times[..k + 1], decode)
  {
    FirstFailureAt(outputs, decode, k);
    var o1, t1 := outputs[..k], times[..k];
    forall j | 0 <= j < k ensures Snapshot(o1[j], decode).Success? {
      assert o1[j] == outputs[j];
    }
    var mid := CyclesRows(rows, hostname, o1, t1, decode);
    RunSplit(rows, hostname, o1, t1, outputs[k..], times[k..], decode);
    RunSplit(rows, hostname, o1, t1, [outputs[k]], [times[k]], decode);
    SplitAt(outputs, k);
    SplitAt(times, k);
    CycleReplacesSnapshot(mid, hostname, times[k], outputs[k], decode, hostname + "'");
  }

  /** A peer entry that repeats its record's own `node_ip_addr`, added on
      any one line of the output, leaves the cycle's snapshot unchanged. */
  lemma SelfPeerLeavesSnapshot(stdout: string, decode: string -> Decoded, decode': string -> Decoded, line: string, ip: string, ps: seq<Peer>, k: nat)
    requires k <= |ps|
    requires decode(line) == Parsed(Record(Some(ip), Some(ps)))
    requires decode'(line) == Parsed(Record(Some(ip), Some(ps[..k] + [Peer(Some(ip))] + ps[k..])))
    requires forall l :: l != line ==> decode'(l) == decode(l)
    ensures Snapshot(stdout, decode) == Snapshot(stdout, decode')
  {
    var lines := NonEmptyLines(stdout);
    SelfPeerIsRedundant(line, ip, ps, k);
    forall i | 0 <= i < |lines|
      ensures SameAddresses(RecordAddresses(lines[i], decode(lines[i])), RecordAddresses(lines[i], decode'(lines[i])))
    {
      if lines[i] != line {
        assert decode'(lines[i]) == decode(lines[i]);
      }
    }
    assert LinesAgree(lines, decode, decode');
    CollectAgree(lines, decode, decode');
    var c1, c2 := CollectAddresses(lines, decode), CollectAddresses(lines, decode');
    if c1.Success? && c2.Success? {
      NormalizeCanonical(c1.value, c2.value);
    }
  }

  /** The poller process. `hostname` is the `HOSTNAME` setting; `table`
      stands for the database connection and the table behind it. */
  class MinaNodeQuery {
    const hostname: string
    const table: NodeDataTable
    var currentTime: Timestamp

    /** The source sets `current_time` only inside the loop, before it is
        first read; 0 stands for "not yet set". */
    constructor (hostname: string, table: NodeDataTable)
      ensures this.hostname == hostname && this.table == table && currentTime == 0
    {
      this.hostname := hostname;
      this.table := table;
      currentTime := 0;
    }

    /** Deletes every row whose origin is this host. */
    method DropHostEntries()
      requires table.Valid()
      modifies table
      ensures table.Valid()
      ensures table.rows == DeleteOrigin(old(table.rows), hostname)
    {
      table.rows := DeleteOrigin(table.rows, hostname);
    }

    /** Inserts one row, doing nothing when its key is already present. */
    method InsertIpAddress(data: Row)
      requires table.Valid()
      modifies table
      ensures table.Valid()
      ensures table.rows == Insert(old(table.rows), data)
    {
      table.rows := Insert(table.rows, data);
    }

    /** Splits the daemon output into lines, collects and normalises the
      addresses, then inserts one row per address with the current time;
      a collection error leaves the table untouched. */
    method Execute(stdout: string, decode: string -> Decoded) returns (outcome: Result<seq<string>, CollectError>)
      requires table.Valid()
      modifies table
      ensures table.Valid()
      ensures outcome == Snapshot(stdout, decode)
      ensures outcome.Failure? ==> table.rows == old(table.rows)
      ensures outcome.Success? ==> table.rows == InsertAll(old(table.rows), outcome.value, currentTime, hostname)
    {
      var result := NonEmptyLines(stdout);
      var collected := Collect(result, decode);
      if collected.Failure? {
        return Failure(collected.error);
      }
      var ipList := Normalize(collected.value);
      var i := 0;
      while i < |ipList|
        invariant 0 <= i <= |ipList|
        invariant table.Valid()
        invariant table.rows == InsertAll(old(table.rows), ipList[..i], currentTime, hostname)
      {
        assert ipList[..i + 1][..i] == ipList[..i];
        InsertIpAddress(Row(ipList[i], currentTime, hostname));
        i := i + 1;
      }
      assert ipList[..i] == ipList;
      outcome := Success(ipList);
    }

    /** One pass of the polling loop: drop this host's rows, take the time,
      collect and insert. */
    method RunCycle(stdout: string, decode: string -> Decoded, now: Timestamp) returns (outcome: Result<seq<string>, CollectError>)
      requires table.Valid()
      modifies this, table
      ensures table.Valid()
      ensures currentTime == now
      ensures outcome == Snapshot(stdout, decode)
      ensures table.rows == CycleRows(old(table.rows), hostname, now, stdout, decode)
    {
      DropHostEntries();
      currentTime := now;
      outcome := Execute(stdout, decode);
    }

    /** The polling loop run for as many cycles as there are daemon outputs,
      the i-th cycle seeing `outputs[i]` at time `times[i]`. The first
      cycle whose collection raises ends the run with that exception, as
      the uncaught exception ends the process. */
    method RunCycles(outputs: seq<string>, times: seq<Timestamp>, decode: string -> Decoded) returns (failed: Option<CollectError>)
      requires |outputs| == |times|
      requires table.Valid()
      modifies this, table
      ensures table.Valid()
      ensures failed == FirstFailure(outputs, decode)
      ensures table.rows == CyclesRows(old(table.rows), hostname, outputs, times, decode)
    {
      var i := 0;
      while i < |outputs|
        invariant 0 <= i <= |outputs|
        invariant table.Valid()
        invariant CyclesRows(table.rows, hostname, outputs[i..], times[i..], decode) ==
          CyclesRows(old(table.rows), hostname, outputs, times, decode)
        invariant FirstFailure(outputs[i..], decode) == FirstFailure(outputs, decode)
      {
        assert outputs[i..][0] == outputs[i] && times[i..][0] == times[i];
        assert outputs[i..][1..] == outputs[i + 1..] && times[i..][1..] == times[i + 1..];
        var outcome := RunCycle(outputs[i], decode, times[i]);
        if outcome.Failure? {
          return Some(outcome.error);
        }
        i := i + 1;
      }
      failed := None;
    }
  }
}
