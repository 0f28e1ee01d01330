/** Address collection: the nested loops of `execute` that turn the daemon's
    lines into `ip_list`, and the properties of the collected list. */
module Collection {
  import opened Wrappers
  import opened StringOrder

  /** One entry of a record's `peers` list; only its `host` key is read,
      and it may be missing. Other keys are ignored. */
  datatype Peer = Peer(host: Option<string>)

  /** One decoded status line; either key may be missing. */
  datatype Record = Record(nodeIpAddr: Option<string>, peers: Option<seq<Peer>>)

  /** What `json.loads` makes of one line: an object, or a decoding error. */
  datatype Decoded = Malformed | Parsed(record: Record)

  /** Why collecting fails: the exception `execute` lets escape. */
  datatype CollectError = DecodeFailed(line: string) | MissingKey(key: string)

  /** A record `execute` reads without raising: it has `node_ip_addr` and
      `peers`, and every peer has `host`. */
  predicate WellFormed(d: Decoded)
  {
    && d.Parsed?
    && d.record.nodeIpAddr.Some?
    && d.record.peers.Some?
    && forall p :: p in d.record.peers.value ==> p.host.Some?
  }

  /** Address `a` is named by the decoded line `d`: as its `node_ip_addr`
      or as the `host` of one of its peers. */
  predicate Names(d: Decoded, a: string)
  {
    && d.Parsed?
    && (|| d.record.nodeIpAddr == Some(a)
        || (d.record.peers.Some? && exists p :: p in d.record.peers.value && p.host == Some(a)))
  }

  /** The inner loop over `node_data['peers']`: each peer's host in order,
      or `KeyError('host')` at the first peer without one. */
  function PeerHosts(peers: seq<Peer>): (r: Result<seq<string>, CollectError>)
    ensures r.Success? <==> forall p :: p in peers ==> p.host.Some?
    ensures r.Failure? ==> r.error == MissingKey("host")
    ensures r.Success? ==>
      (&& |r.value| == |peers|
       && forall i :: 0 <= i < |peers| ==> r.value[i] == peers[i].host.value)
    decreases |peers|
  {
    if peers == [] then Success([])
    else
      var front := peers[..|peers| - 1];
      assert forall p :: p in peers <==> p in front || p == peers[|peers| - 1];
      match PeerHosts(front)
      case Failure(e) => Failure(e)
      case Success(hs) =>
        match peers[|peers| - 1].host
        case None => Failure(MissingKey("host"))
        case Some(h) => Success(hs + [h])
  }

  /** What one decoded line adds to `ip_list`: its own address, then its
      peers' hosts; or the exception its processing raises. */
  function RecordAddresses(line: string, d: Decoded): (r: Result<seq<string>, CollectError>)
    ensures r.Success? <==> WellFormed(d)
    ensures d.Malformed? ==> r == Failure(DecodeFailed(line))
    ensures d.Parsed? && d.record.nodeIpAddr.None? ==> r == Failure(MissingKey("node_ip_addr"))
    ensures d.Parsed? && d.record.nodeIpAddr.Some? && d.record.peers.None? ==> r == Failure(MissingKey("peers"))
    ensures d.Parsed? && d.record.nodeIpAddr.Some? && d.record.peers.Some? && r.Failure? ==>
      r == Failure(MissingKey("host"))
    ensures r.Success? ==>
      var peers := d.record.peers.value;
      && |r.value| == 1 + |peers|
      && r.value[0] == d.record.nodeIpAddr.value
      && forall i :: 0 <= i < |peers| ==> r.value[i + 1] == peers[i].host.value
  {
    match d
    case Malformed => Failure(DecodeFailed(line))
    case Parsed(Record(ip, peers)) =>
      match ip
      case None => Failure(MissingKey("node_ip_addr"))
      case Some(a) =>
        match peers
        case None => Failure(MissingKey("peers"))
        case Some(ps) =>
          match PeerHosts(ps)
          case Failure(e) => Failure(e)
          case Success(hs) => Success([a] + hs)
  }

  /** `ip_list` after the outer loop over all lines, or the first exception. */
  function CollectAddresses(lines: seq<string>, decode: string -> Decoded): (r: Result<seq<string>, CollectError>)
    ensures r.Success? <==> forall i :: 0 <= i < |lines| ==> WellFormed(decode(lines[i]))
    decreases |lines|
  {
    if lines == [] then Success([])
    else
      var last := lines[|lines| - 1];
      match CollectAddresses(lines[..|lines| - 1], decode)
      case Failure(e) => Failure(e)
      case Success(acc) =>
        match RecordAddresses(last, decode(last))
        case Failure(e) => Failure(e)
        case Success(xs) => Success(acc + xs)
  }

  /** One line succeeds exactly when it is well formed, and then its
      addresses are exactly those it names. */
  lemma RecordAddressesSpec(line: string, d: Decoded)
    ensures RecordAddresses(line, d).Success? <==> WellFormed(d)
    ensures RecordAddresses(line, d).Success? ==>
      forall a :: a in RecordAddresses(line, d).value <==> Names(d, a)
  {
    if WellFormed(d) {
      var ps := d.record.peers.value;
      var hs := PeerHosts(ps).value;
      forall a ensures a in [d.record.nodeIpAddr.value] + hs <==> Names(d, a) {
        if a in hs {
          var i :| 0 <= i < |hs| && hs[i] == a;
          assert ps[i] in ps && ps[i].host == Some(a);
        }
        if exists p :: p in ps && p.host == Some(a) {
          var p :| p in ps && p.host == Some(a);
          var i :| 0 <= i < |ps| && ps[i] == p;
          assert hs[i] == a;
        }
      }
    }
  }

  /** Once a prefix of the lines fails, the whole collection fails with the
      same error: nothing after the failing line is looked at. */
  lemma {:induction false} FailureIsFinal(lines: seq<string>, decode: string -> Decoded, k: nat)
    requires k <= |lines|
    requires CollectAddresses(lines[..k], decode).Failure?
    ensures CollectAddresses(lines, decode) == CollectAddresses(lines[..k], decode)
    decreases |lines| - k
  {
    if k < |lines| {
      var n := |lines|;
      assert lines[..n - 1][..k] == lines[..k];
      FailureIsFinal(lines[..n - 1], decode, k);
      assert lines == lines[..n];
    } else {
      assert lines[..k] == lines;
    }
  }

  /** Collection succeeds exactly when every line is well formed, and then
      an address is collected exactly when some line names it. */
  lemma {:induction false} CollectAddressesSpec(lines: seq<string>, decode: string -> Decoded)
    ensures CollectAddresses(lines, decode).Success? <==>
      forall i :: 0 <= i < |lines| ==> WellFormed(decode(lines[i]))
    ensures CollectAddresses(lines, decode).Success? ==>
      forall a :: a in CollectAddresses(lines, decode).value <==>
        exists i :: 0 <= i < |lines| && Names(decode(lines[i]), a)
    decreases |lines|
  {
    if lines != [] {
      var n := |lines|;
      var front := lines[..n - 1];
      var last := lines[n - 1];
      CollectAddressesSpec(front, decode);
      RecordAddressesSpec(last, decode(last));
      assert forall i :: 0 <= i < n - 1 ==> front[i] == lines[i];
      if CollectAddresses(lines, decode).Success? {
        var acc := CollectAddresses(front, decode).value;
        var xs := RecordAddresses(last, decode(last)).value;
        forall a ensures a in acc + xs <==> exists i :: 0 <= i < n && Names(decode(lines[i]), a) {
          if exists i :: 0 <= i < n && Names(decode(lines[i]), a) {
            var i :| 0 <= i < n && Names(decode(lines[i]), a);
            if i < n - 1 { assert Names(decode(front[i]), a); }
          }
        }
      }
    }
  }

  /** If collection fails, the error is the one raised by the first line
      that is not well formed. */
  lemma {:induction false} CollectFailsAtFirstBadLine(lines: seq<string>, decode: string -> Decoded)
    requires CollectAddresses(lines, decode).Failure?
    ensures exists k ::
      && 0 <= k < |lines|
      && !WellFormed(decode(lines[k]))
      && (forall i :: 0 <= i < k ==> WellFormed(decode(lines[i])))
      && CollectAddresses(lines, decode).error == RecordAddresses(lines[k], decode(lines[k])).error
    decreases |lines|
  {
    var n := |lines|;
    var front := lines[..n - 1];
    CollectLast(lines, decode);
    FrontIndex(lines);
    if CollectAddresses(front, decode).Failure? {
      CollectFailsAtFirstBadLine(front, decode);
      var k :| 0 <= k < |front| && !WellFormed(decode(front[k])) &&
        (forall i :: 0 <= i < k ==> WellFormed(decode(front[i]))) &&
        CollectAddresses(front, decode).error == RecordAddresses(front[k], decode(front[k])).error;
      assert lines[k] == front[k];
    } else {
      assert !WellFormed(decode(lines[n - 1]));
    }
  }

  /** The front of a non-empty sequence holds its elements before the last. */
  lemma FrontIndex<T>(s: seq<T>)
    requires s != []
    ensures |s[..|s| - 1]| == |s| - 1
    ensures forall i :: 0 <= i < |s| - 1 ==> s[..|s| - 1][i] == s[i]
  {
  }

  /** Collecting from lines that all occur in a successful collection
      succeeds too, and collects no address the larger one does not. */
  lemma CollectFromFewerLines(lines1: seq<string>, lines2: seq<string>, decode: string -> Decoded)
    requires forall l :: l in lines1 ==> l in lines2
    requires CollectAddresses(lines2, decode).Success?
    ensures CollectAddresses(lines1, decode).Success?
    ensures forall a :: a in CollectAddresses(lines1, decode).value ==> a in CollectAddresses(lines2, decode).value
  {
    CollectAddressesSpec(lines1, decode);
    CollectAddressesSpec(lines2, decode);
    forall i | 0 <= i < |lines1| ensures WellFormed(decode(lines1[i])) {
      assert lines1[i] in lines1;
      var j :| 0 <= j < |lines2| && lines2[j] == lines1[i];
    }
    forall a | a in CollectAddresses(lines1, decode).value
      ensures a in CollectAddresses(lines2, decode).value
    {
      var i :| 0 <= i < |lines1| && Names(decode(lines1[i]), a);
      assert lines1[i] in lines1;
      var j :| 0 <= j < |lines2| && lines2[j] == lines1[i];
      assert Names(decode(lines2[j]), a);
    }
  }

  /** The normalised list depends only on which lines occur, not on their
      order or on repetitions. */
  lemma NormalizedIgnoresLineOrder(lines1: seq<string>, lines2: seq<string>, decode: string -> Decoded)
    requires forall l :: l in lines1 <==> l in lines2
    ensures CollectAddresses(lines1, decode).Success? <==> CollectAddresses(lines2, decode).Success?
    ensures CollectAddresses(lines1, decode).Success? ==>
      Normalize(CollectAddresses(lines1, decode).value) == Normalize(CollectAddresses(lines2, decode).value)
  {
    if CollectAddresses(lines1, decode).Success? {
      CollectFromFewerLines(lines2, lines1, decode);
      CollectFromFewerLines(lines1, lines2, decode);
      NormalizeCanonical(CollectAddresses(lines1, decode).value, CollectAddresses(lines2, decode).value);
    } else if CollectAddresses(lines2, decode).Success? {
      CollectFromFewerLines(lines1, lines2, decode);
    }
  }

  /** Two outcomes of collecting that agree for the cycle: the same
      exception, or successes holding the same addresses. */
  ghost predicate SameAddresses(r1: Result<seq<string>, CollectError>, r2: Result<seq<string>, CollectError>)
  {
    && (r1.Failure? || r2.Failure? ==> r1 == r2)
    && (r1.Success? && r2.Success? ==> forall a :: a in r1.value <==> a in r2.value)
  }

  /** A peer entry that repeats the record's own `node_ip_addr` changes
      nothing: the record is as well formed as before, names the same
      addresses, raises the same exception or yields the same addresses,
      and gives the same normalised list. */
  lemma SelfPeerIsRedundant(line: string, ip: string, ps: seq<Peer>, k: nat)
    requires k <= |ps|
    ensures var d := Parsed(Record(Some(ip), Some(ps)));
            var d' := Parsed(Record(Some(ip), Some(ps[..k] + [Peer(Some(ip))] + ps[k..])));
            && (WellFormed(d) <==> WellFormed(d'))
            && (forall a :: Names(d, a) <==> Names(d', a))
            && SameAddresses(RecordAddresses(line, d), RecordAddresses(line, d'))
            && (WellFormed(d) ==>
                  Normalize(RecordAddresses(line, d).value) == Normalize(RecordAddresses(line, d').value))
  {
    var ps' := ps[..k] + [Peer(Some(ip))] + ps[k..];
    var d := Parsed(Record(Some(ip), Some(ps)));
    var d' := Parsed(Record(Some(ip), Some(ps')));
    assert ps == ps[..k] + ps[k..];
    assert forall p :: p in ps' <==> p in ps || p == Peer(Some(ip));
    RecordAddressesSpec(line, d);
    RecordAddressesSpec(line, d');
    forall a ensures Names(d, a) <==> Names(d', a) {
      if Names(d', a) && exists p :: p in ps' && p.host == Some(a) {
        var p :| p in ps' && p.host == Some(a);
        if p !in ps { assert a == ip; }
      }
      if Names(d, a) && exists p :: p in ps && p.host == Some(a) {
        var p :| p in ps && p.host == Some(a);
        assert p in ps';
      }
    }
    if WellFormed(d) {
      NormalizeCanonical(RecordAddresses(line, d).value, RecordAddresses(line, d').value);
    }
  }

  /** The outcome so far followed by one more line's: the first exception
      wins, otherwise the addresses are appended. */
  function AndThen(acc: Result<seq<string>, CollectError>, xs: Result<seq<string>, CollectError>): Result<seq<string>, CollectError>
  {
    if acc.Failure? then acc
    else if xs.Failure? then xs
    else Success(acc.value + xs.value)
  }

  /** The last line's outcome is appended to that of the lines before it. */
  lemma CollectLast(lines: seq<string>, decode: string -> Decoded)
    requires lines != []
    ensures CollectAddresses(lines, decode) ==
      AndThen(CollectAddresses(lines[..|lines| - 1], decode), RecordAddresses(lines[|lines| - 1], decode(lines[|lines| - 1])))
  {
  }

  /** Agreeing outcomes stay in agreement when agreeing lines follow. */
  lemma SameAddressesAndThen(a1: Result<seq<string>, CollectError>, a2: Result<seq<string>, CollectError>,
                             x1: Result<seq<string>, CollectError>, x2: Result<seq<string>, CollectError>)
    requires SameAddresses(a1, a2) && SameAddresses(x1, x2)
    ensures SameAddresses(AndThen(a1, x1), AndThen(a2, x2))
  {
  }

  /** Decoders agree on every line of a list. */
  ghost predicate LinesAgree(lines: seq<string>, d1: string -> Decoded, d2: string -> Decoded)
  {
    forall i :: 0 <= i < |lines| ==>
      SameAddresses(RecordAddresses(lines[i], d1(lines[i])), RecordAddresses(lines[i], d2(lines[i])))
  }

  /** Agreement on a list is agreement on its front and its last line. */
  lemma LinesAgreeFront(lines: seq<string>, d1: string -> Decoded, d2: string -> Decoded)
    requires lines != [] && LinesAgree(lines, d1, d2)
    ensures LinesAgree(lines[..|lines| - 1], d1, d2)
    ensures var last := lines[|lines| - 1];
      SameAddresses(RecordAddresses(last, d1(last)), RecordAddresses(last, d2(last)))
  {
    var front := lines[..|lines| - 1];
    forall i | 0 <= i < |front|
      ensures SameAddresses(RecordAddresses(front[i], d1(front[i])), RecordAddresses(front[i], d2(front[i])))
    {
      assert front[i] == lines[i];
    }
  }

  /** Decoders whose lines agree one by one agree on the whole collection:
      the same exception, or the same collected addresses. */
  lemma {:induction false} CollectAgree(lines: seq<string>, d1: string -> Decoded, d2: string -> Decoded)
    requires LinesAgree(lines, d1, d2)
    ensures SameAddresses(CollectAddresses(lines, d1), CollectAddresses(lines, d2))
    decreases |lines|
  {
    if lines != [] {
      var front, last := lines[..|lines| - 1], lines[|lines| - 1];
      LinesAgreeFront(lines, d1, d2);
      CollectAgree(front, d1, d2);
      CollectLast(lines, d1);
      CollectLast(lines, d2);
      SameAddressesAndThen(CollectAddresses(front, d1), CollectAddresses(front, d2),
                           RecordAddresses(last, d1(last)), RecordAddresses(last, d2(last)));
    }
  }

  /** The inner loop of `execute`: appends the `host` of each peer to
      `ipList`, raising `KeyError('host')` at the first peer without one. */
  method AppendPeerHosts(ipList: seq<string>, peers: seq<Peer>) returns (r: Result<seq<string>, CollectError>)
    ensures PeerHosts(peers).Failure? ==> r == PeerHosts(peers)
    ensures PeerHosts(peers).Success? ==> r == Success(ipList + PeerHosts(peers).value)
  {
    var acc := ipList;
    var j := 0;
    while j < |peers|
      invariant 0 <= j <= |peers|
      invariant PeerHosts(peers[..j]).Success?
      invariant acc == ipList + PeerHosts(peers[..j]).value
    {
      assert peers[..j + 1][..j] == peers[..j];
      if peers[j].host.None? {
        assert peers[j] in peers;
        return Failure(MissingKey("host"));
      }
      acc := acc + [peers[j].host.value];
      j := j + 1;
    }
    assert peers[..j] == peers;
    r := Success(acc);
  }

  /** One more line on a successful prefix: its exception is the
      collection's, or its addresses are appended. */
  lemma CollectStep(lines: seq<string>, decode: string -> Decoded, i: nat)
    requires i < |lines|
    requires CollectAddresses(lines[..i], decode).Success?
    ensures var x := RecordAddresses(lines[i], decode(lines[i]));
      && (x.Failure? ==> CollectAddresses(lines, decode) == x)
      && (x.Success? ==> CollectAddresses(lines[..i + 1], decode) == Success(CollectAddresses(lines[..i], decode).value + x.value))
  {
    var pre := lines[..i + 1];
    PrefixStep(lines, i);
    CollectLast(pre, decode);
    if RecordAddresses(lines[i], decode(lines[i])).Failure? {
      FailureIsFinal(lines, decode, i + 1);
    }
  }

  /** The prefix through index i ends with element i after the prefix
      before it. */
  lemma PrefixStep<T>(s: seq<T>, i: nat)
    requires i < |s|
    ensures s[..i + 1][..i] == s[..i] && s[..i + 1][i] == s[i]
    ensures |s[..i + 1]| == i + 1
  {
  }

  /** The body of the outer loop for one line: decode it, append its
      `node_ip_addr`, then its peers' hosts, or raise. */
  method CollectLine(ipList: seq<string>, item: string, nodeData: Decoded) returns (r: Result<seq<string>, CollectError>)
    ensures r == AndThen(Success(ipList), RecordAddresses(item, nodeData))
  {
    if nodeData.Malformed? {
      return Failure(DecodeFailed(item));
    }
    var rec := nodeData.record;
    if rec.nodeIpAddr.None? {
      return Failure(MissingKey("node_ip_addr"));
    }
    var withSelf := ipList + [rec.nodeIpAddr.value];
    if rec.peers.None? {
      return Failure(MissingKey("peers"));
    }
    r := AppendPeerHosts(withSelf, rec.peers.value);
    if r.Success? {
      assert r.value == ipList + ([rec.nodeIpAddr.value] + PeerHosts(rec.peers.value).value);
    }
  }

  /** The outer loop of `execute` that builds `ip_list`: for every line,
      decode it, append its `node_ip_addr`, then its peers' hosts. */
  method Collect(lines: seq<string>, decode: string -> Decoded) returns (r: Result<seq<string>, CollectError>)
    ensures r == CollectAddresses(lines, decode)
  {
    var ipList: seq<string> := [];
    var i := 0;
    while i < |lines|
      invariant 0 <= i <= |lines|
      invariant CollectAddresses(lines[..i], decode) == Success(ipList)
    {
      var item := lines[i];
      CollectStep(lines, decode, i);
      var outcome := CollectLine(ipList, item, decode(item));
      if outcome.Failure? {
        return outcome;
      }
      ipList := outcome.value;
      i := i + 1;
    }
    assert lines[..i] == lines;
    r := Success(ipList);
  }
}
