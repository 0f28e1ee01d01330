/** The daemon's decoded standard output cut into lines:
    `filter(None, text.split('\n'))`. */
module Lines {

  const Newline: char := '\n'

  /** Python's `str.split('\n')`: the pieces between newlines, in order.
      There is always at least one piece, and no piece holds a newline. */
  function Split(s: string): (parts: seq<string>)
    ensures |parts| >= 1
    ensures forall i :: 0 <= i < |parts| ==> Newline !in parts[i]
    decreases |s|
  {
    if s == [] then [""]
    else
      var rest := Split(s[1..]);
      if s[0] == Newline then [""] + rest
      else [[s[0]] + rest[0]] + rest[1..]
  }

  /** Python's `'\n'.join(parts)`: the inverse of Split. */
  function Join(parts: seq<string>): string
    decreases |parts|
  {
    if |parts| == 0 then ""
    else if |parts| == 1 then parts[0]
    else parts[0] + [Newline] + Join(parts[1..])
  }

  /** `filter(None, parts)`: drops the empty strings, keeps the rest in order. */
  function RemoveEmpty(parts: seq<string>): (r: seq<string>)
    ensures forall i :: 0 <= i < |r| ==> r[i] != ""
    ensures forall x :: x in r <==> x in parts && x != ""
    decreases |parts|
  {
    if parts == [] then []
    else if parts[0] == "" then RemoveEmpty(parts[1..])
    else [parts[0]] + RemoveEmpty(parts[1..])
  }

  /** The lines of the daemon output that the collector iterates over:
      none is empty and none holds a newline. */
  function NonEmptyLines(s: string): (lines: seq<string>)
    ensures forall i :: 0 <= i < |lines| ==> lines[i] != "" && Newline !in lines[i]
  {
    var parts := Split(s);
    var r := RemoveEmpty(parts);
    assert forall i :: 0 <= i < |r| ==> Newline !in r[i] by {
      forall i | 0 <= i < |r| ensures Newline !in r[i] {
        assert r[i] in parts;
        var j :| 0 <= j < |parts| && parts[j] == r[i];
      }
    }
    r
  }

  /** The concatenation of a sequence of strings. */
  function Concat(parts: seq<string>): string
    decreases |parts|
  {
    if parts == [] then "" else parts[0] + Concat(parts[1..])
  }

  /** The text with every newline character taken out. */
  function WithoutNewlines(s: string): string
    decreases |s|
  {
    if s == [] then ""
    else if s[0] == Newline then WithoutNewlines(s[1..])
    else [s[0]] + WithoutNewlines(s[1..])
  }

  /** Splitting loses nothing: joining the pieces gives the text back. */
  lemma {:induction false} JoinSplit(s: string)
    ensures Join(Split(s)) == s
    decreases |s|
  {
    if s != [] {
      var rest := Split(s[1..]);
      JoinSplit(s[1..]);
      if s[0] == Newline {
        assert Split(s) == [""] + rest;
        assert Join(Split(s)) == [Newline] + Join(rest);
        assert s == [s[0]] + s[1..];
      } else {
        var first := [s[0]] + rest[0];
        if |rest| == 1 {
          assert Join(rest) == rest[0];
          assert s == [s[0]] + s[1..];
        } else {
          assert Join(rest) == rest[0] + [Newline] + Join(rest[1..]);
          assert Split(s)[1..] == rest[1..];
          assert Join(Split(s)) == first + [Newline] + Join(rest[1..]);
          assert s == [s[0]] + s[1..];
        }
      }
    }
  }

  /** A newline-free prefix is glued onto the first piece of what follows it. */
  lemma {:induction false} SplitPrefix(p: string, t: string)
    requires Newline !in p
    ensures Split(p + t) == [p + Split(t)[0]] + Split(t)[1..]
    decreases |p|
  {
    if p != [] {
      assert (p + t)[1..] == p[1..] + t;
      assert (p + t)[0] == p[0];
      SplitPrefix(p[1..], t);
      assert [p[0]] + (p[1..] + Split(t)[0]) == p + Split(t)[0];
    } else {
      assert p + t == t;
      assert p + Split(t)[0] == Split(t)[0];
      assert Split(t) == [Split(t)[0]] + Split(t)[1..];
    }
  }

  /** Splitting is the only way to cut a text into newline-free pieces:
      the pieces of any such cut are exactly what Split returns, so each
      piece is a maximal newline-free segment of the text. */
  lemma {:induction false} SplitJoin(parts: seq<string>)
    requires |parts| >= 1
    requires forall i :: 0 <= i < |parts| ==> Newline !in parts[i]
    ensures Split(Join(parts)) == parts
    decreases |parts|
  {
    if |parts| == 1 {
      SplitPrefix(parts[0], "");
      assert parts[0] + "" == parts[0];
    } else {
      var tail := Join(parts[1..]);
      SplitJoin(parts[1..]);
      SplitPrefix(parts[0], [Newline] + tail);
      assert ([Newline] + tail)[1..] == tail;
      assert Split([Newline] + tail) == [""] + Split(tail);
      assert Join(parts) == parts[0] + ([Newline] + tail);
      assert parts[0] + Split([Newline] + tail)[0] == parts[0];
      assert parts == [parts[0]] + parts[1..];
    }
  }

  lemma {:induction false} ConcatRemoveEmpty(parts: seq<string>)
    ensures Concat(RemoveEmpty(parts)) == Concat(parts)
    decreases |parts|
  {
    if parts != [] {
      ConcatRemoveEmpty(parts[1..]);
    }
  }

  lemma {:induction false} ConcatSplit(s: string)
    ensures Concat(Split(s)) == WithoutNewlines(s)
    decreases |s|
  {
    if s != [] {
      var rest := Split(s[1..]);
      ConcatSplit(s[1..]);
      if s[0] != Newline {
        assert Concat(rest) == rest[0] + Concat(rest[1..]);
        assert Split(s)[1..] == rest[1..];
      }
    }
  }

  /** The lines the collector sees are exactly the non-empty pieces of
      the split text, and in order they spell out the text without its
      newlines. */
  lemma {:induction false} NonEmptyLinesShape(s: string)
    ensures forall x :: x in NonEmptyLines(s) <==> x in Split(s) && x != ""
    ensures Concat(NonEmptyLines(s)) == WithoutNewlines(s)
  {
    ConcatRemoveEmpty(Split(s));
    ConcatSplit(s);
  }

  /** Filtering works piece by piece: it keeps the order of the pieces and
      their repetitions, and drops exactly the empty ones. */
  lemma {:induction false} RemoveEmptyAppend(a: seq<string>, b: seq<string>)
    ensures RemoveEmpty(a + b) == RemoveEmpty(a) + RemoveEmpty(b)
    ensures RemoveEmpty([]) == []
    ensures forall x :: RemoveEmpty([x]) == if x == "" then [] else [x]
    decreases |a|
  {
    if a != [] {
      assert (a + b)[1..] == a[1..] + b;
      RemoveEmptyAppend(a[1..], b);
    } else {
      assert a + b == b;
    }
    forall x ensures RemoveEmpty([x]) == if x == "" then [] else [x] {
      assert [x][1..] == [];
    }
  }

  /** Joining two newline-joined lists with one more newline joins their
      concatenation. */
  lemma {:induction false} JoinAppend(p: seq<string>, q: seq<string>)
    requires |p| >= 1 && |q| >= 1
    ensures Join(p + q) == Join(p) + [Newline] + Join(q)
    decreases |p|
  {
    if |p| == 1 {
      assert (p + q)[1..] == q;
    } else {
      assert (p + q)[1..] == p[1..] + q;
      JoinAppend(p[1..], q);
    }
  }

  /** The lines of two texts separated by a newline are the lines of the
      first followed by the lines of the second: lines come out in the
      order they appear, each as often as it appears. */
  lemma NonEmptyLinesAppend(a: string, b: string)
    ensures NonEmptyLines(a + [Newline] + b) == NonEmptyLines(a) + NonEmptyLines(b)
  {
    var pa, pb := Split(a), Split(b);
    JoinAppend(pa, pb);
    JoinSplit(a);
    JoinSplit(b);
    SplitJoin(pa + pb);
    RemoveEmptyAppend(pa, pb);
  }

  /** A newline-free text is one line, or none when it is empty. */
  lemma NonEmptyLinesSingle(l: string)
    requires Newline !in l
    ensures NonEmptyLines(l) == if l == "" then [] else [l]
  {
    SplitJoin([l]);
    RemoveEmptyAppend([], []);
  }
}
