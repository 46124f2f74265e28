/**
 Optimistic sends: each line we send is shown at once under a local id and replaced when the
 server echoes it. While the log has room and local ids are new, no line is shown twice or lost.
 */
module TimelineEcho {
  import opened Text
  import opened Seqs
  import opened Timeline

  /** A line is what one author said in one text. */
  datatype Line = Line(author: string, text: string)

  predicate Says(m: Message, line: Line) {
    EqIgnoreCase(m.author, line.author) && m.text == line.text
  }

  predicate IsPending(m: Message, line: Line) {
    Says(m, line) && IsLocal(m.id)
  }

  /** How many rows show the line. */
  function Shown(rows: seq<Message>, line: Line): nat {
    if rows == [] then 0
    else Shown(rows[..|rows| - 1], line) + if Says(rows[|rows| - 1], line) then 1 else 0
  }

  /** How many of them are still optimistic. */
  function Pending(rows: seq<Message>, line: Line): nat {
    if rows == [] then 0
    else Pending(rows[..|rows| - 1], line) + if IsPending(rows[|rows| - 1], line) then 1 else 0
  }

  datatype Event =
    | Send(m: Message)
    | Echo(m: Message)
    | Other(m: Message)

  function Play(cap: nat, log: Log, es: seq<Event>): Log {
    if es == [] then log
    else Append(cap, Play(cap, log, es[..|es| - 1]), es[|es| - 1].m)
  }

  function Sends(es: seq<Event>): nat {
    if es == [] then 0 else Sends(es[..|es| - 1]) + if es[|es| - 1].Send? then 1 else 0
  }

  function Echoes(es: seq<Event>): nat {
    if es == [] then 0 else Echoes(es[..|es| - 1]) + if es[|es| - 1].Echo? then 1 else 0
  }

  /**
   A legitimate event: our send carries a new local id, an echo a new server id, and neither
   finds the log full; any other message says something else.
   */
  predicate EventOk(cap: nat, log: Log, line: Line, e: Event) {
    match e
    case Send(m) => Says(m, line) && IsLocal(m.id) && !Refused(log, m) && |log.rows| < cap
    case Echo(m) => Says(m, line) && !m.isSystem && !IsLocal(m.id) && !Refused(log, m) && |log.rows| < cap
    case Other(m) => !Says(m, line) && (|log.rows| < cap || Refused(log, m))
  }

  /** Every event is legitimate when it happens, and no prefix has more echoes than sends. */
  predicate Legit(cap: nat, log: Log, line: Line, es: seq<Event>) {
    Echoes(es) <= Sends(es) &&
    (es != [] ==>
       var init := es[..|es| - 1];
       Legit(cap, log, line, init) && EventOk(cap, Play(cap, log, init), line, es[|es| - 1]))
  }

  // ---- counting -----------------------------------------------------------------------

  lemma {:induction false} CountConcat(a: seq<Message>, b: seq<Message>, line: Line)
    ensures Shown(a + b, line) == Shown(a, line) + Shown(b, line)
    ensures Pending(a + b, line) == Pending(a, line) + Pending(b, line)
    decreases |b|
  {
    if b == [] {
      assert a + b == a;
    } else {
      assert (a + b)[..|a + b| - 1] == a + b[..|b| - 1];
      CountConcat(a, b[..|b| - 1], line);
    }
  }

  lemma CountOne(m: Message, line: Line)
    ensures Shown([m], line) == if Says(m, line) then 1 else 0
    ensures Pending([m], line) == if IsPending(m, line) then 1 else 0
  {
    assert [m][..0] == [];
  }

  lemma CountInsert(rows: seq<Message>, m: Message, line: Line)
    ensures Shown(Insert(rows, m), line) == Shown(rows, line) + Shown([m], line)
    ensures Pending(Insert(rows, m), line) == Pending(rows, line) + Pending([m], line)
  {
    var k := InsertIndex(rows, m.time);
    assert rows == rows[..k] + rows[k..];
    CountConcat(rows[..k], rows[k..], line);
    CountConcat(rows[..k] + [m], rows[k..], line);
    CountConcat(rows[..k], [m], line);
  }

  lemma CountRemove(rows: seq<Message>, k: nat, line: Line)
    requires k < |rows|
    ensures Shown(rows, line) == Shown(RemoveAt(rows, k), line) + Shown([rows[k]], line)
    ensures Pending(rows, line) == Pending(RemoveAt(rows, k), line) + Pending([rows[k]], line)
  {
    assert rows == rows[..k] + [rows[k]] + rows[k + 1..];
    CountConcat(rows[..k] + [rows[k]], rows[k + 1..], line);
    CountConcat(rows[..k], [rows[k]], line);
    CountConcat(rows[..k], rows[k + 1..], line);
  }

  lemma {:induction false} PendingIsThere(rows: seq<Message>, line: Line)
    ensures Pending(rows, line) <= Shown(rows, line)
    ensures Pending(rows, line) > 0 <==> exists i :: 0 <= i < |rows| && IsPending(rows[i], line)
    decreases |rows|
  {
    if rows != [] {
      var init := rows[..|rows| - 1];
      PendingIsThere(init, line);
      if Pending(init, line) > 0 {
        var i :| 0 <= i < |init| && IsPending(init[i], line);
        assert IsPending(rows[i], line);
      }
      forall i | 0 <= i < |rows| && IsPending(rows[i], line)
        ensures Pending(rows, line) > 0
      {
        assert i < |init| ==> IsPending(init[i], line);
      }
    }
  }

  // ---- one event ----------------------------------------------------------------------

  /** With room in the log, accepting a message only inserts its row. */
  lemma RoomToAppend(cap: nat, log: Log, m: Message)
    requires !Refused(log, m) && |log.rows| < cap
    ensures Append(cap, log, m).rows == Insert(Accept(log, m).rows, m)
  {
    assert |Accept(log, m).rows| <= |log.rows|;
  }

  lemma SendCounts(cap: nat, log: Log, line: Line, m: Message)
    requires EventOk(cap, log, line, Send(m))
    ensures var out := Append(cap, log, m).rows;
      Shown(out, line) == Shown(log.rows, line) + 1 && Pending(out, line) == Pending(log.rows, line) + 1
  {
    RoomToAppend(cap, log, m);
    CountInsert(log.rows, m, line);
    CountOne(m, line);
  }

  /** An echo removes one optimistic copy and puts the server's in its place. */
  lemma EchoCounts(cap: nat, log: Log, line: Line, m: Message)
    requires EventOk(cap, log, line, Echo(m)) && line.author != "" && Pending(log.rows, line) > 0
    ensures var out := Append(cap, log, m).rows;
      Shown(out, line) == Shown(log.rows, line) && Pending(out, line) == Pending(log.rows, line) - 1
  {
    RoomToAppend(cap, log, m);
    PendingIsThere(log.rows, line);
    var j :| 0 <= j < |log.rows| && IsPending(log.rows[j], line);
    assert IsEchoOf(log.rows[j], m);
    var i := LastEcho(log.rows, m);
    assert i >= 0 && IsPending(log.rows[i], line);
    assert m.author != "" by {
      assert |AsciiLower(m.author)| == |m.author|;
      assert |AsciiLower(line.author)| == |line.author|;
    }
    assert Accept(log, m).rows == RemoveAt(log.rows, i);
    CountRemove(log.rows, i, line);
    CountOne(log.rows[i], line);
    CountInsert(RemoveAt(log.rows, i), m, line);
    CountOne(m, line);
  }

  lemma OtherCounts(cap: nat, log: Log, line: Line, m: Message)
    requires EventOk(cap, log, line, Other(m))
    ensures var out := Append(cap, log, m).rows;
      Shown(out, line) == Shown(log.rows, line) && Pending(out, line) == Pending(log.rows, line)
  {
    if !Refused(log, m) {
      RoomToAppend(cap, log, m);
      var rows := Accept(log, m).rows;
      CountInsert(rows, m, line);
      CountOne(m, line);
      var i := LastEcho(log.rows, m);
      if rows != log.rows {
        assert rows == RemoveAt(log.rows, i) && IsEchoOf(log.rows[i], m);
        CountRemove(log.rows, i, line);
        CountOne(log.rows[i], line);
      }
    }
  }

  /**
   Whatever else is said in between, a line is shown exactly once per send in every prefix, and
   exactly the sends not yet echoed are still optimistic.
   */
  lemma {:induction false} EchoConservation(cap: nat, log: Log, line: Line, es: seq<Event>)
    requires line.author != "" && Legit(cap, log, line, es)
    requires Shown(log.rows, line) == 0
    ensures var rows := Play(cap, log, es).rows;
      Shown(rows, line) == Sends(es) && Pending(rows, line) == Sends(es) - Echoes(es)
    decreases |es|
  {
    if es == [] {
      PendingIsThere(log.rows, line);
    } else {
      var init, e := es[..|es| - 1], es[|es| - 1];
      EchoConservation(cap, log, line, init);
      var l := Play(cap, log, init);
      match e
      case Send(m) => SendCounts(cap, l, line, m);
      case Echo(m) => EchoCounts(cap, l, line, m);
      case Other(m) => OtherCounts(cap, l, line, m);
    }
  }

  /** Once every send has been echoed, none of the line's rows is an optimistic one. */
  lemma AllEchoedNoneLocal(cap: nat, log: Log, line: Line, es: seq<Event>)
    requires line.author != "" && Legit(cap, log, line, es)
    requires Shown(log.rows, line) == 0
    requires Sends(es) == Echoes(es)
    ensures forall m | m in Play(cap, log, es).rows && Says(m, line) :: !IsLocal(m.id)
  {
    EchoConservation(cap, log, line, es);
    var rows := Play(cap, log, es).rows;
    PendingIsThere(rows, line);
    forall m | m in rows && Says(m, line) ensures !IsLocal(m.id) {
      var i :| 0 <= i < |rows| && rows[i] == m;
      assert !IsPending(rows[i], line);
    }
  }
}
