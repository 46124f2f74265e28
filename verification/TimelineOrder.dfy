/**
 Order independence of the capped log: however a set of messages arrives, with whatever
 repeats, the log ends up with the newest `cap` of them in time order.
 */
module TimelineOrder {
  import opened Seqs
  import opened Timeline

  /** Messages with proper server ids, where an id and a time stamp each belong to one message. */
  predicate Plain(s: set<Message>) {
    && (forall m | m in s :: m.id != "" && !IsLocal(m.id))
    && (forall m, n | m in s && n in s && (m.id == n.id || m.time == n.time) :: m == n)
  }

  predicate IsLatest(m: Message, s: set<Message>) {
    m in s && forall x | x in s :: x.time <= m.time
  }

  lemma {:induction false} LatestExists(s: set<Message>)
    requires s != {}
    ensures exists m :: IsLatest(m, s)
  {
    var x :| x in s;
    if s == {x} {
      assert IsLatest(x, s);
    } else {
      LatestExists(s - {x});
      var y :| IsLatest(y, s - {x});
      assert IsLatest(if x.time <= y.time then y else x, s);
    }
  }

  /** The newest message of a non-empty set. */
  ghost function Latest(s: set<Message>): (m: Message)
    requires s != {}
    ensures IsLatest(m, s)
  {
    LatestExists(s);
    var m :| IsLatest(m, s);
    m
  }

  /** Reference: the newest `cap` messages of a set, oldest first. */
  ghost function Newest(s: set<Message>, cap: nat): seq<Message> {
    if s == {} || cap == 0 then []
    else
      var top := Latest(s);
      Newest(s - {top}, cap - 1) + [top]
  }

  /** Reference: the latest second of any non-system message, or zero. */
  ghost predicate IsActivity(s: set<Message>, seconds: int) {
    && seconds >= 0
    && (forall m | m in s && !m.isSystem :: Seconds(m.time) <= seconds)
    && (seconds == 0 || exists m :: m in s && !m.isSystem && Seconds(m.time) == seconds)
  }

  predicate StrictlySorted(rows: seq<Message>) {
    forall i, j | 0 <= i < j < |rows| :: rows[i].time < rows[j].time
  }

  predicate OlderThan(m: Message, rows: seq<Message>) {
    forall i | 0 <= i < |rows| :: m.time < rows[i].time
  }

  /** `rows` are messages of `s` in time order; whatever is missing was older than `cap` newer ones. */
  predicate IsNewest(rows: seq<Message>, s: set<Message>, cap: nat) {
    && StrictlySorted(rows)
    && |rows| <= cap
    && (forall m | m in rows :: m in s)
    && (forall m | m in s && m !in rows :: |rows| == cap && OlderThan(m, rows))
  }

  lemma LatestIsLast(rows: seq<Message>, s: set<Message>, cap: nat)
    requires s != {} && cap > 0 && IsNewest(rows, s, cap)
    ensures rows != [] && rows[|rows| - 1] == Latest(s)
  {
    var top := Latest(s);
    assert top in rows by {
      assert rows != [] ==> rows[0] in rows;
    }
    var i :| 0 <= i < |rows| && rows[i] == top;
    assert rows[|rows| - 1] in rows;
  }

  lemma DropLast(rows: seq<Message>, s: set<Message>, cap: nat)
    requires rows != [] && cap > 0 && IsNewest(rows, s, cap)
    ensures IsNewest(rows[..|rows| - 1], s - {rows[|rows| - 1]}, cap - 1)
  {
    var last := |rows| - 1;
    var init := rows[..last];
    assert rows == init + [rows[last]];
    PrefixElements(init, rows[last]);
    forall m | m in init ensures m != rows[last] {
      var j :| 0 <= j < |init| && init[j] == m;
      assert rows[j].time < rows[last].time;
    }
  }

  lemma SplitNewest(rows: seq<Message>, s: set<Message>, cap: nat) returns (init: seq<Message>)
    requires s != {} && cap > 0 && IsNewest(rows, s, cap)
    ensures rows == init + [Latest(s)]
    ensures IsNewest(init, s - {Latest(s)}, cap - 1)
  {
    LatestIsLast(rows, s, cap);
    DropLast(rows, s, cap);
    init := rows[..|rows| - 1];
  }

  lemma NothingIsNewest(rows: seq<Message>, s: set<Message>, cap: nat)
    requires s == {} && IsNewest(rows, s, cap)
    ensures rows == []
  {
    HasFirst(rows);
  }

  /** That description has one solution, the reference. */
  lemma {:induction false} NewestUnique(rows: seq<Message>, s: set<Message>, cap: nat)
    requires IsNewest(rows, s, cap)
    ensures rows == Newest(s, cap)
    decreases cap
  {
    if s == {} {
      NothingIsNewest(rows, s, cap);
    } else if cap > 0 {
      var init := SplitNewest(rows, s, cap);
      NewestUnique(init, s - {Latest(s)}, cap - 1);
    }
  }

  /** The rows, the id set and the last activity are all determined by what has arrived. */
  predicate Settled(log: Log, s: set<Message>, cap: nat) {
    && IsNewest(log.rows, s, cap)
    && DistinctIds(log.rows)
    && log.ids == IdSet(log.rows)
  }

  lemma NoEchoes(rows: seq<Message>, m: Message)
    requires forall i | 0 <= i < |rows| :: !IsLocal(rows[i].id)
    ensures LastEcho(rows, m) == -1
  {
  }

  lemma InsertStrict(rows: seq<Message>, m: Message)
    requires StrictlySorted(rows)
    requires forall i | 0 <= i < |rows| :: rows[i].time != m.time
    ensures StrictlySorted(Insert(rows, m))
  {
    var k := InsertIndex(rows, m.time);
    var out := Insert(rows, m);
    assert forall i | 0 <= i < k :: rows[i].time <= rows[k - 1].time;
    forall i, j | 0 <= i < j < |out|
      ensures out[i].time < out[j].time
    {
      if j < k {
        assert out[i] == rows[i] && out[j] == rows[j];
      } else if j == k {
        assert out[i] == rows[i] && out[j] == m;
      } else if i == k {
        assert out[i] == m && out[j] == rows[j - 1];
      } else {
        assert out[i] == rows[if i < k then i else i - 1] && out[j] == rows[j - 1];
      }
    }
  }

  /** A strictly sorted list without its first row: what is gone is older than everything kept. */
  lemma FirstIsOldest(full: seq<Message>)
    requires full != [] && StrictlySorted(full)
    ensures StrictlySorted(full[1..])
    ensures forall i | 0 <= i < |full| - 1 :: full[0].time < full[1..][i].time
    ensures full[0] !in full[1..]
    ensures forall x :: x in full <==> x == full[0] || x in full[1..]
  {
    var cut := full[1..];
    assert forall i | 0 <= i < |cut| :: cut[i] == full[i + 1];
    RemoveAtElements(full, 0);
    assert RemoveAt(full, 0) == cut;
  }

  /** Inserting a message that is not among the rows, then cutting to `cap`. */
  lemma InsertNewest(rows: seq<Message>, s: set<Message>, m: Message, cap: nat)
    requires IsNewest(rows, s, cap) && m !in rows
    requires forall i | 0 <= i < |rows| :: rows[i].time != m.time
    ensures var full := Insert(rows, m);
      |full| == |rows| + 1 && IsNewest(if |full| <= cap then full else full[1..], s + {m}, cap)
  {
    var full := Insert(rows, m);
    var k := InsertIndex(rows, m.time);
    InsertStrict(rows, m);
    InsertAtElements(rows, k, m);
    if |full| > cap {
      FirstIsOldest(full);
      if k == 0 {
        assert full[1..] == rows;
      } else {
        assert full[0] == rows[0];
        forall x | x in s && x !in rows
          ensures OlderThan(x, full[1..])
        {
          assert OlderThan(x, rows);
        }
      }
    }
  }

  /** Every row is one of the arrived messages, and its id is in the id set. */
  lemma RowsArrived(cap: nat, log: Log, s: set<Message>, m: Message)
    requires Settled(log, s, cap) && Plain(s + {m})
    ensures LastEcho(log.rows, m) == -1
    ensures forall i | 0 <= i < |log.rows| :: log.rows[i] in s && log.rows[i].id in log.ids
  {
    forall i | 0 <= i < |log.rows|
      ensures !IsLocal(log.rows[i].id) && log.rows[i].id in log.ids && log.rows[i] in s
    {
      var x := log.rows[i];
      assert x in log.rows;
      assert x in s + {m};
    }
    NoEchoes(log.rows, m);
  }

  lemma SameArrival(s: set<Message>, x: Message, m: Message)
    requires Plain(s + {m}) && x in s && (x.id == m.id || x.time == m.time)
    ensures x == m
  {
    assert x in s + {m} && m in s + {m};
  }

  /** Under the hypotheses a fresh message meets no echo and no row of its own time. */
  lemma FreshArrival(cap: nat, log: Log, s: set<Message>, m: Message)
    requires Settled(log, s, cap) && Plain(s + {m})
    ensures m.id != "" && LastEcho(log.rows, m) == -1
    ensures m.id in log.ids ==> s + {m} == s
    ensures m.id !in log.ids ==>
      m !in log.rows && forall i | 0 <= i < |log.rows| :: log.rows[i].time != m.time
  {
    RowsArrived(cap, log, s, m);
    assert m in s + {m};
    if m.id in log.ids {
      RepeatArrival(log.rows, s, m);
    } else {
      FreshTimes(log.rows, log.ids, s, m);
    }
  }

  /** A message whose id some row bears has arrived before. */
  lemma RepeatArrival(rows: seq<Message>, s: set<Message>, m: Message)
    requires Plain(s + {m}) && m.id in IdSet(rows)
    requires forall i | 0 <= i < |rows| :: rows[i] in s
    ensures s + {m} == s
  {
    var x :| x in rows && x.id == m.id;
    var i :| 0 <= i < |rows| && rows[i] == x;
    SameArrival(s, rows[i], m);
  }

  lemma FreshTimes(rows: seq<Message>, ids: set<string>, s: set<Message>, m: Message)
    requires Plain(s + {m}) && m.id !in ids
    requires forall i | 0 <= i < |rows| :: rows[i] in s && rows[i].id in ids
    ensures m !in rows && forall i | 0 <= i < |rows| :: rows[i].time != m.time
  {
    forall i | 0 <= i < |rows| ensures rows[i].time != m.time {
      if rows[i].time == m.time { SameArrival(s, rows[i], m); }
    }
  }

  /** A message whose row is new: inserted at its time, and the oldest row cut when over the cap. */
  lemma AppendFresh(cap: nat, log: Log, s: set<Message>, m: Message)
    requires cap >= 1 && Settled(log, s, cap) && !Refused(log, m) && m.id != ""
    requires LastEcho(log.rows, m) == -1
    requires m !in log.rows && forall i | 0 <= i < |log.rows| :: log.rows[i].time != m.time
    ensures Settled(Append(cap, log, m), s + {m}, cap)
  {
    InsertNewest(log.rows, s, m, cap);
    AppendFreshIds(cap, log, m);
  }

  lemma AppendNoEcho(cap: nat, log: Log, m: Message)
    requires !Refused(log, m) && m.id != "" && LastEcho(log.rows, m) == -1
    ensures var l := Inserted(log, m);
      && l.rows == Insert(log.rows, m) && l.ids == log.ids + {m.id} && l.aliases == log.aliases
      && Append(cap, log, m) == Evict(cap, l)
  {
  }

  lemma CutOneKeepsIds(cap: nat, l: Log)
    requires |l.rows| <= cap + 1 && DistinctIds(l.rows) && l.ids == IdSet(l.rows)
    ensures var out := Evict(cap, l);
      && out.rows == (if |l.rows| <= cap then l.rows else l.rows[1..])
      && DistinctIds(out.rows) && out.ids == IdSet(out.rows) && out.aliases == l.aliases
  {
    EvictOne(cap, l);
    if |l.rows| > cap {
      RemoveKeepsIds(l.rows, 0);
      assert RemoveAt(l.rows, 0) == l.rows[1..];
    }
  }

  lemma AppendFreshIds(cap: nat, log: Log, m: Message)
    requires |log.rows| <= cap && m.id != "" && !Refused(log, m)
    requires LastEcho(log.rows, m) == -1 && DistinctIds(log.rows) && log.ids == IdSet(log.rows)
    ensures var out, full := Append(cap, log, m), Insert(log.rows, m);
      && out.rows == (if |full| <= cap then full else full[1..])
      && DistinctIds(out.rows) && out.ids == IdSet(out.rows) && out.aliases == log.aliases
  {
    AppendNoEcho(cap, log, m);
    InsertKeepsIds(log.rows, m);
    CutOneKeepsIds(cap, Inserted(log, m));
  }

  lemma StepSettled(cap: nat, log: Log, s: set<Message>, m: Message)
    requires cap >= 1 && Settled(log, s, cap) && m.id !in log.aliases && Plain(s + {m})
    ensures Settled(Append(cap, log, m), s + {m}, cap) && Append(cap, log, m).aliases == log.aliases
  {
    FreshArrival(cap, log, s, m);
    if m.id !in log.ids {
      AppendFresh(cap, log, s, m);
      AppendFreshIds(cap, log, m);
    }
  }

  /** The messages a log with these superseded ids does not refuse outright. */
  function Accepted(aliases: set<string>, ms: seq<Message>): set<Message> {
    set m | m in ms && (m.id == "" || m.id !in aliases)
  }

  /** Appending messages to a settled log settles it on what it had and what it accepts. */
  lemma {:induction false} AppendAllSettles(cap: nat, log: Log, s: set<Message>, ms: seq<Message>)
    requires cap >= 1 && Settled(log, s, cap) && Plain(s + Accepted(log.aliases, ms))
    ensures var l := AppendAll(cap, log, ms);
      Settled(l, s + Accepted(log.aliases, ms), cap) && l.aliases == log.aliases
    decreases |ms|
  {
    if ms == [] {
      assert s + Accepted(log.aliases, ms) == s;
    } else {
      var init, m := ms[..|ms| - 1], ms[|ms| - 1];
      assert ms == init + [m];
      PrefixElements(init, m);
      var before := s + Accepted(log.aliases, init);
      AppendAllSettles(cap, log, s, init);
      if m.id == "" || m.id !in log.aliases {
        assert s + Accepted(log.aliases, ms) == before + {m};
        assert m in before + {m};
        StepSettled(cap, AppendAll(cap, log, init), before, m);
      } else {
        assert s + Accepted(log.aliases, ms) == before;
      }
    }
  }

  lemma ActivityGrows(s: set<Message>, m: Message, before: int, after: int)
    requires IsActivity(s, before)
    requires after == if !m.isSystem && Seconds(m.time) > before then Seconds(m.time) else before
    ensures IsActivity(s + {m}, after)
  {
    if after != before {
      assert m in s + {m};
    } else if after != 0 {
      var x :| x in s && !x.isSystem && Seconds(x.time) == after;
      assert x in s + {m};
    }
  }

  lemma StepActivity(cap: nat, log: Log, s: set<Message>, m: Message)
    requires Settled(log, s, cap) && IsActivity(s, log.lastActivity) && log.aliases == {} && Plain(s + {m})
    ensures IsActivity(s + {m}, Append(cap, log, m).lastActivity)
  {
    FreshArrival(cap, log, s, m);
    if m.id !in log.ids {
      EvictActivity(cap, Inserted(log, m));
      ActivityGrows(s, m, log.lastActivity, Append(cap, log, m).lastActivity);
    }
  }

  lemma {:induction false} EvictActivity(cap: nat, log: Log)
    ensures Evict(cap, log).lastActivity == log.lastActivity
    ensures Evict(cap, log).(rows := [], ids := {}) == log.(rows := [], ids := {})
    decreases |log.rows|
  {
    if |log.rows| > cap {
      EvictActivity(cap, log.(rows := log.rows[1..], ids := log.ids - {log.rows[0].id}));
    }
  }

  function Arrived(ms: seq<Message>): set<Message> {
    set m | m in ms
  }

  lemma {:induction false} ArrivalsSettle(cap: nat, name: string, ms: seq<Message>)
    requires cap >= 1 && Plain(Arrived(ms))
    ensures var l := AppendAll(cap, EmptyLog(name), ms);
      Settled(l, Arrived(ms), cap) && IsActivity(Arrived(ms), l.lastActivity)
      && l == EmptyLog(name).(rows := l.rows, ids := l.ids, lastActivity := l.lastActivity)
    decreases |ms|
  {
    if ms != [] {
      var init, m := ms[..|ms| - 1], ms[|ms| - 1];
      assert ms == init + [m];
      PrefixElements(init, m);
      assert Arrived(ms) == Arrived(init) + {m};
      ArrivalsSettle(cap, name, init);
      var l := AppendAll(cap, EmptyLog(name), init);
      StepSettled(cap, l, Arrived(init), m);
      StepActivity(cap, l, Arrived(init), m);
      FreshArrival(cap, l, Arrived(init), m);
      EvictActivity(cap, Inserted(l, m));
    }
  }

  /**
   Whatever the arrival order and however often messages repeat, the log holds exactly the
   newest `cap` messages of the set that arrived, oldest first.
   */
  lemma ArrivalsGiveNewest(cap: nat, name: string, ms: seq<Message>)
    requires cap >= 1 && Plain(Arrived(ms))
    ensures AppendAll(cap, EmptyLog(name), ms).rows == Newest(Arrived(ms), cap)
  {
    ArrivalsSettle(cap, name, ms);
    NewestUnique(AppendAll(cap, EmptyLog(name), ms).rows, Arrived(ms), cap);
  }

  /** Two deliveries of the same set leave the very same log: rows, id set and last activity. */
  lemma OrderIndependence(cap: nat, name: string, ms: seq<Message>, ns: seq<Message>)
    requires cap >= 1 && Plain(Arrived(ms)) && Arrived(ms) == Arrived(ns)
    ensures AppendAll(cap, EmptyLog(name), ms) == AppendAll(cap, EmptyLog(name), ns)
  {
    ArrivalsSettle(cap, name, ms);
    ArrivalsSettle(cap, name, ns);
    ArrivalsGiveNewest(cap, name, ms);
    ArrivalsGiveNewest(cap, name, ns);
  }

  /** Equal time stamps are where arrival order shows: the later arrival goes last. */
  lemma TiesKeepArrivalOrder(cap: nat, name: string, a: Message, b: Message)
    requires cap >= 2 && a.time == b.time && a.id != b.id
    requires a.id != "" && b.id != "" && !IsLocal(a.id) && !IsLocal(b.id)
    ensures AppendAll(cap, EmptyLog(name), [a, b]).rows == [a, b]
  {
    assert [a, b][..1] == [a];
    assert [a][..0] == [];
    var l := Append(cap, EmptyLog(name), a);
    assert Insert([], a) == [a];
    EvictOne(cap, Inserted(EmptyLog(name), a));
    assert l.rows == [a] && l.ids == {a.id};
    NoEchoes([a], b);
    assert Insert([a], b) == [a, b];
    EvictOne(cap, Inserted(l, b));
    assert AppendAll(cap, EmptyLog(name), [a]) == l;
  }
}
