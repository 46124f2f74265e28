/**
 Folding one thread into another: every message of both survives unless one of four reasons,
 each tied to a moment of the merge, accounts for it.
 */
module TimelineMerge {
  import opened Text
  import opened Seqs
  import opened Timeline
  import opened TimelineOrder
  import opened TimelineRuns

  /** `m` is a server message that confirms the optimistic copy `x`. */
  predicate Confirms(m: Message, x: Message) {
    !m.isSystem && m.author != "" && !IsLocal(m.id) && IsEchoOf(x, m)
  }

  /** The log is full of rows at least as new as `x`. */
  predicate FullOfNewer(cap: nat, log: Log, x: Message) {
    |log.rows| == cap && forall y | y in log.rows :: x.time <= y.time
  }

  /** A row is missing after one append only if the message confirmed it or it was cut as the oldest. */
  lemma RowFate(cap: nat, log: Log, m: Message, x: Message)
    requires Valid(cap, log) && x in log.rows
    ensures var out := Append(cap, log, m);
      x in out.rows || Confirms(m, x) || FullOfNewer(cap, out, x)
  {
    if !Refused(log, m) {
      var i := LastEcho(log.rows, m);
      var rows := Accept(log, m).rows;
      if i >= 0 { RemoveAtElements(log.rows, i); }
      if x in rows {
        InsertAtElements(rows, InsertIndex(rows, m.time), m);
        InsertedValid(cap, log, m);
        CutFate(cap, Inserted(log, m), x);
      }
    }
  }

  /**
   With room to spare a new message is shown exactly when no row bears its id and no edit has superseded it;
   lines without an id always are.
   */
  lemma AppendShowsIff(cap: nat, log: Log, m: Message)
    requires Valid(cap, log) && |log.rows| < cap && m !in log.rows
    ensures m in Append(cap, log, m).rows <==>
      m.id == "" || (m.id !in log.aliases && forall x | x in log.rows :: x.id != m.id)
  {
    NewFate(cap, log, m);
    var out := Append(cap, log, m);
    if !Refused(log, m) {
      AcceptedRows(log, m);
      EvictOne(cap, Inserted(log, m));
      assert out.rows == Inserted(log, m).rows;
      var rows := Accept(log, m).rows;
      InsertAtElements(rows, InsertIndex(rows, m.time), m);
    }
  }

  lemma AcceptedRows(log: Log, m: Message)
    ensures |Accept(log, m).rows| <= |log.rows|
  {
  }

  /**
   With room to spare a message takes at most optimistic rows away: those of its author with its text, and
   only if it comes from the server and from somebody.
   */
  lemma OnlyCopiesAreTaken(cap: nat, log: Log, m: Message, x: Message)
    requires Valid(cap, log) && |log.rows| < cap && x in log.rows && x !in Append(cap, log, m).rows
    ensures StartsWith(x.id, "local-") && EqIgnoreCase(x.author, m.author) && x.text == m.text
    ensures !StartsWith(m.id, "local-") && m.author != "" && !m.isSystem
  {
    RowFate(cap, log, m, x);
    if !Refused(log, m) {
      AcceptedRows(log, m);
      EvictOne(cap, Inserted(log, m));
      var rows := Accept(log, m).rows;
      InsertAtElements(rows, InsertIndex(rows, m.time), m);
      var i := LastEcho(log.rows, m);
      if i >= 0 { RemoveAtElements(log.rows, i); }
    }
  }

  /** The message itself is shown, refused, or cut at once. */
  lemma NewFate(cap: nat, log: Log, m: Message)
    requires Valid(cap, log)
    ensures var out := Append(cap, log, m);
      m in out.rows || Refused(log, m) || FullOfNewer(cap, out, m)
  {
    if !Refused(log, m) {
      var rows := Accept(log, m).rows;
      InsertAtElements(rows, InsertIndex(rows, m.time), m);
      InsertedValid(cap, log, m);
      CutFate(cap, Inserted(log, m), m);
    }
  }

  lemma OldestFirst(rows: seq<Message>)
    requires rows != [] && Sorted(rows)
    ensures forall y | y in rows[1..] :: rows[0].time <= y.time
  {
    forall y | y in rows[1..] ensures rows[0].time <= y.time {
      var j :| 0 <= j < |rows| - 1 && rows[1..][j] == y;
      assert rows[j + 1] == y;
    }
  }

  lemma CutFate(cap: nat, log: Log, x: Message)
    requires Sorted(log.rows) && |log.rows| <= cap + 1 && x in log.rows
    ensures x in Evict(cap, log).rows || FullOfNewer(cap, Evict(cap, log), x)
  {
    EvictOne(cap, log);
    if |log.rows| > cap {
      OldestFirst(log.rows);
      RemoveAtElements(log.rows, 0);
      assert RemoveAt(log.rows, 0) == log.rows[1..];
      assert x == log.rows[0] || x in log.rows[1..];
    }
  }

  /** At step `k` of appending `ms`, `x` was shown and then confirmed away or cut, or cut on arrival. */
  predicate LostAt(cap: nat, log: Log, ms: seq<Message>, k: nat, x: Message)
    requires k < |ms|
  {
    var after := AppendAll(cap, log, ms[..k + 1]);
    x !in after.rows && (Confirms(ms[k], x) || FullOfNewer(cap, after, x))
  }

  predicate Lost(cap: nat, log: Log, ms: seq<Message>, x: Message) {
    exists k | 0 <= k < |ms| :: LostAt(cap, log, ms, k, x)
  }

  lemma LostEarlier(cap: nat, log: Log, ms: seq<Message>, x: Message)
    requires ms != [] && Lost(cap, log, ms[..|ms| - 1], x)
    ensures Lost(cap, log, ms, x)
  {
    var init := ms[..|ms| - 1];
    var k :| 0 <= k < |init| && LostAt(cap, log, init, k, x);
    assert init[..k + 1] == ms[..k + 1];
    assert LostAt(cap, log, ms, k, x);
  }

  lemma LostLast(cap: nat, log: Log, ms: seq<Message>, x: Message)
    requires ms != [] && x !in AppendAll(cap, log, ms).rows
    requires Confirms(ms[|ms| - 1], x) || FullOfNewer(cap, AppendAll(cap, log, ms), x)
    ensures Lost(cap, log, ms, x)
  {
    assert ms[..|ms| - 1 + 1] == ms;
    assert LostAt(cap, log, ms, |ms| - 1, x);
  }

  lemma {:induction false} OldRowsFate(cap: nat, log: Log, ms: seq<Message>, x: Message)
    requires Valid(cap, log) && x in log.rows
    ensures x in AppendAll(cap, log, ms).rows || Lost(cap, log, ms, x)
    decreases |ms|
  {
    if ms != [] {
      var init, m := ms[..|ms| - 1], ms[|ms| - 1];
      OldRowsFate(cap, log, init, x);
      AppendAllKeepsValid(cap, log, init);
      if x in AppendAll(cap, log, init).rows {
        RowFate(cap, AppendAll(cap, log, init), m, x);
        if x !in AppendAll(cap, log, ms).rows { LostLast(cap, log, ms, x); }
      } else {
        LostEarlier(cap, log, ms, x);
      }
    }
  }

  lemma {:induction false} RowsGrowOnlyBy(cap: nat, log: Log, ms: seq<Message>)
    requires Valid(cap, log)
    ensures forall x | x in AppendAll(cap, log, ms).rows :: x in log.rows || x in ms
    decreases |ms|
  {
    if ms != [] {
      var init, m := ms[..|ms| - 1], ms[|ms| - 1];
      var l := AppendAll(cap, log, init);
      RowsGrowOnlyBy(cap, log, init);
      AppendAllKeepsValid(cap, log, init);
      AppendRows(cap, l, m);
      assert m in ms && forall x | x in init :: x in ms;
      forall x | x in Append(cap, l, m).rows ensures x in log.rows || x in ms {
        assert x in l.rows || x == m;
      }
    }
  }

  lemma IdsGrowOnlyBy(cap: nat, log: Log, ms: seq<Message>)
    requires Valid(cap, log)
    ensures AppendAll(cap, log, ms).ids <= log.ids + IdSet(ms)
  {
    var out := AppendAll(cap, log, ms);
    RowsGrowOnlyBy(cap, log, ms);
    AppendAllKeepsValid(cap, log, ms);
    forall id | id in out.ids ensures id in log.ids + IdSet(ms) {
      var x :| x in out.rows && x.id == id;
    }
  }

  lemma {:induction false} NewRowsFate(cap: nat, log: Log, ms: seq<Message>, j: nat)
    requires Valid(cap, log) && DistinctIds(ms) && j < |ms|
    ensures ms[j] in AppendAll(cap, log, ms).rows || Refused(log, ms[j]) || Lost(cap, log, ms, ms[j])
    decreases |ms|
  {
    var init, m := ms[..|ms| - 1], ms[|ms| - 1];
    var l := AppendAll(cap, log, init);
    AppendAllKeepsValid(cap, log, init);
    if j < |init| {
      NewRowsFate(cap, log, init, j);
      if ms[j] in l.rows {
        RowFate(cap, l, m, ms[j]);
        if ms[j] !in AppendAll(cap, log, ms).rows { LostLast(cap, log, ms, ms[j]); }
      } else if Lost(cap, log, init, ms[j]) {
        LostEarlier(cap, log, ms, ms[j]);
      }
    } else {
      NewFate(cap, l, m);
      IdsGrowOnlyBy(cap, log, init);
      assert m.id !in IdSet(init);
      if m !in AppendAll(cap, log, ms).rows && !Refused(l, m) { LostLast(cap, log, ms, m); }
    }
  }

  /**
   After one thread has absorbed another, every message of the first is still shown unless the
   second thread's server copy confirmed it or newer rows filled the log; every message of the
   second is shown unless the first had its id or had superseded it, or for those same two
   reasons; and nothing else is shown.
   */
  lemma MergeKeepsMessages(cap: nat, into: Log, other: Log)
    requires Valid(cap, into) && Valid(cap, other)
    ensures var out := Absorb(cap, into, other); var head := AbsorbHead(into, other);
      && (forall x | x in into.rows :: x in out.rows || Lost(cap, head, other.rows, x))
      && (forall x | x in other.rows :: x in out.rows || Refused(into, x) || Lost(cap, head, other.rows, x))
      && (forall x | x in out.rows :: x in into.rows || x in other.rows)
  {
    var head := AbsorbHead(into, other);
    assert Valid(cap, head);
    forall x | x in into.rows
      ensures x in AppendAll(cap, head, other.rows).rows || Lost(cap, head, other.rows, x)
    {
      OldRowsFate(cap, head, other.rows, x);
    }
    forall x | x in other.rows
      ensures x in AppendAll(cap, head, other.rows).rows || Refused(head, x) || Lost(cap, head, other.rows, x)
    {
      var j :| 0 <= j < |other.rows| && other.rows[j] == x;
      NewRowsFate(cap, head, other.rows, j);
    }
    RowsGrowOnlyBy(cap, head, other.rows);
  }

  // ---- what a merged log refuses ---------------------------------------------------------

  /**
   A merge forgets what the absorbed thread had superseded: an id that neither thread bears is refused
   afterwards exactly when the surviving thread had superseded it itself.
   */
  lemma MergeForgetsUnheldIff(cap: nat, into: Log, other: Log, m: Message)
    requires Valid(cap, into) && Valid(cap, other)
    requires m.id != "" && m.id !in into.ids && m.id !in other.ids
    ensures Refused(Absorb(cap, into, other), m) <==> m.id in into.aliases
  {
    var head := AbsorbHead(into, other);
    assert Valid(cap, head);
    IdsGrowOnlyBy(cap, head, other.rows);
    AppendAllKeepsValid(cap, head, other.rows);
  }

  /** The everyday case: the first fold into a new thread accepts every superseded id again. */
  lemma FirstFoldForgetsEverything(cap: nat, name: string, other: Log, m: Message)
    requires Valid(cap, other) && m.id in other.aliases && m.id != "" && m.id !in other.ids
    ensures Refused(other, m) && !Refused(Absorb(cap, EmptyLog(name), other), m)
  {
    assert IdSet([]) == {};
    MergeForgetsUnheldIff(cap, EmptyLog(name), other, m);
  }

  lemma {:induction false} AppendAllAddsOnly(cap: nat, log: Log, ms: seq<Message>)
    requires Valid(cap, log)
    ensures multiset(AppendAll(cap, log, ms).rows) <= multiset(log.rows) + multiset(ms)
    decreases |ms|
  {
    if ms != [] {
      var init, m := ms[..|ms| - 1], ms[|ms| - 1];
      assert ms == init + [m];
      AppendAllAddsOnly(cap, log, init);
      AppendAllKeepsValid(cap, log, init);
      AppendAddsOnly(cap, AppendAll(cap, log, init), m);
    }
  }

  lemma AppendAddsOnly(cap: nat, log: Log, m: Message)
    requires Valid(cap, log)
    ensures multiset(Append(cap, log, m).rows) <= multiset(log.rows) + multiset{m}
  {
    if !Refused(log, m) {
      var rows, full := Accept(log, m).rows, Inserted(log, m).rows;
      AcceptTakesOnly(log, m);
      InsertAtBag(rows, InsertIndex(rows, m.time), m);
      InsertedValid(cap, log, m);
      EvictTakesOnly(cap, Inserted(log, m));
    }
  }

  lemma AcceptTakesOnly(log: Log, m: Message)
    ensures multiset(Accept(log, m).rows) <= multiset(log.rows)
  {
    var i := LastEcho(log.rows, m);
    if i >= 0 { RemoveAtBag(log.rows, i); }
  }

  lemma EvictTakesOnly(cap: nat, log: Log)
    requires |log.rows| <= cap + 1
    ensures multiset(Evict(cap, log).rows) <= multiset(log.rows)
  {
    EvictOne(cap, log);
    if |log.rows| > cap {
      RemoveAtBag(log.rows, 0);
      assert RemoveAt(log.rows, 0) == log.rows[1..];
    }
  }

  /** Besides `x` the two threads hold `cap` rows at least as new. */
  ghost predicate Outnumbered(cap: nat, into: Log, other: Log, x: Message) {
    exists ys: seq<Message> | |ys| == cap && (forall y | y in ys :: x.time <= y.time) ::
      multiset(ys) + multiset{x} <= multiset(into.rows) + multiset(other.rows)
  }

  lemma FullOutnumbers(cap: nat, into: Log, other: Log, part: seq<Message>, out: Log, x: Message)
    requires FullOfNewer(cap, out, x) && x in into.rows && x !in out.rows && part <= other.rows
    requires multiset(out.rows) <= multiset(into.rows) + multiset(part)
    ensures Outnumbered(cap, into, other, x)
  {
    assert other.rows == part + other.rows[|part|..];
    assert multiset(out.rows)[x] == 0 && multiset(into.rows)[x] > 0;
    assert multiset(out.rows) + multiset{x} <= multiset(into.rows) + multiset(other.rows);
  }

  lemma HeldIdIsLost(cap: nat, head: Log, ms: seq<Message>, m: Message, x: Message)
    requires Valid(cap, head) && x in head.rows && x.id == m.id != "" && m.id !in AppendAll(cap, head, ms).ids
    ensures Lost(cap, head, ms, x)
  {
    AppendAllKeepsValid(cap, head, ms);
    OldRowsFate(cap, head, ms, x);
  }

  /**
   An id the surviving thread bears is forgotten only if a row of the other thread confirms its
   optimistic row or the two threads hold enough newer rows to cut it.
   */
  lemma HeldIdIsForgottenOnlyIf(cap: nat, into: Log, other: Log, m: Message, x: Message)
    requires Valid(cap, into) && Valid(cap, other) && x in into.rows && x.id == m.id != ""
    requires !Refused(Absorb(cap, into, other), m)
    ensures (exists y | y in other.rows :: Confirms(y, x)) || Outnumbered(cap, into, other, x)
  {
    var head, ms := AbsorbHead(into, other), other.rows;
    assert Valid(cap, head);
    HeldIdIsLost(cap, head, ms, m, x);
    var k :| 0 <= k < |ms| && LostAt(cap, head, ms, k, x);
    if !Confirms(ms[k], x) {
      var part := ms[..k + 1];
      AppendAllAddsOnly(cap, head, part);
      FullOutnumbers(cap, into, other, part, AppendAll(cap, head, part), x);
    }
  }

  // ---- merging plain threads -------------------------------------------------------------

  /** Everything the merge has to show: the surviving thread's rows and what it accepts of the other's. */
  function Union(into: Log, other: Log): set<Message> {
    Arrived(into.rows) + Accepted(into.aliases, other.rows)
  }

  lemma PlainRowsAreNewest(cap: nat, log: Log)
    requires Valid(cap, log) && Plain(Arrived(log.rows))
    ensures Settled(log, Arrived(log.rows), cap)
  {
    forall i, j | 0 <= i < j < |log.rows| ensures log.rows[i].time < log.rows[j].time {
      var a, b := log.rows[i], log.rows[j];
      assert a in Arrived(log.rows) && b in Arrived(log.rows);
      assert a.id != b.id;
    }
  }

  lemma MergeSettles(cap: nat, into: Log, other: Log)
    requires cap >= 1 && Valid(cap, into) && Plain(Union(into, other))
    ensures Settled(Absorb(cap, into, other), Union(into, other), cap)
    ensures Absorb(cap, into, other).aliases == into.aliases
  {
    var head := AbsorbHead(into, other);
    PlainPart(Arrived(into.rows), Accepted(into.aliases, other.rows));
    PlainRowsAreNewest(cap, into);
    assert Settled(head, Arrived(into.rows), cap);
    AppendAllSettles(cap, head, Arrived(into.rows), other.rows);
  }

  lemma PlainPart(s: set<Message>, t: set<Message>)
    requires Plain(s + t)
    ensures Plain(s)
  {
    forall m | m in s ensures m in s + t {}
  }

  /**
   Merging two threads of plain messages shows exactly the newest `cap` of both, but for those the
   surviving thread has superseded, whatever either had shown before.
   */
  lemma MergeGivesNewest(cap: nat, into: Log, other: Log)
    requires cap >= 1 && Valid(cap, into) && Plain(Union(into, other))
    ensures Absorb(cap, into, other).rows == Newest(Union(into, other), cap)
  {
    MergeSettles(cap, into, other);
    NewestUnique(Absorb(cap, into, other).rows, Union(into, other), cap);
  }

  function Newer(s: set<Message>, time: int): set<Message> {
    set y | y in s && time < y.time
  }

  lemma {:induction false} StrictlySortedCount(rows: seq<Message>)
    requires StrictlySorted(rows)
    ensures |Arrived(rows)| == |rows|
  {
    if rows != [] {
      var init, last := rows[..|rows| - 1], rows[|rows| - 1];
      StrictlySortedCount(init);
      assert rows == init + [last];
      PrefixElements(init, last);
      assert last !in init;
      assert Arrived(rows) == Arrived(init) + {last};
    }
  }

  lemma NewerIsShown(rows: seq<Message>, s: set<Message>, cap: nat, x: Message, y: Message)
    requires IsNewest(rows, s, cap) && x in rows && y in s && x.time < y.time
    ensures y in rows
  {
    var i :| 0 <= i < |rows| && rows[i] == x;
  }

  /** A message is among the newest exactly when fewer than `cap` are newer. */
  lemma AmongNewestIff(rows: seq<Message>, s: set<Message>, cap: nat, x: Message)
    requires IsNewest(rows, s, cap) && x in s
    ensures x in rows <==> |Newer(s, x.time)| < cap
  {
    StrictlySortedCount(rows);
    var newer := Newer(s, x.time);
    if x in rows {
      forall y | y in newer ensures y in Arrived(rows) - {x} {
        NewerIsShown(rows, s, cap, x, y);
      }
      Subset(newer, Arrived(rows) - {x});
    } else {
      forall y | y in Arrived(rows) ensures y in newer {
        var i :| 0 <= i < |rows| && rows[i] == y;
        assert x.time < rows[i].time;
      }
      Subset(Arrived(rows), newer);
    }
  }

  lemma Subset(a: set<Message>, b: set<Message>)
    requires a <= b
    ensures |a| <= |b|
  {
    assert b == a + (b - a);
  }

  /**
   What a merged thread of plain messages refuses: what the surviving thread had superseded, and what
   is among the newest of both.
   */
  lemma MergeRefusesIff(cap: nat, into: Log, other: Log, m: Message)
    requires cap >= 1 && Valid(cap, into) && Plain(Union(into, other)) && m.id != ""
    ensures Refused(Absorb(cap, into, other), m) <==>
      m.id in into.aliases
      || exists x | x in Union(into, other) :: x.id == m.id && |Newer(Union(into, other), x.time)| < cap
  {
    var out, s := Absorb(cap, into, other), Union(into, other);
    MergeSettles(cap, into, other);
    if m.id in out.ids {
      var x :| x in out.rows && x.id == m.id;
      AmongNewestIff(out.rows, s, cap, x);
    }
    if x :| x in s && x.id == m.id && |Newer(s, x.time)| < cap {
      AmongNewestIff(out.rows, s, cap, x);
    }
  }

  // ---- when the identity is learned ------------------------------------------------------

  /** The newest of `s` and the newest of `t` are all that the newest of both can be taken from. */
  lemma NewestOfParts(rows: seq<Message>, p: seq<Message>, q: seq<Message>, s: set<Message>, t: set<Message>, cap: nat)
    requires IsNewest(p, s, cap) && IsNewest(q, t, cap) && IsNewest(rows, Arrived(p) + Arrived(q), cap)
    ensures IsNewest(rows, s + t, cap)
  {
    forall m | m in s + t && m !in rows ensures |rows| == cap && OlderThan(m, rows) {
      if m in s && m !in p {
        MissingFromPart(rows, p, Arrived(p) + Arrived(q), cap, m);
      } else if m in t && m !in q {
        MissingFromPart(rows, q, Arrived(p) + Arrived(q), cap, m);
      } else {
        assert m in Arrived(p) + Arrived(q);
      }
    }
  }

  /** `cap` rows newer than `m` arrived, so the newest of everything are all newer than `m`. */
  lemma MissingFromPart(rows: seq<Message>, p: seq<Message>, u: set<Message>, cap: nat, m: Message)
    requires StrictlySorted(p) && |p| == cap && OlderThan(m, p) && Arrived(p) <= u && IsNewest(rows, u, cap)
    ensures |rows| == cap && OlderThan(m, rows)
  {
    StrictlySortedCount(p);
    StrictlySortedCount(rows);
    if x :| x in p && x !in rows {
      assert x in Arrived(p);
      var i :| 0 <= i < |p| && p[i] == x;
      assert m.time < p[i].time;
    } else {
      Subset(Arrived(p), Arrived(rows));
      SameSize(Arrived(p), Arrived(rows));
      forall j | 0 <= j < |rows| ensures m.time < rows[j].time {
        assert rows[j] in Arrived(rows) && rows[j] in p;
        var i :| 0 <= i < |p| && p[i] == rows[j];
        assert m.time < p[i].time;
      }
    }
  }

  lemma SameSize(a: set<Message>, b: set<Message>)
    requires a <= b && |a| >= |b|
    ensures a == b
  {
    assert b == a + (b - a);
    assert |b| == |a| + |b - a|;
  }

  lemma PlainParts(s: set<Message>, t: set<Message>)
    requires Plain(s + t)
    ensures Plain(s) && Plain(t)
  {
    PlainPart(s, t);
    assert s + t == t + s;
    PlainPart(t, s);
  }

  /** Rows that a known last activity covers do not change it. */
  lemma {:induction false} CoveredActivityStays(cap: nat, log: Log, ms: seq<Message>)
    requires ActivityCovers(ms, log.lastActivity)
    ensures AppendAll(cap, log, ms).lastActivity == log.lastActivity
    decreases |ms|
  {
    if ms != [] {
      var init, m := ms[..|ms| - 1], ms[|ms| - 1];
      assert m in ms && forall x | x in init :: x in ms;
      CoveredActivityStays(cap, log, init);
      var l := AppendAll(cap, log, init);
      if !Refused(l, m) { EvictActivity(cap, Inserted(l, m)); }
    }
  }

  /** The last activity of two sets together is the later one. */
  lemma ActivityOfBoth(s: set<Message>, t: set<Message>, x: int, y: int)
    requires IsActivity(s, x) && IsActivity(t, y)
    ensures IsActivity(s + t, if y > x then y else x)
  {
    if x > 0 && x >= y {
      var m :| m in s && !m.isSystem && Seconds(m.time) == x;
      assert m in s + t;
    } else if y > x {
      var m :| m in t && !m.isSystem && Seconds(m.time) == y;
      assert m in s + t;
    }
  }

  lemma ActivityUnique(s: set<Message>, x: int, y: int)
    requires IsActivity(s, x) && IsActivity(s, y)
    ensures x == y
  {
  }

  /**
   Learning an identity late makes no difference: two threads of plain messages, kept apart and folded
   together when it becomes known, give the very log of one thread that received all their messages,
   in whatever order.
   */
  lemma LateIdentityMakesNoDifference(cap: nat, did: string, nick: string, ns: seq<Message>, ms: seq<Message>,
                                      all: seq<Message>)
    requires cap >= 1 && Plain(Arrived(ns) + Arrived(ms)) && Arrived(all) == Arrived(ns) + Arrived(ms)
    ensures Absorb(cap, AppendAll(cap, EmptyLog(did), ns), AppendAll(cap, EmptyLog(nick), ms))
            == AppendAll(cap, EmptyLog(did), all)
  {
    var into, other := AppendAll(cap, EmptyLog(did), ns), AppendAll(cap, EmptyLog(nick), ms);
    PlainParts(Arrived(ns), Arrived(ms));
    ArrivalsSettle(cap, did, ns);
    ArrivalsSettle(cap, nick, ms);
    ArrivalsSettle(cap, did, all);
    FoldedRows(cap, into, other, Arrived(ns), Arrived(ms));
    NewestUnique(Absorb(cap, into, other).rows, Arrived(all), cap);
    NewestUnique(AppendAll(cap, EmptyLog(did), all).rows, Arrived(all), cap);
    ActivityOfBoth(Arrived(ns), Arrived(ms), into.lastActivity, other.lastActivity);
    ActivityUnique(Arrived(all), AbsorbHead(into, other).lastActivity, AppendAll(cap, EmptyLog(did), all).lastActivity);
    FoldedRest(cap, into, other);
  }

  /** The fold's rows are the newest of what both threads received. */
  lemma FoldedRows(cap: nat, into: Log, other: Log, s: set<Message>, t: set<Message>)
    requires cap >= 1 && Settled(into, s, cap) && Settled(other, t, cap) && into.aliases == {} && Plain(s + t)
    ensures Settled(Absorb(cap, into, other), s + t, cap) && Absorb(cap, into, other).aliases == {}
  {
    var head, u := AbsorbHead(into, other), Arrived(into.rows) + Arrived(other.rows);
    assert Accepted(head.aliases, other.rows) == Arrived(other.rows);
    assert u <= s + t;
    assert Plain(u);
    SettledOnRows(into, s, cap);
    AppendAllSettles(cap, head, Arrived(into.rows), other.rows);
    NewestOfParts(Absorb(cap, into, other).rows, into.rows, other.rows, s, t, cap);
  }

  /** A settled log is settled on its own rows. */
  lemma SettledOnRows(log: Log, s: set<Message>, cap: nat)
    requires Settled(log, s, cap)
    ensures Settled(log, Arrived(log.rows), cap)
  {
  }

  /** Everything but the rows and ids of a fold of two threads that only received messages. */
  lemma FoldedRest(cap: nat, into: Log, other: Log)
    requires into == EmptyLog(into.name).(rows := into.rows, ids := into.ids, lastActivity := into.lastActivity)
    requires other == EmptyLog(other.name).(rows := other.rows, ids := other.ids, lastActivity := other.lastActivity)
    requires ActivityCovers(other.rows, other.lastActivity)
    ensures var out := Absorb(cap, into, other);
      out == EmptyLog(into.name).(
        rows := out.rows, ids := out.ids, lastActivity := AbsorbHead(into, other).lastActivity)
  {
    var head := AbsorbHead(into, other);
    CoveredActivityStays(cap, head, other.rows);
    AppendAllRest(cap, head, other.rows);
  }

  lemma {:induction false} AppendAllRest(cap: nat, log: Log, ms: seq<Message>)
    ensures var out := AppendAll(cap, log, ms);
      out == log.(rows := out.rows, ids := out.ids, lastActivity := out.lastActivity)
    decreases |ms|
  {
    if ms != [] {
      AppendAllRest(cap, log, ms[..|ms| - 1]);
      var l := AppendAll(cap, log, ms[..|ms| - 1]);
      if !Refused(l, ms[|ms| - 1]) { EvictActivity(cap, Inserted(l, ms[|ms| - 1])); }
    }
  }
}
