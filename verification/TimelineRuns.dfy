/**
 Whole runs of one log: what every step keeps, for how long a superseded id stays refused,
 and for how long a deleted row stays deleted.
 */
module TimelineRuns {
  import opened Seqs
  import opened Timeline

  datatype Step =
    | Receive(m: Message)
    | Change(e: Edit)
    | Delete(deleter: string, id: string)
    | Merge(other: Log)
    | Seed(seconds: int)
    | ClearUnread

  function Do(cap: nat, log: Log, s: Step): Log {
    match s
    case Receive(m) => Append(cap, log, m)
    case Change(e) => ApplyEdit(log, e)
    case Delete(d, id) => ApplyDelete(log, d, id)
    case Merge(other) => Absorb(cap, log, other)
    case Seed(seconds) => SeedActivity(log, seconds)
    case ClearUnread => log.(unread := 0)
  }

  function Run(cap: nat, log: Log, steps: seq<Step>): Log {
    if steps == [] then log
    else Do(cap, Run(cap, log, steps[..|steps| - 1]), steps[|steps| - 1])
  }

  /** The edit rewrites a row and gives it an id that another row already carries. */
  predicate Clashes(log: Log, e: Edit) {
    EditApplies(log, e) &&
    var swap := SwapTo(e, log.rows[Find(log.rows, e.target)].id);
    swap.Some? && swap.value in log.ids
  }

  /** No edit of the run clashes at the moment it is applied. */
  predicate NoClash(cap: nat, log: Log, steps: seq<Step>) {
    steps == [] ||
    (NoClash(cap, log, steps[..|steps| - 1]) &&
     var s := steps[|steps| - 1];
     s.Change? ==> !Clashes(Run(cap, log, steps[..|steps| - 1]), s.e))
  }

  lemma ReplaceKeepsIds(rows: seq<Message>, i: nat, row: Message)
    requires i < |rows| && DistinctIds(rows)
    requires row.id == rows[i].id || (row.id != "" && row.id !in IdSet(rows))
    ensures DistinctIds(rows[i := row])
    ensures IdSet(rows[i := row]) == if row.id == rows[i].id then IdSet(rows) else IdSet(rows) - {rows[i].id} + {row.id}
  {
    var out := rows[i := row];
    assert out[i] == row;
    forall j | 0 <= j < |rows| && j != i
      ensures out[j] == rows[j] && (out[j].id == "" || out[j].id != rows[i].id)
    {
    }
    forall id | id in IdSet(rows) && id != rows[i].id ensures id in IdSet(out) {
      var x :| x in rows && x.id == id;
      var j :| 0 <= j < |rows| && rows[j] == x;
      assert out[j] == x;
    }
    forall id | id in IdSet(out) && id != row.id ensures id in IdSet(rows) && id != rows[i].id {
      var x :| x in out && x.id == id;
      var j :| 0 <= j < |out| && out[j] == x;
      assert rows[j] == x;
    }
    if row.id != "" { assert row.id in IdSet(out); }
  }

  lemma ReplaceKeepsOrder(rows: seq<Message>, i: nat, row: Message, seconds: int)
    requires i < |rows| && Sorted(rows) && ActivityCovers(rows, seconds)
    requires row.time == rows[i].time && row.isSystem == rows[i].isSystem
    ensures Sorted(rows[i := row]) && ActivityCovers(rows[i := row], seconds)
  {
    var out := rows[i := row];
    forall x | x in out && !x.isSystem ensures Seconds(x.time) <= seconds {
      var j :| 0 <= j < |out| && out[j] == x;
      assert rows[j] in rows;
    }
  }

  /** An edit keeps the representation invariant exactly when it does not clash. */
  lemma EditKeepsValidIff(cap: nat, log: Log, e: Edit)
    requires Valid(cap, log)
    ensures Valid(cap, ApplyEdit(log, e)) <==> !Clashes(log, e)
  {
    if EditApplies(log, e) {
      var i := Find(log.rows, e.target);
      var row := Rewrite(log.rows[i], e);
      var out := ApplyEdit(log, e);
      ReplaceKeepsOrder(log.rows, i, row, log.lastActivity);
      if Clashes(log, e) {
        var x :| x in log.rows && x.id == row.id;
        var j :| 0 <= j < |log.rows| && log.rows[j] == x;
        assert out.rows[i].id == out.rows[j].id != "" && i != j;
        assert !DistinctIds(out.rows);
      } else {
        ReplaceKeepsIds(log.rows, i, row);
      }
    }
  }

  lemma DeleteKeepsValid(cap: nat, log: Log, deleter: string, id: string)
    requires Valid(cap, log)
    ensures Valid(cap, ApplyDelete(log, deleter, id))
  {
    if DeleteApplies(log, deleter, id) {
      var i := FindLast(log.rows, id);
      ReplaceKeepsOrder(log.rows, i, Tombstone(log.rows[i]), log.lastActivity);
      ReplaceKeepsIds(log.rows, i, Tombstone(log.rows[i]));
    }
  }

  /** Absorbing any other log keeps the invariant, and only our own aliases survive. */
  lemma AbsorbKeepsValid(cap: nat, log: Log, other: Log)
    requires Valid(cap, log)
    ensures Valid(cap, Absorb(cap, log, other))
    ensures Absorb(cap, log, other).aliases == log.aliases
  {
    AppendAllKeepsValid(cap, AbsorbHead(log, other), other.rows);
  }

  lemma DoKeepsValid(cap: nat, log: Log, s: Step)
    requires Valid(cap, log) && (s.Change? ==> !Clashes(log, s.e))
    ensures Valid(cap, Do(cap, log, s))
    ensures log.aliases <= Do(cap, log, s).aliases
  {
    match s
    case Receive(m) => AppendKeepsValid(cap, log, m);
    case Change(e) => EditKeepsValidIff(cap, log, e);
    case Delete(d, id) => DeleteKeepsValid(cap, log, d, id);
    case Merge(other) => AbsorbKeepsValid(cap, log, other);
    case Seed(_) =>
    case ClearUnread =>
  }

  /**
   Every run of receives, edits, deletions and merges keeps the log sorted, capped, free of
   duplicate ids, with an exact id set and a last activity that covers its rows, and never
   forgets a superseded id.
   */
  lemma {:induction false} RunKeepsValid(cap: nat, log: Log, steps: seq<Step>)
    requires Valid(cap, log) && NoClash(cap, log, steps)
    ensures Valid(cap, Run(cap, log, steps))
    ensures log.aliases <= Run(cap, log, steps).aliases
    decreases |steps|
  {
    if steps != [] {
      var init := steps[..|steps| - 1];
      RunKeepsValid(cap, log, init);
      DoKeepsValid(cap, Run(cap, log, init), steps[|steps| - 1]);
    }
  }

  /** An id some edit superseded is refused as a row of its own for the rest of the log's life. */
  lemma NoResurrection(cap: nat, log: Log, steps: seq<Step>, m: Message)
    requires Valid(cap, log) && NoClash(cap, log, steps)
    requires m.id != "" && m.id in log.aliases
    ensures Append(cap, Run(cap, log, steps), m) == Run(cap, log, steps)
  {
    RunKeepsValid(cap, log, steps);
  }

  // ---- tombstones ---------------------------------------------------------------------

  /** Id `id` is held at the start and after every step. */
  predicate HeldThroughout(cap: nat, log: Log, steps: seq<Step>, id: string) {
    id in Run(cap, log, steps).ids &&
    (steps != [] ==> HeldThroughout(cap, log, steps[..|steps| - 1], id))
  }

  /** The row carrying `id`, if any, is deleted. */
  predicate Deleted(log: Log, id: string) {
    forall m | m in log.rows && m.id == id :: m.isDeleted
  }

  /** Appending leaves every old row that is still held as it was. */
  lemma AppendRows(cap: nat, log: Log, m: Message)
    requires Valid(cap, log)
    ensures forall x | x in Append(cap, log, m).rows :: x in log.rows || x == m
    ensures m in Append(cap, log, m).rows && m !in log.rows ==> !Refused(log, m)
  {
    if !Refused(log, m) {
      AcceptFacts(cap, log, m);
      AcceptRows(log, m);
      var rows := Accept(log, m).rows;
      InsertAtElements(rows, InsertIndex(rows, m.time), m);
      EvictOne(cap, Inserted(log, m));
    }
  }

  /** One message cannot bring a held deleted row back. */
  lemma AppendKeepsDeleted(cap: nat, log: Log, m: Message, id: string)
    requires Valid(cap, log) && id in log.ids && Deleted(log, id)
    ensures Deleted(Append(cap, log, m), id)
  {
    AppendRows(cap, log, m);
    if m.id == id { assert id != ""; assert Refused(log, m); }
  }

  /** A merge brings a deleted row back only by first cutting it: while it is held it stays deleted. */
  predicate HeldDuringMerge(cap: nat, log: Log, ms: seq<Message>, id: string) {
    id in AppendAll(cap, log, ms).ids &&
    (ms != [] ==> HeldDuringMerge(cap, log, ms[..|ms| - 1], id))
  }

  lemma {:induction false} MergeKeepsDeleted(cap: nat, log: Log, ms: seq<Message>, id: string)
    requires Valid(cap, log) && Deleted(log, id) && HeldDuringMerge(cap, log, ms, id)
    ensures Deleted(AppendAll(cap, log, ms), id)
    decreases |ms|
  {
    if ms != [] {
      var init := ms[..|ms| - 1];
      MergeKeepsDeleted(cap, log, init, id);
      AppendAllKeepsValid(cap, log, init);
      AppendKeepsDeleted(cap, AppendAll(cap, log, init), ms[|ms| - 1], id);
    }
  }

  lemma ChangeKeepsDeleted(cap: nat, log: Log, e: Edit, id: string)
    requires Valid(cap, log) && id in log.ids && Deleted(log, id) && !Clashes(log, e)
    ensures Deleted(ApplyEdit(log, e), id)
  {
    if EditApplies(log, e) {
      var i := Find(log.rows, e.target);
      var out := ApplyEdit(log, e).rows;
      assert log.rows[i] in log.rows;
      assert out[i].id != id;
      forall m | m in out && m.id == id ensures m.isDeleted {
        var j :| 0 <= j < |out| && out[j] == m;
        assert m == log.rows[j];
      }
    }
  }

  /** The merges of the run hold `id` while they append, too. */
  predicate MergesHold(cap: nat, log: Log, steps: seq<Step>, id: string) {
    steps != [] ==>
      && MergesHold(cap, log, steps[..|steps| - 1], id)
      && var s := steps[|steps| - 1];
         s.Merge? ==> HeldDuringMerge(cap, AbsorbHead(Run(cap, log, steps[..|steps| - 1]), s.other), s.other.rows, id)
  }

  /** A tombstone stays a tombstone for as long as its row is held, whatever else happens. */
  lemma {:induction false} TombstoneStays(cap: nat, log: Log, steps: seq<Step>, id: string)
    requires Valid(cap, log) && NoClash(cap, log, steps)
    requires HeldThroughout(cap, log, steps, id) && MergesHold(cap, log, steps, id)
    requires Deleted(log, id)
    ensures Deleted(Run(cap, log, steps), id)
    ensures exists m :: m in Run(cap, log, steps).rows && m.id == id && m.isDeleted
    decreases |steps|
  {
    RunKeepsValid(cap, log, steps);
    assert id in IdSet(Run(cap, log, steps).rows);
    if steps != [] {
      var init, s := steps[..|steps| - 1], steps[|steps| - 1];
      TombstoneStays(cap, log, init, id);
      RunKeepsValid(cap, log, init);
      var l := Run(cap, log, init);
      match s
      case Receive(m) => AppendKeepsDeleted(cap, l, m, id);
      case Change(e) => ChangeKeepsDeleted(cap, l, e, id);
      case Delete(d, x) =>
        if DeleteApplies(l, d, x) {
          var out := ApplyDelete(l, d, x).rows;
          forall m | m in out && m.id == id ensures m.isDeleted {
            var j :| 0 <= j < |out| && out[j] == m;
            assert j != FindLast(l.rows, x) ==> m == l.rows[j];
          }
        }
      case Merge(other) => MergeKeepsDeleted(cap, AbsorbHead(l, other), other.rows, id);
      case Seed(_) =>
      case ClearUnread =>
    }
  }
}
