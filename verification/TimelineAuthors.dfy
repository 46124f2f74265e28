/**
 Whose words are shown: a row is rewritten or deleted by its own author alone, in every run; and what a merge
 and a listed time of activity take over besides the rows.
 */
module TimelineAuthors {
  import opened Text
  import opened Timeline
  import opened TimelineRuns

  // ---- edits and deletions -----------------------------------------------------------------

  /** An edit changes only rows it names, of its own author, that are not deleted; none comes or goes. */
  lemma EditsAreTheAuthors(log: Log, e: Edit, i: nat)
    requires i < |log.rows|
    ensures var out := ApplyEdit(log, e);
      && |out.rows| == |log.rows|
      && (out.rows[i] != log.rows[i] ==>
            EqIgnoreCase(log.rows[i].author, e.editor) && !log.rows[i].isDeleted && Names(log.rows[i], e.target))
  {
  }

  lemma DeletionsAreTheAuthors(log: Log, deleter: string, id: string, i: nat)
    requires i < |log.rows|
    ensures var out := ApplyDelete(log, deleter, id);
      && |out.rows| == |log.rows|
      && (out.rows[i] != log.rows[i] ==> EqIgnoreCase(log.rows[i].author, deleter) && Names(log.rows[i], id))
  {
  }

  /** Somebody else's edit of a message is shown as a line of its own. */
  lemma StrangersEditIsAppended(cap: nat, log: Log, m: Message)
    requires m.editOf.Some?
    requires forall x | x in log.rows && Names(x, m.editOf.value) :: !EqIgnoreCase(x.author, m.author)
    ensures Arrive(cap, log, m) == Append(cap, log, m)
  {
    var i := Find(log.rows, m.editOf.value);
    if i >= 0 { assert log.rows[i] in log.rows; }
  }

  // ---- whole runs --------------------------------------------------------------------------

  /** No edit or deletion by this author. */
  predicate NotBy(s: Step, author: string) {
    && (s.Change? ==> !EqIgnoreCase(author, s.e.editor))
    && (s.Delete? ==> !EqIgnoreCase(author, s.deleter))
  }

  /** Whatever row bears the id of `x` is `x` itself. */
  predicate AsIs(log: Log, x: Message) {
    forall y | y in log.rows && y.id == x.id :: y == x
  }

  lemma AppendKeepsAsIs(cap: nat, log: Log, m: Message, x: Message)
    requires Valid(cap, log) && x.id in log.ids && AsIs(log, x)
    ensures AsIs(Append(cap, log, m), x)
  {
    AppendRows(cap, log, m);
    if m.id == x.id { assert x.id != ""; assert Refused(log, m); }
  }

  lemma {:induction false} MergeKeepsAsIs(cap: nat, log: Log, ms: seq<Message>, x: Message)
    requires Valid(cap, log) && AsIs(log, x) && HeldDuringMerge(cap, log, ms, x.id)
    ensures AsIs(AppendAll(cap, log, ms), x)
    decreases |ms|
  {
    if ms != [] {
      var init := ms[..|ms| - 1];
      MergeKeepsAsIs(cap, log, init, x);
      AppendAllKeepsValid(cap, log, init);
      AppendKeepsAsIs(cap, AppendAll(cap, log, init), ms[|ms| - 1], x);
    }
  }

  lemma ChangeKeepsAsIs(cap: nat, log: Log, e: Edit, x: Message)
    requires Valid(cap, log) && x.id in log.ids && AsIs(log, x) && !Clashes(log, e)
    requires !EqIgnoreCase(x.author, e.editor)
    ensures AsIs(ApplyEdit(log, e), x)
  {
    var out := ApplyEdit(log, e);
    forall y | y in out.rows && y.id == x.id ensures y == x {
      var j :| 0 <= j < |out.rows| && out.rows[j] == y;
      assert log.rows[j] in log.rows;
      EditsAreTheAuthors(log, e, j);
    }
  }

  lemma DeleteKeepsAsIs(log: Log, deleter: string, id: string, x: Message)
    requires AsIs(log, x) && !EqIgnoreCase(x.author, deleter)
    ensures AsIs(ApplyDelete(log, deleter, id), x)
  {
    var out := ApplyDelete(log, deleter, id);
    forall y | y in out.rows && y.id == x.id ensures y == x {
      var j :| 0 <= j < |out.rows| && out.rows[j] == y;
      DeletionsAreTheAuthors(log, deleter, id, j);
      assert log.rows[j] in log.rows;
    }
  }

  /**
   In every run without an edit or a deletion by its author, a row stays exactly as it is for as long as its
   id is held, whatever others send, edit, delete or bring along in a merge.
   */
  lemma {:induction false} OnlyTheAuthorChanges(cap: nat, log: Log, steps: seq<Step>, x: Message)
    requires Valid(cap, log) && NoClash(cap, log, steps) && x in log.rows && x.id != ""
    requires HeldThroughout(cap, log, steps, x.id) && MergesHold(cap, log, steps, x.id)
    requires forall s | s in steps :: NotBy(s, x.author)
    ensures AsIs(Run(cap, log, steps), x) && x in Run(cap, log, steps).rows
    decreases |steps|
  {
    RunKeepsValid(cap, log, steps);
    assert x.id in IdSet(Run(cap, log, steps).rows);
    if steps == [] {
      SameIdSameRow(cap, log, x);
    } else {
      var init, s := steps[..|steps| - 1], steps[|steps| - 1];
      assert s in steps && forall t | t in init :: t in steps;
      OnlyTheAuthorChanges(cap, log, init, x);
      RunKeepsValid(cap, log, init);
      StepKeepsAsIs(cap, Run(cap, log, init), s, x);
    }
  }

  lemma SameIdSameRow(cap: nat, log: Log, x: Message)
    requires Valid(cap, log) && x in log.rows && x.id != ""
    ensures AsIs(log, x)
  {
    var i :| 0 <= i < |log.rows| && log.rows[i] == x;
    forall y | y in log.rows && y.id == x.id ensures y == x {
      var j :| 0 <= j < |log.rows| && log.rows[j] == y;
    }
  }

  lemma StepKeepsAsIs(cap: nat, log: Log, s: Step, x: Message)
    requires Valid(cap, log) && x.id in log.ids && AsIs(log, x) && NotBy(s, x.author)
    requires s.Change? ==> !Clashes(log, s.e)
    requires s.Merge? ==> HeldDuringMerge(cap, AbsorbHead(log, s.other), s.other.rows, x.id)
    ensures AsIs(Do(cap, log, s), x)
  {
    match s
    case Receive(m) => AppendKeepsAsIs(cap, log, m, x);
    case Change(e) => ChangeKeepsAsIs(cap, log, e, x);
    case Delete(d, id) => DeleteKeepsAsIs(log, d, id, x);
    case Merge(other) => MergeKeepsAsIs(cap, AbsorbHead(log, other), other.rows, x);
    case Seed(_) =>
    case ClearUnread =>
  }

  /** Activity is told in whole seconds, rounded down, before the epoch too. */
  lemma SecondsAre(time: int)
    ensures 1_000_000_000 * Seconds(time) <= time < 1_000_000_000 * (Seconds(time) + 1)
  {
  }

  // ---- what else a merge and a listed time take over ---------------------------------------

  lemma {:induction false} AppendAllKeepsRest(cap: nat, log: Log, ms: seq<Message>)
    ensures var out := AppendAll(cap, log, ms);
      && out.topic == log.topic && out.call == log.call && out.unread == log.unread && out.name == log.name
      && log.lastActivity <= out.lastActivity
    decreases |ms|
  {
    if ms != [] {
      var l, m := AppendAll(cap, log, ms[..|ms| - 1]), ms[|ms| - 1];
      AppendAllKeepsRest(cap, log, ms[..|ms| - 1]);
      if !Refused(l, m) { EvictKeepsRest(cap, Inserted(l, m)); }
    }
  }

  lemma {:induction false} EvictKeepsRest(cap: nat, log: Log)
    ensures Evict(cap, log) == log.(rows := Evict(cap, log).rows, ids := Evict(cap, log).ids)
    decreases |log.rows|
  {
    if |log.rows| > cap { EvictKeepsRest(cap, log.(rows := log.rows[1..], ids := log.ids - {log.rows[0].id})); }
  }

  /**
   A merge loses neither topic nor call: the surviving thread keeps its own and otherwise takes the other's.
   It counts both threads' unread, up to the counter's limit, and is at least as recent as either.
   */
  lemma AbsorbTakesOver(cap: nat, log: Log, other: Log)
    ensures var out := Absorb(cap, log, other);
      && (log.topic != "" ==> out.topic == log.topic) && (log.topic == "" ==> out.topic == other.topic)
      && (log.call.Some? ==> out.call == log.call) && (log.call.None? ==> out.call == other.call)
      && (log.unread + other.unread <= 0xFFFF_FFFF ==> out.unread == log.unread + other.unread)
      && (log.unread + other.unread > 0xFFFF_FFFF ==> out.unread == 0xFFFF_FFFF)
      && log.lastActivity <= out.lastActivity && other.lastActivity <= out.lastActivity && out.name == log.name
  {
    AppendAllKeepsRest(cap, AbsorbHead(log, other), other.rows);
  }

  /** A listed time is taken over by an empty log, and by another when it is later; then it is the latest. */
  lemma SeededActivity(log: Log, seconds: int)
    ensures var out := SeedActivity(log, seconds);
      && out.rows == log.rows && seconds <= out.lastActivity
      && (log.rows == [] ==> out.lastActivity == seconds)
      && (log.rows != [] ==>
            log.lastActivity <= out.lastActivity && out.lastActivity in {seconds, log.lastActivity})
  {
  }
}
