/**
 Edit chains: one row, rewritten again and again under new ids while other traffic flows
 through the log.
 */
module TimelineEdits {
  import opened Text
  import opened Timeline
  import opened TimelineRuns

  /** `row` is the one row of the log that `root` or its own id names, and it is editable. */
  predicate Chain(log: Log, row: Message, root: string) {
    && row in log.rows && row.id != "" && root != "" && !row.isDeleted
    && (if row.editOf.None? then row.id == root else row.editOf == Some(root))
    && (forall x | x in log.rows && x != row :: !Names(x, root) && !Names(x, row.id))
  }

  /** No row of the log answers to `id`; an id superseded earlier may come again. */
  predicate Fresh(log: Log, id: string) {
    id != "" && forall x | x in log.rows :: !Names(x, id)
  }

  /**
   An edit by the row's author that names the root or the row's present id. The server's brings an id
   no row answers to, perhaps one that history replays; the optimistic rewrite before it brings none.
   */
  predicate AuthorEdit(log: Log, row: Message, root: string, e: Edit) {
    && (e.target == root || e.target == row.id)
    && EqIgnoreCase(e.editor, row.author)
    && (SwapTo(e, row.id).Some? ==> Fresh(log, e.newId.value))
  }

  /** Both lookups reach the chain's row by its root and by its present id. */
  lemma ChainFound(log: Log, row: Message, root: string, id: string)
    requires Chain(log, row, root) && (id == root || id == row.id)
    ensures var i := Find(log.rows, id); i >= 0 && log.rows[i] == row
    ensures var i := FindLast(log.rows, id); i >= 0 && log.rows[i] == row
  {
    assert Names(row, id) && id != "";
    var k :| 0 <= k < |log.rows| && log.rows[k] == row;
    var i, j := Find(log.rows, id), FindLast(log.rows, id);
    assert i >= 0 && j >= k;
    assert log.rows[i] in log.rows && log.rows[j] in log.rows;
  }

  /**
   An author's edit rewrites exactly the chain's row, in place: same position, same time, the new
   text, and the new id if it brings one; the ids it names and finds are refused from now on, and
   the chain goes on.
   */
  lemma EditRewritesInPlace(cap: nat, log: Log, row: Message, root: string, e: Edit)
    requires Valid(cap, log) && Chain(log, row, root) && AuthorEdit(log, row, root, e)
    ensures var i := Find(log.rows, e.target); var out := ApplyEdit(log, e);
      && 0 <= i < |log.rows| && out.rows == log.rows[i := Rewrite(row, e)]
      && Rewrite(row, e).time == row.time && Rewrite(row, e).author == row.author
      && Rewrite(row, e).text == e.text && Rewrite(row, e).embed == e.embed && Rewrite(row, e).linkMeta == e.linkMeta
      && Rewrite(row, e).isEdited && !Rewrite(row, e).isDeleted && Rewrite(row, e).isSystem == row.isSystem
      && Rewrite(row, e).reactions == row.reactions && Rewrite(row, e).editOf == Some(root)
      && Rewrite(row, e).id == (if e.newId.Some? && e.newId.value != "" then e.newId.value else row.id)
      && out.aliases == log.aliases + {e.target, row.id}
      && Valid(cap, out) && Chain(out, Rewrite(row, e), root)
  {
    ChainFound(log, row, root, e.target);
    var i := Find(log.rows, e.target);
    var new', out := Rewrite(row, e), ApplyEdit(log, e);
    assert Names(row, root) && Names(row, row.id);
    assert !Clashes(log, e);
    EditKeepsValidIff(cap, log, e);
    assert out.rows[i] == new';
    forall x | x in out.rows && x != new' ensures !Names(x, root) && !Names(x, new'.id) {
      var j :| 0 <= j < |out.rows| && out.rows[j] == x;
      assert x == log.rows[j] && x in log.rows;
    }
  }

  /** A message that names neither the root nor the row's id leaves the chain alone while its row is held. */
  lemma TrafficKeepsChain(cap: nat, log: Log, row: Message, root: string, m: Message)
    requires Valid(cap, log) && Chain(log, row, root)
    requires Refused(log, m) || (!Names(m, root) && !Names(m, row.id))
    requires row.id in Append(cap, log, m).ids
    ensures Chain(Append(cap, log, m), row, root)
  {
    AppendRows(cap, log, m);
    AppendKeepsValid(cap, log, m);
    var out := Append(cap, log, m);
    var y :| y in out.rows && y.id == row.id;
    if y in log.rows && y != row { assert !Names(y, row.id); }
  }

  /** Rewriting another row under an id unrelated to the chain leaves the chain alone. */
  lemma OtherEditKeepsChain(cap: nat, log: Log, row: Message, root: string, e: Edit)
    requires Valid(cap, log) && Chain(log, row, root) && EditApplies(log, e)
    requires log.rows[Find(log.rows, e.target)] != row
    requires e.newId != Some(root) && e.newId != Some(row.id)
    ensures Chain(ApplyEdit(log, e), row, root)
  {
    var i, out := Find(log.rows, e.target), ApplyEdit(log, e);
    assert log.rows[i] in log.rows;
    assert e.target != root && e.target != row.id by {
      if e.target == root || e.target == row.id { ChainFound(log, row, root, e.target); }
    }
    ReplaceOther(log.rows, i, Rewrite(log.rows[i], e), row);
  }

  lemma ReplaceOther(rows: seq<Message>, i: nat, new': Message, row: Message)
    requires i < |rows| && row in rows && rows[i] != row
    ensures row in rows[i := new']
    ensures forall x | x in rows[i := new'] :: x == new' || x in rows
  {
    var k :| 0 <= k < |rows| && rows[k] == row;
    assert rows[i := new'][k] == row;
    forall x | x in rows[i := new'] ensures x == new' || x in rows {
      var j :| 0 <= j < |rows| && rows[i := new'][j] == x;
    }
  }

  /** Deleting another row leaves the chain alone. */
  lemma OtherDeleteKeepsChain(log: Log, row: Message, root: string, deleter: string, id: string)
    requires Chain(log, row, root) && DeleteApplies(log, deleter, id)
    requires log.rows[FindLast(log.rows, id)] != row
    ensures Chain(ApplyDelete(log, deleter, id), row, root)
  {
    var i := FindLast(log.rows, id);
    assert log.rows[i] in log.rows;
    ReplaceOther(log.rows, i, Tombstone(log.rows[i]), row);
  }

  /**
   The author's deletion, by root or present id, leaves an empty tombstone in the row's place and
   ends the chain: no edit that names it applies any more. Anybody else's deletion does nothing.
   */
  lemma DeletionEndsChain(cap: nat, log: Log, row: Message, root: string, deleter: string, id: string, e: Edit)
    requires Valid(cap, log) && Chain(log, row, root)
    requires (id == root || id == row.id) && (e.target == root || e.target == row.id)
    ensures var i, out := FindLast(log.rows, id), ApplyDelete(log, deleter, id);
      && 0 <= i < |log.rows| && log.rows[i] == row
      && (if EqIgnoreCase(row.author, deleter)
          then out.rows == log.rows[i := Tombstone(row)] && Tombstone(row).isDeleted && Tombstone(row).text == ""
               && Tombstone(row).embed == Tombstone(row).linkMeta == None && Tombstone(row).reactions == map[]
               && Tombstone(row).id == row.id && Tombstone(row).author == row.author && Tombstone(row).time == row.time
               && Tombstone(row).editOf == row.editOf && Tombstone(row).isSystem == row.isSystem
               && out.ids == log.ids && !EditApplies(out, e)
          else out == log)
  {
    ChainFound(log, row, root, id);
    ChainFound(log, row, root, e.target);
    var i, out := FindLast(log.rows, id), ApplyDelete(log, deleter, id);
    var j := Find(out.rows, e.target);
    assert out != log ==> Names(out.rows[i], e.target);
  }

  // ---- whole runs ---------------------------------------------------------------------

  /** The step edits the chain's row. */
  predicate Hits(log: Log, row: Message, s: Step) {
    s.Change? && EditApplies(log, s.e) && log.rows[Find(log.rows, s.e.target)] == row
  }

  /** A message that the log refuses or that has nothing to do with the row, and that leaves the row held. */
  predicate Bystander(cap: nat, log: Log, row: Message, root: string, m: Message) {
    (Refused(log, m) || (!Names(m, root) && !Names(m, row.id))) && row.id in Append(cap, log, m).ids
  }

  /** Every message of a merge is one when it is appended. */
  predicate Bystanders(cap: nat, log: Log, row: Message, root: string, ms: seq<Message>) {
    ms != [] ==>
      var init := ms[..|ms| - 1];
      Bystanders(cap, log, row, root, init) && Bystander(cap, AppendAll(cap, log, init), row, root, ms[|ms| - 1])
  }

  lemma {:induction false} MergeKeepsChain(cap: nat, log: Log, row: Message, root: string, ms: seq<Message>)
    requires Valid(cap, log) && Chain(log, row, root) && Bystanders(cap, log, row, root, ms)
    ensures Chain(AppendAll(cap, log, ms), row, root)
    decreases |ms|
  {
    if ms != [] {
      var init := ms[..|ms| - 1];
      MergeKeepsChain(cap, log, row, root, init);
      AppendAllKeepsValid(cap, log, init);
      TrafficKeepsChain(cap, AppendAll(cap, log, init), row, root, ms[|ms| - 1]);
    }
  }

  /** A step that either is an author's edit of the row or has nothing to do with it, and keeps it held. */
  predicate StepOk(cap: nat, log: Log, row: Message, root: string, s: Step) {
    match s
    case Receive(m) => Bystander(cap, log, row, root, m)
    case Change(e) =>
      AuthorEdit(log, row, root, e) ||
      (EditApplies(log, e) ==>
         !Hits(log, row, s) && !Clashes(log, e) && e.newId != Some(root) && e.newId != Some(row.id))
    case Delete(d, id) => DeleteApplies(log, d, id) ==> log.rows[FindLast(log.rows, id)] != row
    case Merge(other) => Bystanders(cap, AbsorbHead(log, other), row, root, other.rows)
    case Seed(_) => true
    case ClearUnread => true
  }

  /** The chain's row after the run. */
  function Current(cap: nat, log: Log, row: Message, steps: seq<Step>): Message {
    if steps == [] then row
    else
      var init, s := steps[..|steps| - 1], steps[|steps| - 1];
      var now := Current(cap, log, row, init);
      if Hits(Run(cap, log, init), now, s) then Rewrite(now, s.e) else now
  }

  /** The ids the chain's row bore when it was edited: given up, or kept by an optimistic rewrite. */
  function Superseded(cap: nat, log: Log, row: Message, steps: seq<Step>): set<string> {
    if steps == [] then {}
    else
      var init, s := steps[..|steps| - 1], steps[|steps| - 1];
      var now := Current(cap, log, row, init);
      Superseded(cap, log, row, init) + if Hits(Run(cap, log, init), now, s) then {now.id} else {}
  }

  predicate ChainOk(cap: nat, log: Log, row: Message, root: string, steps: seq<Step>) {
    steps != [] ==>
      var init, s := steps[..|steps| - 1], steps[|steps| - 1];
      ChainOk(cap, log, row, root, init) && StepOk(cap, Run(cap, log, init), Current(cap, log, row, init), root, s)
  }

  lemma ChainStep(cap: nat, log: Log, row: Message, root: string, s: Step)
    requires Valid(cap, log) && Chain(log, row, root) && StepOk(cap, log, row, root, s)
    ensures Valid(cap, Do(cap, log, s))
    ensures log.aliases <= Do(cap, log, s).aliases
    ensures Hits(log, row, s) ==> row.id in Do(cap, log, s).aliases
    ensures Chain(Do(cap, log, s), if Hits(log, row, s) then Rewrite(row, s.e) else row, root)
  {
    match s
    case Receive(m) =>
      AppendKeepsValid(cap, log, m);
      TrafficKeepsChain(cap, log, row, root, m);
    case Change(e) =>
      if AuthorEdit(log, row, root, e) {
        ChainFound(log, row, root, e.target);
        EditRewritesInPlace(cap, log, row, root, e);
      } else {
        EditKeepsValidIff(cap, log, e);
        if EditApplies(log, e) { OtherEditKeepsChain(cap, log, row, root, e); }
      }
    case Delete(d, id) =>
      DeleteKeepsValid(cap, log, d, id);
      if DeleteApplies(log, d, id) { OtherDeleteKeepsChain(log, row, root, d, id); }
    case Merge(other) =>
      AbsorbKeepsValid(cap, log, other);
      MergeKeepsChain(cap, AbsorbHead(log, other), row, root, other.rows);
    case Seed(_) =>
    case ClearUnread =>
  }

  /**
   However many times the author edits, and whatever unrelated traffic is interleaved, there is
   one row for the conversation's message: it keeps its time stamp, carries the last edit, is
   reached by its root and by its present id, and every id it was edited under is refused.
   */
  lemma {:induction false} EditChain(cap: nat, log: Log, row: Message, root: string, steps: seq<Step>)
    requires Valid(cap, log) && Chain(log, row, root) && ChainOk(cap, log, row, root, steps)
    ensures var out, now := Run(cap, log, steps), Current(cap, log, row, steps);
      && Valid(cap, out) && Chain(out, now, root)
      && now.time == row.time && now.author == row.author
      && log.aliases + Superseded(cap, log, row, steps) <= out.aliases
    decreases |steps|
  {
    if steps != [] {
      var init, s := steps[..|steps| - 1], steps[|steps| - 1];
      EditChain(cap, log, row, root, init);
      ChainStep(cap, Run(cap, log, init), Current(cap, log, row, init), root, s);
    }
  }

  /** After the run the row still answers to its root, for editing and for deletion alike. */
  lemma ChainStillFound(cap: nat, log: Log, row: Message, root: string, steps: seq<Step>, id: string)
    requires Valid(cap, log) && Chain(log, row, root) && ChainOk(cap, log, row, root, steps)
    requires id == root || id == Current(cap, log, row, steps).id
    ensures var rows := Run(cap, log, steps).rows; var i, j := Find(rows, id), FindLast(rows, id);
      i >= 0 && j >= 0 && rows[i] == rows[j] == Current(cap, log, row, steps)
  {
    EditChain(cap, log, row, root, steps);
    ChainFound(Run(cap, log, steps), Current(cap, log, row, steps), root, id);
  }

  /** The edit would leave its row and the superseded ids as they are. */
  predicate Repeats(log: Log, e: Edit)
    requires EditApplies(log, e)
  {
    var row := log.rows[Find(log.rows, e.target)];
    && row.text == e.text && row.isEdited && row.embed == e.embed && row.linkMeta == e.linkMeta
    && row.editOf.Some? && SwapTo(e, row.id).None? && {e.target, row.id} <= log.aliases
  }

  lemma EditRepeatsIff(log: Log, e: Edit)
    requires EditApplies(log, e)
    ensures ApplyEdit(log, e) == log <==> Repeats(log, e)
  {
    var i, out := Find(log.rows, e.target), ApplyEdit(log, e);
    assert out.rows[i] == Rewrite(log.rows[i], e);
    if Repeats(log, e) {
      assert Rewrite(log.rows[i], e) == log.rows[i];
      assert out.rows == log.rows;
    }
  }

  /**
   A message under a superseded id changes nothing exactly when it carries no edit that still applies,
   or one that repeats what its row says: the superseded ids are looked up for rows, not for edits.
   */
  lemma SupersededArrivesIff(cap: nat, log: Log, m: Message)
    requires m.id != "" && m.id in log.aliases
    ensures Arrive(cap, log, m) == log <==>
      !(m.editOf.Some? && EditApplies(log, EditOf(m))) || Repeats(log, EditOf(m))
  {
    if m.editOf.Some? && EditApplies(log, EditOf(m)) { EditRepeatsIff(log, EditOf(m)); }
  }

  /**
   The same for the texts a chain has left behind, however much later they are replayed: as rows they
   never return, as edits they return exactly when they apply and say something else.
   */
  lemma OldTextsReturnIff(cap: nat, log: Log, row: Message, root: string,
                          steps: seq<Step>, later: seq<Step>, m: Message)
    requires Valid(cap, log) && Chain(log, row, root) && ChainOk(cap, log, row, root, steps)
    requires NoClash(cap, Run(cap, log, steps), later)
    requires m.id in Superseded(cap, log, row, steps) && m.id != ""
    ensures var out := Run(cap, Run(cap, log, steps), later);
      && Append(cap, out, m) == out
      && (Arrive(cap, out, m) == out <==>
            !(m.editOf.Some? && EditApplies(out, EditOf(m))) || Repeats(out, EditOf(m)))
  {
    var mid := Run(cap, log, steps);
    EditChain(cap, log, row, root, steps);
    NoResurrection(cap, mid, later, m);
    RunKeepsValid(cap, mid, later);
    SupersededArrivesIff(cap, Run(cap, mid, later), m);
  }

  /** While the chain holds, a replayed edit by its author that names the root brings its old text back. */
  lemma ReplayRestoresOldText(cap: nat, log: Log, row: Message, root: string, m: Message)
    requires Valid(cap, log) && Chain(log, row, root)
    requires m.editOf == Some(root) && m.id != "" && m.id in log.aliases
    requires EqIgnoreCase(m.author, row.author) && (SwapTo(EditOf(m), row.id).Some? ==> Fresh(log, m.id))
    ensures var out, new' := Arrive(cap, log, m), Rewrite(row, EditOf(m));
      && new'.text == m.text && new'.id == m.id && new'.embed == m.embed && new'.linkMeta == m.linkMeta
      && Chain(out, new', root) && Valid(cap, out)
  {
    ChainFound(log, row, root, root);
    EditRewritesInPlace(cap, log, row, root, EditOf(m));
  }

  /** The row under an edit, and the edit as a message. */
  function EditRow(r: Message, id: string, text: string): Message {
    r.(id := id, text := text, editOf := Some("r"))
  }

  /** A log that holds one message "r". */
  function LogOf(name: string, r: Message): Log {
    EmptyLog(name).(rows := [r], ids := {"r"}, lastActivity := Seconds(r.time))
  }

  function EditedTwice(name: string, r: Message): Log {
    ApplyEdit(ApplyEdit(LogOf(name, r), EditOf(EditRow(r, "a", "one"))), EditOf(EditRow(r, "b", "two")))
  }

  /** "r" edited to "one" as "a" and then to "two" as "b". */
  lemma TwoEdits(name: string, r: Message)
    requires r.id == "r" && r.editOf == None && !r.isDeleted
    ensures var l := EditedTwice(name, r);
      && |l.rows| == 1 && l.rows[0].text == "two" && l.rows[0].id == "b" && l.rows[0].editOf == Some("r")
      && l.rows[0].author == r.author && !l.rows[0].isDeleted
      && l.aliases == {"r", "a"} && l.ids == {"b"}
  {
    var one, two := EditOf(EditRow(r, "a", "one")), EditOf(EditRow(r, "b", "two"));
    EditOnlyRow(LogOf(name, r), r, one);
    var l := ApplyEdit(LogOf(name, r), one);
    EditOnlyRow(l, l.rows[0], two);
  }

  /**
   An instance: "r" is edited to "one" as "a", then to "two" as "b"; when history delivers the first
   edit again, the row reads "one" once more, although "a" is superseded and no id clashes.
   */
  lemma ReplayedEditUndoesTheNext(cap: nat, name: string, r: Message)
    requires r.id == "r" && r.editOf == None && !r.isDeleted
    ensures var one, l := EditRow(r, "a", "one"), EditedTwice(name, r); var out := Arrive(cap, l, one);
      && |l.rows| == 1 == |out.rows| && "a" in l.aliases && !Clashes(l, EditOf(one))
      && l.rows[0].text == "two" && out.rows[0].text == "one" && out.rows[0].id == "a"
  {
    TwoEdits(name, r);
    var l := EditedTwice(name, r);
    EditOnlyRow(l, l.rows[0], EditOf(EditRow(r, "a", "one")));
  }

  /** An edit of a log's only row. */
  lemma EditOnlyRow(log: Log, row: Message, e: Edit)
    requires log.rows == [row] && e.target != "" && Names(row, e.target)
    requires !row.isDeleted && EqIgnoreCase(row.author, e.editor)
    ensures EditApplies(log, e) && ApplyEdit(log, e).rows == [Rewrite(row, e)]
    ensures ApplyEdit(log, e).aliases == log.aliases + {e.target, row.id}
    ensures SwapTo(e, row.id).Some? ==> ApplyEdit(log, e).ids == log.ids - {row.id} + {SwapTo(e, row.id).value}
  {
    assert Names(log.rows[0], e.target);
    assert Find(log.rows, e.target) == 0;
  }

  /**
   What the chain needs its fresh ids for: an edit whose new id another row bears leaves two
   rows with one id.
   */
  lemma ClashingEditDuplicatesAnId(cap: nat, name: string, a: Message, b: Message)
    requires cap >= 2 && a.id == "a" && b.id == "b" && a.time <= b.time && !a.isDeleted && a.editOf == b.editOf == None
    requires !a.isSystem && !b.isSystem
    ensures var l := EmptyLog(name).(rows := [a, b], ids := {"a", "b"}, lastActivity := Seconds(b.time));
      var out := ApplyEdit(l, Edit(a.author, "a", Some("b"), "new", None, None));
      Valid(cap, l) && out.rows[0].id == out.rows[1].id == "b" && !Valid(cap, out)
  {
    var l := EmptyLog(name).(rows := [a, b], ids := {"a", "b"}, lastActivity := Seconds(b.time));
    var e := Edit(a.author, "a", Some("b"), "new", None, None);
    assert IdSet([a, b]) == {"a", "b"} by { assert a in [a, b] && b in [a, b]; }
    assert Names(l.rows[0], "a");
    assert Find(l.rows, "a") == 0;
    EditKeepsValidIff(cap, l, e);
    assert Clashes(l, e);
  }
}
