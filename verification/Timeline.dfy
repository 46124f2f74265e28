/**
 The message log behind one conversation, as a value: a capped list of rows in time order,
 the set of message ids it holds, and the ids that edits have superseded.
 `Buffer` keeps the same data in fields and is proved against these functions.
 */
module Timeline {
  import opened Text
  import opened Seqs

  const NANOS_PER_SECOND: int := 1_000_000_000
  const U32_MAX: nat := 0xFFFF_FFFF

  /** `time` counts nanoseconds, the resolution rows are ordered by. */
  datatype Message = Message(
    id: string,
    author: string,
    text: string,
    isSystem: bool,
    isEdited: bool,
    isDeleted: bool,
    time: int,
    editOf: Option<string>,
    embed: Option<string>,
    linkMeta: Option<string>,
    reactions: map<string, set<string>>)

  datatype Log = Log(
    name: string,
    rows: seq<Message>,
    ids: set<string>,
    aliases: set<string>,
    unread: nat,
    lastActivity: int,
    topic: string,
    call: Option<string>)

  /** The content of an edit: who edits, which id it names, the edit's own id, and the new body. */
  datatype Edit = Edit(
    editor: string,
    target: string,
    newId: Option<string>,
    text: string,
    embed: Option<string>,
    linkMeta: Option<string>)

  function EmptyLog(name: string): Log {
    Log(name, [], {}, {}, 0, 0, "", None)
  }

  /** Whole seconds of a time stamp, rounded toward minus infinity. */
  function Seconds(time: int): int {
    time / NANOS_PER_SECOND
  }

  predicate IsLocal(id: string) {
    StartsWith(id, "local-")
  }

  /** `row` is an optimistic copy of our own message that the server message `m` confirms. */
  predicate IsEchoOf(row: Message, m: Message) {
    IsLocal(row.id) && EqIgnoreCase(row.author, m.author) && row.text == m.text
  }

  /** `id` is the row's current id or the root of its edit chain. */
  predicate Names(row: Message, id: string) {
    row.id == id || row.editOf == Some(id)
  }

  // ---- searching the rows -------------------------------------------------------------

  /** The last optimistic copy that `m` confirms, or -1. */
  function LastEcho(rows: seq<Message>, m: Message): (i: int)
    ensures -1 <= i < |rows|
    ensures i >= 0 ==> IsEchoOf(rows[i], m)
    ensures forall j | i < j < |rows| :: !IsEchoOf(rows[j], m)
  {
    if rows == [] then -1
    else if IsEchoOf(rows[|rows| - 1], m) then |rows| - 1
    else LastEcho(rows[..|rows| - 1], m)
  }

  /** How many rows stay in front of a row stamped `time`: all up to the last one not newer. */
  function InsertIndex(rows: seq<Message>, time: int): (k: int)
    ensures 0 <= k <= |rows|
    ensures k > 0 ==> rows[k - 1].time <= time
    ensures forall j | k <= j < |rows| :: time < rows[j].time
  {
    if rows == [] || rows[|rows| - 1].time <= time then |rows|
    else InsertIndex(rows[..|rows| - 1], time)
  }

  /** The first row `id` names, or -1; an empty id names nothing. */
  function Find(rows: seq<Message>, id: string): (i: int)
    ensures -1 <= i < |rows|
    ensures i >= 0 ==> id != "" && Names(rows[i], id) && forall j | 0 <= j < i :: !Names(rows[j], id)
    ensures i < 0 && id != "" ==> forall j | 0 <= j < |rows| :: !Names(rows[j], id)
  {
    if id == "" || rows == [] then -1
    else
      var i := Find(rows[..|rows| - 1], id);
      if i >= 0 then i
      else if Names(rows[|rows| - 1], id) then |rows| - 1
      else -1
  }

  /** The last row `id` names, or -1; deletion searches from the newest row. */
  function FindLast(rows: seq<Message>, id: string): (i: int)
    ensures -1 <= i < |rows|
    ensures i >= 0 ==> Names(rows[i], id)
    ensures forall j | i < j < |rows| :: !Names(rows[j], id)
  {
    if rows == [] then -1
    else if Names(rows[|rows| - 1], id) then |rows| - 1
    else FindLast(rows[..|rows| - 1], id)
  }

  // ---- operations ---------------------------------------------------------------------

  function Insert(rows: seq<Message>, m: Message): seq<Message> {
    InsertAt(rows, InsertIndex(rows, m.time), m)
  }

  /** Drop the optimistic copy that `m` confirms, if there is one. */
  function ConsumeEcho(log: Log, m: Message): Log {
    var i := LastEcho(log.rows, m);
    if m.author == "" || i < 0 then log
    else log.(rows := RemoveAt(log.rows, i), ids := log.ids - {log.rows[i].id})
  }

  function Evict(cap: nat, log: Log): Log
    decreases |log.rows|
  {
    if |log.rows| <= cap then log
    else Evict(cap, log.(rows := log.rows[1..], ids := log.ids - {log.rows[0].id}))
  }

  /** A message the log refuses: an id some edit superseded, or one it already holds. */
  predicate Refused(log: Log, m: Message) {
    m.id != "" && (m.id in log.aliases || m.id in log.ids)
  }

  /** The state between accepting `m` and inserting its row. */
  function Accept(log: Log, m: Message): Log {
    var l1 := if m.id != "" then log.(ids := log.ids + {m.id}) else log;
    var l2 := if !m.isSystem && !IsLocal(m.id) then ConsumeEcho(l1, m) else l1;
    if !m.isSystem && Seconds(m.time) > l2.lastActivity
    then l2.(lastActivity := Seconds(m.time)) else l2
  }

  /** The log just after a fresh message is inserted and before the oldest row is cut. */
  function Inserted(log: Log, m: Message): Log {
    var l := Accept(log, m);
    l.(rows := Insert(l.rows, m))
  }

  function Append(cap: nat, log: Log, m: Message): Log {
    if Refused(log, m) then log
    else Evict(cap, Inserted(log, m))
  }

  /** Append the messages one after the other. */
  function AppendAll(cap: nat, log: Log, ms: seq<Message>): Log {
    if ms == [] then log
    else Append(cap, AppendAll(cap, log, ms[..|ms| - 1]), ms[|ms| - 1])
  }

  predicate EditApplies(log: Log, e: Edit) {
    var i := Find(log.rows, e.target);
    i >= 0 && EqIgnoreCase(log.rows[i].author, e.editor) && !log.rows[i].isDeleted
  }

  /** The id an edited row takes, when it changes at all. */
  function SwapTo(e: Edit, oldId: string): Option<string> {
    if e.newId.Some? && e.newId.value != "" && e.newId.value != oldId then e.newId else None
  }

  function Rewrite(row: Message, e: Edit): Message {
    row.(text := e.text, isEdited := true, embed := e.embed, linkMeta := e.linkMeta,
         editOf := if row.editOf.None? then Some(e.target) else row.editOf,
         id := if SwapTo(e, row.id).Some? then SwapTo(e, row.id).value else row.id)
  }

  function ApplyEdit(log: Log, e: Edit): Log {
    if !EditApplies(log, e) then log
    else
      var i := Find(log.rows, e.target);
      var oldId := log.rows[i].id;
      var swap := SwapTo(e, oldId);
      log.(rows := log.rows[i := Rewrite(log.rows[i], e)],
           aliases := log.aliases + {e.target, oldId},
           ids := if swap.Some? then log.ids - {oldId} + {swap.value} else log.ids)
  }

  /** The edit a message carries when it names the message it rewrites. */
  function EditOf(m: Message): Edit {
    Edit(m.author, if m.editOf.Some? then m.editOf.value else "", Some(m.id), m.text, m.embed, m.linkMeta)
  }

  /** An incoming message in its conversation: an edit rewrites its row when it can, anything else is appended. */
  function Arrive(cap: nat, log: Log, m: Message): Log {
    if m.editOf.Some? && EditApplies(log, EditOf(m)) then ApplyEdit(log, EditOf(m)) else Append(cap, log, m)
  }

  function Tombstone(row: Message): Message {
    row.(isDeleted := true, text := "", embed := None, linkMeta := None, reactions := map[])
  }

  predicate DeleteApplies(log: Log, deleter: string, id: string) {
    var i := FindLast(log.rows, id);
    i >= 0 && EqIgnoreCase(log.rows[i].author, deleter)
  }

  function ApplyDelete(log: Log, deleter: string, id: string): Log {
    if !DeleteApplies(log, deleter, id) then log
    else
      var i := FindLast(log.rows, id);
      log.(rows := log.rows[i := Tombstone(log.rows[i])])
  }

  function SaturatingAdd(a: nat, b: nat): nat {
    if a + b <= U32_MAX then a + b else U32_MAX
  }

  /** What absorbing `other` changes before its messages are appended. */
  function AbsorbHead(log: Log, other: Log): Log {
    log.(unread := SaturatingAdd(log.unread, other.unread),
         lastActivity := if other.lastActivity > log.lastActivity then other.lastActivity else log.lastActivity)
  }

  function Absorb(cap: nat, log: Log, other: Log): Log {
    var l := AppendAll(cap, AbsorbHead(log, other), other.rows);
    l.(topic := if l.topic == "" && other.topic != "" then other.topic else l.topic,
       call := if l.call.None? then other.call else l.call)
  }

  /** Take over a server-reported time of last activity, in seconds. */
  function SeedActivity(log: Log, seconds: int): Log {
    if log.rows == [] || seconds > log.lastActivity then log.(lastActivity := seconds) else log
  }

  // ---- representation invariant -------------------------------------------------------

  predicate Sorted(rows: seq<Message>) {
    forall i, j | 0 <= i < j < |rows| :: rows[i].time <= rows[j].time
  }

  predicate DistinctIds(rows: seq<Message>) {
    forall i, j | 0 <= i < j < |rows| && rows[i].id != "" :: rows[i].id != rows[j].id
  }

  function IdSet(rows: seq<Message>): set<string> {
    set m | m in rows && m.id != "" :: m.id
  }

  predicate ActivityCovers(rows: seq<Message>, seconds: int) {
    forall m | m in rows && !m.isSystem :: Seconds(m.time) <= seconds
  }

  predicate Valid(cap: nat, log: Log) {
    && Sorted(log.rows)
    && |log.rows| <= cap
    && DistinctIds(log.rows)
    && log.ids == IdSet(log.rows)
    && ActivityCovers(log.rows, log.lastActivity)
  }

  // ---- append -------------------------------------------------------------------------

  lemma InsertKeepsOrder(rows: seq<Message>, m: Message)
    requires Sorted(rows)
    ensures Sorted(Insert(rows, m))
  {
    var k := InsertIndex(rows, m.time);
    var out := Insert(rows, m);
    assert forall i | 0 <= i < k :: rows[i].time <= rows[k - 1].time;
    forall i, j | 0 <= i < j < |out|
      ensures out[i].time <= out[j].time
    {
      if j < k {
        assert out[i] == rows[i] && out[j] == rows[j];
      } else if j == k {
        assert out[i] == rows[i] && out[j] == m;
      } else if i == k {
        assert out[i] == m && out[j] == rows[j - 1];
      } else {
        assert out[i] == rows[if i < k then i else i - 1] && out[j] == rows[j - 1];
      }
    }
  }

  lemma InsertKeepsIds(rows: seq<Message>, m: Message)
    requires DistinctIds(rows) && (m.id == "" || m.id !in IdSet(rows))
    ensures DistinctIds(Insert(rows, m))
    ensures IdSet(Insert(rows, m)) == if m.id == "" then IdSet(rows) else IdSet(rows) + {m.id}
  {
    var k := InsertIndex(rows, m.time);
    var out := Insert(rows, m);
    InsertAtElements(rows, k, m);
    forall i, j | 0 <= i < j < |out| && out[i].id != ""
      ensures out[i].id != out[j].id
    {
      assert i != k ==> out[i] == rows[if i < k then i else i - 1];
      assert j != k ==> out[j] == rows[if j < k then j else j - 1];
    }
  }

  lemma RemoveKeepsOrder(rows: seq<Message>, k: nat)
    requires k < |rows| && Sorted(rows)
    ensures Sorted(RemoveAt(rows, k))
  {
    var out := RemoveAt(rows, k);
    forall i, j | 0 <= i < j < |out|
      ensures out[i].time <= out[j].time
    {
      assert out[i] == rows[if i < k then i else i + 1];
      assert out[j] == rows[if j < k then j else j + 1];
    }
  }

  lemma RemoveKeepsIds(rows: seq<Message>, k: nat)
    requires k < |rows| && DistinctIds(rows)
    ensures DistinctIds(RemoveAt(rows, k))
    ensures IdSet(RemoveAt(rows, k)) == IdSet(rows) - {rows[k].id}
  {
    var out := RemoveAt(rows, k);
    RemoveAtElements(rows, k);
    forall i | 0 <= i < |out|
      ensures out[i] == rows[if i < k then i else i + 1]
      ensures out[i].id == "" || out[i].id != rows[k].id
    {
    }
    forall i, j | 0 <= i < j < |out| && out[i].id != ""
      ensures out[i].id != out[j].id
    {
      assert out[i] == rows[if i < k then i else i + 1];
      assert out[j] == rows[if j < k then j else j + 1];
    }
    forall id | id in IdSet(out) ensures id != rows[k].id {
      var x :| x in out && x.id == id;
      var i :| 0 <= i < |out| && out[i] == x;
    }
  }

  /** At most one row is cut, the oldest. */
  lemma EvictOne(cap: nat, log: Log)
    requires |log.rows| <= cap + 1
    ensures Evict(cap, log) ==
      if |log.rows| <= cap then log
      else log.(rows := log.rows[1..], ids := log.ids - {log.rows[0].id})
  {
  }

  /** Dropping a confirmed copy removes one row and its id. */
  lemma ConsumeKeepsValid(cap: nat, log: Log, m: Message)
    requires Valid(cap, log)
    ensures Valid(cap, ConsumeEcho(log, m))
    ensures ConsumeEcho(log, m).ids <= log.ids
  {
    var i := LastEcho(log.rows, m);
    if m.author != "" && i >= 0 {
      RemoveKeepsOrder(log.rows, i);
      RemoveKeepsIds(log.rows, i);
      RemoveAtElements(log.rows, i);
    }
  }

  /** The id set runs one ahead of the rows while a fresh message is being accepted. */
  lemma AcceptConsumes(log: Log, m: Message)
    requires !Refused(log, m)
    ensures var c := if !m.isSystem && !IsLocal(m.id) then ConsumeEcho(log, m) else log;
      Accept(log, m) == c.(
        ids := if m.id == "" then c.ids else c.ids + {m.id},
        lastActivity := if !m.isSystem && Seconds(m.time) > c.lastActivity then Seconds(m.time) else c.lastActivity)
  {
    var i := LastEcho(log.rows, m);
    if m.id != "" && !IsLocal(m.id) && i >= 0 {
      assert log.rows[i].id != m.id;
      assert log.ids + {m.id} - {log.rows[i].id} == log.ids - {log.rows[i].id} + {m.id};
    }
  }

  /** Accepting a fresh message leaves a valid log, but for the id still without a row. */
  lemma AcceptFacts(cap: nat, log: Log, m: Message)
    requires Valid(cap, log) && !Refused(log, m)
    ensures var l := Accept(log, m);
      && Valid(cap, l.(ids := IdSet(l.rows)))
      && (m.id == "" || m.id !in IdSet(l.rows))
      && l.ids == (if m.id == "" then IdSet(l.rows) else IdSet(l.rows) + {m.id})
      && (!m.isSystem ==> Seconds(m.time) <= l.lastActivity)
      && l.aliases == log.aliases
  {
    AcceptConsumes(log, m);
    ConsumeKeepsValid(cap, log, m);
  }

  /** Only old rows remain while a message is being accepted. */
  lemma AcceptRows(log: Log, m: Message)
    ensures forall x | x in Accept(log, m).rows :: x in log.rows
  {
    var i := LastEcho(log.rows, m);
    if i >= 0 { RemoveAtElements(log.rows, i); }
  }

  lemma EvictKeepsValid(cap: nat, log: Log)
    requires Valid(cap + 1, log)
    ensures Valid(cap, Evict(cap, log))
    ensures Evict(cap, log).aliases == log.aliases
  {
    EvictOne(cap, log);
    if |log.rows| > cap {
      RemoveKeepsOrder(log.rows, 0);
      RemoveKeepsIds(log.rows, 0);
      RemoveAtElements(log.rows, 0);
      assert RemoveAt(log.rows, 0) == log.rows[1..];
    }
  }

  lemma InsertedValid(cap: nat, log: Log, m: Message)
    requires Valid(cap, log) && !Refused(log, m)
    ensures Valid(cap + 1, Inserted(log, m))
    ensures Inserted(log, m).aliases == log.aliases
  {
    AcceptFacts(cap, log, m);
    var rows := Accept(log, m).rows;
    InsertKeepsOrder(rows, m);
    InsertKeepsIds(rows, m);
    InsertAtElements(rows, InsertIndex(rows, m.time), m);
  }

  /** Appending any message keeps the representation invariant. */
  lemma AppendKeepsValid(cap: nat, log: Log, m: Message)
    requires Valid(cap, log)
    ensures Valid(cap, Append(cap, log, m))
    ensures Append(cap, log, m).aliases == log.aliases
  {
    if !Refused(log, m) {
      InsertedValid(cap, log, m);
      EvictKeepsValid(cap, Inserted(log, m));
    }
  }

  lemma {:induction false} AppendAllKeepsValid(cap: nat, log: Log, ms: seq<Message>)
    requires Valid(cap, log)
    ensures Valid(cap, AppendAll(cap, log, ms))
    ensures AppendAll(cap, log, ms).aliases == log.aliases
    decreases |ms|
  {
    if ms != [] {
      AppendAllKeepsValid(cap, log, ms[..|ms| - 1]);
      AppendKeepsValid(cap, AppendAll(cap, log, ms[..|ms| - 1]), ms[|ms| - 1]);
    }
  }
}
