/**
 Edits that arrive before the message they rewrite, as when history starts in the middle of a chain:
 which arrival orders leave a message and its edits as one row, and which show old text beside new.
 */
module TimelineArrivals {
  import opened Text
  import opened Seqs
  import opened Timeline

  /** The messages arrive one after the other. */
  function ArriveAll(cap: nat, log: Log, ms: seq<Message>): Log {
    if ms == [] then log
    else Arrive(cap, ArriveAll(cap, log, ms[..|ms| - 1]), ms[|ms| - 1])
  }

  /** The ones with these ids, in order. */
  function WithIds(ms: seq<Message>, ids: set<string>): seq<Message> {
    if ms == [] then []
    else WithIds(ms[..|ms| - 1], ids) + if ms[|ms| - 1].id in ids then [ms[|ms| - 1]] else []
  }

  // ---- what the rows of a chain do, and the rest of the log left aside ---------------------

  /** Nothing heard; one row, with the ids refused on its account; or several rows. */
  datatype Thread = Unheard | One(row: Message, gone: set<string>) | Apart

  predicate IsEditOf(m: Message, row: Message) {
    m.editOf.Some? && Names(row, m.editOf.value)
  }

  function Hear(t: Thread, m: Message): Thread {
    match t
    case Unheard => One(m, {})
    case One(row, gone) =>
      if IsEditOf(m, row) then One(Rewrite(row, EditOf(m)), gone + {m.editOf.value, row.id})
      else if m.id == row.id || m.id in gone then t
      else Apart
    case Apart => Apart
  }

  function HearAll(ms: seq<Message>): Thread {
    if ms == [] then Unheard
    else Hear(HearAll(ms[..|ms| - 1]), ms[|ms| - 1])
  }

  /** A message or an edit of a chain whose ids are `ids`, all by one author. */
  predicate InChain(m: Message, author: string, ids: set<string>) {
    && m.id in ids && m.id != "" && !IsLocal(m.id) && EqIgnoreCase(m.author, author) && !m.isDeleted
    && (m.editOf.Some? ==> m.editOf.value != "" && m.editOf.value in ids)
  }

  /** A row or a message that has nothing to do with the chain. */
  predicate Foreign(m: Message, ids: set<string>) {
    m.id !in ids && (m.editOf.Some? ==> m.editOf.value !in ids)
  }

  predicate Traffic(ms: seq<Message>, author: string, ids: set<string>) {
    forall m | m in ms :: InChain(m, author, ids) || Foreign(m, ids)
  }

  /** Every row belongs to the chain or has nothing to do with it. */
  predicate Rows(log: Log, author: string, ids: set<string>) {
    forall x | x in log.rows :: InChain(x, author, ids) || Foreign(x, ids)
  }

  /** The log shows what the thread says. */
  predicate Shows(log: Log, ids: set<string>, t: Thread) {
    match t
    case Unheard => WithIds(log.rows, ids) == [] && log.ids !! ids && log.aliases !! ids
    case One(row, gone) => WithIds(log.rows, ids) == [row] && log.ids * ids == {row.id} && log.aliases * ids == gone
    case Apart => |WithIds(log.rows, ids)| >= 2
  }

  // ---- rows with given ids -----------------------------------------------------------------

  lemma {:induction false} WithIdsConcat(a: seq<Message>, b: seq<Message>, ids: set<string>)
    ensures WithIds(a + b, ids) == WithIds(a, ids) + WithIds(b, ids)
    decreases |b|
  {
    if b == [] {
      assert a + b == a;
    } else {
      var init := b[..|b| - 1];
      assert (a + b)[..|a + b| - 1] == a + init;
      WithIdsConcat(a, init, ids);
    }
  }

  lemma WithIdsOne(m: Message, ids: set<string>)
    ensures WithIds([m], ids) == if m.id in ids then [m] else []
  {
    assert [m][..0] == [];
  }

  lemma {:induction false} WithIdsElements(ms: seq<Message>, ids: set<string>)
    ensures forall x :: x in WithIds(ms, ids) <==> x in ms && x.id in ids
    decreases |ms|
  {
    if ms != [] {
      var init, last := ms[..|ms| - 1], ms[|ms| - 1];
      WithIdsElements(init, ids);
      assert ms == init + [last];
      PrefixElements(init, last);
      PrefixElements(WithIds(init, ids), last);
    }
  }

  /** The rows of the chain before and behind row `i`. */
  lemma WithIdsAround(rows: seq<Message>, i: nat, ids: set<string>)
    requires i < |rows|
    ensures WithIds(rows, ids) == WithIds(rows[..i], ids) + WithIds([rows[i]], ids) + WithIds(rows[i + 1..], ids)
  {
    assert rows == rows[..i] + [rows[i]] + rows[i + 1..];
    WithIdsConcat(rows[..i] + [rows[i]], rows[i + 1..], ids);
    WithIdsConcat(rows[..i], [rows[i]], ids);
  }

  lemma WithIdsInsert(rows: seq<Message>, k: nat, m: Message, ids: set<string>)
    requires k <= |rows|
    ensures |WithIds(InsertAt(rows, k, m), ids)| == |WithIds(rows, ids)| + if m.id in ids then 1 else 0
    ensures m.id !in ids ==> WithIds(InsertAt(rows, k, m), ids) == WithIds(rows, ids)
    ensures m.id in ids && WithIds(rows, ids) == [] ==> WithIds(InsertAt(rows, k, m), ids) == [m]
  {
    assert rows == rows[..k] + rows[k..];
    WithIdsConcat(rows[..k], rows[k..], ids);
    WithIdsConcat(rows[..k] + [m], rows[k..], ids);
    WithIdsConcat(rows[..k], [m], ids);
    WithIdsOne(m, ids);
  }

  lemma WithIdsRemove(rows: seq<Message>, k: nat, ids: set<string>)
    requires k < |rows| && rows[k].id !in ids
    ensures WithIds(RemoveAt(rows, k), ids) == WithIds(rows, ids)
  {
    WithIdsAround(rows, k, ids);
    WithIdsOne(rows[k], ids);
    WithIdsConcat(rows[..k], rows[k + 1..], ids);
  }

  lemma WithIdsReplace(rows: seq<Message>, i: nat, row: Message, ids: set<string>)
    requires i < |rows| && (row.id in ids <==> rows[i].id in ids)
    ensures |WithIds(rows[i := row], ids)| == |WithIds(rows, ids)|
    ensures row.id !in ids ==> WithIds(rows[i := row], ids) == WithIds(rows, ids)
    ensures row.id in ids && |WithIds(rows, ids)| == 1 ==> WithIds(rows[i := row], ids) == [row]
  {
    var out := rows[i := row];
    WithIdsAround(rows, i, ids);
    WithIdsAround(out, i, ids);
    assert out[..i] == rows[..i] && out[i + 1..] == rows[i + 1..];
    WithIdsOne(rows[i], ids);
    WithIdsOne(row, ids);
  }

  // ---- one arrival -------------------------------------------------------------------------

  /** Accepting a message costs the log at most an optimistic row, which is none of the chain's. */
  lemma AcceptSparesChain(log: Log, author: string, ids: set<string>, m: Message)
    requires Rows(log, author, ids)
    ensures var l := Accept(log, m);
      && |l.rows| <= |log.rows| && WithIds(l.rows, ids) == WithIds(log.rows, ids)
      && l.ids * ids == log.ids * ids + ({m.id} - {""}) * ids && l.aliases == log.aliases
  {
    var i := LastEcho(log.rows, m);
    if i >= 0 {
      assert log.rows[i] in log.rows;
      WithIdsRemove(log.rows, i, ids);
    }
  }

  /** With room, an accepted message adds its row. */
  lemma AppendWithRoom(cap: nat, log: Log, author: string, ids: set<string>, m: Message)
    requires Rows(log, author, ids) && (InChain(m, author, ids) || Foreign(m, ids))
    requires |log.rows| < cap && !Refused(log, m)
    ensures var out := Append(cap, log, m);
      && |out.rows| <= |log.rows| + 1 && Rows(out, author, ids)
      && |WithIds(out.rows, ids)| == |WithIds(log.rows, ids)| + (if m.id in ids then 1 else 0)
      && (m.id !in ids ==> WithIds(out.rows, ids) == WithIds(log.rows, ids))
      && (m.id in ids && WithIds(log.rows, ids) == [] ==> WithIds(out.rows, ids) == [m])
      && out.ids * ids == log.ids * ids + ({m.id} - {""}) * ids && out.aliases == log.aliases
  {
    var rows := Accept(log, m).rows;
    AcceptSparesChain(log, author, ids, m);
    AcceptRows(log, m);
    WithIdsInsert(rows, InsertIndex(rows, m.time), m, ids);
    InsertAtElements(rows, InsertIndex(rows, m.time), m);
    EvictOne(cap, Inserted(log, m));
  }

  /** An edit of a row, of the chain by the chain or of another by another. */
  lemma EditOneSide(log: Log, author: string, ids: set<string>, m: Message)
    requires Rows(log, author, ids) && (InChain(m, author, ids) || Foreign(m, ids))
    requires m.editOf.Some? && EditApplies(log, EditOf(m))
    ensures var i, out := Find(log.rows, m.editOf.value), ApplyEdit(log, EditOf(m));
      && 0 <= i < |log.rows| && (log.rows[i].id in ids <==> m.id in ids) && Rows(out, author, ids)
      && |out.rows| == |log.rows| && |WithIds(out.rows, ids)| == |WithIds(log.rows, ids)|
      && (m.id !in ids ==> WithIds(out.rows, ids) == WithIds(log.rows, ids))
  {
    var i, out := Find(log.rows, m.editOf.value), ApplyEdit(log, EditOf(m));
    var row := Rewrite(log.rows[i], EditOf(m));
    assert log.rows[i] in log.rows;
    WithIdsReplace(log.rows, i, row, ids);
    forall x | x in out.rows ensures InChain(x, author, ids) || Foreign(x, ids) {
      var j :| 0 <= j < |out.rows| && out.rows[j] == x;
      assert j != i ==> x == log.rows[j] && x in log.rows;
    }
  }

  /** A message that has nothing to do with the chain changes nothing about it. */
  lemma ForeignStep(cap: nat, log: Log, author: string, ids: set<string>, t: Thread, m: Message)
    requires Rows(log, author, ids) && Shows(log, ids, t) && Foreign(m, ids) && |log.rows| < cap
    ensures var out := Arrive(cap, log, m);
      Rows(out, author, ids) && Shows(out, ids, t) && |out.rows| <= |log.rows| + 1
  {
    if m.editOf.Some? && EditApplies(log, EditOf(m)) {
      ForeignEdit(log, author, ids, t, m);
    } else if !Refused(log, m) {
      AppendWithRoom(cap, log, author, ids, m);
    }
  }

  lemma ForeignEdit(log: Log, author: string, ids: set<string>, t: Thread, m: Message)
    requires Rows(log, author, ids) && Shows(log, ids, t) && Foreign(m, ids)
    requires m.editOf.Some? && EditApplies(log, EditOf(m))
    ensures var out := ApplyEdit(log, EditOf(m));
      Rows(out, author, ids) && Shows(out, ids, t) && |out.rows| == |log.rows|
  {
    EditOneSide(log, author, ids, m);
    var out := ApplyEdit(log, EditOf(m));
    assert out.ids * ids == log.ids * ids && out.aliases * ids == log.aliases * ids;
  }

  /** Which row an edit of the chain finds: one of the chain's. */
  lemma ChainEditFinds(log: Log, author: string, ids: set<string>, m: Message)
    requires Rows(log, author, ids) && InChain(m, author, ids) && m.editOf.Some?
    ensures var i := Find(log.rows, m.editOf.value);
      if i >= 0 then log.rows[i] in WithIds(log.rows, ids)
      else forall x | x in WithIds(log.rows, ids) :: !IsEditOf(m, x)
  {
    var i := Find(log.rows, m.editOf.value);
    WithIdsElements(log.rows, ids);
    if i >= 0 {
      assert log.rows[i] in log.rows;
    } else {
      forall x | x in WithIds(log.rows, ids) ensures !IsEditOf(m, x) {
        var j :| 0 <= j < |log.rows| && log.rows[j] == x;
      }
    }
  }

  /** The first of the chain to be heard becomes its row. */
  lemma FirstStep(cap: nat, log: Log, author: string, ids: set<string>, m: Message)
    requires Rows(log, author, ids) && Shows(log, ids, Unheard) && InChain(m, author, ids) && |log.rows| < cap
    ensures var out := Arrive(cap, log, m);
      Rows(out, author, ids) && Shows(out, ids, One(m, {})) && |out.rows| <= |log.rows| + 1
  {
    if m.editOf.Some? { ChainEditFinds(log, author, ids, m); }
    assert m.id !in log.ids && m.id !in log.aliases;
    AppendWithRoom(cap, log, author, ids, m);
  }

  lemma OneStep(cap: nat, log: Log, author: string, ids: set<string>, row: Message, gone: set<string>, m: Message)
    requires Rows(log, author, ids) && Shows(log, ids, One(row, gone)) && InChain(m, author, ids) && |log.rows| < cap
    ensures var out := Arrive(cap, log, m);
      Rows(out, author, ids) && Shows(out, ids, Hear(One(row, gone), m)) && |out.rows| <= |log.rows| + 1
  {
    WithIdsElements(log.rows, ids);
    assert row in WithIds(log.rows, ids);
    if m.editOf.Some? { ChainEditFinds(log, author, ids, m); }
    if IsEditOf(m, row) {
      RewriteStep(log, author, ids, row, gone, m);
    } else {
      assert m.id in log.ids <==> m.id in log.ids * ids;
      assert m.id in log.aliases <==> m.id in log.aliases * ids;
      if !Refused(log, m) { AppendWithRoom(cap, log, author, ids, m); }
    }
  }

  lemma RewriteStep(log: Log, author: string, ids: set<string>, row: Message, gone: set<string>, m: Message)
    requires Rows(log, author, ids) && Shows(log, ids, One(row, gone)) && InChain(m, author, ids) && IsEditOf(m, row)
    requires var i := Find(log.rows, m.editOf.value); i >= 0 && log.rows[i] == row
    ensures EditApplies(log, EditOf(m))
    ensures var out := ApplyEdit(log, EditOf(m));
      Rows(out, author, ids) && Shows(out, ids, Hear(One(row, gone), m)) && |out.rows| == |log.rows|
  {
    var i, out := Find(log.rows, m.editOf.value), ApplyEdit(log, EditOf(m));
    assert row in log.rows;
    assert row.id in log.ids * ids;
    EditOneSide(log, author, ids, m);
    WithIdsReplace(log.rows, i, Rewrite(row, EditOf(m)), ids);
    assert out.ids * ids == {m.id};
    assert out.aliases * ids == gone + {m.editOf.value, row.id};
  }

  /** Rows that have come apart never come together. */
  lemma ApartStep(cap: nat, log: Log, author: string, ids: set<string>, m: Message)
    requires Rows(log, author, ids) && Shows(log, ids, Apart) && InChain(m, author, ids) && |log.rows| < cap
    ensures var out := Arrive(cap, log, m);
      Rows(out, author, ids) && Shows(out, ids, Apart) && |out.rows| <= |log.rows| + 1
  {
    if m.editOf.Some? && EditApplies(log, EditOf(m)) {
      EditOneSide(log, author, ids, m);
    } else if !Refused(log, m) {
      AppendWithRoom(cap, log, author, ids, m);
    }
  }

  /** Any one arrival. */
  lemma ArrivalStep(cap: nat, log: Log, author: string, ids: set<string>, t: Thread, m: Message)
    requires Rows(log, author, ids) && Shows(log, ids, t) && |log.rows| < cap
    requires InChain(m, author, ids) || Foreign(m, ids)
    ensures var out := Arrive(cap, log, m);
      && Rows(out, author, ids) && |out.rows| <= |log.rows| + 1
      && Shows(out, ids, if m.id in ids then Hear(t, m) else t)
  {
    if m.id !in ids {
      ForeignStep(cap, log, author, ids, t, m);
    } else {
      match t
      case Unheard => FirstStep(cap, log, author, ids, m);
      case One(row, gone) => OneStep(cap, log, author, ids, row, gone, m);
      case Apart => ApartStep(cap, log, author, ids, m);
    }
  }

  // ---- every order of arrival --------------------------------------------------------------

  lemma HearMore(heard: seq<Message>, m: Message)
    ensures HearAll(heard + [m]) == Hear(HearAll(heard), m)
  {
    assert (heard + [m])[..|heard|] == heard;
  }

  /** What the chain makes of one more arrival, its own or another. */
  lemma HearOneMore(init: seq<Message>, m: Message, ids: set<string>)
    ensures HearAll(WithIds(init + [m], ids)) ==
      if m.id in ids then Hear(HearAll(WithIds(init, ids)), m) else HearAll(WithIds(init, ids))
  {
    WithIdsConcat(init, [m], ids);
    WithIdsOne(m, ids);
    HearMore(WithIds(init, ids), m);
    assert WithIds(init, ids) + [] == WithIds(init, ids);
  }

  /**
   Whatever else arrives in between, and as long as the log has room, it shows of a chain what the chain's
   own messages make of one another: one row, rewritten by the edits that name it, or several.
   */
  lemma {:induction false} ArrivalsShow(cap: nat, log: Log, author: string, ids: set<string>, ms: seq<Message>)
    requires Rows(log, author, ids) && Shows(log, ids, Unheard) && Traffic(ms, author, ids)
    requires |log.rows| + |ms| <= cap
    ensures var out := ArriveAll(cap, log, ms);
      && Rows(out, author, ids) && |out.rows| <= |log.rows| + |ms|
      && Shows(out, ids, HearAll(WithIds(ms, ids)))
    decreases |ms|
  {
    if ms != [] {
      var init, m := ms[..|ms| - 1], ms[|ms| - 1];
      assert m in ms && forall x | x in init :: x in ms;
      assert ms == init + [m];
      ArrivalsShow(cap, log, author, ids, init);
      HearOneMore(init, m, ids);
      ArrivalStep(cap, ArriveAll(cap, log, init), author, ids, HearAll(WithIds(init, ids)), m);
    }
  }

  // ---- edits that name the message itself --------------------------------------------------

  /** Arrivals of one message `r` and of edits that name it. */
  predicate MessageAndEdits(heard: seq<Message>, r: Message) {
    r.editOf.None? && forall m | m in heard :: m == r || (m.editOf == Some(r.id) && m.id != r.id)
  }

  /** The message itself comes right after the first edit. */
  predicate SecondOfAll(heard: seq<Message>, r: Message) {
    |heard| >= 2 && heard[0] != r && heard[1] == r
  }

  /** The text of the edit heard last, or of the message without one. */
  function LastText(heard: seq<Message>, r: Message): string {
    if heard == [] then r.text
    else if heard[|heard| - 1].editOf.Some? then heard[|heard| - 1].text
    else LastText(heard[..|heard| - 1], r)
  }

  /** The row goes by `root`, as itself or as the row of an edit. */
  predicate GoesBy(row: Message, root: string) {
    row.editOf == Some(root) || (row.editOf.None? && row.id == root)
  }

  predicate HeardAs(t: Thread, heard: seq<Message>, r: Message) {
    if heard == [] then t == Unheard
    else if SecondOfAll(heard, r) then t == Apart
    else
      && t.One? && GoesBy(t.row, r.id) && t.row.text == LastText(heard, r)
      && (if |heard| == 1 then t == One(heard[0], {}) else r.id in t.gone + {t.row.id})
  }

  lemma LastTextMore(init: seq<Message>, m: Message, r: Message)
    ensures LastText(init + [m], r) == if m.editOf.Some? then m.text else LastText(init, r)
  {
    assert (init + [m])[..|init|] == init;
  }

  lemma HearFirst(m: Message, r: Message)
    requires r.editOf.None? && (m == r || m.editOf == Some(r.id))
    ensures HeardAs(One(m, {}), [m], r)
  {
    assert [] + [m] == [m];
    LastTextMore([], m, r);
  }

  lemma HearSecond(first: Message, m: Message, r: Message)
    requires r.editOf.None? && (first == r || (first.editOf == Some(r.id) && first.id != r.id))
    requires m == r || (m.editOf == Some(r.id) && m.id != r.id)
    ensures HeardAs(Hear(One(first, {}), m), [first, m], r)
  {
    var heard := [first, m];
    assert [first] + [m] == heard;
    LastTextMore([first], m, r);
    assert [] + [first] == [first];
    LastTextMore([], first, r);
  }

  lemma HearLater(t: Thread, init: seq<Message>, m: Message, r: Message)
    requires |init| >= 2 && HeardAs(t, init, r) && r.editOf.None? && (m == r || m.editOf == Some(r.id))
    ensures HeardAs(Hear(t, m), init + [m], r)
  {
    var heard := init + [m];
    assert heard[0] == init[0] && heard[1] == init[1];
    LastTextMore(init, m, r);
    if t.One? && m.editOf.Some? { assert IsEditOf(m, t.row); }
  }

  lemma HearAnother(t: Thread, init: seq<Message>, m: Message, r: Message)
    requires HeardAs(t, init, r) && MessageAndEdits(init, r) && (m == r || m.editOf == Some(r.id))
    requires m != r ==> m.id != r.id
    ensures HeardAs(Hear(t, m), init + [m], r)
  {
    if |init| == 0 {
      HearFirst(m, r);
      assert init + [m] == [m];
    } else if |init| == 1 {
      assert init[0] in init;
      assert init == [init[0]] && init + [m] == [init[0], m];
      HearSecond(init[0], m, r);
    } else {
      HearLater(t, init, m, r);
    }
  }

  lemma {:induction false} HearMessageAndEdits(heard: seq<Message>, r: Message)
    requires MessageAndEdits(heard, r)
    ensures HeardAs(HearAll(heard), heard, r)
    decreases |heard|
  {
    if heard != [] {
      var init, m := heard[..|heard| - 1], heard[|heard| - 1];
      assert m in heard && forall x | x in init :: x in heard;
      HearMessageAndEdits(init, r);
      HearAnother(HearAll(init), init, m, r);
      assert heard == init + [m];
    }
  }

  /**
   A message and its edits, arriving in any order and any number of times among other traffic, end as one
   row exactly unless the message itself comes right after the first edit: before any edit it is the row
   they rewrite, and after a second edit its id is superseded. The row then says what the last edit to
   arrive says.
   */
  lemma EndsAsOneRowIff(cap: nat, log: Log, ids: set<string>, r: Message, ms: seq<Message>)
    requires Rows(log, r.author, ids) && Shows(log, ids, Unheard) && Traffic(ms, r.author, ids)
    requires |log.rows| + |ms| <= cap && MessageAndEdits(WithIds(ms, ids), r) && WithIds(ms, ids) != []
    ensures var rows, heard := WithIds(ArriveAll(cap, log, ms).rows, ids), WithIds(ms, ids);
      && (|rows| == 1 <==> !SecondOfAll(heard, r))
      && (|rows| == 1 ==> Names(rows[0], r.id) && rows[0].text == LastText(heard, r))
  {
    ArrivalsShow(cap, log, r.author, ids, ms);
    HearMessageAndEdits(WithIds(ms, ids), r);
  }

  // ---- edits that name the edit before them ------------------------------------------------

  /** What the first arrival's row goes by however it is rewritten. */
  function Root(first: Message): string {
    if first.editOf.Some? then first.editOf.value else first.id
  }

  /** After the first, each names the one before it or what the first goes by. */
  predicate InOrder(heard: seq<Message>) {
    forall i | 1 <= i < |heard| ::
      heard[i].editOf.Some? && (heard[i].editOf.value == heard[i - 1].id || heard[i].editOf.value == Root(heard[0]))
  }

  /** The ids that are refused after such a chain. */
  function NamedOrReplaced(heard: seq<Message>): set<string>
    requires InOrder(heard)
  {
    (set i | 1 <= i < |heard| :: heard[i].editOf.value) + (set i | 0 <= i < |heard| - 1 :: heard[i].id)
  }

  /** The row after edits in order. */
  predicate IsLastOf(row: Message, heard: seq<Message>)
    requires heard != []
  {
    var last := heard[|heard| - 1];
    && row.id == last.id && row.text == last.text
    && row.editOf == if |heard| == 1 then last.editOf else Some(Root(heard[0]))
  }

  lemma OneMoreInOrder(init: seq<Message>, m: Message)
    requires init != [] && InOrder(init + [m])
    ensures InOrder(init) && m.editOf.Some?
    ensures m.editOf.value == init[|init| - 1].id || m.editOf.value == Root(init[0])
    ensures NamedOrReplaced(init + [m]) == NamedOrReplaced(init) + {m.editOf.value, init[|init| - 1].id}
  {
    var heard, n := init + [m], |init|;
    assert forall i | 0 <= i < n :: heard[i] == init[i];
    assert heard[n] == m;
    forall id ensures id in NamedOrReplaced(heard) <==>
      id in NamedOrReplaced(init) + {m.editOf.value, init[n - 1].id}
    {
      if id == m.editOf.value { assert heard[n].editOf.value == id; }
      if id == init[n - 1].id { assert heard[n - 1].id == id; }
      if i :| 1 <= i < n && init[i].editOf.value == id { assert heard[i].editOf.value == id; }
      if i :| 0 <= i < n - 1 && init[i].id == id { assert heard[i].id == id; }
    }
  }

  predicate HeardInOrder(t: Thread, heard: seq<Message>)
    requires heard != [] && InOrder(heard)
  {
    t.One? && t.gone == NamedOrReplaced(heard) && IsLastOf(t.row, heard)
  }

  lemma HearNext(t: Thread, init: seq<Message>, m: Message)
    requires init != [] && InOrder(init) && InOrder(init + [m]) && m.id != "" && HeardInOrder(t, init)
    ensures HeardInOrder(Hear(t, m), init + [m])
  {
    OneMoreInOrder(init, m);
    assert (init + [m])[0] == init[0];
  }

  lemma {:induction false} HearInOrder(heard: seq<Message>)
    requires heard != [] && InOrder(heard) && forall m | m in heard :: m.id != ""
    ensures HeardInOrder(HearAll(heard), heard)
    decreases |heard|
  {
    var init, m := heard[..|heard| - 1], heard[|heard| - 1];
    assert heard == init + [m];
    if init == [] {
      assert HearAll(init) == Unheard;
    } else {
      OneMoreInOrder(init, m);
      assert m in heard && forall x | x in init :: x in heard;
      HearInOrder(init);
      HearNext(HearAll(init), init, m);
    }
  }

  /**
   A chain heard in order, from wherever history starts, is one row with the last edit's id and text. When
   the message or an older edit then arrives that names nothing of it, it is shown beside the new text
   exactly unless some edit of the chain has named or replaced it.
   */
  lemma OlderPageIff(cap: nat, log: Log, author: string, ids: set<string>, ms: seq<Message>, old': Message)
    requires Rows(log, author, ids) && Shows(log, ids, Unheard) && Traffic(ms + [old'], author, ids)
    requires |log.rows| + |ms| < cap && old'.id in ids
    requires var heard := WithIds(ms, ids);
      heard != [] && InOrder(heard)
      && (old'.editOf.Some? ==> old'.editOf.value !in {heard[|heard| - 1].id, Root(heard[0])})
    ensures var heard, mid := WithIds(ms, ids), ArriveAll(cap, log, ms); var rows := WithIds(mid.rows, ids);
      && |rows| == 1 && IsLastOf(rows[0], heard)
      && (|WithIds(Arrive(cap, mid, old').rows, ids)| == 1 <==>
            old'.id == heard[|heard| - 1].id || old'.id in NamedOrReplaced(heard))
  {
    var heard, mid := WithIds(ms, ids), ArriveAll(cap, log, ms);
    TrafficParts(ms, old', author, ids);
    ArrivalsShow(cap, log, author, ids, ms);
    HeardIds(ms, author, ids);
    HearInOrder(heard);
    ArrivalStep(cap, mid, author, ids, HearAll(heard), old');
  }

  lemma TrafficParts(ms: seq<Message>, m: Message, author: string, ids: set<string>)
    requires Traffic(ms + [m], author, ids)
    ensures Traffic(ms, author, ids) && (InChain(m, author, ids) || Foreign(m, ids))
  {
    PrefixElements(ms, m);
  }

  lemma HeardIds(ms: seq<Message>, author: string, ids: set<string>)
    requires Traffic(ms, author, ids)
    ensures forall m | m in WithIds(ms, ids) :: m.id != ""
  {
    WithIdsElements(ms, ids);
  }

  // ---- what the two searches find ----------------------------------------------------------

  /**
   Editing searches from the oldest row and deleting from the newest: they find the same row exactly when
   only one answers to the id.
   */
  lemma SearchesAgreeIff(rows: seq<Message>, id: string)
    requires id != "" && exists i :: 0 <= i < |rows| && Names(rows[i], id)
    ensures Find(rows, id) == FindLast(rows, id) <==>
      forall i, j | 0 <= i < j < |rows| && Names(rows[i], id) :: !Names(rows[j], id)
  {
    var i, j := Find(rows, id), FindLast(rows, id);
    var k :| 0 <= k < |rows| && Names(rows[k], id);
    assert 0 <= i <= k <= j;
    assert i < j ==> Names(rows[i], id) && Names(rows[j], id);
  }

  /**
   An instance: an edit and then the message it rewrites leave both texts, of which the author's next edit
   rewrites the old one and a deletion removes the new one.
   */
  lemma EditBeforeItsMessage(cap: nat, name: string, r: Message, e: Message)
    requires cap >= 2 && r.editOf.None? && e.editOf == Some(r.id) && e.id != r.id && r.time < e.time
    requires r.id != "" && e.id != "" && !IsLocal(r.id) && !IsLocal(e.id)
    ensures var log := Arrive(cap, Arrive(cap, EmptyLog(name), e), r);
      log.rows == [r, e] && Find(log.rows, r.id) == 0 && FindLast(log.rows, r.id) == 1
  {
    EditAlone(cap, name, e);
    MessageBeforeRow(cap, Arrive(cap, EmptyLog(name), e), e, r);
    assert Names([r, e][0], r.id) && Names([r, e][1], r.id);
  }

  lemma EditAlone(cap: nat, name: string, e: Message)
    requires cap >= 1 && e.id != "" && !IsLocal(e.id)
    ensures var one := Arrive(cap, EmptyLog(name), e); one.rows == [e] && one.ids == {e.id} && one.aliases == {}
  {
    assert Insert([], e) == [e];
    EvictOne(cap, Inserted(EmptyLog(name), e));
  }

  lemma MessageBeforeRow(cap: nat, log: Log, e: Message, r: Message)
    requires cap >= 2 && log.rows == [e] && log.ids == {e.id} && log.aliases == {} && !IsLocal(e.id)
    requires r.editOf.None? && r.id != "" && r.id != e.id && r.time < e.time
    ensures Arrive(cap, log, r).rows == [r, e]
  {
    assert LastEcho([e], r) == -1;
    assert InsertIndex([e], r.time) == 0 && Insert([e], r) == [r, e];
    EvictOne(cap, Inserted(log, r));
  }
}
