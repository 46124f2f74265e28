/**
 The local index behind the unread badges: which messages are known per account and channel,
 and up to which time each channel has been read. The two SQL tables are maps keyed like
 their primary keys; channel names compare without regard to ASCII case.
 */
module UnreadIndex {
  import opened Text
  import opened Seqs

  datatype Row = Row(ts: int, fromMe: bool)

  /** Account, channel and message id; account and channel. Channels are stored folded. */
  type MessageKey = (string, string, string)
  type ChannelKey = (string, string)

  datatype Store = Store(messages: map<MessageKey, Row>, read: map<ChannelKey, int>)

  function ChannelOf(account: string, channel: string): ChannelKey {
    (account, AsciiLower(channel))
  }

  function MessageOf(ck: ChannelKey, msgid: string): MessageKey {
    (ck.0, ck.1, msgid)
  }

  /** Ids the index never takes: none, optimistic copies, and system lines. */
  predicate Ignored(msgid: string) {
    msgid == "" || StartsWith(msgid, "local-") || StartsWith(msgid, "sys-")
  }

  // ---- queries ------------------------------------------------------------------------

  predicate InChannel(k: MessageKey, ck: ChannelKey) {
    k.0 == ck.0 && k.1 == ck.1
  }

  function Times(s: Store, ck: ChannelKey, exclude: Option<string>): set<int> {
    set k | k in s.messages && InChannel(k, ck) && exclude != Some(k.2) :: s.messages[k].ts
  }

  predicate IsMax(x: int, ts: set<int>) {
    x in ts && forall y | y in ts :: y <= x
  }

  lemma {:induction false} MaxExists(ts: set<int>)
    requires ts != {}
    ensures exists x :: IsMax(x, ts)
  {
    var x := SomeElement(ts);
    var rest := ts - {x};
    assert forall z | z in ts :: z == x || z in rest;
    if rest == {} {
      assert IsMax(x, ts);
    } else {
      MaxExists(rest);
      var y :| IsMax(y, rest);
      assert IsMax(if x <= y then y else x, ts);
    }
  }

  /** The greatest element, or 0 of nothing. */
  function MaxOrZero(ts: set<int>): (m: int)
    ensures if ts == {} then m == 0 else IsMax(m, ts)
  {
    if ts == {} then 0
    else
      MaxExists(ts);
      var x :| x in ts && forall y | y in ts :: y <= x;
      x
  }

  function UnreadIds(s: Store, ck: ChannelKey): set<string> {
    if ck !in s.read then {}
    else set k | k in s.messages && InChannel(k, ck) && !s.messages[k].fromMe && s.messages[k].ts > s.read[ck] :: k.2
  }

  function UnreadCount(s: Store, ck: ChannelKey): nat {
    |UnreadIds(s, ck)|
  }

  // ---- updates ------------------------------------------------------------------------

  function InsertMessage(s: Store, ck: ChannelKey, msgid: string, row: Row): Store {
    if Ignored(msgid) || MessageOf(ck, msgid) in s.messages then s
    else s.(messages := s.messages[MessageOf(ck, msgid) := row])
  }

  function Max(a: int, b: int): int {
    if a < b then b else a
  }

  function MarkRead(s: Store, ck: ChannelKey, at: int): Store {
    var ts := Max(at, MaxOrZero(Times(s, ck, None)));
    s.(read := s.read[ck := if ck in s.read then Max(s.read[ck], ts) else ts])
  }

  function BaselineAfterHistory(s: Store, ck: ChannelKey): Store {
    if ck in s.read then s
    else s.(read := s.read[ck := MaxOrZero(Times(s, ck, None))])
  }

  function EnsureLiveBaseline(s: Store, ck: ChannelKey, exclude: string): Store {
    if ck in s.read then s
    else s.(read := s.read[ck := MaxOrZero(Times(s, ck, Some(exclude)))])
  }

  datatype Op =
    | Insert(ck: ChannelKey, msgid: string, row: Row)
    | Read(ck: ChannelKey, at: int)
    | HistoryEnd(ck: ChannelKey)
    | Live(ck: ChannelKey, msgid: string)

  function Do(s: Store, op: Op): Store {
    match op
    case Insert(ck, id, row) => InsertMessage(s, ck, id, row)
    case Read(ck, at) => MarkRead(s, ck, at)
    case HistoryEnd(ck) => BaselineAfterHistory(s, ck)
    case Live(ck, id) => EnsureLiveBaseline(s, ck, id)
  }

  function Run(s: Store, ops: seq<Op>): Store {
    if ops == [] then s
    else Do(Run(s, ops[..|ops| - 1]), ops[|ops| - 1])
  }

  // ---- every run ----------------------------------------------------------------------

  /** Rows are never changed or lost, and a watermark once set never goes back. */
  lemma {:induction false} RunGrows(s: Store, ops: seq<Op>)
    ensures forall k | k in s.messages :: k in Run(s, ops).messages && Run(s, ops).messages[k] == s.messages[k]
    ensures forall ck | ck in s.read :: ck in Run(s, ops).read && s.read[ck] <= Run(s, ops).read[ck]
    decreases |ops|
  {
    if ops != [] { RunGrows(s, ops[..|ops| - 1]); }
  }

  /** Reading a channel leaves nothing unread in it. */
  lemma MarkReadClears(s: Store, ck: ChannelKey, at: int)
    ensures UnreadCount(MarkRead(s, ck, at), ck) == 0
    ensures ck in MarkRead(s, ck, at).read && at <= MarkRead(s, ck, at).read[ck]
  {
    var out := MarkRead(s, ck, at);
    forall k | k in s.messages && InChannel(k, ck)
      ensures s.messages[k].ts <= out.read[ck]
    {
      assert s.messages[k].ts in Times(s, ck, None);
    }
    assert UnreadIds(out, ck) == {};
  }

  /** What a read at `at` covers: that time, every stored time (the epoch without one), and the old watermark. */
  function ReadBounds(s: Store, ck: ChannelKey, at: int): set<int> {
    var stored := Times(s, ck, None);
    {at} + (if stored == {} then {0} else stored) + if ck in s.read then {s.read[ck]} else {}
  }

  /** A read moves the watermark to the greatest of these and no further, and touches nothing else. */
  lemma MarkReadIsLeast(s: Store, ck: ChannelKey, at: int)
    ensures var out := MarkRead(s, ck, at);
      && ck in out.read && IsMax(out.read[ck], ReadBounds(s, ck, at))
      && out.messages == s.messages && out.read - {ck} == s.read - {ck}
  {
  }

  /** The first watermark, taken at the end of a history batch, is the newest stored time and no later. */
  lemma BaselineIsNewest(s: Store, ck: ChannelKey)
    requires ck !in s.read
    ensures var out := BaselineAfterHistory(s, ck); var stored := Times(s, ck, None);
      && ck in out.read && (if stored == {} then out.read[ck] == 0 else IsMax(out.read[ck], stored))
      && out.messages == s.messages && out.read - {ck} == s.read
  {
  }

  // ---- refinement: the badge counts what arrived since the last read --------------------

  /** The row that the first insert of `msgid` into the channel carries, if the run has one. */
  function FirstInsert(ops: seq<Op>, ck: ChannelKey, msgid: string): Option<Row> {
    if ops == [] then None
    else
      var before := FirstInsert(ops[..|ops| - 1], ck, msgid);
      var op := ops[|ops| - 1];
      if before.Some? then before
      else if op.Insert? && op.ck == ck && op.msgid == msgid && !Ignored(msgid) then Some(op.row)
      else None
  }

  /** Reference: distinct ids first heard of in this run, from others, newer than the watermark. */
  function NewForeign(s: Store, ops: seq<Op>, ck: ChannelKey, watermark: int): set<string> {
    set op | op in ops && op.Insert? && op.ck == ck && MessageOf(ck, op.msgid) !in s.messages
             && var first := FirstInsert(ops, ck, op.msgid);
                first.Some? && !first.value.fromMe && first.value.ts > watermark
      :: op.msgid
  }

  /** No step of the run reads the channel. */
  predicate NeverRead(ops: seq<Op>, ck: ChannelKey) {
    forall op | op in ops && op.Read? :: op.ck != ck
  }

  /** The table after a run: what was there before, and first inserts of the rest. */
  lemma {:induction false} StoredRows(s: Store, ops: seq<Op>, ck: ChannelKey, msgid: string)
    ensures var k := MessageOf(ck, msgid); var out := Run(s, ops).messages;
      if k in s.messages then k in out && out[k] == s.messages[k]
      else if FirstInsert(ops, ck, msgid).Some? then k in out && out[k] == FirstInsert(ops, ck, msgid).value
      else k !in out
    decreases |ops|
  {
    if ops != [] { StoredRows(s, ops[..|ops| - 1], ck, msgid); }
  }

  lemma {:induction false} WatermarkStays(s: Store, ops: seq<Op>, ck: ChannelKey)
    requires ck in s.read && NeverRead(ops, ck)
    ensures ck in Run(s, ops).read && Run(s, ops).read[ck] == s.read[ck]
    decreases |ops|
  {
    if ops != [] {
      var init := ops[..|ops| - 1];
      assert forall op | op in init :: op in ops;
      assert ops[|ops| - 1] in ops;
      WatermarkStays(s, init, ck);
    }
  }

  /** Against a watermark that nobody moves, a row first heard of later counts when it is foreign and newer. */
  lemma FirstInsertedCountsIff(s: Store, ops: seq<Op>, ck: ChannelKey, msgid: string)
    requires ck in s.read && NeverRead(ops, ck)
    requires MessageOf(ck, msgid) !in s.messages && FirstInsert(ops, ck, msgid).Some?
    ensures var row := FirstInsert(ops, ck, msgid).value;
      msgid in UnreadIds(Run(s, ops), ck) <==> !row.fromMe && row.ts > s.read[ck]
  {
    WatermarkStays(s, ops, ck);
    StoredRows(s, ops, ck, msgid);
    var out := Run(s, ops);
    assert MessageOf(ck, msgid) in out.messages && InChannel(MessageOf(ck, msgid), ck);
    forall k | k in out.messages && InChannel(k, ck) && k.2 == msgid ensures k == MessageOf(ck, msgid) {
    }
  }

  /**
   After a read at a time nothing stored is newer than, a message first heard of later is unread exactly
   when it is somebody else's and newer than that time.
   */
  lemma ReadThenCountsIff(s: Store, ck: ChannelKey, at: int, ops: seq<Op>, msgid: string)
    requires NeverRead(ops, ck) && forall x | x in ReadBounds(s, ck, at) :: x <= at
    requires MessageOf(ck, msgid) !in s.messages && FirstInsert(ops, ck, msgid).Some?
    ensures var row := FirstInsert(ops, ck, msgid).value;
      msgid in UnreadIds(Run(MarkRead(s, ck, at), ops), ck) <==> !row.fromMe && row.ts > at
  {
    MarkReadIsLeast(s, ck, at);
    assert at in ReadBounds(s, ck, at);
    FirstInsertedCountsIff(MarkRead(s, ck, at), ops, ck, msgid);
  }

  /** After the end of the first history batch, exactly when it is newer than all the history. */
  lemma HistoryThenCountsIff(s: Store, ck: ChannelKey, newest: int, ops: seq<Op>, msgid: string)
    requires ck !in s.read && NeverRead(ops, ck) && IsMax(newest, Times(s, ck, None))
    requires MessageOf(ck, msgid) !in s.messages && FirstInsert(ops, ck, msgid).Some?
    ensures var row := FirstInsert(ops, ck, msgid).value;
      msgid in UnreadIds(Run(BaselineAfterHistory(s, ck), ops), ck) <==> !row.fromMe && row.ts > newest
  {
    BaselineIsNewest(s, ck);
    FirstInsertedCountsIff(BaselineAfterHistory(s, ck), ops, ck, msgid);
  }

  lemma {:induction false} FirstInsertIsInRun(ops: seq<Op>, ck: ChannelKey, msgid: string)
    requires FirstInsert(ops, ck, msgid).Some?
    ensures exists op :: op in ops && op.Insert? && op.ck == ck && op.msgid == msgid
    decreases |ops|
  {
    var init := ops[..|ops| - 1];
    if FirstInsert(init, ck, msgid).Some? {
      FirstInsertIsInRun(init, ck, msgid);
      var op :| op in init && op.Insert? && op.ck == ck && op.msgid == msgid;
      assert op in ops;
    } else {
      assert ops[|ops| - 1] in ops;
    }
  }

  /**
   From a state in which nothing is unread, such as right after a read, the badge counts exactly
   the distinct messages of others that arrived since with a time above the watermark, however
   often they were inserted and however many baselines were taken.
   */
  lemma UnreadRefinement(s: Store, ops: seq<Op>, ck: ChannelKey)
    requires ck in s.read && UnreadCount(s, ck) == 0 && NeverRead(ops, ck)
    ensures UnreadIds(Run(s, ops), ck) == NewForeign(s, ops, ck, s.read[ck])
    ensures UnreadCount(Run(s, ops), ck) == |NewForeign(s, ops, ck, s.read[ck])|
  {
    var out := Run(s, ops);
    WatermarkStays(s, ops, ck);
    forall id | id in UnreadIds(out, ck)
      ensures id in NewForeign(s, ops, ck, s.read[ck])
    {
      var k :| k in out.messages && InChannel(k, ck) && k.2 == id
               && !out.messages[k].fromMe && out.messages[k].ts > out.read[ck];
      assert k == MessageOf(ck, id);
      StoredRows(s, ops, ck, id);
      assert k !in s.messages by { assert id !in UnreadIds(s, ck); }
      FirstInsertIsInRun(ops, ck, id);
    }
    forall id | id in NewForeign(s, ops, ck, s.read[ck])
      ensures id in UnreadIds(out, ck)
    {
      StoredRows(s, ops, ck, id);
      assert MessageOf(ck, id) in out.messages;
    }
  }

  /**
   The same, started by a read: the badge counts what arrived since and is newer than `bound`, the latest of
   the read, the stored rows and the old watermark; and the next read empties it again.
   */
  lemma UnreadSinceRead(s0: Store, ck: ChannelKey, at: int, bound: int, ops: seq<Op>, later: int)
    requires NeverRead(ops, ck) && IsMax(bound, ReadBounds(s0, ck, at))
    ensures var s := MarkRead(s0, ck, at);
      UnreadCount(Run(s, ops), ck) == |NewForeign(s0, ops, ck, bound)|
      && UnreadCount(MarkRead(Run(s, ops), ck, later), ck) == 0
  {
    MarkReadClears(s0, ck, at);
    MarkReadIsLeast(s0, ck, at);
    UnreadRefinement(MarkRead(s0, ck, at), ops, ck);
    assert NewForeign(s0, ops, ck, bound) == NewForeign(MarkRead(s0, ck, at), ops, ck, bound);
    MarkReadClears(Run(MarkRead(s0, ck, at), ops), ck, later);
  }

  // ---- history ------------------------------------------------------------------------

  /** A row at or below the watermark is not counted now or after any later run. */
  lemma BelowWatermarkNeverCounts(s: Store, ops: seq<Op>, ck: ChannelKey, msgid: string)
    requires ck in s.read && MessageOf(ck, msgid) in s.messages && s.messages[MessageOf(ck, msgid)].ts <= s.read[ck]
    ensures msgid !in UnreadIds(Run(s, ops), ck)
  {
    RunGrows(s, ops);
    var out := Run(s, ops);
    forall k | k in out.messages && InChannel(k, ck) && k.2 == msgid
      ensures out.messages[k].ts <= out.read[ck]
    {
      assert k == MessageOf(ck, msgid);
    }
  }

  /**
   When the first watermark is taken at the end of a history batch, none of the rows stored by
   then is ever counted, and inserting any of them again changes nothing at all.
   */
  lemma HistoryNeverUnread(s: Store, ck: ChannelKey, ops: seq<Op>, msgid: string, again: Row)
    requires ck !in s.read && MessageOf(ck, msgid) in s.messages
    ensures var out := Run(BaselineAfterHistory(s, ck), ops);
      msgid !in UnreadIds(out, ck) && InsertMessage(out, ck, msgid, again) == out
  {
    var b := BaselineAfterHistory(s, ck);
    assert s.messages[MessageOf(ck, msgid)].ts in Times(s, ck, None);
    BelowWatermarkNeverCounts(b, ops, ck, msgid);
    RunGrows(b, ops);
  }

  /** The same when a live message, recorded after its history, takes the first watermark. */
  lemma HistoryBeforeLiveNeverUnread(s: Store, ck: ChannelKey, live: string, ops: seq<Op>, msgid: string, again: Row)
    requires ck !in s.read && MessageOf(ck, msgid) in s.messages && msgid != live
    ensures var out := Run(EnsureLiveBaseline(s, ck, live), ops);
      msgid !in UnreadIds(out, ck) && InsertMessage(out, ck, msgid, again) == out
  {
    var b := EnsureLiveBaseline(s, ck, live);
    assert MessageOf(ck, msgid).2 != live;
    assert s.messages[MessageOf(ck, msgid)].ts in Times(s, ck, Some(live));
    BelowWatermarkNeverCounts(b, ops, ck, msgid);
    RunGrows(b, ops);
  }

  /**
   A row stored before its channel has a watermark is never counted, whatever sets the watermark: only
   the live baseline that its own message takes leaves it out.
   */
  lemma {:induction false} StoredFirstNeverCounts(s: Store, ops: seq<Op>, ck: ChannelKey, msgid: string)
    requires MessageOf(ck, msgid) in s.messages && Live(ck, msgid) !in ops
    requires ck in s.read ==> s.messages[MessageOf(ck, msgid)].ts <= s.read[ck]
    ensures var k, out := MessageOf(ck, msgid), Run(s, ops);
      && k in out.messages && (ck in out.read ==> out.messages[k].ts <= out.read[ck])
      && msgid !in UnreadIds(out, ck)
    decreases |ops|
  {
    if ops == [] {
      BelowWatermarkOrNone(s, ck, msgid);
    } else {
      var init, op := ops[..|ops| - 1], ops[|ops| - 1];
      assert op in ops && forall x | x in init :: x in ops;
      StoredFirstNeverCounts(s, init, ck, msgid);
      OpCovers(Run(s, init), op, ck, msgid);
      BelowWatermarkOrNone(Run(s, ops), ck, msgid);
    }
  }

  lemma OpCovers(s: Store, op: Op, ck: ChannelKey, msgid: string)
    requires MessageOf(ck, msgid) in s.messages && op != Live(ck, msgid)
    requires ck in s.read ==> s.messages[MessageOf(ck, msgid)].ts <= s.read[ck]
    ensures var k, out := MessageOf(ck, msgid), Do(s, op);
      k in out.messages && (ck in out.read ==> out.messages[k].ts <= out.read[ck])
  {
    var ts := s.messages[MessageOf(ck, msgid)].ts;
    assert ts in Times(s, ck, None);
    if op.Live? && op.ck == ck { assert ts in Times(s, ck, Some(op.msgid)); }
  }

  lemma BelowWatermarkOrNone(s: Store, ck: ChannelKey, msgid: string)
    requires var k := MessageOf(ck, msgid);
      k in s.messages && (ck in s.read ==> s.messages[k].ts <= s.read[ck])
    ensures msgid !in UnreadIds(s, ck)
  {
    forall k | k in s.messages && InChannel(k, ck) && k.2 == msgid ensures k == MessageOf(ck, msgid) {
    }
  }

  /** The live message that takes the first watermark is itself counted exactly when it is newer than all before it. */
  lemma LiveMessageCountsIff(s: Store, ck: ChannelKey, msgid: string, row: Row)
    requires ck !in s.read && !Ignored(msgid) && MessageOf(ck, msgid) !in s.messages && !row.fromMe
    ensures msgid in UnreadIds(EnsureLiveBaseline(InsertMessage(s, ck, msgid, row), ck, msgid), ck)
            <==> row.ts > MaxOrZero(Times(s, ck, None))
  {
    var t := InsertMessage(s, ck, msgid, row);
    OthersTimes(s, ck, msgid, row);
    var u := EnsureLiveBaseline(t, ck, msgid);
    assert MessageOf(ck, msgid) in u.messages && InChannel(MessageOf(ck, msgid), ck);
    assert forall k | k in u.messages && InChannel(k, ck) && k.2 == msgid :: k == MessageOf(ck, msgid);
  }

  lemma OthersTimes(s: Store, ck: ChannelKey, msgid: string, row: Row)
    requires !Ignored(msgid) && MessageOf(ck, msgid) !in s.messages
    ensures Times(InsertMessage(s, ck, msgid, row), ck, Some(msgid)) == Times(s, ck, None)
  {
    var t := InsertMessage(s, ck, msgid, row);
    forall k | k in s.messages && InChannel(k, ck)
      ensures k in t.messages && k.2 != msgid && t.messages[k] == s.messages[k]
    {
      assert k.2 == msgid ==> k == MessageOf(ck, msgid);
    }
    forall k | k in t.messages && InChannel(k, ck) && k.2 != msgid
      ensures k in s.messages && t.messages[k] == s.messages[k]
    {
    }
  }

  /**
   The order matters: once a live message has taken the first watermark, a row the channel hears of
   later is counted exactly when it is from somebody else and newer than all rows that were there, be
   it history or not.
   */
  lemma AfterLiveCountsIff(s: Store, ck: ChannelKey, live: string, ops: seq<Op>, msgid: string)
    requires ck !in s.read && NeverRead(ops, ck)
    requires MessageOf(ck, msgid) !in s.messages && FirstInsert(ops, ck, msgid).Some?
    ensures var out, row := Run(EnsureLiveBaseline(s, ck, live), ops), FirstInsert(ops, ck, msgid).value;
      msgid in UnreadIds(out, ck) <==> !row.fromMe && row.ts > MaxOrZero(Times(s, ck, Some(live)))
  {
    FirstInsertedCountsIff(EnsureLiveBaseline(s, ck, live), ops, ck, msgid);
  }

  /** From the empty store, what the index ignores is never stored, in any run. */
  lemma {:induction false} NeverStored(ops: seq<Op>, k: MessageKey)
    requires k.2 == "" || StartsWith(k.2, "local-") || StartsWith(k.2, "sys-")
    ensures k !in Run(Store(map[], map[]), ops).messages
    decreases |ops|
  {
    if ops != [] { NeverStored(ops[..|ops| - 1], k); }
  }

  /**
   An instance: with the live message the first the channel hears of, the watermark is 0, and a history
   row that follows is counted exactly when its time is after the epoch.
   */
  lemma LiveBeforeHistoryCounts(ck: ChannelKey, live: string, liveRow: Row, old': string, oldRow: Row)
    requires !Ignored(live) && !Ignored(old') && live != old' && !oldRow.fromMe
    ensures var s := InsertMessage(Store(map[], map[]), ck, live, liveRow);
      var out := Run(EnsureLiveBaseline(s, ck, live), [Insert(ck, old', oldRow), HistoryEnd(ck)]);
      old' in UnreadIds(out, ck) <==> oldRow.ts > 0
  {
    var s := InsertMessage(Store(map[], map[]), ck, live, liveRow);
    var insert, end := Insert(ck, old', oldRow), HistoryEnd(ck);
    assert [insert, end][..1] == [insert] && [insert][..0] == [];
    assert FirstInsert([insert], ck, old') == Some(oldRow);
    assert Times(s, ck, Some(live)) == {};
    AfterLiveCountsIff(s, ck, live, [insert, end], old');
  }
}
