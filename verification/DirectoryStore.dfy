/**
 The message index under the directory: every event of the client is a run of index operations, so what
 holds of the index holds of the client, history batches above all.
 */
module DirectoryStore {
  import opened Text
  import opened Timeline
  import opened UnreadIndex
  import opened Directory

  /** What recording a message does to the index. */
  ghost function RecordOps(a: App, channel: string, msgid: string, row: Row, viewing: bool): seq<Op> {
    var ck := ChannelOf(Account(a), channel);
    if channel == STATUS || msgid == "" then []
    else [Insert(ck, msgid, row)] +
         if viewing then [Read(ck, row.ts)]
         else if !row.fromMe && !InHistory(a, channel) then [Live(ck, msgid)]
         else []
  }

  predicate Viewing(a: App, name: string) {
    a.active.Some? && EqIgnoreCase(a.active.value, name)
  }

  /** The message is an edit that finds its row in the conversation. */
  ghost predicate Rewrites(a: App, name: string, m: Message) {
    var b := EnsureBuffer(a, name);
    var k := FindKey(b.channels.Keys, name);
    k.Some? && m.editOf.Some? && EditApplies(b.channels[k.value], EditOf(m))
  }

  /** What delivering a message does to it: nothing when it is an edit that applies. */
  ghost function DeliverOps(a: App, name: string, own: bool, m: Message): seq<Op> {
    if Rewrites(a, name, m) then []
    else RecordOps(a, name, m.id, Row(Seconds(m.time), own), Viewing(a, name))
  }

  ghost function IndexOps(cap: nat, a: App, e: Event): seq<Op> {
    match e
    case Open(name, now) => [Read(ChannelOf(Account(a), DmBufferKey(a.nickToDid, name)), now)]
    case Incoming(target, dmKey, m) =>
      var own := EqIgnoreCase(m.author, a.nick);
      var b := AdoptEcho(cap, a, own, target, dmKey);
      DeliverOps(b, BufferName(b, m.author, target, dmKey), own, m)
    case BatchEnd(id) => if id in a.history then [HistoryEnd(ChannelOf(Account(a), a.history[id]))] else []
    case _ => []
  }

  ghost function AllIndexOps(cap: nat, a: App, es: seq<Event>): seq<Op> {
    if es == [] then []
    else
      var init := es[..|es| - 1];
      AllIndexOps(cap, a, init) + IndexOps(cap, Directory.Run(cap, a, init), es[|es| - 1])
  }

  lemma {:induction false} RunConcat(s: Store, xs: seq<Op>, ys: seq<Op>)
    ensures UnreadIndex.Run(s, xs + ys) == UnreadIndex.Run(UnreadIndex.Run(s, xs), ys)
    decreases |ys|
  {
    if ys == [] {
      assert xs + ys == xs;
    } else {
      assert (xs + ys)[..|xs + ys| - 1] == xs + ys[..|ys| - 1];
      RunConcat(s, xs, ys[..|ys| - 1]);
    }
  }

  lemma RunOne(s: Store, op: Op)
    ensures UnreadIndex.Run(s, [op]) == UnreadIndex.Do(s, op)
  {
    assert [op][..0] == [];
  }

  /** Everything the index depends on besides the buffers. */
  predicate SameIndex(a: App, b: App) {
    b.store == a.store && b.history == a.history && Account(b) == Account(a) && b.active == a.active
  }

  lemma RecordIsRun(a: App, channel: string, msgid: string, row: Row, viewing: bool)
    ensures Record(a, channel, msgid, row, viewing).store
            == UnreadIndex.Run(a.store, RecordOps(a, channel, msgid, row, viewing))
  {
    var ck := ChannelOf(Account(a), channel);
    var insert := Insert(ck, msgid, row);
    RunOne(a.store, insert);
    RunConcat(a.store, [insert], [Read(ck, row.ts)]);
    RunConcat(a.store, [insert], [Live(ck, msgid)]);
    RunConcat(a.store, [insert], []);
    RunOne(InsertMessage(a.store, ck, msgid, row), Read(ck, row.ts));
    RunOne(InsertMessage(a.store, ck, msgid, row), Live(ck, msgid));
  }

  lemma AppendToKeepsIndex(cap: nat, a: App, name: string, m: Message)
    ensures SameIndex(a, AppendTo(cap, a, name, m))
  {
  }

  lemma DeliverIsRun(cap: nat, a: App, name: string, own: bool, m: Message)
    ensures DeliverInto(cap, a, name, own, m).store == UnreadIndex.Run(a.store, DeliverOps(a, name, own, m))
  {
    if !Rewrites(a, name, m) { ShowIsRun(cap, a, name, own, Viewing(a, name), m); }
  }

  lemma ShowIsRun(cap: nat, a: App, name: string, own: bool, viewing: bool, m: Message)
    ensures Show(cap, a, name, own, viewing, m).store ==
      UnreadIndex.Run(a.store, RecordOps(a, name, m.id, Row(Seconds(m.time), own), viewing))
  {
    AppendToKeepsIndex(cap, a, name, m);
    RecordIsRun(AppendTo(cap, a, name, m), name, m.id, Row(Seconds(m.time), own), viewing);
  }

  lemma AdoptKeepsIndex(cap: nat, a: App, nick: string, did: string)
    ensures Adopt(cap, a, nick, did).store == a.store && Adopt(cap, a, nick, did).history == a.history
  {
  }

  lemma ListedKeepsIndex(cap: nat, a: App, nick: string, partner: Option<string>, seconds: Option<int>)
    ensures ListTarget(cap, a, nick, partner, seconds).store == a.store
    ensures ListTarget(cap, a, nick, partner, seconds).history == a.history
  {
    var b := if partner.Some? then Adopt(cap, a, nick, partner.value) else a;
    if partner.Some? { AdoptKeepsIndex(cap, a, nick, partner.value); }
    ListUnderKeepsIndex(b, if partner.Some? then partner.value else DmBufferKey(b.nickToDid, nick), seconds);
  }

  lemma ListUnderKeepsIndex(a: App, name: string, seconds: Option<int>)
    ensures SameIndex(a, ListUnder(a, name, seconds))
  {
    EnsureKeepsIndex(a, name);
  }

  lemma EnsureKeepsIndex(a: App, name: string)
    ensures SameIndex(a, EnsureBuffer(a, name))
  {
  }

  lemma DepartedKeepsIndex(cap: nat, a: App, channel: string, who: string, notice: Option<Message>)
    ensures Departed(cap, a, channel, who, notice).store == a.store
    ensures Departed(cap, a, channel, who, notice).history == a.history
  {
  }

  /** All other events leave the index and the batches alone. */
  lemma QuietStep(cap: nat, a: App, e: Event)
    requires !e.Open? && !e.Incoming? && !e.BatchStart? && !e.BatchEnd?
    ensures Directory.Step(cap, a, e).store == a.store && Directory.Step(cap, a, e).history == a.history
  {
    match e
    case Ensure(name) => EnsureKeepsIndex(a, name);
    case Close =>
    case Part(_) =>
    case Departure(channel, who, notice) => DepartedKeepsIndex(cap, a, channel, who, notice);
    case Identity(nick, did) => AdoptKeepsIndex(cap, a, nick, did);
    case Listed(nick, partner, seconds) => ListedKeepsIndex(cap, a, nick, partner, seconds);
    case LocalSend(target, m) => AppendToKeepsIndex(cap, a, DmBufferKey(a.nickToDid, target), m);
    case LocalEdit(_, _) =>
    case Deletion(_, _, _) =>
    case Notice(name, m) => AppendToKeepsIndex(cap, a, name, m);
    case _ =>
  }

  lemma AdoptEchoKeepsIndex(cap: nat, a: App, own: bool, target: string, dmKey: Option<string>)
    ensures AdoptEcho(cap, a, own, target, dmKey).store == a.store
    ensures AdoptEcho(cap, a, own, target, dmKey).history == a.history
  {
    if EchoBinds(own, target, dmKey) { AdoptKeepsIndex(cap, a, target, dmKey.value); }
  }

  /** Every event does to the index what its index operations do. */
  lemma StepIsRun(cap: nat, a: App, e: Event)
    ensures Directory.Step(cap, a, e).store == UnreadIndex.Run(a.store, IndexOps(cap, a, e))
  {
    match e
    case Open(name, now) =>
      var key := DmBufferKey(a.nickToDid, name);
      EnsureKeepsIndex(a, key);
      RunOne(a.store, Read(ChannelOf(Account(a), key), now));
    case Incoming(target, dmKey, m) =>
      var own := EqIgnoreCase(m.author, a.nick);
      var b := AdoptEcho(cap, a, own, target, dmKey);
      AdoptEchoKeepsIndex(cap, a, own, target, dmKey);
      DeliverIsRun(cap, b, BufferName(b, m.author, target, dmKey), own, m);
    case BatchEnd(id) =>
      if id in a.history { RunOne(a.store, HistoryEnd(ChannelOf(Account(a), a.history[id]))); }
    case BatchStart(_, _) =>
    case _ => QuietStep(cap, a, e);
  }

  lemma {:induction false} RunIsRun(cap: nat, a: App, es: seq<Event>)
    ensures Directory.Run(cap, a, es).store == UnreadIndex.Run(a.store, AllIndexOps(cap, a, es))
    decreases |es|
  {
    if es != [] {
      var init, e := es[..|es| - 1], es[|es| - 1];
      RunIsRun(cap, a, init);
      StepIsRun(cap, Directory.Run(cap, a, init), e);
      RunConcat(a.store, AllIndexOps(cap, a, init), IndexOps(cap, Directory.Run(cap, a, init), e));
    }
  }

  // ---- history delivered in a batch ------------------------------------------------------

  predicate Sets(op: Op, ck: ChannelKey) {
    !op.Insert? && op.ck == ck
  }

  lemma {:induction false} UnsetStays(s: Store, ops: seq<Op>, ck: ChannelKey)
    requires ck !in s.read && forall op | op in ops :: !Sets(op, ck)
    ensures ck !in UnreadIndex.Run(s, ops).read
    decreases |ops|
  {
    if ops != [] {
      var init, last := ops[..|ops| - 1], ops[|ops| - 1];
      assert last in ops && forall op | op in init :: op in ops;
      UnsetStays(s, init, ck);
    }
  }

  /** The event neither ends nor restarts batch `id`, and nobody reads the channel or ends another batch for it. */
  ghost predicate Spares(cap: nat, a: App, e: Event, id: string, ck: ChannelKey) {
    && (e.BatchStart? || e.BatchEnd? ==> e.id != id)
    && (forall op | op in IndexOps(cap, a, e) && (op.Read? || op.HistoryEnd?) :: op.ck != ck)
  }

  ghost predicate SparesThroughout(cap: nat, a: App, es: seq<Event>, id: string, ck: ChannelKey) {
    es != [] ==>
      var init := es[..|es| - 1];
      SparesThroughout(cap, a, init, id, ck) && Spares(cap, Directory.Run(cap, a, init), es[|es| - 1], id, ck)
  }

  /** Batch `id` is open for a channel that folds to `ck`, which has no watermark yet. */
  predicate AwaitsBaseline(a: App, id: string, target: string, ck: ChannelKey) {
    id in a.history && a.history[id] == target && ck.1 == AsciiLower(target) && ck !in a.store.read
  }

  lemma OpenKeepsHistory(cap: nat, a: App, name: string, now: int)
    ensures OpenChat(a, name, now).history == a.history
  {
    EnsureKeepsIndex(a, DmBufferKey(a.nickToDid, name));
  }

  lemma HistoryKept(cap: nat, a: App, e: Event)
    requires !e.BatchStart? && !e.BatchEnd?
    ensures Directory.Step(cap, a, e).history == a.history
  {
    match e
    case Open(name, now) => OpenKeepsHistory(cap, a, name, now);
    case Incoming(target, dmKey, m) =>
      var own := EqIgnoreCase(m.author, a.nick);
      var b := AdoptEcho(cap, a, own, target, dmKey);
      AdoptEchoKeepsIndex(cap, a, own, target, dmKey);
      DeliverKeepsHistory(cap, b, BufferName(b, m.author, target, dmKey), own, m);
    case _ => QuietStep(cap, a, e);
  }

  lemma RecordKeepsHistory(a: App, channel: string, msgid: string, row: Row, viewing: bool)
    ensures Record(a, channel, msgid, row, viewing).history == a.history
  {
  }

  lemma DeliverKeepsHistory(cap: nat, a: App, name: string, own: bool, m: Message)
    ensures DeliverInto(cap, a, name, own, m).history == a.history
  {
    AppendToKeepsIndex(cap, a, name, m);
    RecordKeepsHistory(AppendTo(cap, a, name, m), name, m.id, Row(Seconds(m.time), own), Viewing(a, name));
  }

  lemma DeliverOpsInBatch(a: App, name: string, own: bool, m: Message, id: string, target: string, ck: ChannelKey)
    requires AwaitsBaseline(a, id, target, ck)
    requires forall op | op in DeliverOps(a, name, own, m) && op.Read? :: op.ck != ck
    ensures forall op | op in DeliverOps(a, name, own, m) :: !Sets(op, ck)
  {
    if AsciiLower(name) == ck.1 { assert EqIgnoreCase(a.history[id], name); }
  }

  lemma StepInBatch(cap: nat, a: App, e: Event, id: string, target: string, ck: ChannelKey)
    requires AwaitsBaseline(a, id, target, ck) && Spares(cap, a, e, id, ck)
    ensures AwaitsBaseline(Directory.Step(cap, a, e), id, target, ck)
  {
    if !e.BatchStart? && !e.BatchEnd? { HistoryKept(cap, a, e); }
    StepIsRun(cap, a, e);
    if e.Incoming? {
      var own := EqIgnoreCase(e.m.author, a.nick);
      var b := AdoptEcho(cap, a, own, e.target, e.dmKey);
      AdoptEchoKeepsIndex(cap, a, own, e.target, e.dmKey);
      DeliverOpsInBatch(b, BufferName(b, e.m.author, e.target, e.dmKey), own, e.m, id, target, ck);
    }
    UnsetStays(a.store, IndexOps(cap, a, e), ck);
  }

  lemma BatchEnds(cap: nat, a: App, id: string)
    requires id in a.history
    ensures Directory.Step(cap, a, BatchEnd(id)).store
            == BaselineAfterHistory(a.store, ChannelOf(Account(a), a.history[id]))
  {
  }

  lemma {:induction false} RunInBatch(cap: nat, a: App, es: seq<Event>, id: string, target: string, ck: ChannelKey)
    requires AwaitsBaseline(a, id, target, ck) && SparesThroughout(cap, a, es, id, ck)
    ensures AwaitsBaseline(Directory.Run(cap, a, es), id, target, ck)
    decreases |es|
  {
    if es != [] {
      var init := es[..|es| - 1];
      RunInBatch(cap, a, init, id, target, ck);
      StepInBatch(cap, Directory.Run(cap, a, init), es[|es| - 1], id, target, ck);
    }
  }

  /**
   What the client hears of a channel between the start and the end of a history batch for it, by whatever
   spelling and among whatever else, is never counted as unread: not at the batch's end, not after any
   later run, and replaying it changes nothing. This needs the batch to name the channel as its buffer is
   named, up to ASCII case, and nobody to have read the channel before.
   */
  lemma HistoryBatchNeverUnread(cap: nat, a: App, id: string, target: string, history: seq<Event>, later: seq<Event>,
                                msgid: string, again: Row)
    requires target != ""
    requires var open := Directory.Step(cap, a, BatchStart(id, target));
      var read := Directory.Run(cap, open, history); var ck := ChannelOf(Account(read), target);
      ck !in a.store.read && SparesThroughout(cap, open, history, id, ck) && MessageOf(ck, msgid) in read.store.messages
    ensures var read := Directory.Run(cap, Directory.Step(cap, a, BatchStart(id, target)), history);
      var ck := ChannelOf(Account(read), target);
      var out := Directory.Run(cap, Directory.Step(cap, read, BatchEnd(id)), later).store;
      msgid !in UnreadIds(out, ck) && InsertMessage(out, ck, msgid, again) == out
  {
    var open := Directory.Step(cap, a, BatchStart(id, target));
    var read := Directory.Run(cap, open, history);
    var ck := ChannelOf(Account(read), target);
    RunInBatch(cap, open, history, id, target, ck);
    var ended := Directory.Step(cap, read, BatchEnd(id));
    BatchEnds(cap, read, id);
    RunIsRun(cap, ended, later);
    HistoryNeverUnread(read.store, ck, AllIndexOps(cap, ended, later), msgid, again);
  }

  // ---- which messages count ----------------------------------------------------------------

  /** The watermark a new message is measured against. */
  function Watermark(s: Store, ck: ChannelKey): int {
    if ck in s.read then s.read[ck] else MaxOrZero(Times(s, ck, None))
  }

  /** With a watermark that nothing moves, a row is counted exactly when it is foreign and above it. */
  lemma AboveWatermarkCountsIff(s: Store, ops: seq<Op>, ck: ChannelKey, msgid: string)
    requires ck in s.read && NeverRead(ops, ck) && MessageOf(ck, msgid) in s.messages
    ensures var row := s.messages[MessageOf(ck, msgid)];
      msgid in UnreadIds(UnreadIndex.Run(s, ops), ck) <==> !row.fromMe && row.ts > s.read[ck]
  {
    WatermarkStays(s, ops, ck);
    RunGrows(s, ops);
    var out, k := UnreadIndex.Run(s, ops), MessageOf(ck, msgid);
    assert k in out.messages && InChannel(k, ck) && k.2 == msgid;
    forall x | x in out.messages && InChannel(x, ck) && x.2 == msgid ensures x == k {
    }
  }

  /**
   What recording stores: the row, unless its id is known or ignored; and a first watermark exactly when the
   channel is in view or the message is live and somebody else's, then at the newest of the other rows.
   */
  lemma RecordedIs(a: App, name: string, msgid: string, row: Row, viewing: bool)
    ensures var s, out, ck := a.store, Recorded(a, name, msgid, row, viewing), ChannelOf(Account(a), name);
      && (ck in out.read <==> ck in s.read || viewing || (!row.fromMe && !InHistory(a, name)))
      && (ck in s.read && !viewing ==> out.read == s.read)
      && (ck !in s.read && ck in out.read && !viewing ==> out.read[ck] == MaxOrZero(Times(s, ck, Some(msgid))))
      && out.read - {ck} == s.read - {ck}
      && out.messages - {MessageOf(ck, msgid)} == s.messages - {MessageOf(ck, msgid)}
      && (MessageOf(ck, msgid) in s.messages ==> out.messages == s.messages)
  {
    var ck := ChannelOf(Account(a), name);
    var t := InsertMessage(a.store, ck, msgid, row);
    SameOthers(a.store, ck, msgid, row);
    if viewing { MarkReadIsLeast(t, ck, row.ts); }
  }

  lemma SameOthers(s: Store, ck: ChannelKey, msgid: string, row: Row)
    ensures Times(InsertMessage(s, ck, msgid, row), ck, Some(msgid)) == Times(s, ck, Some(msgid))
  {
    var t := InsertMessage(s, ck, msgid, row);
    forall k | InChannel(k, ck) && k.2 != msgid
      ensures k in t.messages <==> k in s.messages
      ensures k in s.messages ==> t.messages[k] == s.messages[k]
    {
      assert k != MessageOf(ck, msgid);
    }
  }

  /** A message new to its channel, as it is recorded and after whatever follows but reads and repeats of it. */
  lemma RecordedCountsIff(a: App, name: string, msgid: string, row: Row, viewing: bool, ops: seq<Op>)
    requires var ck := ChannelOf(Account(a), name);
      !Ignored(msgid) && MessageOf(ck, msgid) !in a.store.messages && NeverRead(ops, ck) && Live(ck, msgid) !in ops
    ensures var ck := ChannelOf(Account(a), name);
      msgid in UnreadIds(UnreadIndex.Run(Recorded(a, name, msgid, row, viewing), ops), ck) <==>
        && !row.fromMe && !viewing && row.ts > Watermark(a.store, ck)
        && (ck in a.store.read || !InHistory(a, name))
  {
    var ck := ChannelOf(Account(a), name);
    var t, s := InsertMessage(a.store, ck, msgid, row), Recorded(a, name, msgid, row, viewing);
    if viewing {
      BelowWatermarkNeverCounts(s, ops, ck, msgid);
    } else if ck in s.read {
      OthersTimes(a.store, ck, msgid, row);
      AboveWatermarkCountsIff(s, ops, ck, msgid);
    } else {
      StoredFirstNeverCounts(s, ops, ck, msgid);
    }
  }

  lemma DeliveredIsRecorded(cap: nat, a: App, name: string, own: bool, m: Message)
    requires name != STATUS && m.id != "" && !Rewrites(a, name, m)
    ensures DeliverInto(cap, a, name, own, m).store
            == Recorded(a, name, m.id, Row(Seconds(m.time), own), Viewing(a, name))
  {
    AppendToKeepsIndex(cap, a, name, m);
  }

  /** Nobody reads the channel, and the message takes no live watermark again. */
  ghost predicate Undisturbed(cap: nat, a: App, es: seq<Event>, ck: ChannelKey, msgid: string) {
    NeverRead(AllIndexOps(cap, a, es), ck) && Live(ck, msgid) !in AllIndexOps(cap, a, es)
  }

  /**
   Which messages count: one new to its channel is unread after everything that may follow, history
   batches and sign-ins included, but reads of the channel and live repeats of the message, exactly when it
   is somebody else's, its conversation is not in view, it is newer than the channel's watermark or, without
   one, than all that was known, and in that case no batch in flight names its buffer, up to ASCII case.
   */
  lemma ArrivalCountsIff(cap: nat, a: App, name: string, own: bool, m: Message, later: seq<Event>)
    requires name != STATUS && !Ignored(m.id) && !Rewrites(a, name, m)
    requires var ck := ChannelOf(Account(a), name);
      MessageOf(ck, m.id) !in a.store.messages
      && Undisturbed(cap, DeliverInto(cap, a, name, own, m), later, ck, m.id)
    ensures var ck := ChannelOf(Account(a), name);
      var out := Directory.Run(cap, DeliverInto(cap, a, name, own, m), later);
      m.id in UnreadIds(out.store, ck) <==>
        && !own && !Viewing(a, name) && Seconds(m.time) > Watermark(a.store, ck)
        && (ck in a.store.read || !InHistory(a, name))
  {
    var b := DeliverInto(cap, a, name, own, m);
    DeliveredIsRecorded(cap, a, name, own, m);
    RunIsRun(cap, b, later);
    RecordedCountsIff(a, name, m.id, Row(Seconds(m.time), own), Viewing(a, name), AllIndexOps(cap, b, later));
  }

  lemma BatchOpens(cap: nat, a: App, id: string, target: string, name: string)
    requires target != ""
    requires forall other | other in a.history && other != id :: !EqIgnoreCase(a.history[other], name)
    ensures var open := Directory.Step(cap, a, BatchStart(id, target));
      && open.store == a.store && Account(open) == Account(a) && open.active == a.active
      && (InHistory(open, name) <==> EqIgnoreCase(target, name))
  {
    var open := Directory.Step(cap, a, BatchStart(id, target));
    assert open.history[id] == target;
  }

  /**
   History as such: what is delivered from batch `id`, asked for by the name `target`, is counted as
   unread exactly when the batch names the conversation's buffer otherwise and the message is newer than
   all that was known; whether the batch ends or anything else follows does not matter.
   */
  lemma BatchedMessageCountsIff(cap: nat, a: App, id: string, target: string, name: string, m: Message,
                                later: seq<Event>)
    requires target != "" && name != STATUS && !Ignored(m.id)
    requires var open := Directory.Step(cap, a, BatchStart(id, target)); var ck := ChannelOf(Account(a), name);
      && !Rewrites(open, name, m) && !Viewing(a, name)
      && ck !in a.store.read && MessageOf(ck, m.id) !in a.store.messages
      && (forall other | other in a.history && other != id :: !EqIgnoreCase(a.history[other], name))
      && Undisturbed(cap, DeliverInto(cap, open, name, false, m), later, ck, m.id)
    ensures var open := Directory.Step(cap, a, BatchStart(id, target)); var ck := ChannelOf(Account(a), name);
      var out := Directory.Run(cap, DeliverInto(cap, open, name, false, m), later);
      m.id in UnreadIds(out.store, ck) <==>
        !EqIgnoreCase(target, name) && Seconds(m.time) > MaxOrZero(Times(a.store, ck, None))
  {
    var open := Directory.Step(cap, a, BatchStart(id, target));
    BatchOpens(cap, a, id, target, name);
    ArrivalCountsIff(cap, open, name, false, m, later);
  }
}
