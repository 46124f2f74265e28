/**
 What is on screen: which events change the conversation in view, and that what arrives in the conversation in
 view never counts as unread. Also who leaves when somebody parts, where announced and sent lines are shown,
 and when a history batch is over.
 */
module DirectoryViews {
  import opened Text
  import opened Timeline
  import opened UnreadIndex
  import opened Directory
  import opened DirectoryRuns
  import opened DirectoryStore

  /** The conversation under `key` is open. */
  predicate InView(a: App, key: string) {
    a.active == Some(key) && a.route == Chat(key)
  }

  lemma ShowReadShows(b: App, key: string, now: int)
    ensures var c := ShowRead(b, key, now);
      && InView(c, key) && c.channels.Keys == b.channels.Keys
      && (forall k | k in b.channels :: c.channels[k].rows == b.channels[k].rows)
      && c.(channels := b.channels, active := b.active, route := b.route, store := b.store) == b
  {
  }

  /** Opening a conversation shows it: a bound peer's under the DID, any other under its own name. */
  lemma OpenShows(cap: nat, a: App, name: string, now: int)
    requires Inv(cap, a)
    ensures var b := OpenChat(a, name, now); var bound := IsNick(name) && ToLowercase(name) in a.nickToDid;
      var key := if bound then a.nickToDid[ToLowercase(name)] else name;
      && InView(b, key) && FindKey(b.channels.Keys, key).Some?
      && (forall k | k in a.channels :: k in b.channels && b.channels[k].rows == a.channels[k].rows)
      && b.(channels := a.channels, order := a.order, active := a.active, route := a.route, store := a.store) == a
  {
    var key := DmBufferKey(a.nickToDid, name);
    DmBufferKeyInformed(a, name);
    EnsureKeepsInv(cap, a, key);
    EnsureOrder(a, key);
    ShowReadShows(EnsureBuffer(a, key), key, now);
  }

  /** Closing, ending the session, and leaving the conversation in view show the tabs; leaving another does not. */
  lemma ClosedShowsTabs(cap: nat, a: App, channel: string, who: string, notice: Option<Message>)
    requires Inv(cap, a)
    ensures Directory.Step(cap, a, Close) == a.(active := None, route := Tabs)
    ensures Directory.Step(cap, a, Cleared)
            == a.(channels := map[], order := [], active := None, route := Tabs, nickToDid := map[], didToNick := map[])
    ensures var b := Departed(cap, a, channel, who, notice);
      if EqIgnoreCase(who, a.nick) && a.active == Some(channel) then b.active == None && b.route == Tabs
      else b.active == a.active && b.route == a.route
  {
  }

  lemma StepEnsures(cap: nat, a: App, name: string)
    ensures Directory.Step(cap, a, Ensure(name)) == EnsureBuffer(a, name)
  {
  }

  lemma StepParts(cap: nat, a: App, channel: string)
    ensures Directory.Step(cap, a, Part(channel)).channels == a.channels - {channel}
  {
  }

  /** A conversation that is asked for is there; a channel we part from is not, and the others are as they were. */
  lemma JoinsAndParts(cap: nat, a: App, name: string, channel: string)
    requires Inv(cap, a)
    ensures FindKey(Directory.Step(cap, a, Ensure(name)).channels.Keys, name).Some?
    ensures Directory.Step(cap, a, Part(channel)).channels == a.channels - {channel}
  {
    StepEnsures(cap, a, name);
    StepParts(cap, a, channel);
    EnsureKeepsInv(cap, a, name);
  }

  /** The event leaves the view on `key`: it opens, closes or leaves nothing, and folds another thread if any. */
  predicate KeepsView(a: App, e: Event, key: string) {
    match e
    case Open(_, _) => false
    case Close => false
    case Cleared => false
    case Part(channel) => channel != key
    case Departure(channel, who, _) => channel != key || !EqIgnoreCase(who, a.nick)
    case Identity(nick, _) => !EqIgnoreCase(nick, key)
    case Listed(nick, partner, _) => partner.Some? ==> !EqIgnoreCase(nick, key)
    case Incoming(target, dmKey, m) => EqIgnoreCase(m.author, a.nick) && dmKey.Some? ==> !EqIgnoreCase(target, key)
    case _ => true
  }

  lemma AdoptKeepsView(cap: nat, a: App, nick: string, did: string, key: string)
    requires InView(a, key) && !EqIgnoreCase(nick, key)
    ensures InView(Adopt(cap, a, nick, did), key)
  {
  }

  lemma EnsureKeepsView(a: App, name: string, key: string)
    requires InView(a, key)
    ensures InView(EnsureBuffer(a, name), key)
  {
  }

  lemma AppendToKeepsView(cap: nat, a: App, name: string, m: Message, key: string)
    requires InView(a, key)
    ensures InView(AppendTo(cap, a, name, m), key)
  {
    EnsureKeepsView(a, name, key);
  }

  lemma DeliverIntoKeepsView(cap: nat, a: App, name: string, own: bool, m: Message, key: string)
    requires InView(a, key)
    ensures InView(DeliverInto(cap, a, name, own, m), key)
  {
    EnsureKeepsView(a, name, key);
    AppendToKeepsView(cap, a, name, m, key);
  }

  lemma DeliverKeepsView(cap: nat, a: App, target: string, dmKey: Option<string>, m: Message, key: string)
    requires InView(a, key) && KeepsView(a, Incoming(target, dmKey, m), key)
    ensures InView(Deliver(cap, a, target, dmKey, m), key)
  {
    var own := EqIgnoreCase(m.author, a.nick);
    var c := AdoptEcho(cap, a, own, target, dmKey);
    if EchoBinds(own, target, dmKey) { AdoptKeepsView(cap, a, target, dmKey.value, key); }
    DeliverIntoKeepsView(cap, c, BufferName(c, m.author, target, dmKey), own, m, key);
  }

  lemma ListUnderKeepsView(a: App, name: string, seconds: Option<int>, key: string)
    requires InView(a, key)
    ensures InView(ListUnder(a, name, seconds), key)
  {
    EnsureKeepsView(a, name, key);
  }

  lemma ListedKeepsView(cap: nat, a: App, nick: string, partner: Option<string>, seconds: Option<int>, key: string)
    requires InView(a, key) && (partner.Some? ==> !EqIgnoreCase(nick, key))
    ensures InView(ListTarget(cap, a, nick, partner, seconds), key)
  {
    var c := if partner.Some? then Adopt(cap, a, nick, partner.value) else a;
    if partner.Some? { AdoptKeepsView(cap, a, nick, partner.value, key); }
    ListUnderKeepsView(c, if partner.Some? then partner.value else DmBufferKey(c.nickToDid, nick), seconds, key);
  }

  lemma DepartedKeepsView(cap: nat, a: App, channel: string, who: string, notice: Option<Message>, key: string)
    requires InView(a, key) && (channel != key || !EqIgnoreCase(who, a.nick))
    ensures InView(Departed(cap, a, channel, who, notice), key)
  {
  }

  lemma StepKeepsView(cap: nat, a: App, e: Event, key: string)
    requires InView(a, key) && KeepsView(a, e, key)
    ensures InView(Directory.Step(cap, a, e), key)
  {
    match e
    case Ensure(name) => EnsureKeepsView(a, name, key);
    case Part(_) =>
    case Departure(channel, who, notice) => DepartedKeepsView(cap, a, channel, who, notice, key);
    case Identity(nick, did) => AdoptKeepsView(cap, a, nick, did, key);
    case Listed(nick, partner, seconds) => ListedKeepsView(cap, a, nick, partner, seconds, key);
    case Incoming(target, dmKey, m) => DeliverKeepsView(cap, a, target, dmKey, m, key);
    case LocalSend(target, m) => AppendToKeepsView(cap, a, DmBufferKey(a.nickToDid, target), m, key);
    case LocalEdit(_, _) =>
    case Deletion(_, _, _) =>
    case Notice(name, m) => AppendToKeepsView(cap, a, name, m, key);
    case _ =>
  }

  ghost predicate KeptInView(cap: nat, a: App, es: seq<Event>, key: string) {
    es != [] ==>
      var init := es[..|es| - 1];
      KeptInView(cap, a, init, key) && KeepsView(Directory.Run(cap, a, init), es[|es| - 1], key)
  }

  /** The conversation stays in view until one is opened, closed, left or folded away. */
  lemma {:induction false} ViewStays(cap: nat, a: App, es: seq<Event>, key: string)
    requires InView(a, key) && KeptInView(cap, a, es, key)
    ensures InView(Directory.Run(cap, a, es), key)
    decreases |es|
  {
    if es != [] {
      ViewStays(cap, a, es[..|es| - 1], key);
      StepKeepsView(cap, Directory.Run(cap, a, es[..|es| - 1]), es[|es| - 1], key);
    }
  }

  // ---- what is seen is read ----------------------------------------------------------------

  /** A message that is delivered to the conversation in view is not counted then or after any later run. */
  lemma SeenNeverCounts(cap: nat, a: App, name: string, own: bool, m: Message, later: seq<Event>)
    requires Viewing(a, name) && name != STATUS && m.id != "" && !Rewrites(a, name, m)
    ensures m.id !in UnreadIds(Directory.Run(cap, DeliverInto(cap, a, name, own, m), later).store,
                               ChannelOf(Account(a), name))
  {
    var b, ck, row := DeliverInto(cap, a, name, own, m), ChannelOf(Account(a), name), Row(Seconds(m.time), own);
    DeliveredIsRecorded(cap, a, name, own, m);
    RunIsRun(cap, b, later);
    MarkReadIsLeast(InsertMessage(a.store, ck, m.id, row), ck, row.ts);
    ReadNeverCounts(InsertMessage(a.store, ck, m.id, row), ck, row.ts, AllIndexOps(cap, b, later), m.id);
  }

  /** What is stored when a channel is read, and what the index ignores, is not counted after it. */
  lemma ReadNeverCounts(s: Store, ck: ChannelKey, at: int, ops: seq<Op>, msgid: string)
    requires MessageOf(ck, msgid) in s.messages || Ignored(msgid)
    ensures msgid !in UnreadIds(UnreadIndex.Run(MarkRead(s, ck, at), ops), ck)
  {
    var t := MarkRead(s, ck, at);
    MarkReadIsLeast(s, ck, at);
    if MessageOf(ck, msgid) in s.messages {
      assert s.messages[MessageOf(ck, msgid)].ts in Times(s, ck, None);
      BelowWatermarkNeverCounts(t, ops, ck, msgid);
    } else {
      IgnoredStaysOut(t, ops, ck, msgid);
    }
  }

  lemma {:induction false} IgnoredStaysOut(s: Store, ops: seq<Op>, ck: ChannelKey, msgid: string)
    requires Ignored(msgid) && MessageOf(ck, msgid) !in s.messages
    ensures MessageOf(ck, msgid) !in UnreadIndex.Run(s, ops).messages
    ensures msgid !in UnreadIds(UnreadIndex.Run(s, ops), ck)
    decreases |ops|
  {
    if ops != [] { IgnoredStaysOut(s, ops[..|ops| - 1], ck, msgid); }
    var out := UnreadIndex.Run(s, ops);
    assert forall k | k in out.messages && InChannel(k, ck) && k.2 == msgid :: k == MessageOf(ck, msgid);
  }

  /**
   From the moment a conversation is opened, through every run that keeps it in view, nothing that is then
   delivered to it ever counts as unread.
   */
  lemma OpenedNeverCounts(cap: nat, a: App, name: string, now: int, key: string, es: seq<Event>,
                          own: bool, m: Message, later: seq<Event>)
    requires Inv(cap, a) && key != STATUS && m.id != ""
    requires key == if IsNick(name) && ToLowercase(name) in a.nickToDid then a.nickToDid[ToLowercase(name)] else name
    requires KeptInView(cap, OpenChat(a, name, now), es, key)
    requires !Rewrites(Directory.Run(cap, OpenChat(a, name, now), es), key, m)
    ensures var b := Directory.Run(cap, OpenChat(a, name, now), es);
      m.id !in UnreadIds(Directory.Run(cap, DeliverInto(cap, b, key, own, m), later).store, ChannelOf(Account(b), key))
  {
    OpenShows(cap, a, name, now);
    ViewStays(cap, OpenChat(a, name, now), es, key);
    SeenNeverCounts(cap, Directory.Run(cap, OpenChat(a, name, now), es), key, own, m, later);
  }

  /**
   Opened at `now` and closed again, the conversation counts a new message of somebody else exactly when it is
   newer than the opening, than everything stored by then, and than its earlier watermark.
   */
  lemma ClosedCountsIff(cap: nat, a: App, name: string, now: int, key: string, bound: int, m: Message)
    requires Inv(cap, a) && key != STATUS && !Ignored(m.id)
    requires key == if IsNick(name) && ToLowercase(name) in a.nickToDid then a.nickToDid[ToLowercase(name)] else name
    requires IsMax(bound, ReadBounds(a.store, ChannelOf(Account(a), key), now))
    requires MessageOf(ChannelOf(Account(a), key), m.id) !in a.store.messages
    requires !Rewrites(CloseChat(OpenChat(a, name, now)), key, m)
    ensures var b := CloseChat(OpenChat(a, name, now));
      m.id in UnreadIds(DeliverInto(cap, b, key, false, m).store, ChannelOf(Account(b), key))
      <==> Seconds(m.time) > bound
  {
    var ck, b := ChannelOf(Account(a), key), CloseChat(OpenChat(a, name, now));
    DmBufferKeyInformed(a, name);
    OpenMarksRead(a, name, now);
    MarkReadIsLeast(a.store, ck, now);
    ArrivalCountsIff(cap, b, key, false, m, []);
  }

  lemma OpenMarksRead(a: App, name: string, now: int)
    ensures var b := CloseChat(OpenChat(a, name, now));
      && b.store == MarkRead(a.store, ChannelOf(Account(a), DmBufferKey(a.nickToDid, name)), now)
      && Account(b) == Account(a) && b.active == None
  {
    EnsureKeepsIndex(a, DmBufferKey(a.nickToDid, name));
  }

  // ---- who leaves --------------------------------------------------------------------------

  /** A part or kick takes the channel away exactly when it is ours; the line about it is shown if it is not. */
  lemma DepartedIff(cap: nat, a: App, channel: string, who: string, notice: Option<Message>)
    requires Inv(cap, a)
    ensures var b := Departed(cap, a, channel, who, notice);
      && (channel in b.channels <==> channel in a.channels && !EqIgnoreCase(who, a.nick))
      && (forall k | k in a.channels && k != channel :: k in b.channels && b.channels[k] == a.channels[k])
      && b.channels.Keys <= a.channels.Keys
      && (channel in b.channels ==>
            b.channels[channel]
            == (if notice.Some? then Append(cap, a.channels[channel], notice.value) else a.channels[channel]))
  {
    LeaveKeepsInv(cap, a, channel);
  }

  // ---- lines that are sent, announced and delivered ----------------------------------------

  /** The line is the last in the log. */
  predicate ShownLast(log: Log, m: Message) {
    log.rows != [] && log.rows[|log.rows| - 1] == m
  }

  /** A line no log knows that is not older than the newest row is shown last. */
  lemma NewestIsLast(cap: nat, log: Log, m: Message)
    requires cap >= 1 && Valid(cap, log) && m.id !in log.ids && m.id !in log.aliases
    requires forall x | x in log.rows :: x.time <= m.time
    ensures ShownLast(Append(cap, log, m), m)
  {
    var rows := Accept(log, m).rows;
    AcceptRows(log, m);
    AcceptFacts(cap, log, m);
    assert forall j | 0 <= j < |rows| :: rows[j] in rows;
    assert InsertIndex(rows, m.time) == |rows|;
    EvictOne(cap, Inserted(log, m));
  }

  /** The line is shown in the conversation that `name` finds, created if need be, and nowhere else. */
  ghost predicate AddedTo(cap: nat, a: App, b: App, name: string, m: Message) {
    var key := FindKey(b.channels.Keys, name);
    && key.Some? && b.channels.Keys <= a.channels.Keys + {name}
    && (if key.value in a.channels then b.channels[key.value].rows == Append(cap, a.channels[key.value], m).rows
        else b.channels[key.value].rows == if cap == 0 then [] else [m])
    && forall k | k in a.channels && k != key.value :: k in b.channels && b.channels[k] == a.channels[k]
  }

  lemma OnlyLine(cap: nat, name: string, unread: nat, m: Message)
    ensures Append(cap, EmptyLog(name).(unread := unread), m).rows == if cap == 0 then [] else [m]
  {
    var log := EmptyLog(name).(unread := unread);
    assert Timeline.Insert([], m) == [m];
    EvictOne(cap, Inserted(log, m));
  }

  lemma AppendedToOne(cap: nat, a: App, name: string, m: Message)
    requires Inv(cap, a)
    ensures AddedTo(cap, a, AppendTo(cap, a, name, m), name, m)
  {
    var b := EnsureBuffer(a, name);
    var key := FindKey(b.channels.Keys, name).value;
    EnsureKeepsInv(cap, a, name);
    var log := Append(cap, b.channels[key], m);
    assert AppendTo(cap, a, name, m) == SetLog(b, key, log);
    assert SetLog(b, key, log).channels.Keys == b.channels.Keys;
    if key !in a.channels { OnlyLine(cap, name, Count(a, name), m); }
  }

  /** A line of our own is shown in the peer's conversation. */
  lemma SentIsShown(cap: nat, a: App, target: string, m: Message)
    requires Inv(cap, a)
    ensures AddedTo(cap, a, Directory.Step(cap, a, LocalSend(target, m)), DmBufferKey(a.nickToDid, target), m)
  {
    AppendedToOne(cap, a, DmBufferKey(a.nickToDid, target), m);
  }

  /** So is a line about ourselves, in the conversation it is for. */
  lemma NoticeIsShown(cap: nat, a: App, name: string, m: Message)
    requires Inv(cap, a)
    ensures AddedTo(cap, a, Directory.Step(cap, a, Notice(name, m)), name, m)
  {
    AppendedToOne(cap, a, name, m);
  }

  /** Our own edit and anybody's deletion reach the conversation of that very key, and no other. */
  lemma ChangesReachOne(cap: nat, a: App, target: string, e: Edit, key: string, deleter: string, id: string, k: string)
    requires k in a.channels
    ensures var b := Directory.Step(cap, a, LocalEdit(target, e));
      && b.channels.Keys == a.channels.Keys
      && b.channels[k] == if k == DmBufferKey(a.nickToDid, target) then ApplyEdit(a.channels[k], e) else a.channels[k]
    ensures var b := Directory.Step(cap, a, Deletion(key, deleter, id));
      && b.channels.Keys == a.channels.Keys
      && b.channels[k] == if k == key then ApplyDelete(a.channels[k], deleter, id) else a.channels[k]
  {
  }

  lemma RecordKeepsRows(a: App, name: string, msgid: string, row: Row, viewing: bool)
    ensures var b := Record(a, name, msgid, row, viewing);
      && b.channels.Keys == a.channels.Keys
      && (forall k | k in a.channels :: b.channels[k].rows == a.channels[k].rows)
      && (forall k | k in a.channels && FindKey(a.channels.Keys, name) != Some(k) :: b.channels[k] == a.channels[k])
  {
  }

  /** A delivered message that rewrites nothing is shown in the conversation it is filed under. */
  lemma DeliveredIsShown(cap: nat, a: App, name: string, own: bool, m: Message)
    requires Inv(cap, a) && !Rewrites(a, name, m)
    ensures AddedTo(cap, a, DeliverInto(cap, a, name, own, m), name, m)
  {
    AppendedToOne(cap, a, name, m);
    RecordKeepsRows(AppendTo(cap, a, name, m), name, m.id, Row(Seconds(m.time), own), Viewing(a, name));
  }

  /** Whatever is delivered, an edit included, no other conversation changes. */
  lemma DeliverTouchesOne(cap: nat, a: App, name: string, own: bool, m: Message, k: string)
    requires Inv(cap, a) && k in a.channels && !EqIgnoreCase(k, name)
    ensures var b := DeliverInto(cap, a, name, own, m); k in b.channels && b.channels[k] == a.channels[k]
  {
    if Rewrites(a, name, m) {
      EnsureKeepsInv(cap, a, name);
    } else {
      AppendedToOne(cap, a, name, m);
      RecordKeepsRows(AppendTo(cap, a, name, m), name, m.id, Row(Seconds(m.time), own), Viewing(a, name));
    }
  }

  /** Announced lines are shown in exactly the conversations they are for, and our own new nick is taken over. */
  lemma AnnouncedIsShown(cap: nat, a: App, rename: Option<string>, notices: map<string, Message>, k: string)
    requires Inv(cap, a) && k in a.channels
    ensures var b := Announce(cap, a, rename, notices);
      && b.channels.Keys == a.channels.Keys && b.(channels := a.channels, nick := a.nick) == a
      && b.nick == (if rename.Some? then rename.value else a.nick)
      && (k !in notices ==> b.channels[k] == a.channels[k])
      && (k in notices ==> b.channels[k] == Append(cap, a.channels[k], notices[k]))
  {
  }

  /** After a batch has ended a name is in history exactly when another batch asks for it. */
  lemma BatchOver(cap: nat, a: App, id: string, name: string)
    ensures InHistory(Directory.Step(cap, a, BatchEnd(id)), name) <==>
      exists other | other in a.history && other != id :: EqIgnoreCase(a.history[other], name)
  {
    var b := Directory.Step(cap, a, BatchEnd(id));
    HistoryAfterEnd(cap, a, id);
    if InHistory(b, name) {
      var other :| other in b.history && EqIgnoreCase(b.history[other], name);
      assert other in a.history && other != id;
    }
    if other :| other in a.history && other != id && EqIgnoreCase(a.history[other], name) {
      assert other in b.history;
    }
  }

  lemma HistoryAfterEnd(cap: nat, a: App, id: string)
    ensures Directory.Step(cap, a, BatchEnd(id)).history == a.history - {id}
  {
    assert id !in a.history ==> a.history - {id} == a.history;
  }
}
