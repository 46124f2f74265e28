/**
 Reachable states in which the badges or the watermarks go astray: each starts from a client that has
 heard nothing and takes two or three events.
 */
module DirectoryInstances {
  import opened Text
  import opened Timeline
  import opened UnreadIndex
  import opened Directory
  import opened DirectoryRuns
  import opened DirectoryBadges
  import opened DirectoryStore

  /** A guest that has heard nothing, with the given batches in flight. */
  function Start(nick: string, history: map<string, string>): App {
    App(nick, None, map[], [], None, Tabs, map[], map[], history, Store(map[], map[]))
  }

  /** A plain server message from after the epoch. */
  predicate Plain(m: Message) {
    !Ignored(m.id) && m.editOf.None? && Seconds(m.time) > 0
  }

  /** After the first message of all: one buffer, one watermark, and an unread message that its badge shows. */
  ghost predicate HeardOnce(cap: nat, a: App, b: App, name: string) {
    && Inv(cap, b) && Badges(b) && b.channels.Keys == {name} && b.channels[name].unread > 0
    && b.store.read.Keys == {ChannelOf(Account(a), name)}
    && b.nick == a.nick && b.did == a.did && b.nickToDid == a.nickToDid && b.history == a.history
    && b.active == a.active
  }

  lemma StartIsGood(cap: nat, nick: string, history: map<string, string>)
    ensures Inv(cap, Start(nick, history)) && Badges(Start(nick, history))
  {
  }

  lemma FirstCount(ck: ChannelKey, m: Message)
    requires Plain(m)
    ensures var s := InsertMessage(Store(map[], map[]), ck, m.id, Row(Seconds(m.time), false));
      var t := EnsureLiveBaseline(s, ck, m.id);
      m.id in UnreadIds(t, ck) && UnreadCount(t, ck) > 0 && t.read.Keys == {ck}
  {
    var row := Row(Seconds(m.time), false);
    assert Times(Store(map[], map[]), ck, None) == {};
    LiveMessageCountsIff(Store(map[], map[]), ck, m.id, row);
  }

  /** The very first message, as it is shown and recorded. */
  lemma FirstRecorded(cap: nat, nick: string, history: map<string, string>, name: string, m: Message)
    requires Plain(m) && name != STATUS && !InHistory(Start(nick, history), name)
    ensures var a := Start(nick, history); var c := AppendTo(cap, a, name, m);
      var row, ck := Row(Seconds(m.time), false), ChannelOf(Account(a), name);
      && SameIndex(a, c) && c.nick == nick && c.did == None && c.nickToDid == map[] && c.channels.Keys == {name}
      && Recorded(c, name, m.id, row, false) == EnsureLiveBaseline(InsertMessage(a.store, ck, m.id, row), ck, m.id)
  {
    StartIsGood(cap, nick, history);
    AppendToKeepsInv(cap, Start(nick, history), name, m);
    AppendToKeepsIndex(cap, Start(nick, history), name, m);
  }

  lemma RecordIs(cap: nat, c: App, name: string, m: Message)
    requires Inv(cap, c) && Badges(c) && c.channels.Keys == {name} && Plain(m) && name != STATUS
    ensures var row := Row(Seconds(m.time), false); var b := Record(c, name, m.id, row, false);
      && Inv(cap, b) && Badges(b) && b.channels.Keys == {name} && b.store == Recorded(c, name, m.id, row, false)
      && b == c.(store := b.store, channels := b.channels)
  {
    var row := Row(Seconds(m.time), false);
    var d := c.(store := Recorded(c, name, m.id, row, false));
    RefreshKeepsInv(cap, d, name);
    RecordKeepsBadges(cap, c, name, m.id, row, false);
  }

  lemma FirstMessage(cap: nat, nick: string, history: map<string, string>, name: string, m: Message)
    requires Plain(m) && name != STATUS && !InHistory(Start(nick, history), name)
    ensures var a := Start(nick, history); var b := DeliverInto(cap, a, name, false, m);
      HeardOnce(cap, a, b, name) && m.id in UnreadIds(b.store, ChannelOf(Account(a), name))
  {
    var a := Start(nick, history);
    var c := AppendTo(cap, a, name, m);
    StartIsGood(cap, nick, history);
    AppendToKeepsInv(cap, a, name, m);
    AppendToKeepsBadges(cap, a, name, m);
    FirstRecorded(cap, nick, history, name, m);
    FirstCount(ChannelOf(Account(a), name), m);
    RecordIs(cap, c, name, m);
    assert DeliverInto(cap, a, name, false, m) == Record(c, name, m.id, Row(Seconds(m.time), false), false);
  }

  lemma StepDelivers(cap: nat, a: App, target: string, dmKey: Option<string>, m: Message)
    ensures Directory.Step(cap, a, Incoming(target, dmKey, m)) == Deliver(cap, a, target, dmKey, m)
  {
  }

  lemma ForeignDeliver(cap: nat, a: App, target: string, dmKey: Option<string>, m: Message)
    requires !EqIgnoreCase(m.author, a.nick)
    ensures Deliver(cap, a, target, dmKey, m)
            == DeliverInto(cap, a, BufferName(a, m.author, target, dmKey), false, m)
  {
    assert AdoptEcho(cap, a, false, target, dmKey) == a;
  }

  /** A message from somebody else goes to the buffer that its target and key name. */
  lemma IncomingIs(cap: nat, a: App, target: string, dmKey: Option<string>, m: Message)
    requires !EqIgnoreCase(m.author, a.nick)
    ensures Directory.Step(cap, a, Incoming(target, dmKey, m))
            == DeliverInto(cap, a, BufferName(a, m.author, target, dmKey), false, m)
  {
    StepDelivers(cap, a, target, dmKey, m);
    ForeignDeliver(cap, a, target, dmKey, m);
  }

  lemma ChannelsAndNicksAreNoStatus(name: string)
    requires IsChannelName(name) || IsNick(name)
    ensures name != STATUS
  {
    assert StartsWith(name, "#") ==> name[..1][0] == '#';
    assert StartsWith(name, "&") ==> name[..1][0] == '&';
    assert STATUS[0] == '*';
  }

  lemma NoBatch(a: App, name: string)
    requires a.history == map[]
    ensures !InHistory(a, name)
  {
  }

  /** A channel message from somebody else is delivered to the channel's buffer. */
  lemma FirstInChannel(cap: nat, nick: string, room: string, m: Message)
    requires Plain(m) && IsChannelName(room) && !EqIgnoreCase(m.author, nick)
    ensures var a := Start(nick, map[]); HeardOnce(cap, a, Directory.Step(cap, a, Incoming(room, None, m)), room)
  {
    IncomingIs(cap, Start(nick, map[]), room, None, m);
    ChannelsAndNicksAreNoStatus(room);
    NoBatch(Start(nick, map[]), room);
    FirstMessage(cap, nick, map[], room, m);
  }

  /** A channel with something unread, opened in another case, keeps its stale badge. */
  lemma OtherSpellingGoesStale(cap: nat, nick: string, room: string, spelled: string, m: Message, now: int)
    requires Plain(m) && IsChannelName(room) && IsChannelName(spelled) && !EqIgnoreCase(m.author, nick)
    requires EqIgnoreCase(room, spelled) && room != spelled
    ensures var b := Directory.Step(cap, Start(nick, map[]), Incoming(room, None, m));
      var c := Directory.Step(cap, b, Open(spelled, now));
      Badges(b) && !Badges(c) && Count(c, spelled) == 0
  {
    FirstInChannel(cap, nick, room, m);
    var b := Directory.Step(cap, Start(nick, map[]), Incoming(room, None, m));
    NoVariantLeft(b.channels.Keys, spelled, room);
    OpenKeepsBadgesIff(cap, b, spelled, now);
  }

  /** A guest's nick change makes every badge stale that shows something. */
  lemma GuestRenameGoesStale(cap: nat, nick: string, room: string, m: Message, rename: string)
    requires Plain(m) && IsChannelName(room) && !EqIgnoreCase(m.author, nick)
    requires ToLowercase(rename) != ToLowercase(nick)
    ensures var b := Directory.Step(cap, Start(nick, map[]), Incoming(room, None, m));
      Badges(b) && !Badges(Directory.Step(cap, b, Announced(Some(rename), map[])))
  {
    FirstInChannel(cap, nick, room, m);
    RenameAfterFirst(cap, nick, Directory.Step(cap, Start(nick, map[]), Incoming(room, None, m)), room, rename);
  }

  lemma RenameAfterFirst(cap: nat, nick: string, b: App, room: string, rename: string)
    requires HeardOnce(cap, Start(nick, map[]), b, room) && ToLowercase(rename) != ToLowercase(nick)
    ensures !Badges(Directory.Step(cap, b, Announced(Some(rename), map[])))
  {
    RenameKeepsBadgesIff(cap, b, rename, map[]);
    OtherAccount(nick, rename);
    OnlyOneWatermark(cap, Start(nick, map[]), b, room, AccountKey(None, rename));
  }

  lemma OnlyOneWatermark(cap: nat, a: App, b: App, name: string, account: string)
    requires HeardOnce(cap, a, b, name) && account != Account(a)
    ensures !CountsAgree(b, account)
  {
    assert name in b.channels.Keys;
    assert ChannelOf(account, name) !in b.store.read.Keys;
    assert UnreadCount(b.store, ChannelOf(account, name)) == 0;
  }

  lemma OtherAccount(nick: string, rename: string)
    requires ToLowercase(rename) != ToLowercase(nick)
    ensures AccountKey(None, rename) != AccountKey(None, nick)
  {
    assert AccountKey(None, nick)[6..] == ToLowercase(nick);
    assert AccountKey(None, rename)[6..] == ToLowercase(rename);
  }

  /** A private message from somebody else is filed under the sender. */
  lemma FirstFromPeer(cap: nat, nick: string, m: Message)
    requires Plain(m) && IsNick(m.author) && !IsChannelName(nick) && !EqIgnoreCase(m.author, nick)
    ensures var a := Start(nick, map[]); HeardOnce(cap, a, Directory.Step(cap, a, Incoming(nick, None, m)), m.author)
  {
    IncomingIs(cap, Start(nick, map[]), nick, None, m);
    ChannelsAndNicksAreNoStatus(m.author);
    NoBatch(Start(nick, map[]), m.author);
    FirstMessage(cap, nick, map[], m.author, m);
  }

  /** A nick thread with something unread, folded into a new DID thread, takes its badge along but not its count. */
  lemma FoldGoesStale(cap: nat, nick: string, did: string, m: Message)
    requires Plain(m) && IsNick(m.author) && !IsChannelName(nick) && !EqIgnoreCase(m.author, nick)
    requires Bindable(m.author, did)
    ensures var b := Directory.Step(cap, Start(nick, map[]), Incoming(nick, None, m));
      Badges(b) && !Badges(Directory.Step(cap, b, Identity(m.author, did)))
  {
    FirstFromPeer(cap, nick, m);
    var b := Directory.Step(cap, Start(nick, map[]), Incoming(nick, None, m));
    var c := Bind(b, m.author, did);
    assert Inv(cap, c) && Badges(c);
    assert did !in c.channels.Keys;
    assert ChannelOf(Account(c), did) !in c.store.read.Keys;
    assert Count(c, did) == 0;
    FoldKeepsBadgesIff(cap, c, m.author, did);
  }

  /** The end of a batch for another channel changes nothing in a channel that has a watermark. */
  lemma OtherBatchEnds(cap: nat, c: App, id: string, ck: ChannelKey)
    requires id in c.history && ChannelOf(Account(c), c.history[id]) != ck && ck in c.store.read
    ensures var out := Directory.Step(cap, c, BatchEnd(id));
      UnreadIds(out.store, ck) == UnreadIds(c.store, ck) && Account(out) == Account(c)
  {
  }

  /**
   History for a nick whose messages are filed under a DID is not recognised as history: its first message
   is counted when it arrives and still counted when the batch has ended.
   */
  lemma NickBatchIsNotHistory(cap: nat, nick: string, peer: string, did: string, id: string, m: Message)
    requires Plain(m) && !EqIgnoreCase(m.author, nick) && peer != "" && did != STATUS && !EqIgnoreCase(peer, did)
    ensures var es := [BatchStart(id, peer), Incoming(nick, Some(did), m), BatchEnd(id)];
      var out := Directory.Run(cap, Start(nick, map[]), es);
      m.id in UnreadIds(out.store, ChannelOf(Account(out), did))
  {
    var start, message, end := BatchStart(id, peer), Incoming(nick, Some(did), m), BatchEnd(id);
    RunThreeEvents(cap, Start(nick, map[]), start, message, end);
    var b := Start(nick, map[id := peer]);
    BatchStarts(cap, nick, id, peer);
    IncomingIs(cap, b, nick, Some(did), m);
    FirstMessage(cap, nick, map[id := peer], did, m);
    OtherBatchEnds(cap, Directory.Step(cap, b, message), id, ChannelOf(Account(b), did));
  }

  lemma BatchStarts(cap: nat, nick: string, id: string, peer: string)
    requires peer != ""
    ensures Directory.Step(cap, Start(nick, map[]), BatchStart(id, peer)) == Start(nick, map[id := peer])
  {
  }

  lemma RunOneMore(cap: nat, a: App, es: seq<Event>, e: Event)
    ensures Directory.Run(cap, a, es + [e]) == Directory.Step(cap, Directory.Run(cap, a, es), e)
  {
    assert (es + [e])[..|es|] == es;
  }

  lemma RunThreeEvents(cap: nat, a: App, x: Event, y: Event, z: Event)
    ensures Directory.Run(cap, a, [x, y, z])
            == Directory.Step(cap, Directory.Step(cap, Directory.Step(cap, a, x), y), z)
  {
    var none: seq<Event>, one, two := [], [x], [x, y];
    assert none + [x] == one && one + [y] == two && two + [z] == [x, y, z];
    RunOneMore(cap, a, none, x);
    RunOneMore(cap, a, one, y);
    RunOneMore(cap, a, two, z);
  }
}
