/**
 Whole runs of the client's conversation directory: the directory stays in order, no
 conversation is split between a nick and a DID, and every badge agrees with the index.
 */
module DirectoryRuns {
  import opened Text
  import opened Timeline
  import opened TimelineRuns
  import opened TimelineEdits
  import opened TimelineMerge
  import opened UnreadIndex
  import opened Directory

  // ---- one conversation per person ------------------------------------------------------

  /** No buffer is keyed by a nick, in any case, whose owner is known by DID. */
  predicate NoSplit(a: App) {
    forall k | k in a.channels && IsNick(k) :: ToLowercase(k) !in a.nickToDid
  }

  /** A buffer name that knows at least what the nick table knows. */
  predicate Informed(a: App, name: string) {
    IsNick(name) ==> ToLowercase(name) !in a.nickToDid
  }

  /** Every buffer keyed by this nick in any Unicode case is keyed by it in some ASCII case. */
  predicate AsciiVariantsOnly(keys: set<string>, nick: string) {
    forall k | k in keys && IsNick(k) && ToLowercase(k) == ToLowercase(nick) :: EqIgnoreCase(k, nick)
  }

  /** The canonical key is always informed, and once the nick is known it is the DID. */
  lemma DmBufferKeyInformed(a: App, peer: string)
    requires DidValues(a.nickToDid)
    ensures Informed(a, DmBufferKey(a.nickToDid, peer))
    ensures if IsNick(peer) && ToLowercase(peer) in a.nickToDid
            then DmBufferKey(a.nickToDid, peer) == a.nickToDid[ToLowercase(peer)]
                 && IsDid(DmBufferKey(a.nickToDid, peer))
            else DmBufferKey(a.nickToDid, peer) == peer
  {
  }

  /**
   Once a peer is bound, a message from the peer, our own message to the peer, and a message the
   SDK has already keyed by the DID all go to the DID's buffer.
   */
  lemma AllRoutesMeet(a: App, peer: string, author: string, target: string)
    requires DidValues(a.nickToDid) && IsNick(peer) && ToLowercase(peer) in a.nickToDid && !EqIgnoreCase(peer, a.nick)
    requires !IsChannelName(a.nick)
    ensures var did := a.nickToDid[ToLowercase(peer)];
      && BufferName(a, peer, a.nick, None) == did
      && BufferName(a, a.nick, peer, None) == did
      && BufferName(a, author, target, Some(did)) == did
  {
  }

  /** Before that, messages from and to a peer are filed under the name used; channel messages under the channel. */
  lemma UnknownPeersKeepTheirNames(a: App, peer: string, author: string, room: string)
    requires IsNick(peer) && ToLowercase(peer) !in a.nickToDid && !EqIgnoreCase(peer, a.nick)
    requires !IsChannelName(a.nick) && (StartsWith(room, "#") || StartsWith(room, "&"))
    ensures BufferName(a, peer, a.nick, None) == peer == BufferName(a, a.nick, peer, None)
    ensures BufferName(a, author, room, None) == room == DmBufferKey(a.nickToDid, room)
  {
  }

  lemma EnsureKeepsNoSplit(cap: nat, a: App, name: string)
    requires Inv(cap, a) && NoSplit(a) && Informed(a, name)
    ensures NoSplit(EnsureBuffer(a, name))
  {
    EnsureKeepsInv(cap, a, name);
  }

  /** Every key equal to the nick up to ASCII case is the one that the merge folds away. */
  lemma NoVariantLeft(keys: set<string>, nick: string, j: string)
    requires CaseDistinct(keys) && j in keys && EqIgnoreCase(j, nick)
    ensures FindKey(keys, nick) == Some(j)
  {
  }

  /**
   Binding a nick to a DID leaves no thread under the nick exactly when no thread is keyed by
   a spelling of the nick that differs in more than ASCII case: the lookup that finds the
   thread folds ASCII letters only, while the nick table is keyed by full lower case.
   */
  lemma AdoptKeepsNoSplitIff(cap: nat, a: App, nick: string, did: string)
    requires Inv(cap, a) && NoSplit(a) && Bindable(nick, did)
    ensures NoSplit(Adopt(cap, a, nick, did)) <==> AsciiVariantsOnly(a.channels.Keys, nick)
  {
    var b := Adopt(cap, a, nick, did);
    var found := FindKey(a.channels.Keys, nick);
    assert b.nickToDid == a.nickToDid[ToLowercase(nick) := did];
    if Folds(a, nick, did) {
      FoldOrder(a, found.value, did, cap);
      EqIgnoreCaseRefinesLowercase(found.value, nick);
    }
    if !AsciiVariantsOnly(a.channels.Keys, nick) {
      var k :| k in a.channels && IsNick(k) && ToLowercase(k) == ToLowercase(nick) && !EqIgnoreCase(k, nick);
      assert k in b.channels;
    } else {
      forall k | k in b.channels && IsNick(k) ensures ToLowercase(k) !in b.nickToDid {
        assert k in a.channels;
        if ToLowercase(k) == ToLowercase(nick) {
          NoVariantLeft(a.channels.Keys, nick, k);
          assert false;
        }
      }
    }
  }

  /** A thread keyed by a small e acute stays behind when the capital spelling is bound to a DID. */
  lemma AccentedNickSplits(cap: nat, a: App)
    requires Inv(cap, a) && NoSplit(a) && "\U{E9}" in a.channels
    ensures Bindable("\U{C9}", "did:plc:x") && !NoSplit(Adopt(cap, a, "\U{C9}", "did:plc:x"))
  {
    LowercaseIsCoarser();
    assert |AsciiLower("\U{C9}")| != |AsciiLower("did:plc:x")|;
    assert IsDid("did:plc:x") by { assert "did:plc:x"[7] == ':'; }
    assert IsNick("\U{E9}") && "\U{E9}" in a.channels.Keys;
    AdoptKeepsNoSplitIff(cap, a, "\U{C9}", "did:plc:x");
  }

  /**
   Learning a peer's DID loses no message of either thread without one of the four reasons, and
   shows no message that neither had.
   */
  lemma MergeShowsBothThreads(cap: nat, a: App, nick: string, did: string)
    requires Inv(cap, a) && Bindable(nick, did) && Folds(a, nick, did)
    ensures var key := FindKey(a.channels.Keys, nick).value;
      var into := if did in a.channels then a.channels[did] else EmptyLog(did);
      var b := Adopt(cap, a, nick, did); var other := a.channels[key];
      && did in b.channels && key !in b.channels
      && (forall x | x in into.rows :: x in b.channels[did].rows || Lost(cap, AbsorbHead(into, other), other.rows, x))
      && (forall x | x in other.rows ::
            x in b.channels[did].rows || Refused(into, x) || Lost(cap, AbsorbHead(into, other), other.rows, x))
      && (forall x | x in b.channels[did].rows :: x in into.rows || x in other.rows)
  {
    var key := FindKey(a.channels.Keys, nick).value;
    var into := if did in a.channels then a.channels[did] else EmptyLog(did);
    MergeKeepsMessages(cap, into, a.channels[key]);
  }

  // ---- every step ---------------------------------------------------------------------

  /** The identity is in canonical spelling, and its nick is not in use in a non-ASCII variant. */
  predicate IdentityOk(a: App, nick: string, did: string) {
    Bindable(nick, did) ==> Canonical(a.channels.Keys, did) && AsciiVariantsOnly(a.channels.Keys, nick)
  }

  /** The edit a message carries does not bring an id that another row already has. */
  ghost predicate EditOk(a: App, name: string, m: Message) {
    var b := EnsureBuffer(a, name);
    var k := FindKey(b.channels.Keys, name);
    m.editOf.Some? && k.Some? ==> !Clashes(b.channels[k.value], EditOf(m))
  }

  ghost predicate IncomingOk(cap: nat, a0: App, target: string, dmKey: Option<string>, m: Message) {
    var own := EqIgnoreCase(m.author, a0.nick);
    var a := AdoptEcho(cap, a0, own, target, dmKey);
    && (EchoBinds(own, target, dmKey) ==> IdentityOk(a0, target, dmKey.value))
    && (dmKey.Some? ==> Informed(a, dmKey.value))
    && EditOk(a, BufferName(a, m.author, target, dmKey), m)
  }

  /** What the server and the SDK promise about one event. */
  ghost predicate EventOk(cap: nat, a: App, e: Event) {
    match e
    case Ensure(name) => Informed(a, name)
    case Identity(nick, did) => IdentityOk(a, nick, did)
    case Listed(nick, partner, _) =>
      partner.Some? ==>
        IdentityOk(a, nick, partner.value) && Informed(Adopt(cap, a, nick, partner.value), partner.value)
    case Incoming(target, dmKey, m) => IncomingOk(cap, a, target, dmKey, m)
    case LocalEdit(_, e) => e.newId == None
    case Notice(name, _) => Informed(a, name)
    case _ => true
  }

  ghost predicate RunOk(cap: nat, a: App, es: seq<Event>) {
    es != [] ==>
      RunOk(cap, a, es[..|es| - 1]) && EventOk(cap, Directory.Run(cap, a, es[..|es| - 1]), es[|es| - 1])
  }

  ghost predicate Good(cap: nat, a: App) {
    Inv(cap, a) && NoSplit(a)
  }

  /** Only keys and the nick table matter for splitting. */
  lemma SameKeysSameSplit(a: App, b: App)
    requires NoSplit(a) && b.channels.Keys <= a.channels.Keys && b.nickToDid == a.nickToDid
    ensures NoSplit(b)
  {
    forall k | k in b.channels && IsNick(k) ensures ToLowercase(k) !in b.nickToDid {
      assert k in a.channels;
    }
  }

  lemma AdoptKeepsGood(cap: nat, a: App, nick: string, did: string)
    requires Good(cap, a) && IdentityOk(a, nick, did)
    ensures Good(cap, Adopt(cap, a, nick, did))
  {
    if Bindable(nick, did) {
      AdoptKeepsInv(cap, a, nick, did);
      AdoptKeepsNoSplitIff(cap, a, nick, did);
    }
  }

  lemma EnsureKeepsGood(cap: nat, a: App, name: string)
    requires Good(cap, a) && Informed(a, name)
    ensures Good(cap, EnsureBuffer(a, name))
  {
    EnsureKeepsInv(cap, a, name);
    EnsureKeepsNoSplit(cap, a, name);
  }

  lemma SetLogKeepsGood(cap: nat, a: App, key: string, log: Log)
    requires Good(cap, a) && key in a.channels && Valid(cap, log) && log.name == key
    ensures Good(cap, SetLog(a, key, log))
  {
    SetLogKeepsInv(cap, a, key, log);
    SameKeysSameSplit(a, SetLog(a, key, log));
  }

  lemma AppendToKeepsGood(cap: nat, a: App, name: string, m: Message)
    requires Good(cap, a) && Informed(a, name)
    ensures Good(cap, AppendTo(cap, a, name, m)) && AppendTo(cap, a, name, m).nickToDid == a.nickToDid
  {
    AppendToKeepsInv(cap, a, name, m);
    EnsureKeepsGood(cap, a, name);
    SameKeysSameSplit(EnsureBuffer(a, name), AppendTo(cap, a, name, m));
  }

  lemma RefreshKeepsGood(cap: nat, a: App, channel: string)
    requires Good(cap, a)
    ensures Good(cap, Refresh(a, channel))
  {
    RefreshKeepsInv(cap, a, channel);
    SameKeysSameSplit(a, Refresh(a, channel));
  }

  lemma OpenKeepsGood(cap: nat, a: App, name: string, now: int)
    requires Good(cap, a)
    ensures Good(cap, OpenChat(a, name, now))
  {
    var key := DmBufferKey(a.nickToDid, name);
    DmBufferKeyInformed(a, name);
    EnsureKeepsGood(cap, a, key);
    var b := EnsureBuffer(a, key);
    ShowReadKeepsInv(cap, b, key, now);
    SameKeysSameSplit(b, ShowRead(b, key, now));
  }

  lemma LeaveKeepsGood(cap: nat, a: App, channel: string)
    requires Good(cap, a)
    ensures Good(cap, Leave(a, channel))
  {
    LeaveKeepsInv(cap, a, channel);
    SameKeysSameSplit(a, Leave(a, channel));
  }

  lemma DepartedKeepsGood(cap: nat, a: App, channel: string, who: string, notice: Option<Message>)
    requires Good(cap, a)
    ensures Good(cap, Departed(cap, a, channel, who, notice))
  {
    var b := a;
    if channel in a.channels && notice.Some? {
      AppendKeepsValid(cap, a.channels[channel], notice.value);
      NamesKept(cap, a.channels[channel], notice.value);
      SetLogKeepsGood(cap, a, channel, Append(cap, a.channels[channel], notice.value));
      b := SetLog(a, channel, Append(cap, a.channels[channel], notice.value));
    }
    LeaveKeepsGood(cap, b, channel);
  }

  lemma ListUnderKeepsGood(cap: nat, a: App, name: string, seconds: Option<int>)
    requires Good(cap, a) && Informed(a, name)
    ensures Good(cap, ListUnder(a, name, seconds))
  {
    EnsureKeepsGood(cap, a, name);
    EnsureKeepsInv(cap, a, name);
    var b := EnsureBuffer(a, name);
    var k := FindKey(b.channels.Keys, name).value;
    SetLogKeepsGood(cap, b, k, Activity(b.channels[k], seconds));
  }

  lemma ListedKeepsGood(cap: nat, a0: App, nick: string, partner: Option<string>, seconds: Option<int>)
    requires Good(cap, a0) && EventOk(cap, a0, Listed(nick, partner, seconds))
    ensures Good(cap, ListTarget(cap, a0, nick, partner, seconds))
  {
    var a := if partner.Some? then Adopt(cap, a0, nick, partner.value) else a0;
    if partner.Some? { AdoptKeepsGood(cap, a0, nick, partner.value); }
    var name := if partner.Some? then partner.value else DmBufferKey(a.nickToDid, nick);
    DmBufferKeyInformed(a, nick);
    ListUnderKeepsGood(cap, a, name, seconds);
  }

  lemma ShowKeepsGood(cap: nat, a: App, name: string, own: bool, viewing: bool, m: Message)
    requires Good(cap, a) && Informed(a, name)
    ensures Good(cap, Show(cap, a, name, own, viewing, m))
  {
    AppendToKeepsGood(cap, a, name, m);
    var c := AppendTo(cap, a, name, m);
    var d := c.(store := Recorded(c, name, m.id, Row(Seconds(m.time), own), viewing));
    assert Good(cap, d);
    RefreshKeepsGood(cap, d, name);
  }

  lemma DeliverIntoKeepsGood(cap: nat, a: App, name: string, own: bool, m: Message)
    requires Good(cap, a) && Informed(a, name) && EditOk(a, name, m)
    ensures Good(cap, DeliverInto(cap, a, name, own, m))
  {
    EnsureKeepsGood(cap, a, name);
    EnsureKeepsInv(cap, a, name);
    var b := EnsureBuffer(a, name);
    var k := FindKey(b.channels.Keys, name).value;
    if m.editOf.Some? && EditApplies(b.channels[k], EditOf(m)) {
      EditKeepsValidIff(cap, b.channels[k], EditOf(m));
      SetLogKeepsGood(cap, b, k, ApplyEdit(b.channels[k], EditOf(m)));
    } else {
      ShowKeepsGood(cap, a, name, own, a.active.Some? && EqIgnoreCase(a.active.value, name), m);
    }
  }

  /** Recording a message changes at most a badge. */
  lemma RecordChangesBadgesOnly(a: App, channel: string, msgid: string, row: Row, viewing: bool, k: string)
    requires k in a.channels
    ensures var b := Record(a, channel, msgid, row, viewing);
      k in b.channels && b.channels[k].(unread := a.channels[k].unread) == a.channels[k]
  {
  }

  /** In the buffer it belongs to, a message changes the thread as `Arrive` says, badge aside. */
  lemma DeliverArrives(cap: nat, a: App, name: string, own: bool, m: Message)
    requires Inv(cap, a) && FindKey(a.channels.Keys, name).Some?
    ensures var key := FindKey(a.channels.Keys, name).value; var b := DeliverInto(cap, a, name, own, m);
      var log := a.channels[key];
      key in b.channels && b.channels[key].(unread := log.unread) == Arrive(cap, log, m).(unread := log.unread)
  {
    var key := FindKey(a.channels.Keys, name).value;
    var log := a.channels[key];
    if !(m.editOf.Some? && EditApplies(log, EditOf(m))) {
      var viewing := a.active.Some? && EqIgnoreCase(a.active.value, name);
      var c := AppendTo(cap, a, name, m);
      assert c == SetLog(a, key, Append(cap, log, m));
      RecordChangesBadgesOnly(c, name, m.id, Row(Seconds(m.time), own), viewing, key);
    }
  }

  /**
   A message under a superseded id leaves its thread alone exactly when it carries no edit that applies,
   or one that repeats what the row says. A replayed edit is applied without looking at superseded ids.
   */
  lemma ReplayLeavesThreadIff(cap: nat, a: App, name: string, own: bool, m: Message)
    requires Inv(cap, a) && FindKey(a.channels.Keys, name).Some?
    requires m.id != "" && m.id in a.channels[FindKey(a.channels.Keys, name).value].aliases
    ensures var key := FindKey(a.channels.Keys, name).value; var b := DeliverInto(cap, a, name, own, m);
      var log := a.channels[key];
      key in b.channels
      && (b.channels[key].(unread := log.unread) == log <==>
            !(m.editOf.Some? && EditApplies(log, EditOf(m))) || Repeats(log, EditOf(m)))
  {
    var key := FindKey(a.channels.Keys, name).value;
    var log := a.channels[key];
    DeliverArrives(cap, a, name, own, m);
    SupersededArrivesIff(cap, log, m);
    ArriveKeepsUnread(cap, log, m);
  }

  lemma ArriveKeepsUnread(cap: nat, log: Log, m: Message)
    ensures Arrive(cap, log, m).unread == log.unread
  {
    if !(m.editOf.Some? && EditApplies(log, EditOf(m))) && !Refused(log, m) { EvictName(cap, Inserted(log, m)); }
  }

  lemma IncomingKeepsGood(cap: nat, a0: App, target: string, dmKey: Option<string>, m: Message)
    requires Good(cap, a0) && IncomingOk(cap, a0, target, dmKey, m)
    ensures Good(cap, Deliver(cap, a0, target, dmKey, m))
  {
    var own := EqIgnoreCase(m.author, a0.nick);
    var a := AdoptEcho(cap, a0, own, target, dmKey);
    if EchoBinds(own, target, dmKey) { AdoptKeepsGood(cap, a0, target, dmKey.value); }
    DmBufferKeyInformed(a, m.author);
    DmBufferKeyInformed(a, target);
    DeliverIntoKeepsGood(cap, a, BufferName(a, m.author, target, dmKey), own, m);
  }

  lemma LocalChangeKeepsGood(cap: nat, a: App, key: string, e: Edit, deleter: string, id: string)
    requires Good(cap, a) && key in a.channels && e.newId == None
    ensures Good(cap, SetLog(a, key, ApplyEdit(a.channels[key], e)))
    ensures Good(cap, SetLog(a, key, ApplyDelete(a.channels[key], deleter, id)))
  {
    EditKeepsValidIff(cap, a.channels[key], e);
    DeleteKeepsValid(cap, a.channels[key], deleter, id);
    SetLogKeepsGood(cap, a, key, ApplyEdit(a.channels[key], e));
    SetLogKeepsGood(cap, a, key, ApplyDelete(a.channels[key], deleter, id));
  }

  lemma BatchEndKeepsGood(cap: nat, a: App, id: string)
    requires Good(cap, a)
    ensures Good(cap, Directory.Step(cap, a, BatchEnd(id)))
  {
    if id in a.history {
      var channel := a.history[id];
      var b := a.(history := a.history - {id}, store := BaselineAfterHistory(a.store, ChannelOf(Account(a), channel)));
      assert Good(cap, b);
      RefreshKeepsGood(cap, b, channel);
    }
  }

  lemma StepKeepsGood(cap: nat, a: App, e: Event)
    requires Good(cap, a) && EventOk(cap, a, e)
    ensures Good(cap, Directory.Step(cap, a, e))
  {
    match e
    case Ensure(name) => EnsureKeepsGood(cap, a, name);
    case Open(name, now) => OpenKeepsGood(cap, a, name, now);
    case Close =>
    case Part(channel) => LeaveKeepsGood(cap, a, channel);
    case Departure(channel, who, notice) => DepartedKeepsGood(cap, a, channel, who, notice);
    case Identity(nick, did) => AdoptKeepsGood(cap, a, nick, did);
    case Listed(nick, partner, seconds) => ListedKeepsGood(cap, a, nick, partner, seconds);
    case Incoming(target, dmKey, m) => IncomingKeepsGood(cap, a, target, dmKey, m);
    case LocalSend(target, m) =>
      DmBufferKeyInformed(a, target);
      AppendToKeepsGood(cap, a, DmBufferKey(a.nickToDid, target), m);
    case LocalEdit(target, edit) =>
      if DmBufferKey(a.nickToDid, target) in a.channels {
        LocalChangeKeepsGood(cap, a, DmBufferKey(a.nickToDid, target), edit, "", "");
      }
    case Deletion(key, deleter, id) =>
      if key in a.channels { LocalChangeKeepsGood(cap, a, key, Edit("", "", None, "", None, None), deleter, id); }
    case Notice(name, m) => AppendToKeepsGood(cap, a, name, m);
    case Announced(rename, notices) =>
      AnnounceKeepsInv(cap, a, rename, notices);
      SameKeysSameSplit(a, Announce(cap, a, rename, notices));
    case SignedIn(_) =>
    case SignedOut =>
    case BatchStart(_, _) =>
    case BatchEnd(id) => BatchEndKeepsGood(cap, a, id);
    case Cleared =>
  }

  /**
   Through every run of joins, parts, kicks, quits, nick changes, sign-ins and sign-outs, opens, closes,
   messages, edits, deletions, history batches and learned identities, the order list names exactly the
   open buffers once, no two keys differ in case alone, each buffer is named by its key, the route shows
   the active buffer, every log is well formed, and no conversation is split between a nick and a DID.
   */
  lemma {:induction false} RunKeepsGood(cap: nat, a: App, es: seq<Event>)
    requires Good(cap, a) && RunOk(cap, a, es)
    ensures Good(cap, Directory.Run(cap, a, es))
    decreases |es|
  {
    if es != [] {
      RunKeepsGood(cap, a, es[..|es| - 1]);
      StepKeepsGood(cap, Directory.Run(cap, a, es[..|es| - 1]), es[|es| - 1]);
    }
  }

  /**
   Once a nick is bound, writing to the nick in any case and writing to its DID reach one and
   the same buffer, and so do messages from the peer, our own to the peer, and whatever the SDK has keyed
   by the DID; no other buffer answers to the nick.
   */
  lemma OneConversation(cap: nat, a: App, es: seq<Event>, nick: string)
    requires Good(cap, a) && RunOk(cap, a, es) && IsNick(nick)
    requires ToLowercase(nick) in Directory.Run(cap, a, es).nickToDid
    ensures var b := Directory.Run(cap, a, es); var did := b.nickToDid[ToLowercase(nick)];
      && DmBufferKey(b.nickToDid, nick) == did == DmBufferKey(b.nickToDid, did)
      && (forall k | k in b.channels && IsNick(k) :: ToLowercase(k) != ToLowercase(nick))
      && (forall other: string | EqIgnoreCase(other, nick) && IsNick(other) :: DmBufferKey(b.nickToDid, other) == did)
      && (forall author, target: string :: BufferName(b, author, target, Some(did)) == did)
      && (!EqIgnoreCase(nick, b.nick) && !IsChannelName(b.nick) ==>
            BufferName(b, nick, b.nick, None) == did == BufferName(b, b.nick, nick, None))
  {
    RunKeepsGood(cap, a, es);
    var b := Directory.Run(cap, a, es);
    forall other: string | EqIgnoreCase(other, nick) ensures ToLowercase(other) == ToLowercase(nick) {
      EqIgnoreCaseRefinesLowercase(other, nick);
    }
    if !EqIgnoreCase(nick, b.nick) && !IsChannelName(b.nick) { AllRoutesMeet(b, nick, nick, nick); }
  }
}
