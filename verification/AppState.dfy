/**
 The client state object: its methods change the directory, the open chat and the message
 index in place, and each is proved to do what the functions of `Directory` say.
 */
module AppStates {
  import opened Text
  import opened Seqs
  import opened Timeline
  import opened UnreadIndex
  import opened MessageStores
  import opened Directory

  class AppState {
    const cap: nat
    const messageStore: MessageStore
    var nick: string
    var did: Option<string>
    var channels: map<string, Log>
    var channelOrder: seq<string>
    var activeChannel: Option<string>
    var route: Route
    var nickToDid: map<string, string>
    var didToNick: map<string, string>
    var historyBatches: map<string, string>

    ghost function View(): App
      reads this, messageStore
    {
      App(nick, did, channels, channelOrder, activeChannel, route, nickToDid, didToNick, historyBatches,
          messageStore.View())
    }

    constructor (nick: string, did: Option<string>, cap: nat)
      ensures View() == App(nick, did, map[], [], None, Tabs, map[], map[], map[], Store(map[], map[]))
      ensures this.cap == cap && Inv(cap, View()) && fresh(messageStore)
    {
      this.cap, this.did, this.nick := cap, did, nick;
      messageStore := new MessageStore();
      channels, channelOrder := map[], [];
      activeChannel, route := None, Tabs;
      nickToDid, didToNick, historyBatches := map[], map[], map[];
    }

    /** An exact match first, then any key equal up to ASCII case. */
    method FindBufferKey(name: string) returns (r: Option<string>)
      requires OneMatch(channels.Keys, name)
      ensures r == FindKey(channels.Keys, name)
    {
      if name in channels {
        return Some(name);
      }
      var rest := channels.Keys;
      while rest != {}
        invariant rest <= channels.Keys
        invariant forall k | k in channels && k !in rest :: !EqIgnoreCase(k, name)
        decreases |rest|
      {
        var k :| k in rest;
        if EqIgnoreCase(k, name) {
          return Some(k);
        }
        rest := rest - {k};
      }
      return None;
    }

    /** The key of the buffer for `name`, created empty when there is none. */
    method EnsureBuffer(name: string) returns (key: string)
      requires OneMatch(channels.Keys, name)
      modifies `channels, `channelOrder
      ensures View() == Directory.EnsureBuffer(old(View()), name)
      ensures OneMatch(channels.Keys, name) && FindKey(channels.Keys, name) == Some(key)
      ensures old(Inv(cap, View())) ==> Inv(cap, View())
    {
      if Inv(cap, View()) { EnsureKeepsInv(cap, View(), name); }
      var existing := FindBufferKey(name);
      if existing.Some? {
        return existing.value;
      }
      var unread := messageStore.UnreadCount(AccountKey(did, nick), name);
      channels := channels[name := EmptyLog(name).(unread := unread)];
      channelOrder := channelOrder + [name];
      return name;
    }

    /** Fold a nick-keyed thread into the DID-keyed one; true when there was one to fold. */
    method MergeDmBuffers(nick: string, did: string) returns (merged: bool)
      requires Inv(cap, View())
      modifies `channels, `channelOrder, `activeChannel, `route
      ensures View() == Merge(cap, old(View()), nick, did)
      ensures merged == Folds(old(View()), nick, did)
    {
      var found := FindBufferKey(nick);
      if found.None? {
        return false;
      }
      var key := found.value;
      if IsDid(key) || key == did {
        return false;
      }
      FoldThread(key, did);
      return true;
    }

    /** Move the thread under `key` into the DID's and repoint whoever looks at it. */
    method FoldThread(key: string, did: string)
      requires key in channels && key != did
      modifies `channels, `channelOrder, `activeChannel, `route
      ensures View() == Fold(cap, old(View()), key, did)
    {
      var thread := channels[key];
      var rest := channels - {key};
      var order := Filter(channelOrder, n => !EqIgnoreCase(n, key));
      if did in rest {
        var folded := Absorb(cap, rest[did], thread);
        channels := rest[did := folded];
      } else {
        var rekeyed := Absorb(cap, EmptyLog(did), thread).(name := did);
        channels := rest[did := rekeyed];
        if did !in order {
          order := order + [did];
        }
      }
      channelOrder := order;
      if activeChannel.Some? && EqIgnoreCase(activeChannel.value, key) {
        activeChannel := Some(did);
      }
      if route.Chat? && EqIgnoreCase(route.name, key) {
        route := Chat(did);
      }
    }

    method AdoptDmBinding(nick: string, did: string) returns (merged: bool)
      requires Inv(cap, View())
      modifies this
      ensures View() == Adopt(cap, old(View()), nick, did)
      ensures merged == (Bindable(nick, did) && Folds(Bind(old(View()), nick, did), nick, did))
      ensures Canonical(old(channels.Keys), did) ==> Inv(cap, View())
    {
      if Canonical(channels.Keys, did) { AdoptKeepsInv(cap, View(), nick, did); }
      if !IsDid(did) || EqIgnoreCase(nick, did) {
        return false;
      }
      if IsChannelName(nick) {
        return false;
      }
      nickToDid := nickToDid[ToLowercase(nick) := did];
      didToNick := didToNick[did := nick];
      merged := MergeDmBuffers(nick, did);
    }

    method AdoptEchoBinding(isSelf: bool, target: string, dmKey: Option<string>) returns (merged: bool)
      requires Inv(cap, View())
      modifies this
      ensures View() == AdoptEcho(cap, old(View()), isSelf, target, dmKey)
      ensures merged == (EchoBinds(isSelf, target, dmKey)
                         && Folds(Bind(old(View()), target, dmKey.value), target, dmKey.value))
      ensures (EchoBinds(isSelf, target, dmKey) ==> Canonical(old(channels.Keys), dmKey.value)) ==> Inv(cap, View())
    {
      if !isSelf || dmKey.None? {
        return false;
      }
      var did := dmKey.value;
      if !IsDid(did) || IsChannelName(target) || IsDid(target) || EqIgnoreCase(target, did) {
        return false;
      }
      merged := AdoptDmBinding(target, did);
    }

    /** Show the buffer under `key`, mark it read, and write its badge back. */
    method ShowRead(key: string, now: int)
      requires Inv(cap, View())
      modifies this, messageStore
      ensures View() == Directory.ShowRead(old(View()), key, now) && Inv(cap, View())
    {
      ShowReadKeepsInv(cap, View(), key, now);
      activeChannel := Some(key);
      route := Chat(key);
      messageStore.MarkRead(AccountKey(did, nick), key, now);
      var unread := messageStore.UnreadCount(AccountKey(did, nick), key);
      if key in channels {
        channels := channels[key := channels[key].(unread := unread)];
      }
    }

    method OpenChat(name: string, now: int)
      requires Inv(cap, View())
      modifies this, messageStore
      ensures View() == Directory.OpenChat(old(View()), name, now) && Inv(cap, View())
    {
      var key := DmBufferKey(nickToDid, name);
      var _ := EnsureBuffer(key);
      ShowRead(key, now);
    }

    method CloseChat()
      modifies `activeChannel, `route
      ensures View() == Directory.CloseChat(old(View()))
    {
      activeChannel := None;
      route := Tabs;
    }

    /** Drop the channel, as our own part, kick or departure does. */
    method Leave(channel: string)
      requires Inv(cap, View())
      modifies this
      ensures View() == Directory.Leave(old(View()), channel) && Inv(cap, View())
    {
      LeaveKeepsInv(cap, View(), channel);
      channels := channels - {channel};
      channelOrder := Filter(channelOrder, n => n != channel);
      if activeChannel == Some(channel) {
        CloseChat();
      }
    }

    method RefreshUnread(channel: string)
      requires OneMatch(channels.Keys, channel)
      modifies `channels
      ensures View() == Refresh(old(View()), channel)
      ensures old(Inv(cap, View())) ==> Inv(cap, View())
    {
      if Inv(cap, View()) { RefreshKeepsInv(cap, View(), channel); }
      var n := messageStore.UnreadCount(AccountKey(did, nick), channel);
      var found := FindBufferKey(channel);
      if found.Some? {
        channels := channels[found.value := channels[found.value].(unread := n)];
      }
    }

    /** Some history batch in flight is for this channel. */
    method ChannelInHistoryBatch(channel: string) returns (r: bool)
      ensures r == InHistory(View(), channel)
    {
      var rest := historyBatches.Keys;
      while rest != {}
        invariant rest <= historyBatches.Keys
        invariant forall id | id in historyBatches && id !in rest :: !EqIgnoreCase(historyBatches[id], channel)
        decreases |rest|
      {
        var id :| id in rest;
        if EqIgnoreCase(historyBatches[id], channel) {
          return true;
        }
        rest := rest - {id};
      }
      return false;
    }

    method RecordMessageForUnread(channel: string, msgid: string, ts: int, fromMe: bool, viewing: bool)
      requires OneMatch(channels.Keys, channel)
      modifies this, messageStore
      ensures View() == Record(old(View()), channel, msgid, Row(ts, fromMe), viewing)
      ensures old(Inv(cap, View())) ==> Inv(cap, View())
    {
      if channel == STATUS || msgid == "" {
        return;
      }
      var inHistory := ChannelInHistoryBatch(channel);
      messageStore.Insert(AccountKey(did, nick), channel, msgid, ts, fromMe);
      if viewing {
        messageStore.MarkRead(AccountKey(did, nick), channel, ts);
      } else if !fromMe && !inHistory {
        messageStore.EnsureLiveBaseline(AccountKey(did, nick), channel, msgid);
      }
      assert View() == old(View()).(store := Recorded(old(View()), channel, msgid, Row(ts, fromMe), viewing));
      RefreshUnread(channel);
    }

    /** The end of a history batch sets a first watermark and refreshes the badge. */
    method EndBatch(id: string)
      requires Inv(cap, View())
      modifies this, messageStore
      ensures View() == Directory.EndBatch(old(View()), id) && Inv(cap, View())
    {
      if id !in historyBatches {
        return;
      }
      var channel := historyBatches[id];
      InvIsAboutBuffers(cap, View(), historyBatches - {id},
                        UnreadIndex.BaselineAfterHistory(View().store, ChannelOf(AccountKey(did, nick), channel)),
                        channel);
      historyBatches := historyBatches - {id};
      messageStore.BaselineAfterHistory(AccountKey(did, nick), channel);
      RefreshUnread(channel);
    }

    /** Append to the buffer that `name` finds, creating it if need be. */
    method AppendTo(name: string, m: Message)
      requires OneMatch(channels.Keys, name)
      modifies `channels, `channelOrder
      ensures View() == Directory.AppendTo(cap, old(View()), name, m) && OneMatch(channels.Keys, name)
      ensures old(Inv(cap, View())) ==> Inv(cap, View())
    {
      if Inv(cap, View()) { AppendToKeepsInv(cap, View(), name, m); }
      var key := EnsureBuffer(name);
      channels := channels[key := Append(cap, channels[key], m)];
    }

    /** An edit rewrites its row when it can; anything else is appended and recorded. */
    method DeliverInto(name: string, own: bool, m: Message)
      requires OneMatch(channels.Keys, name)
      modifies this, messageStore
      ensures View() == Directory.DeliverInto(cap, old(View()), name, own, m)
    {
      var viewing := activeChannel.Some? && EqIgnoreCase(activeChannel.value, name);
      ghost var a := View();
      if m.editOf.Some? {
        var key := EnsureBuffer(name);
        if EditApplies(channels[key], EditOf(m)) {
          channels := channels[key := ApplyEdit(channels[key], EditOf(m))];
          return;
        }
        EnsureTwice(cap, a, name);
      }
      AppendTo(name, m);
      RecordMessageForUnread(name, m.id, Seconds(m.time), own, viewing);
    }

    /** A message event: adopt what our own echo reveals, find the buffer, deliver. */
    method ReceiveMessage(target: string, dmKey: Option<string>, m: Message)
      requires Inv(cap, View())
      modifies this, messageStore
      ensures View() == Deliver(cap, old(View()), target, dmKey, m)
    {
      var own := EqIgnoreCase(m.author, nick);
      if EchoBinds(own, target, dmKey) { AdoptedIsFound(cap, View(), target, dmKey.value); }
      var _ := AdoptEchoBinding(own, target, dmKey);
      var name := if dmKey.Some? then dmKey.value
                  else if IsChannelName(target) then target
                  else if EqIgnoreCase(target, nick) then DmBufferKey(nickToDid, m.author)
                  else DmBufferKey(nickToDid, target);
      DeliverInto(name, own, m);
    }
  }

  /** Ensuring a buffer that is there already changes nothing. */
  lemma EnsureTwice(cap: nat, a: App, name: string)
    ensures EnsureBuffer(EnsureBuffer(a, name), name) == EnsureBuffer(a, name)
    ensures forall m :: AppendTo(cap, EnsureBuffer(a, name), name, m) == AppendTo(cap, a, name, m)
  {
  }

  /** After a binding the DID is either a key itself or the directory is as it was. */
  lemma AdoptedIsFound(cap: nat, a: App, nick: string, did: string)
    requires Inv(cap, a)
    ensures OneMatch(Adopt(cap, a, nick, did).channels.Keys, did)
  {
    var b := Adopt(cap, a, nick, did);
    assert b.channels.Keys == a.channels.Keys || did in b.channels.Keys;
  }
}
