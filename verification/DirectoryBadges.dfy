/**
 Badges: the unread number cached in each buffer against the count the message index gives.
 */
module DirectoryBadges {
  import opened Text
  import opened Timeline
  import opened UnreadIndex
  import opened Directory
  import opened DirectoryRuns

  /** Every buffer shows what the index counts for it. */
  predicate Badges(a: App) {
    forall k | k in a.channels :: a.channels[k].unread == Count(a, k)
  }

  /** Every buffer but the one `channel` finds does. */
  predicate BadgesExcept(a: App, channel: string) {
    forall k | k in a.channels && !EqIgnoreCase(k, channel) :: a.channels[k].unread == Count(a, k)
  }

  /** The two stores count the same everywhere but in one channel. */
  ghost predicate SameElsewhere(s: Store, t: Store, ck: ChannelKey) {
    forall other: ChannelKey {:trigger UnreadIds(t, other)} | other != ck :: UnreadIds(t, other) == UnreadIds(s, other)
  }

  lemma InsertElsewhere(s: Store, ck: ChannelKey, msgid: string, row: Row)
    ensures forall other: ChannelKey | other != ck ::
      UnreadIds(InsertMessage(s, ck, msgid, row), other) == UnreadIds(s, other)
  {
    var t := InsertMessage(s, ck, msgid, row);
    forall other: ChannelKey | other != ck
      ensures UnreadIds(t, other) == UnreadIds(s, other)
    {
      assert !InChannel(MessageOf(ck, msgid), other);
      if other in s.read {
        forall id ensures id in UnreadIds(t, other) <==> id in UnreadIds(s, other) {
          var k := MessageOf(other, id);
          assert id in UnreadIds(t, other) <==>
            k in t.messages && !t.messages[k].fromMe && t.messages[k].ts > t.read[other];
          assert id in UnreadIds(s, other) <==>
            k in s.messages && !s.messages[k].fromMe && s.messages[k].ts > s.read[other];
        }
      }
    }
  }

  lemma WatermarkElsewhere(s: Store, ck: ChannelKey, watermark: int)
    ensures SameElsewhere(s, s.(read := s.read[ck := watermark]), ck)
  {
  }

  lemma RecordedElsewhere(a: App, channel: string, msgid: string, row: Row, viewing: bool, k: string)
    requires !EqIgnoreCase(k, channel)
    ensures Count(a.(store := Recorded(a, channel, msgid, row, viewing)), k) == Count(a, k)
  {
    var ck, other := ChannelOf(Account(a), channel), ChannelOf(Account(a), k);
    var s := InsertMessage(a.store, ck, msgid, row);
    InsertElsewhere(a.store, ck, msgid, row);
    var t := Recorded(a, channel, msgid, row, viewing);
    if t != s {
      assert t == s.(read := s.read[ck := t.read[ck]]);
      WatermarkElsewhere(s, ck, t.read[ck]);
    }
    assert UnreadIds(t, other) == UnreadIds(a.store, other);
  }

  /** Refreshing one channel's badge completes the agreement. */
  lemma RefreshCompletes(cap: nat, a: App, channel: string)
    requires Inv(cap, a) && BadgesExcept(a, channel)
    ensures Badges(Refresh(a, channel))
  {
    var b := Refresh(a, channel);
    forall k | k in b.channels ensures b.channels[k].unread == Count(b, k) {
      if EqIgnoreCase(k, channel) { NoVariantLeft(a.channels.Keys, channel, k); }
    }
  }

  lemma EnsureKeepsBadges(cap: nat, a: App, name: string)
    requires Inv(cap, a) && Badges(a)
    ensures Badges(EnsureBuffer(a, name))
  {
    var b := EnsureBuffer(a, name);
    assert b.store == a.store && Account(b) == Account(a);
  }

  lemma SetLogKeepsBadges(a: App, key: string, log: Log)
    requires Badges(a) && key in a.channels && log.unread == a.channels[key].unread
    ensures Badges(SetLog(a, key, log))
  {
    var b := SetLog(a, key, log);
    forall k | k in b.channels ensures b.channels[k].unread == Count(b, k) {
      assert Count(b, k) == Count(a, k);
    }
  }

  lemma AppendUnread(cap: nat, log: Log, m: Message)
    ensures Append(cap, log, m).unread == log.unread
  {
    if !Refused(log, m) { EvictName(cap, Inserted(log, m)); }
  }

  lemma AppendToKeepsBadges(cap: nat, a: App, name: string, m: Message)
    requires Inv(cap, a) && Badges(a)
    ensures Badges(AppendTo(cap, a, name, m))
  {
    EnsureKeepsBadges(cap, a, name);
    EnsureKeepsInv(cap, a, name);
    var b := EnsureBuffer(a, name);
    var k := FindKey(b.channels.Keys, name).value;
    AppendUnread(cap, b.channels[k], m);
    SetLogKeepsBadges(b, k, Append(cap, b.channels[k], m));
  }

  /** Recording a message keeps every badge in step with the index, whatever the message is. */
  lemma RecordKeepsBadges(cap: nat, a: App, channel: string, msgid: string, row: Row, viewing: bool)
    requires Inv(cap, a) && Badges(a)
    ensures Badges(Record(a, channel, msgid, row, viewing))
  {
    var b := a.(store := Recorded(a, channel, msgid, row, viewing));
    forall k | k in b.channels && !EqIgnoreCase(k, channel) ensures b.channels[k].unread == Count(b, k) {
      RecordedElsewhere(a, channel, msgid, row, viewing, k);
    }
    assert Inv(cap, b);
    RefreshCompletes(cap, b, channel);
  }

  lemma BatchEndKeepsBadges(cap: nat, a: App, id: string)
    requires Inv(cap, a) && Badges(a)
    ensures Badges(Directory.Step(cap, a, BatchEnd(id)))
  {
    if id in a.history {
      var channel := a.history[id];
      var ck := ChannelOf(Account(a), channel);
      var b := a.(history := a.history - {id}, store := BaselineAfterHistory(a.store, ck));
      if ck !in a.store.read {
        assert b.store == a.store.(read := a.store.read[ck := b.store.read[ck]]);
        WatermarkElsewhere(a.store, ck, b.store.read[ck]);
      }
      forall k | k in b.channels && !EqIgnoreCase(k, channel) ensures b.channels[k].unread == Count(b, k) {
        assert ChannelOf(Account(a), k) != ck;
        assert UnreadIds(b.store, ChannelOf(Account(a), k)) == UnreadIds(a.store, ChannelOf(Account(a), k));
      }
      assert Inv(cap, b);
      RefreshCompletes(cap, b, channel);
    }
  }

  /** Reading one channel changes no other buffer's count and leaves its own at zero. */
  lemma ReadCounts(cap: nat, b: App, key: string, now: int)
    requires Inv(cap, b) && FindKey(b.channels.Keys, key).Some?
    ensures var s := UnreadIndex.MarkRead(b.store, ChannelOf(Account(b), key), now);
      && (forall k | k in b.channels && Some(k) != FindKey(b.channels.Keys, key) ::
            Count(b.(store := s), k) == Count(b, k))
      && Count(b.(store := s), key) == 0
      && Count(b.(store := s), FindKey(b.channels.Keys, key).value) == 0
  {
    var ck := ChannelOf(Account(b), key);
    var s := UnreadIndex.MarkRead(b.store, ck, now);
    assert s == b.store.(read := b.store.read[ck := s.read[ck]]);
    WatermarkElsewhere(b.store, ck, s.read[ck]);
    MarkReadClears(b.store, ck, now);
    forall k | k in b.channels && Some(k) != FindKey(b.channels.Keys, key)
      ensures Count(b.(store := s), k) == Count(b, k)
    {
      if EqIgnoreCase(k, key) { NoVariantLeft(b.channels.Keys, key, k); }
      assert UnreadIds(s, ChannelOf(Account(b), k)) == UnreadIds(b.store, ChannelOf(Account(b), k));
    }
  }

  lemma ShowReadBadgesIff(cap: nat, b: App, key: string, now: int)
    requires Inv(cap, b) && Badges(b) && FindKey(b.channels.Keys, key).Some?
    ensures var found := FindKey(b.channels.Keys, key).value;
      (Badges(ShowRead(b, key, now)) <==> found == key || b.channels[found].unread == 0)
      && Count(ShowRead(b, key, now), key) == 0
  {
    var found := FindKey(b.channels.Keys, key).value;
    ReadCounts(cap, b, key, now);
    var c := ShowRead(b, key, now);
    assert c.channels.Keys == b.channels.Keys;
    assert Count(c, found) == 0;
    forall k | k in b.channels && k != found ensures c.channels[k].unread == Count(c, k) {
      assert Count(c, k) == Count(b, k);
    }
  }

  /**
   Opening a conversation marks it read in the index. The badges follow exactly when the buffer
   it finds is spelled like the key, or had nothing unread to begin with: the badge is written
   back under the exact key only.
   */
  lemma OpenKeepsBadgesIff(cap: nat, a: App, name: string, now: int)
    requires Inv(cap, a) && Badges(a)
    ensures var key := DmBufferKey(a.nickToDid, name); var b := EnsureBuffer(a, key);
      var found := FindKey(b.channels.Keys, key);
      found.Some? && found.value in b.channels
      && (Badges(OpenChat(a, name, now)) <==> found.value == key || b.channels[found.value].unread == 0)
      && Count(OpenChat(a, name, now), key) == 0
  {
    var key := DmBufferKey(a.nickToDid, name);
    EnsureKeepsBadges(cap, a, key);
    EnsureKeepsInv(cap, a, key);
    ShowReadBadgesIff(cap, EnsureBuffer(a, key), key, now);
  }

  /**
   Folding a thread adds the two badges but leaves the index filed under the two names. The
   badges follow exactly when the sum is what the index counts for the DID alone.
   */
  lemma FoldKeepsBadgesIff(cap: nat, a: App, key: string, did: string)
    requires Inv(cap, a) && Badges(a) && key in a.channels && key != did
    ensures Badges(Fold(cap, a, key, did)) <==>
      SaturatingAdd(if did in a.channels then Count(a, did) else 0, Count(a, key)) == Count(a, did)
  {
    var b := Fold(cap, a, key, did);
    MergedLogGood(cap, a, key, did);
    assert b.channels.Keys == a.channels.Keys - {key} + {did};
    forall k | k in b.channels && k != did ensures b.channels[k].unread == Count(b, k) {
      assert b.channels[k] == a.channels[k] && Count(b, k) == Count(a, k);
    }
    assert Count(b, did) == Count(a, did);
  }

  /** The everyday case: into a DID of which nothing has been read, only an already read thread folds cleanly. */
  lemma FirstFoldKeepsBadgesIff(cap: nat, a: App, key: string, did: string)
    requires Inv(cap, a) && Badges(a) && key in a.channels && key != did
    requires did !in a.channels && ChannelOf(Account(a), did) !in a.store.read
    ensures Badges(Fold(cap, a, key, did)) <==> a.channels[key].unread == 0
  {
    FoldKeepsBadgesIff(cap, a, key, did);
    assert UnreadIds(a.store, ChannelOf(Account(a), did)) == {};
  }

  // ---- whole runs ---------------------------------------------------------------------

  ghost predicate OpensByKey(a: App, name: string) {
    var key := DmBufferKey(a.nickToDid, name);
    FindKey(a.channels.Keys, key).Some? ==>
      key in a.channels || a.channels[FindKey(a.channels.Keys, key).value].unread == 0
  }

  ghost predicate NothingToFold(a: App, nick: string, did: string) {
    Bindable(nick, did) ==> !Folds(a, nick, did)
  }

  /** The event folds no threads, opens none under another spelling than its key's, and keeps the account. */
  ghost predicate BadgeOk(a: App, e: Event) {
    match e
    case Open(name, _) => OpensByKey(a, name)
    case Identity(nick, did) => NothingToFold(a, nick, did)
    case Listed(nick, partner, _) => partner.Some? ==> NothingToFold(a, nick, partner.value)
    case Incoming(target, dmKey, m) =>
      EchoBinds(EqIgnoreCase(m.author, a.nick), target, dmKey) ==> NothingToFold(a, target, dmKey.value)
    case Announced(rename, _) => rename.Some? ==> a.did.Some? || ToLowercase(rename.value) == ToLowercase(a.nick)
    case SignedIn(did) => did == Account(a)
    case SignedOut => AccountKey(None, a.nick) == Account(a)
    case _ => true
  }

  lemma AdoptKeepsBadges(cap: nat, a: App, nick: string, did: string)
    requires Badges(a) && NothingToFold(a, nick, did)
    ensures Badges(Adopt(cap, a, nick, did))
  {
    var b := Adopt(cap, a, nick, did);
    assert b.channels == a.channels && b.store == a.store && Account(b) == Account(a);
  }

  lemma LeaveKeepsBadges(a: App, channel: string)
    requires Badges(a)
    ensures Badges(Leave(a, channel))
  {
    var b := Leave(a, channel);
    forall k | k in b.channels ensures b.channels[k].unread == Count(b, k) {
      assert b.channels[k] == a.channels[k] && Count(b, k) == Count(a, k);
    }
  }

  lemma DepartedKeepsBadges(cap: nat, a: App, channel: string, who: string, notice: Option<Message>)
    requires Badges(a)
    ensures Badges(Departed(cap, a, channel, who, notice))
  {
    var b := a;
    if channel in a.channels && notice.Some? {
      AppendUnread(cap, a.channels[channel], notice.value);
      b := SetLog(a, channel, Append(cap, a.channels[channel], notice.value));
      SetLogKeepsBadges(a, channel, Append(cap, a.channels[channel], notice.value));
    }
    LeaveKeepsBadges(b, channel);
  }

  lemma ListUnderKeepsBadges(cap: nat, a: App, name: string, seconds: Option<int>)
    requires Inv(cap, a) && Badges(a)
    ensures Badges(ListUnder(a, name, seconds))
  {
    EnsureKeepsBadges(cap, a, name);
    EnsureKeepsInv(cap, a, name);
    var b := EnsureBuffer(a, name);
    var k := FindKey(b.channels.Keys, name).value;
    SetLogKeepsBadges(b, k, Activity(b.channels[k], seconds));
  }

  lemma ListedKeepsBadges(cap: nat, a0: App, nick: string, partner: Option<string>, seconds: Option<int>)
    requires Good(cap, a0) && EventOk(cap, a0, Listed(nick, partner, seconds))
    requires Badges(a0) && BadgeOk(a0, Listed(nick, partner, seconds))
    ensures Badges(ListTarget(cap, a0, nick, partner, seconds))
  {
    var a := if partner.Some? then Adopt(cap, a0, nick, partner.value) else a0;
    if partner.Some? {
      AdoptKeepsGood(cap, a0, nick, partner.value);
      AdoptKeepsBadges(cap, a0, nick, partner.value);
    }
    var name := if partner.Some? then partner.value else DmBufferKey(a.nickToDid, nick);
    ListUnderKeepsBadges(cap, a, name, seconds);
  }

  lemma DeliverIntoKeepsBadges(cap: nat, a: App, name: string, own: bool, m: Message)
    requires Inv(cap, a) && Badges(a)
    ensures Badges(DeliverInto(cap, a, name, own, m))
  {
    EnsureKeepsBadges(cap, a, name);
    EnsureKeepsInv(cap, a, name);
    var b := EnsureBuffer(a, name);
    var k := FindKey(b.channels.Keys, name).value;
    if m.editOf.Some? && EditApplies(b.channels[k], EditOf(m)) {
      SetLogKeepsBadges(b, k, ApplyEdit(b.channels[k], EditOf(m)));
    } else {
      AppendToKeepsInv(cap, a, name, m);
      AppendToKeepsBadges(cap, a, name, m);
      var viewing := a.active.Some? && EqIgnoreCase(a.active.value, name);
      RecordKeepsBadges(cap, AppendTo(cap, a, name, m), name, m.id, Row(Seconds(m.time), own), viewing);
    }
  }

  lemma IncomingKeepsBadges(cap: nat, a0: App, target: string, dmKey: Option<string>, m: Message)
    requires Good(cap, a0) && IncomingOk(cap, a0, target, dmKey, m)
    requires Badges(a0) && BadgeOk(a0, Incoming(target, dmKey, m))
    ensures Badges(Deliver(cap, a0, target, dmKey, m))
  {
    var own := EqIgnoreCase(m.author, a0.nick);
    var a := AdoptEcho(cap, a0, own, target, dmKey);
    if EchoBinds(own, target, dmKey) {
      AdoptKeepsGood(cap, a0, target, dmKey.value);
      AdoptKeepsBadges(cap, a0, target, dmKey.value);
    }
    DeliverIntoKeepsBadges(cap, a, BufferName(a, m.author, target, dmKey), own, m);
  }

  lemma OpenKeepsBadges(cap: nat, a: App, name: string, now: int)
    requires Inv(cap, a) && Badges(a) && OpensByKey(a, name)
    ensures Badges(OpenChat(a, name, now))
  {
    OpenKeepsBadgesIff(cap, a, name, now);
    var key := DmBufferKey(a.nickToDid, name);
    if FindKey(a.channels.Keys, key).None? {
      assert key in EnsureBuffer(a, key).channels.Keys;
    }
  }

  /** The other account has the same number of unread messages in every buffer. */
  predicate CountsAgree(a: App, account: string) {
    forall k | k in a.channels :: UnreadCount(a.store, ChannelOf(account, k)) == Count(a, k)
  }

  /** With the buffers' badges left alone, a change of account keeps them right exactly when the counts agree. */
  lemma AccountChangeIff(a: App, b: App)
    requires Badges(a) && b.channels.Keys == a.channels.Keys && b.store == a.store
    requires forall k | k in a.channels :: b.channels[k].unread == a.channels[k].unread
    ensures Badges(b) <==> CountsAgree(a, Account(b))
  {
    if Badges(b) {
      forall k | k in a.channels ensures UnreadCount(a.store, ChannelOf(Account(b), k)) == Count(a, k) {
        assert k in b.channels;
      }
    }
  }

  /**
   The everyday case: to an account that has read none of the open conversations every badge is lost, so
   they stay right exactly when there was nothing unread.
   */
  lemma NewAccountKeepsBadgesIff(a: App, b: App)
    requires Badges(a) && b.channels.Keys == a.channels.Keys && b.store == a.store
    requires forall k | k in a.channels :: b.channels[k].unread == a.channels[k].unread
    requires forall k | k in a.channels :: ChannelOf(Account(b), k) !in a.store.read
    ensures Badges(b) <==> forall k | k in a.channels :: a.channels[k].unread == 0
  {
    AccountChangeIff(a, b);
    forall k | k in a.channels ensures UnreadCount(a.store, ChannelOf(Account(b), k)) == 0 {
    }
  }

  /**
   A nick change of our own leaves the badges as they are. They are right afterwards exactly when the
   index counts as much under the new nick's account: always when signed in, and for a guest whenever
   the folded nick stays the same or the counts happen to agree.
   */
  lemma RenameKeepsBadgesIff(cap: nat, a: App, rename: string, notices: map<string, Message>)
    requires Inv(cap, a) && Badges(a)
    ensures Badges(Announce(cap, a, Some(rename), notices)) <==> CountsAgree(a, AccountKey(a.did, rename))
    ensures a.did.Some? || ToLowercase(rename) == ToLowercase(a.nick) ==>
      Badges(Announce(cap, a, Some(rename), notices))
  {
    AnnounceKeepsInv(cap, a, Some(rename), notices);
    AccountChangeIff(a, Announce(cap, a, Some(rename), notices));
  }

  lemma AnnounceKeepsBadges(cap: nat, a: App, rename: Option<string>, notices: map<string, Message>)
    requires Inv(cap, a) && Badges(a) && BadgeOk(a, Announced(rename, notices))
    ensures Badges(Announce(cap, a, rename, notices))
  {
    if rename.Some? {
      RenameKeepsBadgesIff(cap, a, rename.value, notices);
    } else {
      AnnounceKeepsInv(cap, a, rename, notices);
      AccountChangeIff(a, Announce(cap, a, rename, notices));
    }
  }

  /** Signing in is a change of account, too. */
  lemma SignInKeepsBadgesIff(cap: nat, a: App, did: string)
    requires Badges(a)
    ensures Badges(Directory.Step(cap, a, SignedIn(did))) <==> CountsAgree(a, did)
  {
    AccountChangeIff(a, a.(did := Some(did)));
  }

  /** And so is signing out with the conversations left open. */
  lemma SignOutKeepsBadgesIff(cap: nat, a: App)
    requires Badges(a)
    ensures Badges(Directory.Step(cap, a, SignedOut)) <==> CountsAgree(a, AccountKey(None, a.nick))
  {
    AccountChangeIff(a, a.(did := None));
  }

  lemma StepKeepsBadges(cap: nat, a: App, e: Event)
    requires Good(cap, a) && EventOk(cap, a, e) && Badges(a) && BadgeOk(a, e)
    ensures Badges(Directory.Step(cap, a, e))
  {
    match e
    case Ensure(name) => EnsureKeepsBadges(cap, a, name);
    case Open(name, now) => OpenKeepsBadges(cap, a, name, now);
    case Close =>
    case Part(channel) => LeaveKeepsBadges(a, channel);
    case Departure(channel, who, notice) => DepartedKeepsBadges(cap, a, channel, who, notice);
    case Identity(nick, did) => AdoptKeepsBadges(cap, a, nick, did);
    case Listed(nick, partner, seconds) => ListedKeepsBadges(cap, a, nick, partner, seconds);
    case Incoming(target, dmKey, m) => IncomingKeepsBadges(cap, a, target, dmKey, m);
    case LocalSend(target, m) => AppendToKeepsBadges(cap, a, DmBufferKey(a.nickToDid, target), m);
    case LocalEdit(target, edit) =>
      var key := DmBufferKey(a.nickToDid, target);
      if key in a.channels { SetLogKeepsBadges(a, key, ApplyEdit(a.channels[key], edit)); }
    case Deletion(key, deleter, id) =>
      if key in a.channels { SetLogKeepsBadges(a, key, ApplyDelete(a.channels[key], deleter, id)); }
    case Notice(name, m) => AppendToKeepsBadges(cap, a, name, m);
    case Announced(rename, notices) => AnnounceKeepsBadges(cap, a, rename, notices);
    case SignedIn(did) => SignInKeepsBadgesIff(cap, a, did);
    case SignedOut => SignOutKeepsBadgesIff(cap, a);
    case BatchStart(_, _) =>
    case BatchEnd(id) => BatchEndKeepsBadges(cap, a, id);
    case Cleared =>
  }

  ghost predicate BadgeRunOk(cap: nat, a: App, es: seq<Event>) {
    es != [] ==>
      BadgeRunOk(cap, a, es[..|es| - 1]) && BadgeOk(Directory.Run(cap, a, es[..|es| - 1]), es[|es| - 1])
  }

  /**
   After every step of a run without merges, opens under a variant spelling and changes of account, each
   buffer's cached badge is exactly what the index counts for it.
   */
  lemma {:induction false} RunKeepsBadges(cap: nat, a: App, es: seq<Event>)
    requires Good(cap, a) && RunOk(cap, a, es) && Badges(a) && BadgeRunOk(cap, a, es)
    ensures Badges(Directory.Run(cap, a, es))
    decreases |es|
  {
    if es != [] {
      var init := es[..|es| - 1];
      RunKeepsGood(cap, a, init);
      RunKeepsBadges(cap, a, init);
      StepKeepsBadges(cap, Directory.Run(cap, a, init), es[|es| - 1]);
    }
  }
}
