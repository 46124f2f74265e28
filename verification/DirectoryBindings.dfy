/**
 Learning who a nick is: our own echoes and the server's list of partners bind a nick to its DID and fold its
 thread; nothing else does, and a binding stays.
 */
module DirectoryBindings {
  import opened Text
  import opened Timeline
  import opened TimelineMerge
  import opened UnreadIndex
  import opened Directory
  import opened DirectoryRuns

  /** `nick` is known to be `did`, and no thread is left under it in any ASCII case. */
  predicate Bound(a: App, nick: string, did: string) {
    && ToLowercase(nick) in a.nickToDid && a.nickToDid[ToLowercase(nick)] == did
    && did in a.didToNick && a.didToNick[did] == nick
    && forall k | k in a.channels :: !EqIgnoreCase(k, nick)
  }

  /** All rows the nick's thread and the DID's had are in the DID's thread, but for the fates of a merge. */
  predicate ShowsBoth(cap: nat, a: App, b: App, key: string, did: string)
    requires key in a.channels
  {
    var into := if did in a.channels then a.channels[did] else EmptyLog(did);
    var head, other := AbsorbHead(into, a.channels[key]), a.channels[key];
    && did in b.channels
    && (forall x | x in into.rows :: x in b.channels[did].rows || Lost(cap, head, other.rows, x))
    && (forall x | x in other.rows ::
          x in b.channels[did].rows || Refused(into, x) || Lost(cap, head, other.rows, x))
    && (forall x | x in b.channels[did].rows :: x in into.rows || x in other.rows)
  }

  /** A key equal to a name that is no DID is none either. */
  lemma VariantIsNoDid(key: string, nick: string, did: string)
    requires EqIgnoreCase(key, nick) && !IsDid(nick) && !EqIgnoreCase(nick, did)
    ensures !IsDid(key) && key != did
  {
    if IsDid(key) { IsDidIgnoresCase(key, nick); }
  }

  /** Binding a nick: the tables say so, its thread is in the DID's, and other threads are as they were. */
  lemma AdoptBinds(cap: nat, a: App, nick: string, did: string)
    requires Inv(cap, a) && Bindable(nick, did) && !IsDid(nick)
    ensures var b := Adopt(cap, a, nick, did); var found := FindKey(a.channels.Keys, nick);
      && Bound(b, nick, did)
      && (found.Some? ==> ShowsBoth(cap, a, b, found.value, did))
      && (forall k | k in a.channels && found != Some(k) && k != did ::
            k in b.channels && b.channels[k] == a.channels[k])
      && b.nickToDid == a.nickToDid[ToLowercase(nick) := did] && b.didToNick == a.didToNick[did := nick]
  {
    var b, found := Adopt(cap, a, nick, did), FindKey(a.channels.Keys, nick);
    if found.Some? {
      VariantIsNoDid(found.value, nick, did);
      MergeShowsBothThreads(cap, a, nick, did);
      FoldOrder(Bind(a, nick, did), found.value, did, cap);
      FoldLeavesNone(a.channels.Keys, found.value, nick, did);
    }
  }

  lemma FoldLeavesNone(keys: set<string>, found: string, nick: string, did: string)
    requires CaseDistinct(keys) && found in keys && EqIgnoreCase(found, nick) && !EqIgnoreCase(nick, did)
    ensures forall k | k in keys - {found} + {did} :: !EqIgnoreCase(k, nick)
  {
  }

  /** What the SDK must have sent for an own echo to reveal who its target is. */
  predicate RevealsTarget(a: App, target: string, dmKey: Option<string>, m: Message) {
    && EqIgnoreCase(m.author, a.nick) && dmKey.Some? && IsDid(dmKey.value)
    && !IsChannelName(target) && !IsDid(target) && !EqIgnoreCase(target, dmKey.value)
  }

  /** The two tables are as they were. */
  predicate SameBindings(a: App, b: App) {
    b.nickToDid == a.nickToDid && b.didToNick == a.didToNick
  }

  lemma EnsureKeepsBindings(a: App, name: string)
    ensures SameBindings(a, EnsureBuffer(a, name))
  {
  }

  lemma AppendToKeepsBindings(cap: nat, a: App, name: string, m: Message)
    ensures SameBindings(a, AppendTo(cap, a, name, m))
  {
    EnsureKeepsBindings(a, name);
  }

  lemma DeliverKeepsBindings(cap: nat, a: App, name: string, own: bool, m: Message)
    ensures SameBindings(a, DeliverInto(cap, a, name, own, m))
  {
    EnsureKeepsBindings(a, name);
    AppendToKeepsBindings(cap, a, name, m);
  }

  lemma RecordKeepsKeys(a: App, name: string, msgid: string, row: Row, viewing: bool)
    ensures Record(a, name, msgid, row, viewing).channels.Keys == a.channels.Keys
  {
  }

  lemma DeliverKeepsKeys(cap: nat, a: App, name: string, own: bool, m: Message)
    requires Inv(cap, a)
    ensures DeliverInto(cap, a, name, own, m).channels.Keys <= a.channels.Keys + {name}
  {
    EnsureKeepsInv(cap, a, name);
    var b, k := EnsureBuffer(a, name), FindKey(EnsureBuffer(a, name).channels.Keys, name).value;
    if m.editOf.Some? && EditApplies(b.channels[k], EditOf(m)) {
      assert SetLog(b, k, ApplyEdit(b.channels[k], EditOf(m))).channels.Keys == b.channels.Keys;
    } else {
      AppendToKeepsInv(cap, a, name, m);
      RecordKeepsKeys(AppendTo(cap, a, name, m), name, m.id, Row(Seconds(m.time), own),
                      a.active.Some? && EqIgnoreCase(a.active.value, name));
    }
  }

  /**
   A message event binds a nick exactly when it is our own message to somebody addressed by nick whom the SDK
   names by DID: then the nick is bound to that DID and keeps no thread. Other events change no binding.
   */
  lemma EchoBindsIff(cap: nat, a: App, target: string, dmKey: Option<string>, m: Message)
    requires Inv(cap, a) && (RevealsTarget(a, target, dmKey, m) ==> Canonical(a.channels.Keys, dmKey.value))
    ensures var b := Deliver(cap, a, target, dmKey, m);
      if RevealsTarget(a, target, dmKey, m) then
        && b.nickToDid == a.nickToDid[ToLowercase(target) := dmKey.value]
        && b.didToNick == a.didToNick[dmKey.value := target] && Bound(b, target, dmKey.value)
      else SameBindings(a, b)
  {
    var own := EqIgnoreCase(m.author, a.nick);
    var c := AdoptEcho(cap, a, own, target, dmKey);
    var name := BufferName(c, m.author, target, dmKey);
    DeliverKeepsBindings(cap, c, name, own, m);
    if RevealsTarget(a, target, dmKey, m) {
      AdoptBinds(cap, a, target, dmKey.value);
      AdoptKeepsInv(cap, a, target, dmKey.value);
      DeliverKeepsKeys(cap, c, name, own, m);
    }
  }

  /**
   Such an echo leaves every row of the nick's thread in the DID's, unless the merge or the echo itself
   refuses, confirms or cuts it.
   */
  lemma EchoShowsThread(cap: nat, a: App, target: string, dmKey: Option<string>, m: Message, key: string, x: Message)
    requires Inv(cap, a) && RevealsTarget(a, target, dmKey, m) && Canonical(a.channels.Keys, dmKey.value)
    requires FindKey(a.channels.Keys, target) == Some(key) && x in a.channels[key].rows && m.editOf.None?
    ensures var did := dmKey.value; var b := Deliver(cap, a, target, dmKey, m);
      var into := if did in a.channels then a.channels[did] else EmptyLog(did);
      && did in b.channels && key !in b.channels
      && (x in b.channels[did].rows || Refused(into, x) || Confirms(m, x) || FullOfNewer(cap, b.channels[did], x)
          || Lost(cap, AbsorbHead(into, a.channels[key]), a.channels[key].rows, x))
  {
    var did := dmKey.value;
    var c := Adopt(cap, a, target, did);
    AdoptBinds(cap, a, target, did);
    AdoptKeepsInv(cap, a, target, did);
    EchoBindsIff(cap, a, target, dmKey, m);
    assert Deliver(cap, a, target, dmKey, m) == DeliverInto(cap, c, did, true, m);
    DeliverArrives(cap, c, did, true, m);
    if x in c.channels[did].rows { RowFate(cap, c.channels[did], m, x); }
  }

  lemma ListUnderIs(cap: nat, a: App, name: string, seconds: Option<int>)
    requires Inv(cap, a)
    ensures var b := EnsureBuffer(a, name); var key := FindKey(b.channels.Keys, name);
      && key.Some? && key.value in b.channels && b.channels.Keys <= a.channels.Keys + {name} && SameBindings(a, b)
      && ListUnder(a, name, seconds) == SetLog(b, key.value, Activity(b.channels[key.value], seconds))
      && ListUnder(a, name, seconds).channels.Keys == b.channels.Keys
  {
    EnsureKeepsInv(cap, a, name);
    EnsureKeepsBindings(a, name);
    var b, k := EnsureBuffer(a, name), FindKey(EnsureBuffer(a, name).channels.Keys, name).value;
    assert SetLog(b, k, Activity(b.channels[k], seconds)).channels.Keys == b.channels.Keys;
  }

  /** The conversation exists with the listed time, and the bindings are as they were. */
  lemma ListedUnder(cap: nat, a: App, name: string, seconds: int)
    requires Inv(cap, a)
    ensures var b := ListUnder(a, name, Some(seconds)); var key := FindKey(b.channels.Keys, name);
      && key.Some? && key.value in b.channels && seconds <= b.channels[key.value].lastActivity
      && (b.channels[key.value].rows == [] ==> b.channels[key.value].lastActivity == seconds)
  {
    ListUnderIs(cap, a, name, Some(seconds));
  }

  lemma ListedUnderAnyTime(cap: nat, a: App, name: string, seconds: Option<int>)
    requires Inv(cap, a)
    ensures var b := ListUnder(a, name, seconds); SameBindings(a, b) && b.channels.Keys <= a.channels.Keys + {name}
  {
    ListUnderIs(cap, a, name, seconds);
  }

  lemma StepLists(cap: nat, a: App, nick: string, partner: Option<string>, seconds: Option<int>)
    ensures Directory.Step(cap, a, Listed(nick, partner, seconds)) == ListTarget(cap, a, nick, partner, seconds)
  {
  }

  /** A listed partner is bound like one an echo reveals; a listed nick alone binds nobody. */
  lemma ListedBinds(cap: nat, a: App, nick: string, partner: Option<string>, seconds: Option<int>)
    requires Inv(cap, a) && !IsDid(nick) && (partner.Some? ==> Canonical(a.channels.Keys, partner.value))
    ensures var b := ListTarget(cap, a, nick, partner, seconds);
      && (partner.Some? && Bindable(nick, partner.value) ==>
            Bound(b, nick, partner.value) && b.nickToDid == a.nickToDid[ToLowercase(nick) := partner.value])
      && (partner.None? ==> b.nickToDid == a.nickToDid)
      && b == Directory.Step(cap, a, Listed(nick, partner, seconds))
  {
    StepLists(cap, a, nick, partner, seconds);
    if partner.None? {
      ListedUnderAnyTime(cap, a, DmBufferKey(a.nickToDid, nick), seconds);
    } else if Bindable(nick, partner.value) {
      var c := Adopt(cap, a, nick, partner.value);
      AdoptBinds(cap, a, nick, partner.value);
      AdoptKeepsInv(cap, a, nick, partner.value);
      ListedUnderAnyTime(cap, c, partner.value, seconds);
    }
  }

  /**
   The listed conversation exists afterwards under the partner's DID, or without one under the key of the nick;
   its time of activity is at least the listed one, and exactly that when nothing has been said in it.
   */
  lemma ListedShows(cap: nat, a: App, nick: string, partner: Option<string>, seconds: int)
    requires Inv(cap, a) && (partner.Some? ==> Canonical(a.channels.Keys, partner.value))
    ensures var b := ListTarget(cap, a, nick, partner, Some(seconds));
      var name := if partner.Some? then partner.value else DmBufferKey(a.nickToDid, nick);
      var key := FindKey(b.channels.Keys, name);
      && key.Some? && key.value in b.channels && seconds <= b.channels[key.value].lastActivity
      && (b.channels[key.value].rows == [] ==> b.channels[key.value].lastActivity == seconds)
  {
    if partner.None? {
      ListedUnder(cap, a, DmBufferKey(a.nickToDid, nick), seconds);
    } else {
      AdoptKeepsInv(cap, a, nick, partner.value);
      ListedUnder(cap, Adopt(cap, a, nick, partner.value), partner.value, seconds);
    }
  }

  // ---- nothing else binds, and bindings stay -----------------------------------------------

  lemma DepartedKeepsBindings(cap: nat, a: App, channel: string, who: string, notice: Option<Message>)
    ensures SameBindings(a, Departed(cap, a, channel, who, notice))
  {
  }

  /** Only these events can bind a nick or forget it. */
  lemma OthersKeepBindings(cap: nat, a: App, e: Event)
    requires !e.Identity? && !e.Listed? && !e.Incoming? && !e.Cleared?
    ensures SameBindings(a, Directory.Step(cap, a, e))
  {
    match e
    case Ensure(name) => EnsureKeepsBindings(a, name);
    case Open(name, now) => EnsureKeepsBindings(a, DmBufferKey(a.nickToDid, name));
    case LocalSend(target, m) => AppendToKeepsBindings(cap, a, DmBufferKey(a.nickToDid, target), m);
    case Notice(name, m) => AppendToKeepsBindings(cap, a, name, m);
    case BatchEnd(id) =>
    case Departure(channel, who, notice) => DepartedKeepsBindings(cap, a, channel, who, notice);
    case _ =>
  }

  /** The event may bind `nick`, in any Unicode case. */
  predicate MayBind(a: App, e: Event, nick: string) {
    match e
    case Identity(n, _) => ToLowercase(n) == ToLowercase(nick)
    case Listed(n, partner, _) => partner.Some? && ToLowercase(n) == ToLowercase(nick)
    case Incoming(target, dmKey, m) => dmKey.Some? && ToLowercase(target) == ToLowercase(nick)
    case Cleared => true
    case _ => false
  }

  lemma AdoptKeepsOther(cap: nat, a: App, nick: string, did: string, key: string)
    requires key in a.nickToDid && ToLowercase(nick) != key
    ensures key in Adopt(cap, a, nick, did).nickToDid && Adopt(cap, a, nick, did).nickToDid[key] == a.nickToDid[key]
  {
  }

  lemma DeliverKeepsOther(cap: nat, a: App, target: string, dmKey: Option<string>, m: Message, key: string)
    requires key in a.nickToDid && (dmKey.Some? ==> ToLowercase(target) != key)
    ensures var b := Deliver(cap, a, target, dmKey, m); key in b.nickToDid && b.nickToDid[key] == a.nickToDid[key]
  {
    var own := EqIgnoreCase(m.author, a.nick);
    var c := AdoptEcho(cap, a, own, target, dmKey);
    if dmKey.Some? { AdoptKeepsOther(cap, a, target, dmKey.value, key); }
    DeliverKeepsBindings(cap, c, BufferName(c, m.author, target, dmKey), own, m);
  }

  lemma ListUnderKeepsBindings(a: App, name: string, seconds: Option<int>)
    ensures SameBindings(a, ListUnder(a, name, seconds))
  {
    EnsureKeepsBindings(a, name);
  }

  lemma ListedKeepsOther(cap: nat, a: App, nick: string, partner: Option<string>, seconds: Option<int>, key: string)
    requires key in a.nickToDid && (partner.Some? ==> ToLowercase(nick) != key)
    ensures var b := ListTarget(cap, a, nick, partner, seconds);
      key in b.nickToDid && b.nickToDid[key] == a.nickToDid[key]
  {
    var c := if partner.Some? then Adopt(cap, a, nick, partner.value) else a;
    if partner.Some? { AdoptKeepsOther(cap, a, nick, partner.value, key); }
    ListUnderKeepsBindings(c, if partner.Some? then partner.value else DmBufferKey(c.nickToDid, nick), seconds);
  }

  lemma StepKeepsBinding(cap: nat, a: App, e: Event, nick: string)
    requires ToLowercase(nick) in a.nickToDid && !MayBind(a, e, nick)
    ensures var b := Directory.Step(cap, a, e); var key := ToLowercase(nick);
      key in b.nickToDid && b.nickToDid[key] == a.nickToDid[key]
  {
    match e
    case Identity(n, did) => AdoptKeepsOther(cap, a, n, did, ToLowercase(nick));
    case Listed(n, partner, seconds) => ListedKeepsOther(cap, a, n, partner, seconds, ToLowercase(nick));
    case Incoming(target, dmKey, m) => DeliverKeepsOther(cap, a, target, dmKey, m, ToLowercase(nick));
    case _ => OthersKeepBindings(cap, a, e);
  }

  ghost predicate NeverRebound(cap: nat, a: App, es: seq<Event>, nick: string) {
    es != [] ==>
      var init := es[..|es| - 1];
      NeverRebound(cap, a, init, nick) && !MayBind(Directory.Run(cap, a, init), es[|es| - 1], nick)
  }

  lemma {:induction false} BindingStays(cap: nat, a: App, es: seq<Event>, nick: string)
    requires ToLowercase(nick) in a.nickToDid && NeverRebound(cap, a, es, nick)
    ensures var b := Directory.Run(cap, a, es); var key := ToLowercase(nick);
      key in b.nickToDid && b.nickToDid[key] == a.nickToDid[key]
    decreases |es|
  {
    if es != [] {
      BindingStays(cap, a, es[..|es| - 1], nick);
      StepKeepsBinding(cap, Directory.Run(cap, a, es[..|es| - 1]), es[|es| - 1], nick);
    }
  }

  /**
   Once our echo has revealed whom a nick belongs to, everything we write to the nick goes to the DID's buffer
   in every later run that does not bind the nick again or end the session.
   */
  lemma EchoBindsForGood(cap: nat, a: App, target: string, did: string, m: Message, later: seq<Event>)
    requires Inv(cap, a) && Canonical(a.channels.Keys, did) && RevealsTarget(a, target, Some(did), m) && IsNick(target)
    requires NeverRebound(cap, Deliver(cap, a, target, Some(did), m), later, target)
    ensures var b := Directory.Run(cap, Deliver(cap, a, target, Some(did), m), later);
      DmBufferKey(b.nickToDid, target) == did
  {
    EchoBindsIff(cap, a, target, Some(did), m);
    BindingStays(cap, Deliver(cap, a, target, Some(did), m), later, target);
  }
}
