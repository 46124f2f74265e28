/**
 The directory of conversations: which buffers exist, in what order, which one is open, and
 how a nick-keyed thread is folded into the DID-keyed one once the peer's identity is known.
 The map owns its buffers, so they appear here as log values.
 */
module Directory {
  import opened Text
  import opened Seqs
  import opened Timeline
  import opened TimelineRuns
  import opened UnreadIndex

  datatype Route = Tabs | Chat(name: string)

  datatype App = App(
    nick: string,
    did: Option<string>,
    channels: map<string, Log>,
    order: seq<string>,
    active: Option<string>,
    route: Route,
    nickToDid: map<string, string>,
    didToNick: map<string, string>,
    history: map<string, string>,
    store: Store)

  const STATUS: string := "*status"

  /** "did:" in any case, a method of letters and digits, a colon, and something after it. */
  predicate IsDid(s: string) {
    && |s| > 4 && AsciiLower(s[..4]) == "did:"
    && exists c | 4 < c < |s| - 1 :: s[c] == ':' && forall i | 4 <= i < c :: IsAlnum(s[i])
  }

  /** The colon that ends the method is the first one behind the prefix. */
  lemma IsDidByFirstColon(s: string, c: nat)
    requires 4 <= c < |s| && AsciiLower(s[..4]) == "did:"
    requires s[c] == ':' && forall i | 4 <= i < c :: s[i] != ':'
    ensures IsDid(s) <==> c > 4 && c < |s| - 1 && forall i | 4 <= i < c :: IsAlnum(s[i])
  {
  }

  /** Being a DID does not depend on ASCII case. */
  lemma IsDidIgnoresCase(s: string, t: string)
    requires EqIgnoreCase(s, t) && IsDid(s)
    ensures IsDid(t)
  {
    assert |s| == |AsciiLower(s)| == |AsciiLower(t)| == |t|;
    forall i | 0 <= i < |s| ensures AsciiLowerChar(s[i]) == AsciiLowerChar(t[i]) {
      assert AsciiLower(s)[i] == AsciiLower(t)[i];
    }
    assert AsciiLower(t[..4]) == AsciiLower(s[..4]);
    var c :| 4 < c < |s| - 1 && s[c] == ':' && forall i | 4 <= i < c :: IsAlnum(s[i]);
    assert AsciiLowerChar(s[c]) == AsciiLowerChar(t[c]);
    forall i | 4 <= i < c ensures IsAlnum(t[i]) {
      assert IsAlnum(s[i]) && AsciiLowerChar(s[i]) == AsciiLowerChar(t[i]);
    }
  }

  predicate IsChannelName(s: string) {
    StartsWith(s, "#") || StartsWith(s, "&")
  }

  /** A name that stands for a person by nick: no channel, no status window, no DID. */
  predicate IsNick(s: string) {
    !IsChannelName(s) && s != STATUS && !IsDid(s)
  }

  // ---- lookups ------------------------------------------------------------------------

  /** An existing key equal to `name` up to ASCII case, an exact match first. */
  ghost function FindKey(keys: set<string>, name: string): (r: Option<string>)
    ensures r.Some? ==> r.value in keys && EqIgnoreCase(r.value, name)
    ensures r.None? ==> forall k | k in keys :: !EqIgnoreCase(k, name)
    ensures name in keys ==> r == Some(name)
  {
    if name in keys then Some(name)
    else if exists k :: k in keys && EqIgnoreCase(k, name) then
      var k :| k in keys && EqIgnoreCase(k, name);
      Some(k)
    else None
  }

  /** The list without one name; the others stay in order. */
  function Without(order: seq<string>, name: string): seq<string> {
    Filter(order, n => n != name)
  }

  /** At most one key answers to the name, so that a search in any order finds the same. */
  ghost predicate OneMatch(keys: set<string>, name: string) {
    name in keys || forall j, k | j in keys && k in keys && EqIgnoreCase(j, name) && EqIgnoreCase(k, name) :: j == k
  }

  /** The buffer a direct message with `peer` belongs to: the DID once it is known. */
  function DmBufferKey(nickToDid: map<string, string>, peer: string): string {
    if IsChannelName(peer) || peer == STATUS || IsDid(peer) then peer
    else if ToLowercase(peer) in nickToDid then nickToDid[ToLowercase(peer)]
    else peer
  }

  /** The namespace of the message index: our DID when signed in, else our folded nick. */
  function AccountKey(did: Option<string>, nick: string): string {
    if did.Some? then did.value else "guest:" + ToLowercase(nick)
  }

  function Account(a: App): string {
    AccountKey(a.did, a.nick)
  }

  function Count(a: App, channel: string): nat {
    UnreadCount(a.store, ChannelOf(Account(a), channel))
  }

  // ---- operations ---------------------------------------------------------------------

  ghost function EnsureBuffer(a: App, name: string): App {
    if FindKey(a.channels.Keys, name).Some? then a
    else a.(channels := a.channels[name := EmptyLog(name).(unread := Count(a, name))],
            order := a.order + [name])
  }

  /** Replace the log of one buffer. */
  function SetLog(a: App, key: string, log: Log): App {
    a.(channels := a.channels[key := log])
  }

  function MergedLog(cap: nat, channels: map<string, Log>, key: string, did: string): Log
    requires key in channels
  {
    if did in channels then Absorb(cap, channels[did], channels[key])
    else Absorb(cap, EmptyLog(did), channels[key]).(name := did)
  }

  /** The thread under `key` is folded into the one under `did`; whoever looks at it follows. */
  function Fold(cap: nat, a: App, key: string, did: string): App
    requires key in a.channels && key != did
  {
    var order := Filter(a.order, n => !EqIgnoreCase(n, key));
    a.(channels := (a.channels - {key})[did := MergedLog(cap, a.channels, key, did)],
       order := if did in a.channels || did in order then order else order + [did],
       active := if a.active.Some? && EqIgnoreCase(a.active.value, key) then Some(did) else a.active,
       route := if a.route.Chat? && EqIgnoreCase(a.route.name, key) then Chat(did) else a.route)
  }

  /** The merge has something to fold: a buffer under the nick that is not a DID thread. */
  ghost predicate Folds(a: App, nick: string, did: string) {
    var k := FindKey(a.channels.Keys, nick);
    k.Some? && !IsDid(k.value) && k.value != did
  }

  ghost function Merge(cap: nat, a: App, nick: string, did: string): App {
    if Folds(a, nick, did) then Fold(cap, a, FindKey(a.channels.Keys, nick).value, did) else a
  }

  predicate Bindable(nick: string, did: string) {
    IsDid(did) && !EqIgnoreCase(nick, did) && !IsChannelName(nick)
  }

  function Bind(a: App, nick: string, did: string): App {
    a.(nickToDid := a.nickToDid[ToLowercase(nick) := did], didToNick := a.didToNick[did := nick])
  }

  ghost function Adopt(cap: nat, a: App, nick: string, did: string): App {
    if Bindable(nick, did) then Merge(cap, Bind(a, nick, did), nick, did) else a
  }

  predicate EchoBinds(isSelf: bool, target: string, dmKey: Option<string>) {
    isSelf && dmKey.Some? && IsDid(dmKey.value) && !IsChannelName(target) && !IsDid(target)
    && !EqIgnoreCase(target, dmKey.value)
  }

  ghost function AdoptEcho(cap: nat, a: App, isSelf: bool, target: string, dmKey: Option<string>): App {
    if EchoBinds(isSelf, target, dmKey) then Adopt(cap, a, target, dmKey.value) else a
  }

  function CloseChat(a: App): App {
    a.(active := None, route := Tabs)
  }

  /** Show the buffer under `key` and mark it read; its badge is written back under the exact key. */
  function ShowRead(b: App, key: string, now: int): App {
    var c := b.(active := Some(key), route := Chat(key), store := MarkRead(b.store, ChannelOf(Account(b), key), now));
    if key in c.channels then SetLog(c, key, c.channels[key].(unread := Count(c, key))) else c
  }

  ghost function OpenChat(a: App, name: string, now: int): App {
    var key := DmBufferKey(a.nickToDid, name);
    ShowRead(EnsureBuffer(a, key), key, now)
  }

  /** We are no longer in the channel. */
  function Leave(a: App, channel: string): App {
    var b := a.(channels := a.channels - {channel}, order := Filter(a.order, n => n != channel));
    if a.active == Some(channel) then CloseChat(b) else b
  }

  /** Somebody, perhaps we ourselves, parted or was kicked; the buffer may show a line about it. */
  ghost function Departed(cap: nat, a: App, channel: string, who: string, notice: Option<Message>): App {
    var b := if channel in a.channels && notice.Some?
             then SetLog(a, channel, Append(cap, a.channels[channel], notice.value)) else a;
    if EqIgnoreCase(who, a.nick) then Leave(b, channel) else b
  }

  ghost function Refresh(a: App, channel: string): App {
    var k := FindKey(a.channels.Keys, channel);
    if k.Some? then SetLog(a, k.value, a.channels[k.value].(unread := Count(a, channel))) else a
  }

  ghost predicate InHistory(a: App, channel: string) {
    exists id | id in a.history :: EqIgnoreCase(a.history[id], channel)
  }

  /** The index after a message has been recorded, before the badge is refreshed. */
  ghost function Recorded(a: App, channel: string, msgid: string, row: Row, viewing: bool): Store {
    var ck := ChannelOf(Account(a), channel);
    var s := InsertMessage(a.store, ck, msgid, row);
    if viewing then MarkRead(s, ck, row.ts)
    else if !row.fromMe && !InHistory(a, channel) then EnsureLiveBaseline(s, ck, msgid)
    else s
  }

  ghost function Record(a: App, channel: string, msgid: string, row: Row, viewing: bool): App {
    if channel == STATUS || msgid == "" then a
    else Refresh(a.(store := Recorded(a, channel, msgid, row, viewing)), channel)
  }

  /** The buffer named by an incoming message or tag. */
  function BufferName(a: App, author: string, target: string, dmKey: Option<string>): string {
    if dmKey.Some? then dmKey.value
    else if IsChannelName(target) then target
    else if EqIgnoreCase(target, a.nick) then DmBufferKey(a.nickToDid, author)
    else DmBufferKey(a.nickToDid, target)
  }

  /** Make sure the buffer exists, then append to whichever buffer the name finds. */
  ghost function AppendTo(cap: nat, a: App, name: string, m: Message): App {
    var b := EnsureBuffer(a, name);
    var k := FindKey(b.channels.Keys, name);
    if k.Some? then SetLog(b, k.value, Append(cap, b.channels[k.value], m)) else b
  }

  ghost function Show(cap: nat, a: App, name: string, own: bool, viewing: bool, m: Message): App {
    Record(AppendTo(cap, a, name, m), name, m.id, Row(Seconds(m.time), own), viewing)
  }

  /** An edit rewrites its row when it can; anything else is appended and recorded. */
  ghost function DeliverInto(cap: nat, a: App, name: string, own: bool, m: Message): App {
    var viewing := a.active.Some? && EqIgnoreCase(a.active.value, name);
    var b := EnsureBuffer(a, name);
    var k := FindKey(b.channels.Keys, name);
    if k.Some? && m.editOf.Some? && EditApplies(b.channels[k.value], EditOf(m))
    then SetLog(b, k.value, ApplyEdit(b.channels[k.value], EditOf(m)))
    else Show(cap, a, name, own, viewing, m)
  }

  /** A message event: adopt what our own echo reveals, find the buffer, deliver. */
  ghost function Deliver(cap: nat, a0: App, target: string, dmKey: Option<string>, m: Message): App {
    var own := EqIgnoreCase(m.author, a0.nick);
    var a := AdoptEcho(cap, a0, own, target, dmKey);
    DeliverInto(cap, a, BufferName(a, m.author, target, dmKey), own, m)
  }

  function Activity(log: Log, seconds: Option<int>): Log {
    if seconds.Some? then SeedActivity(log, seconds.value) else log
  }

  /** Make sure the listed conversation exists and take over its time of activity. */
  ghost function ListUnder(a: App, name: string, seconds: Option<int>): App {
    var b := EnsureBuffer(a, name);
    var k := FindKey(b.channels.Keys, name);
    if k.Some? then SetLog(b, k.value, Activity(b.channels[k.value], seconds)) else b
  }

  /** A server-listed conversation partner. */
  ghost function ListTarget(cap: nat, a0: App, nick: string, partner: Option<string>, seconds: Option<int>): App {
    var a := if partner.Some? then Adopt(cap, a0, nick, partner.value) else a0;
    var name := if partner.Some? then partner.value else DmBufferKey(a.nickToDid, nick);
    var c := ListUnder(a, name, seconds);
    if IsDid(name) then c.(didToNick := c.didToNick[name := nick]) else c
  }

  /** System lines in several buffers at once, as when somebody quits or changes nick, we perhaps. */
  function Announce(cap: nat, a: App, rename: Option<string>, notices: map<string, Message>): App {
    a.(nick := if rename.Some? then rename.value else a.nick,
       channels := map k | k in a.channels ::
         if k in notices then Append(cap, a.channels[k], notices[k]) else a.channels[k])
  }

  /** The end of a history batch sets a first watermark and refreshes the badge. */
  ghost function EndBatch(a: App, id: string): App {
    if id !in a.history then a
    else
      var channel := a.history[id];
      Refresh(a.(history := a.history - {id},
                 store := BaselineAfterHistory(a.store, ChannelOf(Account(a), channel))), channel)
  }

  function ClearSession(a: App): App {
    CloseChat(a).(channels := map[], order := [], nickToDid := map[], didToNick := map[])
  }

  datatype Event =
    | Ensure(name: string)
    | Open(name: string, now: int)
    | Close
    | Part(channel: string)
    | Departure(channel: string, who: string, notice: Option<Message>)
    | Identity(nick: string, did: string)
    | Listed(nick: string, partner: Option<string>, seconds: Option<int>)
    | Incoming(target: string, dmKey: Option<string>, m: Message)
    | LocalSend(target: string, m: Message)
    | LocalEdit(target: string, e: Edit)
    | Deletion(key: string, deleter: string, id: string)
    | Notice(name: string, m: Message)
    | Announced(rename: Option<string>, notices: map<string, Message>)
    | SignedIn(did: string)
    | SignedOut
    | BatchStart(id: string, target: string)
    | BatchEnd(id: string)
    | Cleared

  ghost function Step(cap: nat, a: App, e: Event): App {
    match e
    case Ensure(name) => EnsureBuffer(a, name)
    case Open(name, now) => OpenChat(a, name, now)
    case Close => CloseChat(a)
    case Part(channel) => Leave(a, channel)
    case Departure(channel, who, notice) => Departed(cap, a, channel, who, notice)
    case Identity(nick, did) => Adopt(cap, a, nick, did)
    case Listed(nick, partner, seconds) => ListTarget(cap, a, nick, partner, seconds)
    case Incoming(target, dmKey, m) => Deliver(cap, a, target, dmKey, m)
    case LocalSend(target, m) => AppendTo(cap, a, DmBufferKey(a.nickToDid, target), m)
    case LocalEdit(target, e) =>
      var key := DmBufferKey(a.nickToDid, target);
      if key in a.channels then SetLog(a, key, ApplyEdit(a.channels[key], e)) else a
    case Deletion(key, deleter, id) =>
      if key in a.channels then SetLog(a, key, ApplyDelete(a.channels[key], deleter, id)) else a
    case Notice(name, m) => AppendTo(cap, a, name, m)
    case Announced(rename, notices) => Announce(cap, a, rename, notices)
    case SignedIn(did) => a.(did := Some(did))
    case SignedOut => a.(did := None)
    case BatchStart(id, target) => if target != "" then a.(history := a.history[id := target]) else a
    case BatchEnd(id) => EndBatch(a, id)
    case Cleared => ClearSession(a)
  }

  ghost function Run(cap: nat, a: App, es: seq<Event>): App {
    if es == [] then a
    else Step(cap, Run(cap, a, es[..|es| - 1]), es[|es| - 1])
  }

  // ---- the directory invariant --------------------------------------------------------

  ghost predicate Lists(order: seq<string>, keys: set<string>) {
    NoDuplicates(order) && forall k :: k in order <==> k in keys
  }

  predicate CaseDistinct(keys: set<string>) {
    forall j, k | j in keys && k in keys && EqIgnoreCase(j, k) :: j == k
  }

  predicate LogsGood(cap: nat, channels: map<string, Log>) {
    forall k | k in channels :: channels[k].name == k && Valid(cap, channels[k])
  }

  predicate RouteMatches(active: Option<string>, route: Route) {
    match active
    case None => route == Tabs
    case Some(x) => route == Chat(x)
  }

  predicate DidValues(nickToDid: map<string, string>) {
    forall n | n in nickToDid :: IsDid(nickToDid[n])
  }

  ghost predicate Inv(cap: nat, a: App) {
    && Lists(a.order, a.channels.Keys)
    && CaseDistinct(a.channels.Keys)
    && LogsGood(cap, a.channels)
    && RouteMatches(a.active, a.route)
    && DidValues(a.nickToDid)
  }

  /** The index and the batches do not matter to it, and it gives every name one match. */
  lemma InvIsAboutBuffers(cap: nat, a: App, history: map<string, string>, store: Store, name: string)
    requires Inv(cap, a)
    ensures Inv(cap, a.(history := history, store := store)) && OneMatch(a.channels.Keys, name)
  {
  }

  /** No buffer key differs from `did` in case alone. */
  predicate Canonical(keys: set<string>, did: string) {
    forall k | k in keys && EqIgnoreCase(k, did) :: k == did
  }

  lemma ListedMore(order: seq<string>, keys: set<string>, name: string)
    requires Lists(order, keys) && name !in keys
    ensures Lists(order + [name], keys + {name})
  {
    AddNoDuplicates(order, name);
    PrefixElements(order, name);
  }

  /** A new empty buffer under a name no key equals up to ASCII case. */
  lemma NewBufferKeepsInv(cap: nat, a: App, name: string, unread: nat)
    requires Inv(cap, a) && forall k | k in a.channels :: !EqIgnoreCase(k, name)
    ensures Inv(cap, a.(channels := a.channels[name := EmptyLog(name).(unread := unread)], order := a.order + [name]))
  {
    var channels := a.channels[name := EmptyLog(name).(unread := unread)];
    ListedMore(a.order, a.channels.Keys, name);
    assert channels.Keys == a.channels.Keys + {name};
    assert CaseDistinct(channels.Keys);
    assert LogsGood(cap, channels);
  }

  lemma EnsureKeepsInv(cap: nat, a: App, name: string)
    requires Inv(cap, a)
    ensures var b := EnsureBuffer(a, name);
      && Inv(cap, b) && FindKey(b.channels.Keys, name).Some?
      && a.channels.Keys <= b.channels.Keys <= a.channels.Keys + {name}
      && (forall k | k in a.channels :: b.channels[k] == a.channels[k])
      && (forall k | k in b.channels && k !in a.channels :: b.channels[k].rows == [])
      && b.nickToDid == a.nickToDid
  {
    if FindKey(a.channels.Keys, name).None? {
      NewBufferKeepsInv(cap, a, name, Count(a, name));
    }
  }

  /** A new conversation comes last in the list; nothing but the list and the buffers changes. */
  lemma EnsureOrder(a: App, name: string)
    ensures var b := EnsureBuffer(a, name);
      && b.(channels := a.channels, order := a.order) == a
      && b.order == (if exists k | k in a.channels :: EqIgnoreCase(k, name) then a.order else a.order + [name])
  {
  }

  lemma SetLogKeepsInv(cap: nat, a: App, key: string, log: Log)
    requires Inv(cap, a) && key in a.channels && Valid(cap, log) && log.name == key
    ensures Inv(cap, SetLog(a, key, log)) && SetLog(a, key, log).channels.Keys == a.channels.Keys
  {
    assert SetLog(a, key, log).channels.Keys == a.channels.Keys;
  }

  lemma NamesKept(cap: nat, log: Log, m: Message)
    ensures Append(cap, log, m).name == log.name
  {
    if !Refused(log, m) { EvictName(cap, Inserted(log, m)); }
  }

  lemma {:induction false} EvictName(cap: nat, log: Log)
    ensures Evict(cap, log).name == log.name && Evict(cap, log).unread == log.unread
    decreases |log.rows|
  {
    if |log.rows| > cap {
      EvictName(cap, log.(rows := log.rows[1..], ids := log.ids - {log.rows[0].id}));
    }
  }

  lemma {:induction false} AppendAllName(cap: nat, log: Log, ms: seq<Message>)
    ensures AppendAll(cap, log, ms).name == log.name && AppendAll(cap, log, ms).unread == log.unread
    decreases |ms|
  {
    if ms != [] {
      var l := AppendAll(cap, log, ms[..|ms| - 1]);
      AppendAllName(cap, log, ms[..|ms| - 1]);
      if !Refused(l, ms[|ms| - 1]) { EvictName(cap, Inserted(l, ms[|ms| - 1])); }
    }
  }

  lemma MergedLogGood(cap: nat, a: App, key: string, did: string)
    requires Inv(cap, a) && key in a.channels && key != did
    ensures var log := MergedLog(cap, a.channels, key, did);
      Valid(cap, log) && log.name == did
      && log.unread == SaturatingAdd(if did in a.channels then a.channels[did].unread else 0, a.channels[key].unread)
  {
    var into := if did in a.channels then a.channels[did] else EmptyLog(did);
    AbsorbKeepsValid(cap, into, a.channels[key]);
    AppendAllName(cap, AbsorbHead(into, a.channels[key]), a.channels[key].rows);
  }

  lemma FoldOrder(a: App, key: string, did: string, cap: nat)
    requires Lists(a.order, a.channels.Keys) && CaseDistinct(a.channels.Keys)
    requires key in a.channels && key != did
    ensures var b := Fold(cap, a, key, did);
      Lists(b.order, b.channels.Keys) && b.channels.Keys == a.channels.Keys - {key} + {did}
  {
    var order := Filter(a.order, n => !EqIgnoreCase(n, key));
    FilterElements(a.order, n => !EqIgnoreCase(n, key));
    FilterNoDuplicates(a.order, n => !EqIgnoreCase(n, key));
    forall n ensures n in order <==> n in a.channels.Keys - {key} {}
    if did !in order {
      AddNoDuplicates(order, did);
      PrefixElements(order, did);
    }
  }

  /** The nick's key leaves the list, a new DID comes last, and the others stay in order. */
  lemma FoldKeepsOrder(a: App, key: string, did: string, cap: nat)
    requires Lists(a.order, a.channels.Keys) && CaseDistinct(a.channels.Keys)
    requires key in a.channels && key != did
    ensures Fold(cap, a, key, did).order == Without(a.order, key) + (if did in a.channels then [] else [did])
  {
    FilterSame(a.order, n => !EqIgnoreCase(n, key), n => n != key);
    FilterElements(a.order, n => n != key);
  }

  lemma FoldDistinctIff(keys: set<string>, key: string, did: string)
    requires CaseDistinct(keys) && key in keys && !EqIgnoreCase(key, did)
    ensures CaseDistinct(keys - {key} + {did}) <==> Canonical(keys, did)
  {
    var after := keys - {key} + {did};
    if !Canonical(keys, did) {
      var k :| k in keys && EqIgnoreCase(k, did) && k != did;
      assert k in after && did in after;
    }
  }

  lemma FoldLogs(cap: nat, a: App, key: string, did: string)
    requires Inv(cap, a) && key in a.channels && key != did
    ensures var b := Fold(cap, a, key, did);
      && LogsGood(cap, b.channels)
      && (forall k | k in a.channels && k != key && k != did :: k in b.channels && b.channels[k] == a.channels[k])
  {
    MergedLogGood(cap, a, key, did);
  }

  /**
   Folding a thread keeps the directory in order exactly when the DID it goes to is not
   already listed in another spelling; the threads of everybody else are untouched, and a
   viewer of the folded thread now views the DID's.
   */
  lemma FoldKeepsInvIff(cap: nat, a: App, key: string, did: string)
    requires Inv(cap, a) && key in a.channels && !EqIgnoreCase(key, did)
    ensures var b := Fold(cap, a, key, did);
      && (Inv(cap, b) <==> Canonical(a.channels.Keys, did))
      && b.channels.Keys == a.channels.Keys - {key} + {did}
      && (forall k | k in a.channels && k != key && k != did :: k in b.channels && b.channels[k] == a.channels[k])
      && b.channels[did] == MergedLog(cap, a.channels, key, did)
      && (if a.active.Some? && EqIgnoreCase(a.active.value, key)
          then b.active == Some(did) && b.route == Chat(did) else b.active == a.active && b.route == a.route)
  {
    FoldOrder(a, key, did, cap);
    FoldLogs(cap, a, key, did);
    FoldDistinctIff(a.channels.Keys, key, did);
    assert RouteMatches(a.active, a.route);
  }

  /** Adopting an identity keeps the directory invariant when the DID is in canonical spelling. */
  lemma AdoptKeepsInv(cap: nat, a: App, nick: string, did: string)
    requires Inv(cap, a) && Canonical(a.channels.Keys, did)
    ensures Inv(cap, Adopt(cap, a, nick, did))
  {
    if Bindable(nick, did) {
      var b := Bind(a, nick, did);
      assert Inv(cap, b);
      if Folds(b, nick, did) {
        FoldKeepsInvIff(cap, b, FindKey(b.channels.Keys, nick).value, did);
      }
    }
  }

  lemma LeaveKeepsInv(cap: nat, a: App, channel: string)
    requires Inv(cap, a)
    ensures Inv(cap, Leave(a, channel)) && Leave(a, channel).channels.Keys == a.channels.Keys - {channel}
    ensures Leave(a, channel).order == Without(a.order, channel)
    ensures Leave(a, channel).active == if a.active == Some(channel) then None else a.active
    ensures forall k | k in a.channels && k != channel :: Leave(a, channel).channels[k] == a.channels[k]
  {
    FilterElements(a.order, n => n != channel);
    FilterNoDuplicates(a.order, n => n != channel);
  }

  lemma AppendToKeepsInv(cap: nat, a: App, name: string, m: Message)
    requires Inv(cap, a)
    ensures Inv(cap, AppendTo(cap, a, name, m))
    ensures AppendTo(cap, a, name, m).channels.Keys == EnsureBuffer(a, name).channels.Keys
  {
    EnsureKeepsInv(cap, a, name);
    var b := EnsureBuffer(a, name);
    var k := FindKey(b.channels.Keys, name).value;
    AppendKeepsValid(cap, b.channels[k], m);
    NamesKept(cap, b.channels[k], m);
    SetLogKeepsInv(cap, b, k, Append(cap, b.channels[k], m));
  }

  lemma AnnounceKeepsInv(cap: nat, a: App, rename: Option<string>, notices: map<string, Message>)
    requires Inv(cap, a)
    ensures var b := Announce(cap, a, rename, notices);
      && Inv(cap, b) && b.channels.Keys == a.channels.Keys
      && (forall k | k in a.channels :: b.channels[k].unread == a.channels[k].unread)
  {
    var b := Announce(cap, a, rename, notices);
    forall k | k in a.channels
      ensures b.channels[k].name == k && Valid(cap, b.channels[k]) && b.channels[k].unread == a.channels[k].unread
    {
      if k in notices {
        AppendKeepsValid(cap, a.channels[k], notices[k]);
        AppendAllName(cap, a.channels[k], [notices[k]]);
        assert [notices[k]][..0] == [];
      }
    }
  }

  lemma RefreshKeepsInv(cap: nat, a: App, channel: string)
    requires Inv(cap, a)
    ensures Inv(cap, Refresh(a, channel)) && Refresh(a, channel).channels.Keys == a.channels.Keys
  {
    var k := FindKey(a.channels.Keys, channel);
    if k.Some? { SetLogKeepsInv(cap, a, k.value, a.channels[k.value].(unread := Count(a, channel))); }
  }

  lemma ShowReadKeepsInv(cap: nat, b: App, key: string, now: int)
    requires Inv(cap, b)
    ensures Inv(cap, ShowRead(b, key, now)) && ShowRead(b, key, now).channels.Keys == b.channels.Keys
  {
    var c := b.(active := Some(key), route := Chat(key), store := MarkRead(b.store, ChannelOf(Account(b), key), now));
    assert Inv(cap, c);
    if key in c.channels { SetLogKeepsInv(cap, c, key, c.channels[key].(unread := Count(c, key))); }
  }
}
