/** Profile pictures by nick: which lookups are sent out, and that none is sent twice. */
module FetchOnce {
  import opened Text
  import opened Seqs

  // ---- trimming --------------------------------------------------------------------------

  function TrimStart(s: string): string {
    if s != "" && IsSpace(s[0]) then TrimStart(s[1..]) else s
  }

  function TrimEnd(s: string): string {
    if s != "" && IsSpace(s[|s| - 1]) then TrimEnd(s[..|s| - 1]) else s
  }

  function Trim(s: string): string {
    TrimEnd(TrimStart(s))
  }

  function DropAts(s: string): string {
    if s != "" && s[0] == '@' then DropAts(s[1..]) else s
  }

  predicate IsSlice(part: string, s: string) {
    exists i, j | 0 <= i <= j <= |s| :: s[i..j] == part
  }

  lemma {:induction false} TrimStartIsSuffix(s: string)
    ensures |TrimStart(s)| <= |s| && TrimStart(s) == s[|s| - |TrimStart(s)|..]
  {
    if s != "" && IsSpace(s[0]) { TrimStartIsSuffix(s[1..]); }
  }

  lemma {:induction false} DropAtsIsSuffix(s: string)
    ensures |DropAts(s)| <= |s| && DropAts(s) == s[|s| - |DropAts(s)|..]
  {
    if s != "" && s[0] == '@' { DropAtsIsSuffix(s[1..]); }
  }

  lemma {:induction false} TrimEndIsPrefix(s: string)
    ensures |TrimEnd(s)| <= |s| && TrimEnd(s) == s[..|TrimEnd(s)|]
    decreases |s|
  {
    if s != "" && IsSpace(s[|s| - 1]) { TrimEndIsPrefix(s[..|s| - 1]); }
  }

  // ---- who to ask about a nick -----------------------------------------------------------

  predicate IsAtprotoDid(did: string) {
    StartsWith(Trim(did), "did:plc:") || StartsWith(Trim(did), "did:web:")
  }

  /** The position behind the last dot; 0 without one. */
  function AfterLastDot(s: string): (k: nat)
    ensures k <= |s| && '.' !in s[k..] && (k > 0 ==> s[k - 1] == '.')
  {
    if s == "" then 0 else if s[|s| - 1] == '.' then |s| else AfterLastDot(s[..|s| - 1])
  }

  /** A domain-shaped name. (Only ASCII passes, so its length in bytes is its length.) */
  predicate LooksLikeHandle(nick: string) {
    var n := DropAts(Trim(nick));
    var k := AfterLastDot(n);
    && 1 < k < |n| <= 253
    && (forall i | k <= i < |n| :: IsAlnum(n[i]))
    && (forall i | 0 <= i < |n| :: IsAlnum(n[i]) || n[i] == '.' || n[i] == '-')
  }

  /** The account to look up: a verified identity first, else a nick that is itself a handle. */
  function ResolveActor(nick: string, did: Option<string>): Option<string> {
    if did.Some? && IsAtprotoDid(Trim(did.value)) then Some(Trim(did.value))
    else
      var n := DropAts(Trim(nick));
      if LooksLikeHandle(n) then Some(n) else None
  }

  lemma CleanIsSlice(s: string) returns (i: nat, j: nat)
    ensures i <= j <= |s| && DropAts(Trim(s)) == s[i..j]
  {
    TrimStartIsSuffix(s);
    TrimEndIsPrefix(TrimStart(s));
    DropAtsIsSuffix(Trim(s));
    j := |s| - |TrimStart(s)| + |Trim(s)|;
    i := j - |DropAts(Trim(s))|;
    assert Trim(s) == s[|s| - |TrimStart(s)|..j];
  }

  /** No account is invented from a bare nick: it is the identity given, or cut out of the nick. */
  lemma ActorIsNeverInvented(nick: string, did: Option<string>)
    ensures var a := ResolveActor(nick, did);
      a.Some? ==> (did.Some? && a.value == Trim(did.value) && IsAtprotoDid(a.value))
                  || (IsSlice(a.value, nick) && '.' in a.value)
  {
    var i, j := CleanIsSlice(nick);
    var n := DropAts(Trim(nick));
    var i', j' := CleanIsSlice(n);
    var inner := DropAts(Trim(n));
    var k := AfterLastDot(inner);
    if k > 0 { assert n[i' + k - 1] == '.'; }
  }

  // ---- the cache -------------------------------------------------------------------------

  datatype Fetch = Fetch(nick: string, actor: string)

  datatype Cache = Cache(urls: map<string, string>, pending: set<string>, settled: set<string>, queue: seq<Fetch>)

  const EMPTY := Cache(map[], {}, {}, [])

  datatype Profile = Profile(handle: string, avatar: Option<string>)

  /** The keys never asked about again. */
  function Known(c: Cache): set<string> {
    c.urls.Keys + c.pending + c.settled
  }

  function NickKey(nick: string): string {
    ToLowercase(Trim(nick))
  }

  function Prefetch(c: Cache, nick: string, did: Option<string>): Cache {
    var key := NickKey(nick);
    if key == "" || StartsWith(key, "guest") || StartsWith(key, "web") then c
    else if key in c.urls || key in c.pending || key in c.settled then c
    else
      var actor := ResolveActor(nick, did);
      if actor.None? then c
      else c.(pending := c.pending + {key}, queue := c.queue + [Fetch(Trim(nick), actor.value)])
  }

  /** The answer to a lookup: a profile, or nothing when it failed. */
  function Apply(c: Cache, nick: string, result: Option<Profile>): Cache {
    var key := ToLowercase(nick);
    var d := c.(pending := c.pending - {key});
    if result.None? || result.value.avatar.None? || Trim(result.value.avatar.value) == "" then
      d.(settled := d.settled + {key})
    else
      var url, handle := Trim(result.value.avatar.value), DropAts(Trim(result.value.handle));
      var urls := d.urls[key := url];
      d.(urls := if handle != "" && ToLowercase(handle) != key then urls[ToLowercase(handle) := url] else urls,
         settled := d.settled - {key})
  }

  function Seed(c: Cache, nick: string, avatar: string): Cache {
    var key, url := ToLowercase(nick), Trim(avatar);
    if url == "" then c
    else c.(urls := c.urls[key := url], pending := c.pending - {key}, settled := c.settled - {key})
  }

  function AvatarUrl(c: Cache, nick: string): Option<string> {
    if ToLowercase(nick) in c.urls then Some(c.urls[ToLowercase(nick)]) else None
  }

  /** A picture that was found is shown for the nick in any case, and for the profile's handle. */
  lemma FoundPictureIsShown(c: Cache, nick: string, profile: Profile, asked: string)
    requires profile.avatar.Some? && Trim(profile.avatar.value) != ""
    requires ToLowercase(asked) == ToLowercase(nick) || (asked != "" && asked == DropAts(Trim(profile.handle)))
    ensures AvatarUrl(Apply(c, nick, Some(profile)), asked) == Some(Trim(profile.avatar.value))
  {
  }

  // ---- whole runs ------------------------------------------------------------------------

  datatype Op =
    | OpPrefetch(nick: string, did: Option<string>)
    | OpDrain
    | OpApply(nick: string, result: Option<Profile>)
    | OpSeed(nick: string, avatar: string)

  /** The cache, and all batches drained so far, one after another. */
  datatype Trace = Trace(cache: Cache, sent: seq<Fetch>)

  function Step(t: Trace, op: Op): Trace {
    match op
    case OpPrefetch(nick, did) => t.(cache := Prefetch(t.cache, nick, did))
    case OpDrain => Trace(t.cache.(queue := []), t.sent + t.cache.queue)
    case OpApply(nick, result) => t.(cache := Apply(t.cache, nick, result))
    case OpSeed(nick, avatar) => t.(cache := Seed(t.cache, nick, avatar))
  }

  function Run(t: Trace, ops: seq<Op>): Trace
    decreases |ops|
  {
    if ops == [] then t else Run(Step(t, ops[0]), ops[1..])
  }

  /** The key an operation answers, if any. */
  function Answers(op: Op): set<string> {
    if op.OpApply? || (op.OpSeed? && Trim(op.avatar) != "") then {ToLowercase(op.nick)} else {}
  }

  function AllAnswers(ops: seq<Op>): set<string> {
    if ops == [] then {} else Answers(ops[0]) + AllAnswers(ops[1..])
  }

  /** Every lookup asked for, sent out or still queued, by nick key. */
  function Asked(t: Trace): seq<string> {
    var all := t.sent + t.cache.queue;
    seq(|all|, i requires 0 <= i < |all| => ToLowercase(all[i].nick))
  }

  /** A set's elements listed once each. */
  ghost predicate Lists(s: seq<string>, keys: set<string>) {
    NoDuplicates(s) && forall k :: k in s <==> k in keys
  }

  /** With `asked` and `answered` the keys asked for and answered so far. */
  ghost predicate Accounted(t: Trace, asked: set<string>, answered: set<string>) {
    && Lists(Asked(t), asked)
    && t.cache.pending == asked - answered
    && asked + answered <= Known(t.cache)
  }

  /** The keys an operation may bring another picture for. */
  function Paints(op: Op): set<string> {
    match op
    case OpApply(nick, Some(profile)) => {ToLowercase(nick), ToLowercase(DropAts(Trim(profile.handle)))}
    case OpSeed(nick, _) => {ToLowercase(nick)}
    case _ => {}
  }

  lemma {:induction false} PictureStays(t: Trace, ops: seq<Op>, key: string)
    requires key in t.cache.urls && forall op | op in ops :: key !in Paints(op)
    ensures key in Run(t, ops).cache.urls && Run(t, ops).cache.urls[key] == t.cache.urls[key]
    decreases |ops|
  {
    if ops != [] {
      assert ops[0] in ops && forall op | op in ops[1..] :: op in ops;
      PictureStays(Step(t, ops[0]), ops[1..], key);
    }
  }

  /**
   A picture that was found is shown for the nick in any case and for the profile's handle, through every
   later run that brings no other in its place: failed lookups and profiles without a picture take none away.
   */
  lemma FoundPictureStays(t: Trace, nick: string, profile: Profile, ops: seq<Op>, asked: string)
    requires profile.avatar.Some? && Trim(profile.avatar.value) != ""
    requires ToLowercase(asked) == ToLowercase(nick) || (asked != "" && asked == DropAts(Trim(profile.handle)))
    requires forall op | op in ops :: ToLowercase(asked) !in Paints(op)
    ensures AvatarUrl(Run(Step(t, OpApply(nick, Some(profile))), ops).cache, asked)
            == Some(Trim(profile.avatar.value))
  {
    FoundPictureIsShown(t.cache, nick, profile, asked);
    PictureStays(Step(t, OpApply(nick, Some(profile))), ops, ToLowercase(asked));
  }

  /** What is known stays known. */
  lemma KnownNeverShrinks(t: Trace, op: Op)
    ensures Known(t.cache) <= Known(Step(t, op).cache)
  {
  }

  /** The same for a picture seeded from an open profile, unless it names none. */
  lemma SeededPictureStays(t: Trace, nick: string, avatar: string, ops: seq<Op>, asked: string)
    requires Trim(avatar) != "" && ToLowercase(asked) == ToLowercase(nick)
    requires forall op | op in ops :: ToLowercase(asked) !in Paints(op)
    ensures AvatarUrl(Run(Step(t, OpSeed(nick, avatar)), ops).cache, asked) == Some(Trim(avatar))
  {
    PictureStays(Step(t, OpSeed(nick, avatar)), ops, ToLowercase(asked));
  }

  lemma ListsMore(s: seq<string>, keys: set<string>, k: string)
    requires Lists(s, keys) && k !in keys
    ensures Lists(s + [k], keys + {k})
  {
    AddNoDuplicates(s, k);
    PrefixElements(s, k);
  }

  lemma PrefetchAccounted(t: Trace, nick: string, did: Option<string>, asked: set<string>, answered: set<string>)
    returns (asked': set<string>)
    requires Accounted(t, asked, answered)
    ensures Accounted(Step(t, OpPrefetch(nick, did)), asked', answered)
  {
    var u := Step(t, OpPrefetch(nick, did));
    asked' := asked;
    if u != t {
      var key := NickKey(nick);
      asked' := asked + {key};
      assert Asked(u) == Asked(t) + [key];
      ListsMore(Asked(t), asked, key);
    }
  }

  lemma StepAccounted(t: Trace, op: Op, asked: set<string>, answered: set<string>) returns (asked': set<string>)
    requires Accounted(t, asked, answered)
    ensures Accounted(Step(t, op), asked', answered + Answers(op))
  {
    KnownNeverShrinks(t, op);
    asked' := asked;
    if op.OpPrefetch? {
      asked' := PrefetchAccounted(t, op.nick, op.did, asked, answered);
      assert answered + {} == answered;
    } else {
      assert Step(t, op).sent + Step(t, op).cache.queue == t.sent + t.cache.queue;
      assert Asked(Step(t, op)) == Asked(t);
    }
  }

  lemma {:induction false} RunAccounted(t: Trace, ops: seq<Op>, asked: set<string>, answered: set<string>)
    returns (asked': set<string>)
    requires Accounted(t, asked, answered)
    ensures Accounted(Run(t, ops), asked', answered + AllAnswers(ops))
    decreases |ops|
  {
    asked' := asked;
    if ops != [] {
      asked' := StepAccounted(t, ops[0], asked, answered);
      asked' := RunAccounted(Step(t, ops[0]), ops[1..], asked', answered + Answers(ops[0]));
      assert answered + AllAnswers(ops) == answered + Answers(ops[0]) + AllAnswers(ops[1..]);
    } else {
      assert answered + AllAnswers(ops) == answered;
    }
  }

  /**
   From an empty cache, over any run: all batches drained and the queue together ask about each nick
   key at most once, and the keys in flight are exactly those asked about and not yet answered.
   */
  lemma AskedAtMostOnce(ops: seq<Op>)
    ensures var t := Run(Trace(EMPTY, []), ops);
      && NoDuplicates(Asked(t))
      && (forall k :: k in t.cache.pending <==> k in Asked(t) && k !in AllAnswers(ops))
  {
    var t := Trace(EMPTY, []);
    var asked := RunAccounted(t, ops, {}, {});
    assert {} + AllAnswers(ops) == AllAnswers(ops);
  }

  /** Draining sends everything that was queued, in order, and empties the queue. */
  lemma DrainSendsAll(t: Trace)
    ensures var u := Step(t, OpDrain);
      && u.sent == t.sent + t.cache.queue && u.cache.queue == [] && Known(u.cache) == Known(t.cache)
      && u.cache.urls == t.cache.urls
  {
  }

  // ---- what is asked ---------------------------------------------------------------------

  /** Some prefetch of the run asks for this nick and resolves to this account. */
  predicate Justified(f: Fetch, ops: seq<Op>) {
    exists i | 0 <= i < |ops| ::
      ops[i].OpPrefetch? && f.nick == Trim(ops[i].nick) && ResolveActor(ops[i].nick, ops[i].did) == Some(f.actor)
  }

  /** Every lookup sent or queued was there before or is justified by a prefetch of the run. */
  lemma {:induction false} LookupsAreJustified(t: Trace, ops: seq<Op>, f: Fetch)
    requires f in Run(t, ops).sent + Run(t, ops).cache.queue
    ensures f in t.sent + t.cache.queue || Justified(f, ops)
    decreases |ops|
  {
    if ops != [] {
      var u, rest := Step(t, ops[0]), ops[1..];
      LookupsAreJustified(u, rest, f);
      if f in u.sent + u.cache.queue {
        if f !in t.sent + t.cache.queue {
          NewLookup(t, ops[0], f);
          assert Justified(f, ops);
        }
      } else {
        var i :| 0 <= i < |rest| && rest[i].OpPrefetch? && f.nick == Trim(rest[i].nick)
                 && ResolveActor(rest[i].nick, rest[i].did) == Some(f.actor);
        assert ops[i + 1] == rest[i];
      }
    }
  }

  lemma NewLookup(t: Trace, op: Op, f: Fetch)
    requires f in Step(t, op).sent + Step(t, op).cache.queue && f !in t.sent + t.cache.queue
    ensures op.OpPrefetch? && f.nick == Trim(op.nick) && ResolveActor(op.nick, op.did) == Some(f.actor)
  {
    var u := Step(t, op);
    if op.OpPrefetch? && u.cache.queue != t.cache.queue {
      PrefixElements(t.cache.queue, u.cache.queue[|t.cache.queue|]);
    }
  }

  /** The prefetch asks for the owner of the nick: a verified identity, or a dotted name cut out of the nick. */
  ghost predicate AsksForOwner(op: Op, f: Fetch) {
    && op.OpPrefetch? && f.nick == Trim(op.nick)
    && (if op.did.Some? && IsAtprotoDid(Trim(op.did.value)) then f.actor == Trim(op.did.value)
        else IsSlice(f.actor, op.nick) && '.' in f.actor)
  }

  /** In every run, every lookup asks for the owner of its nick as some prefetch named it. */
  lemma LookupsAskForTheOwner(ops: seq<Op>, f: Fetch)
    requires f in Run(Trace(EMPTY, []), ops).sent + Run(Trace(EMPTY, []), ops).cache.queue
    ensures exists i | 0 <= i < |ops| :: AsksForOwner(ops[i], f)
  {
    LookupsAreJustified(Trace(EMPTY, []), ops, f);
    var i :| 0 <= i < |ops| && ops[i].OpPrefetch? && f.nick == Trim(ops[i].nick)
             && ResolveActor(ops[i].nick, ops[i].did) == Some(f.actor);
    ActorIsNeverInvented(ops[i].nick, ops[i].did);
    assert AsksForOwner(ops[i], f);
  }

  /** A verified identity is always asked for, whatever the nick. */
  lemma IdentityIsUsed(nick: string, did: string)
    requires StartsWith(did, "did:plc:") || StartsWith(did, "did:web:")
    requires !IsSpace(did[|did| - 1])
    ensures ResolveActor(nick, Some(did)) == Some(did)
  {
    assert did[0] == 'd' by {
      assert StartsWith(did, "did:plc:") ==> did[..8][0] == 'd';
      assert StartsWith(did, "did:web:") ==> did[..8][0] == 'd';
    }
  }

  predicate AllAlnum(s: string) {
    s != "" && forall i | 0 <= i < |s| :: IsAlnum(s[i])
  }

  lemma CleanStays(s: string)
    requires s != "" && IsAlnum(s[0]) && IsAlnum(s[|s| - 1])
    ensures Trim(s) == s && DropAts(s) == s
  {
  }

  lemma OneDot(host: string, top: string)
    requires AllAlnum(host) && AllAlnum(top)
    ensures AfterLastDot(host + "." + top) == |host| + 1
  {
    var n := host + "." + top;
    assert n[|host|] == '.';
    NoDotBehind(n, |host|);
  }

  lemma NoDotBehind(s: string, i: nat)
    requires i < |s| && s[i] == '.'
    ensures i < AfterLastDot(s)
  {
    var k := AfterLastDot(s);
    assert forall j | k <= j < |s| :: s[j] == s[k..][j - k];
  }

  /** Without one, a nick that is a domain name is asked for as it is. */
  lemma HandleIsUsed(host: string, top: string)
    requires AllAlnum(host) && AllAlnum(top) && |host| + |top| < 253
    ensures ResolveActor(host + "." + top, None) == Some(host + "." + top)
  {
    var n := host + "." + top;
    assert n[0] == host[0] && n[|n| - 1] == top[|top| - 1];
    CleanStays(n);
    OneDot(host, top);
    assert forall i | 0 <= i < |n| ::
      n[i] == if i < |host| then host[i] else if i == |host| then '.' else top[i - |host| - 1];
    assert LooksLikeHandle(n);
  }

  /** A nick without a dot tells no account. */
  lemma BareNickTellsNothing(nick: string)
    requires '.' !in nick
    ensures ResolveActor(nick, None) == None
  {
    ActorIsNeverInvented(nick, None);
  }

  /** Trimming takes white space only, from the ends only, and all of it. */
  lemma TrimIs(s: string)
    ensures |TrimStart(s)| <= |s|
    ensures var i := |s| - |TrimStart(s)|; var j := i + |Trim(s)|;
      && i <= j <= |s| && Trim(s) == s[i..j]
      && (forall k | 0 <= k < i || j <= k < |s| :: IsSpace(s[k]))
      && (Trim(s) != "" ==> !IsSpace(Trim(s)[0]) && !IsSpace(Trim(s)[|Trim(s)| - 1]))
  {
    TrimStartIsSuffix(s);
    TrimEndIsPrefix(TrimStart(s));
    TrimStartTakesSpace(s);
    TrimEndTakesSpace(TrimStart(s));
  }

  /** Leading `@` signs are dropped, all of them and nothing else. */
  lemma {:induction false} DropAtsIs(s: string)
    ensures var i := |s| - |DropAts(s)|;
      && 0 <= i <= |s| && DropAts(s) == s[i..] && (forall k | 0 <= k < i :: s[k] == '@')
      && (DropAts(s) != "" ==> DropAts(s)[0] != '@')
  {
    if s != "" && s[0] == '@' { DropAtsIs(s[1..]); }
  }

  lemma {:induction false} TrimStartTakesSpace(s: string)
    ensures |TrimStart(s)| <= |s| && forall k | 0 <= k < |s| - |TrimStart(s)| :: IsSpace(s[k])
    ensures TrimStart(s) != "" ==> !IsSpace(TrimStart(s)[0])
  {
    if s != "" && IsSpace(s[0]) { TrimStartTakesSpace(s[1..]); }
  }

  lemma {:induction false} TrimEndTakesSpace(s: string)
    ensures |TrimEnd(s)| <= |s| && forall k | |TrimEnd(s)| <= k < |s| :: IsSpace(s[k])
    ensures TrimEnd(s) != "" ==> !IsSpace(TrimEnd(s)[|TrimEnd(s)| - 1])
    decreases |s|
  {
    if s != "" && IsSpace(s[|s| - 1]) { TrimEndTakesSpace(s[..|s| - 1]); }
  }

  // ---- which nicks are asked about -------------------------------------------------------

  /** A prefetch of this nick, named and no guest, with an account to ask about. */
  predicate Asks(op: Op, key: string) {
    && op.OpPrefetch? && NickKey(op.nick) == key
    && key != "" && !StartsWith(key, "guest") && !StartsWith(key, "web")
    && ResolveActor(op.nick, op.did).Some?
  }

  /** The keys an answer or a seed makes known, the profile's handle included. */
  function Introduces(op: Op): set<string> {
    match op
    case OpApply(nick, Some(profile)) =>
      var handle := DropAts(Trim(profile.handle));
      {ToLowercase(nick)} +
      if profile.avatar.Some? && Trim(profile.avatar.value) != "" && handle != "" then {ToLowercase(handle)} else {}
    case OpApply(nick, None) => {ToLowercase(nick)}
    case OpSeed(nick, avatar) => if Trim(avatar) != "" then {ToLowercase(nick)} else {}
    case _ => {}
  }

  /** Some prefetch can ask about the key before anything makes it known. */
  predicate AskedFirst(ops: seq<Op>, key: string) {
    exists j | 0 <= j < |ops| :: Asks(ops[j], key) && forall i | 0 <= i < j :: key !in Introduces(ops[i])
  }

  lemma AskedFirstUnfold(ops: seq<Op>, key: string)
    requires ops != []
    ensures AskedFirst(ops, key) <==>
      Asks(ops[0], key) || (key !in Introduces(ops[0]) && AskedFirst(ops[1..], key))
  {
    var rest := ops[1..];
    if AskedFirst(ops, key) && !Asks(ops[0], key) {
      var j :| 0 <= j < |ops| && Asks(ops[j], key) && forall i | 0 <= i < j :: key !in Introduces(ops[i]);
      assert Asks(rest[j - 1], key) && forall i | 0 <= i < j - 1 :: rest[i] == ops[i + 1];
    }
    if key !in Introduces(ops[0]) && AskedFirst(rest, key) {
      var j :| 0 <= j < |rest| && Asks(rest[j], key) && forall i | 0 <= i < j :: key !in Introduces(rest[i]);
      assert Asks(ops[j + 1], key) && forall i | 0 <= i < j + 1 :: ops[i] == if i == 0 then ops[0] else rest[i - 1];
    }
  }

  /** What one operation makes known, and what it asks about. */
  lemma StepKnows(t: Trace, op: Op, key: string)
    ensures var u := Step(t, op);
      && (key in Known(u.cache) <==> key in Known(t.cache) || key in Introduces(op) || Asks(op, key))
      && (key in Asked(u) <==> key in Asked(t) || (key !in Known(t.cache) && Asks(op, key)))
  {
    var u := Step(t, op);
    if op.OpPrefetch? && u != t {
      assert Asked(u) == Asked(t) + [NickKey(op.nick)];
      PrefixElements(Asked(t), NickKey(op.nick));
    } else {
      assert u.sent + u.cache.queue == t.sent + t.cache.queue;
      assert Asked(u) == Asked(t);
    }
  }

  lemma {:induction false} AskedFromIff(t: Trace, ops: seq<Op>, key: string)
    ensures key in Asked(Run(t, ops)) <==> key in Asked(t) || (key !in Known(t.cache) && AskedFirst(ops, key))
    decreases |ops|
  {
    if ops != [] {
      AskedFirstUnfold(ops, key);
      StepKnows(t, ops[0], key);
      AskedFromIff(Step(t, ops[0]), ops[1..], key);
    }
  }

  /**
   Over any run from an empty cache a nick is asked about once if some prefetch with an account comes
   before every answer that makes it known, and never otherwise. Prefetches that found no account do
   not count, so an identity that arrives later is not pre-empted.
   */
  lemma AskedOnceIff(ops: seq<Op>, key: string)
    ensures multiset(Asked(Run(Trace(EMPTY, []), ops)))[key] == if AskedFirst(ops, key) then 1 else 0
  {
    var keys := Asked(Run(Trace(EMPTY, []), ops));
    AskedAtMostOnce(ops);
    AskedFromIff(Trace(EMPTY, []), ops, key);
    CountOnce(keys, key);
  }

  lemma {:induction false} CountOnce(s: seq<string>, x: string)
    requires NoDuplicates(s)
    ensures multiset(s)[x] == if x in s then 1 else 0
    decreases |s|
  {
    if s != [] {
      var init, last := s[..|s| - 1], s[|s| - 1];
      assert s == init + [last];
      CountOnce(init, x);
      PrefixElements(init, last);
      assert last !in init;
    }
  }
}
