/** Previews of linked media: every picture, full picture, video and link card is requested once. */
module MediaFetch {
  import opened Text
  import opened Seqs

  datatype Kind = Image | FullImage | Video | LinkCard

  datatype Fetch = Fetch(kind: Kind, url: string)

  datatype Load<+T> = Loading | Ready(content: T) | Failed

  datatype Meta = Meta(title: Option<string>, description: Option<string>, thumb: Option<string>)

  datatype Media = Media(
    images: map<string, Load<string>>,
    fullImages: map<string, Load<string>>,
    videos: map<string, Load<string>>,
    links: map<string, Load<Meta>>,
    pending: seq<Fetch>)

  const EMPTY := Media(map[], map[], map[], map[], [])

  datatype Status = Unknown | InFlight | Done

  function StatusIn<T>(m: map<string, Load<T>>, url: string): Status {
    if url !in m then Unknown else if m[url].Loading? then InFlight else Done
  }

  function StatusOf(c: Media, f: Fetch): Status {
    match f.kind
    case Image => StatusIn(c.images, f.url)
    case FullImage => StatusIn(c.fullImages, f.url)
    case Video => StatusIn(c.videos, f.url)
    case LinkCard => StatusIn(c.links, f.url)
  }

  predicate IsHttp(url: string) {
    StartsWith(url, "https://") || StartsWith(url, "http://")
  }

  /** Ask for a resource unless its state is already known. */
  function Touch(c: Media, f: Fetch): Media {
    if !IsHttp(f.url) || StatusOf(c, f) != Unknown then c
    else
      var d := c.(pending := c.pending + [f]);
      match f.kind
      case Image => d.(images := c.images[f.url := Loading])
      case FullImage => d.(fullImages := c.fullImages[f.url := Loading])
      case Video => d.(videos := c.videos[f.url := Loading])
      case LinkCard => d.(links := c.links[f.url := Loading])
  }

  function TouchThumb(c: Media, meta: Meta): Media {
    if meta.thumb.Some? then Touch(c, Fetch(Image, meta.thumb.value)) else c
  }

  /** A link card that says something is kept over a later one. */
  predicate Telling(c: Media, url: string) {
    url in c.links && c.links[url].Ready? &&
    (c.links[url].content.title.Some? || c.links[url].content.description.Some?)
  }

  function SeedLink(c: Media, url: string, meta: Meta): Media {
    if url == "" || Telling(c, url) then c else SetLink(c, url, meta)
  }

  function SetLink(c: Media, url: string, meta: Meta): Media {
    var d := TouchThumb(c, meta);
    d.(links := d.links[url := Ready(meta)])
  }

  function SetImage(c: Media, url: string, content: string): Media {
    c.(images := c.images[url := Ready(content)])
  }

  function SetFullImage(c: Media, url: string, content: string): Media {
    c.(fullImages := c.fullImages[url := Ready(content)])
  }

  function SetVideo(c: Media, url: string, content: string): Media {
    c.(videos := c.videos[url := Ready(content)])
  }

  function SetFailed(c: Media, f: Fetch): Media {
    match f.kind
    case Image => c.(images := c.images[f.url := Failed])
    case FullImage => c.(fullImages := c.fullImages[f.url := Failed])
    case Video => c.(videos := c.videos[f.url := Failed])
    case LinkCard => c.(links := c.links[f.url := Failed])
  }

  /** Something is still on its way. */
  predicate HasLoading(c: Media) {
    || (exists u | u in c.images :: c.images[u].Loading?)
    || (exists u | u in c.fullImages :: c.fullImages[u].Loading?)
    || (exists u | u in c.videos :: c.videos[u].Loading?)
    || (exists u | u in c.links :: c.links[u].Loading?)
  }

  // ---- whole runs ------------------------------------------------------------------------

  datatype Op =
    | OpTouch(f: Fetch)
    | OpSeedLink(url: string, meta: Meta)
    | OpSetImage(url: string, content: string)
    | OpSetFullImage(url: string, content: string)
    | OpSetVideo(url: string, content: string)
    | OpSetLink(url: string, meta: Meta)
    | OpSetFailed(f: Fetch)
    | OpDrain

  datatype Trace = Trace(cache: Media, sent: seq<Fetch>)

  function Step(t: Trace, op: Op): Trace {
    match op
    case OpTouch(f) => t.(cache := Touch(t.cache, f))
    case OpSeedLink(url, meta) => t.(cache := SeedLink(t.cache, url, meta))
    case OpSetImage(url, content) => t.(cache := SetImage(t.cache, url, content))
    case OpSetFullImage(url, content) => t.(cache := SetFullImage(t.cache, url, content))
    case OpSetVideo(url, content) => t.(cache := SetVideo(t.cache, url, content))
    case OpSetLink(url, meta) => t.(cache := SetLink(t.cache, url, meta))
    case OpSetFailed(f) => t.(cache := SetFailed(t.cache, f))
    case OpDrain => Trace(t.cache.(pending := []), t.sent + t.cache.pending)
  }

  function Run(t: Trace, ops: seq<Op>): Trace
    decreases |ops|
  {
    if ops == [] then t else Run(Step(t, ops[0]), ops[1..])
  }

  /** The resource an operation answers, if any. */
  function Answers(op: Op): set<Fetch> {
    match op
    case OpSeedLink(url, _) => if url == "" then {} else {Fetch(LinkCard, url)}
    case OpSetImage(url, _) => {Fetch(Image, url)}
    case OpSetFullImage(url, _) => {Fetch(FullImage, url)}
    case OpSetVideo(url, _) => {Fetch(Video, url)}
    case OpSetLink(url, _) => {Fetch(LinkCard, url)}
    case OpSetFailed(f) => {f}
    case _ => {}
  }

  function AllAnswers(ops: seq<Op>): set<Fetch> {
    if ops == [] then {} else Answers(ops[0]) + AllAnswers(ops[1..])
  }

  /** Every request made so far, sent out or still queued. */
  function Asked(t: Trace): seq<Fetch> {
    t.sent + t.cache.pending
  }

  ghost predicate Accounted(t: Trace, answered: set<Fetch>) {
    && NoDuplicates(Asked(t))
    && (forall f | f in answered :: StatusOf(t.cache, f) == Done)
    && (forall f :: StatusOf(t.cache, f) != Unknown <==> f in Asked(t) || f in answered)
    && (forall f :: StatusOf(t.cache, f) == InFlight <==> f in Asked(t) && f !in answered)
  }

  /** Only the status of `f` changes, to `now`. */
  ghost predicate Becomes(c: Media, d: Media, f: Fetch, now: Status) {
    forall g :: StatusOf(d, g) == if g == f then now else StatusOf(c, g)
  }

  function StatusAs<T>(load: Load<T>): Status {
    if load.Loading? then InFlight else Done
  }

  lemma ImageBecomes(c: Media, url: string, load: Load<string>, pending: seq<Fetch>)
    ensures Becomes(c, c.(images := c.images[url := load], pending := pending), Fetch(Image, url), StatusAs(load))
  {
  }

  lemma FullImageBecomes(c: Media, url: string, load: Load<string>, pending: seq<Fetch>)
    ensures Becomes(c, c.(fullImages := c.fullImages[url := load], pending := pending),
                    Fetch(FullImage, url), StatusAs(load))
  {
  }

  lemma VideoBecomes(c: Media, url: string, load: Load<string>, pending: seq<Fetch>)
    ensures Becomes(c, c.(videos := c.videos[url := load], pending := pending), Fetch(Video, url), StatusAs(load))
  {
  }

  lemma LinkBecomes(c: Media, url: string, load: Load<Meta>, pending: seq<Fetch>)
    ensures Becomes(c, c.(links := c.links[url := load], pending := pending), Fetch(LinkCard, url), StatusAs(load))
  {
  }

  lemma TouchBecomes(c: Media, f: Fetch)
    requires IsHttp(f.url) && StatusOf(c, f) == Unknown
    ensures Becomes(c, Touch(c, f), f, InFlight) && Touch(c, f).pending == c.pending + [f]
  {
    match f.kind
    case Image => ImageBecomes(c, f.url, Loading, c.pending + [f]);
    case FullImage => FullImageBecomes(c, f.url, Loading, c.pending + [f]);
    case Video => VideoBecomes(c, f.url, Loading, c.pending + [f]);
    case LinkCard => LinkBecomes(c, f.url, Loading, c.pending + [f]);
  }

  lemma SetFailedBecomes(c: Media, f: Fetch)
    ensures Becomes(c, SetFailed(c, f), f, Done)
  {
    match f.kind
    case Image => ImageBecomes(c, f.url, Failed, c.pending);
    case FullImage => FullImageBecomes(c, f.url, Failed, c.pending);
    case Video => VideoBecomes(c, f.url, Failed, c.pending);
    case LinkCard => LinkBecomes(c, f.url, Failed, c.pending);
  }

  lemma AskedOne(t: Trace, u: Trace, f: Fetch, answered: set<Fetch>)
    requires Accounted(t, answered) && StatusOf(t.cache, f) == Unknown
    requires Becomes(t.cache, u.cache, f, InFlight) && Asked(u) == Asked(t) + [f]
    ensures Accounted(u, answered)
  {
    AddNoDuplicates(Asked(t), f);
    PrefixElements(Asked(t), f);
  }

  lemma AnsweredOne(t: Trace, u: Trace, f: Fetch, answered: set<Fetch>)
    requires Accounted(t, answered) && Becomes(t.cache, u.cache, f, Done) && Asked(u) == Asked(t)
    ensures Accounted(u, answered + {f})
  {
  }

  lemma TouchAccounted(t: Trace, f: Fetch, answered: set<Fetch>)
    requires Accounted(t, answered)
    ensures Accounted(t.(cache := Touch(t.cache, f)), answered)
  {
    if IsHttp(f.url) && StatusOf(t.cache, f) == Unknown {
      var u := t.(cache := Touch(t.cache, f));
      TouchBecomes(t.cache, f);
      assert Asked(u) == Asked(t) + [f];
      AskedOne(t, u, f, answered);
    }
  }

  lemma SetLinkAccounted(t: Trace, url: string, meta: Meta, answered: set<Fetch>)
    requires Accounted(t, answered)
    ensures Accounted(t.(cache := SetLink(t.cache, url, meta)), answered + {Fetch(LinkCard, url)})
  {
    var mid, u := t.(cache := TouchThumb(t.cache, meta)), t.(cache := SetLink(t.cache, url, meta));
    if meta.thumb.Some? { TouchAccounted(t, Fetch(Image, meta.thumb.value), answered); }
    LinkBecomes(mid.cache, url, Ready(meta), mid.cache.pending);
    AnsweredOne(mid, u, Fetch(LinkCard, url), answered);
  }

  lemma SeedLinkAccounted(t: Trace, url: string, meta: Meta, answered: set<Fetch>)
    requires Accounted(t, answered)
    ensures Accounted(t.(cache := SeedLink(t.cache, url, meta)), answered + Answers(OpSeedLink(url, meta)))
  {
    if url == "" {
      assert answered + {} == answered;
    } else if Telling(t.cache, url) {
      AnsweredOne(t, t, Fetch(LinkCard, url), answered);
    } else {
      SetLinkAccounted(t, url, meta, answered);
    }
  }

  lemma StepAccounted(t: Trace, op: Op, answered: set<Fetch>)
    requires Accounted(t, answered)
    ensures Accounted(Step(t, op), answered + Answers(op))
  {
    match op
    case OpTouch(f) =>
      assert answered + {} == answered;
      TouchAccounted(t, f, answered);
    case OpSeedLink(url, meta) => SeedLinkAccounted(t, url, meta, answered);
    case OpSetLink(url, meta) => SetLinkAccounted(t, url, meta, answered);
    case OpSetImage(url, content) =>
      ImageBecomes(t.cache, url, Ready(content), t.cache.pending);
      AnsweredOne(t, Step(t, op), Fetch(Image, url), answered);
    case OpSetFullImage(url, content) =>
      FullImageBecomes(t.cache, url, Ready(content), t.cache.pending);
      AnsweredOne(t, Step(t, op), Fetch(FullImage, url), answered);
    case OpSetVideo(url, content) =>
      VideoBecomes(t.cache, url, Ready(content), t.cache.pending);
      AnsweredOne(t, Step(t, op), Fetch(Video, url), answered);
    case OpSetFailed(f) =>
      SetFailedBecomes(t.cache, f);
      AnsweredOne(t, Step(t, op), f, answered);
    case OpDrain =>
      assert answered + {} == answered;
      assert Asked(Step(t, op)) == Asked(t);
  }

  lemma {:induction false} RunAccounted(t: Trace, ops: seq<Op>, answered: set<Fetch>)
    requires Accounted(t, answered)
    ensures Accounted(Run(t, ops), answered + AllAnswers(ops))
    decreases |ops|
  {
    if ops != [] {
      StepAccounted(t, ops[0], answered);
      RunAccounted(Step(t, ops[0]), ops[1..], answered + Answers(ops[0]));
      assert answered + AllAnswers(ops) == answered + Answers(ops[0]) + AllAnswers(ops[1..]);
    } else {
      assert answered + AllAnswers(ops) == answered;
    }
  }

  lemma StepKeepsAsked(t: Trace, op: Op)
    ensures Asked(t) <= Asked(Step(t, op))
  {
    assert op.OpDrain? ==> Asked(Step(t, op)) == Asked(t);
  }

  lemma {:induction false} RunKeepsAsked(t: Trace, ops: seq<Op>)
    ensures Asked(t) <= Asked(Run(t, ops))
    decreases |ops|
  {
    if ops != [] {
      StepKeepsAsked(t, ops[0]);
      RunKeepsAsked(Step(t, ops[0]), ops[1..]);
    }
  }

  /**
   Over any run of the client, each kind of preview of each address is requested at most once, and
   what shows as loading is exactly what was requested and has not been answered.
   */
  lemma RequestedAtMostOnce(ops: seq<Op>)
    ensures var t := Run(Trace(EMPTY, []), ops);
      && NoDuplicates(Asked(t))
      && (forall f :: StatusOf(t.cache, f) == InFlight <==> f in Asked(t) && f !in AllAnswers(ops))
      && (forall f :: StatusOf(t.cache, f) == Unknown <==> f !in Asked(t) && f !in AllAnswers(ops))
      && (HasLoading(t.cache) <==> exists f :: f in Asked(t) && f !in AllAnswers(ops))
  {
    RunAccounted(Trace(EMPTY, []), ops, {});
    var t := Run(Trace(EMPTY, []), ops);
    assert {} + AllAnswers(ops) == AllAnswers(ops);
    LoadingWitness(t.cache);
  }

  lemma LoadingWitness(c: Media)
    ensures HasLoading(c) <==> exists f :: StatusOf(c, f) == InFlight
  {
    forall u ensures u in c.images && c.images[u].Loading? ==> StatusOf(c, Fetch(Image, u)) == InFlight {}
    forall u ensures u in c.fullImages && c.fullImages[u].Loading? ==> StatusOf(c, Fetch(FullImage, u)) == InFlight {}
    forall u ensures u in c.videos && c.videos[u].Loading? ==> StatusOf(c, Fetch(Video, u)) == InFlight {}
    forall u ensures u in c.links && c.links[u].Loading? ==> StatusOf(c, Fetch(LinkCard, u)) == InFlight {}
  }

  lemma {:induction false} OnlyWebIsAsked(t: Trace, ops: seq<Op>, f: Fetch)
    requires f in Asked(Run(t, ops))
    ensures f in Asked(t) || StartsWith(f.url, "http://") || StartsWith(f.url, "https://")
    decreases |ops|
  {
    if ops != [] {
      OnlyWebIsAsked(Step(t, ops[0]), ops[1..], f);
      if f in Asked(Step(t, ops[0])) { StepAsksWeb(t, ops[0], f); }
    }
  }

  lemma StepAsksWeb(t: Trace, op: Op, f: Fetch)
    requires f in Asked(Step(t, op))
    ensures f in Asked(t) || StartsWith(f.url, "http://") || StartsWith(f.url, "https://")
  {
    match op
    case OpTouch(g) => TouchAsks(t.cache, g, f);
    case OpSeedLink(url, meta) => if meta.thumb.Some? { TouchAsks(t.cache, Fetch(Image, meta.thumb.value), f); }
    case OpSetLink(url, meta) => if meta.thumb.Some? { TouchAsks(t.cache, Fetch(Image, meta.thumb.value), f); }
    case OpSetFailed(_) =>
    case _ =>
  }

  lemma TouchAsks(c: Media, g: Fetch, f: Fetch)
    ensures f in Touch(c, g).pending ==> f in c.pending || (f == g && IsHttp(g.url))
  {
    PrefixElements(c.pending, g);
  }

  /** Whatever came before, an address that is touched has been requested or answered from then on. */
  lemma TouchedIsServed(t: Trace, f: Fetch, later: seq<Op>, answered: set<Fetch>)
    requires Accounted(t, answered) && (StartsWith(f.url, "http://") || StartsWith(f.url, "https://"))
    ensures f in Asked(Run(Step(t, OpTouch(f)), later)) || f in answered
  {
    StepAccounted(t, OpTouch(f), answered);
    assert StatusOf(Step(t, OpTouch(f)).cache, f) != Unknown;
    RunKeepsAsked(Step(t, OpTouch(f)), later);
  }

  /** Draining sends everything that was queued, in order, and changes nothing that is shown. */
  lemma DrainSendsAll(t: Trace)
    ensures var u := Step(t, OpDrain);
      u.sent == t.sent + t.cache.pending && u.cache.pending == [] && u.cache.(pending := t.cache.pending) == t.cache
  {
  }

  // ---- what is shown -----------------------------------------------------------------------

  /** What the cache shows of an address. */
  datatype Shown = Nothing | Picture(state: Load<string>) | Card(card: Load<Meta>)

  function ShownIn(m: map<string, Load<string>>, url: string): Shown {
    if url in m then Picture(m[url]) else Nothing
  }

  function Showing(c: Media, f: Fetch): Shown {
    match f.kind
    case Image => ShownIn(c.images, f.url)
    case FullImage => ShownIn(c.fullImages, f.url)
    case Video => ShownIn(c.videos, f.url)
    case LinkCard => if f.url in c.links then Card(c.links[f.url]) else Nothing
  }

  /** What the operation brings for a resource, if it is an answer for it. */
  function Brings(op: Op, f: Fetch): Shown {
    match op
    case OpSetImage(url, content) => if f == Fetch(Image, url) then Picture(Ready(content)) else Nothing
    case OpSetFullImage(url, content) => if f == Fetch(FullImage, url) then Picture(Ready(content)) else Nothing
    case OpSetVideo(url, content) => if f == Fetch(Video, url) then Picture(Ready(content)) else Nothing
    case OpSetLink(url, meta) => if f == Fetch(LinkCard, url) then Card(Ready(meta)) else Nothing
    case OpSetFailed(g) =>
      if f != g then Nothing else if f.kind.LinkCard? then Card(Failed) else Picture(Failed)
    case _ => Nothing
  }

  /** A card seeded for this address that finds none saying something. */
  predicate SeedsOver(t: Trace, op: Op, f: Fetch) {
    op.OpSeedLink? && op.url != "" && f == Fetch(LinkCard, op.url) && !Telling(t.cache, op.url)
  }

  lemma TouchShowing(c: Media, f: Fetch, g: Fetch)
    ensures Showing(c, g) != Nothing ==> Showing(Touch(c, f), g) == Showing(c, g)
    ensures f != g ==> Showing(Touch(c, f), g) == Showing(c, g)
  {
  }

  lemma SetLinkShowing(c: Media, url: string, meta: Meta, g: Fetch)
    ensures Showing(SetLink(c, url, meta), Fetch(LinkCard, url)) == Card(Ready(meta))
    ensures g != Fetch(LinkCard, url) && Showing(c, g) != Nothing ==>
      Showing(SetLink(c, url, meta), g) == Showing(c, g)
  {
    if meta.thumb.Some? { TouchShowing(c, Fetch(Image, meta.thumb.value), g); }
  }

  /** An answer shows what it brings and a seeded card itself; what is shown of anything else stays. */
  lemma StepShows(t: Trace, op: Op, f: Fetch)
    ensures Brings(op, f) != Nothing ==> Showing(Step(t, op).cache, f) == Brings(op, f)
    ensures SeedsOver(t, op, f) ==> Showing(Step(t, op).cache, f) == Card(Ready(op.meta))
    ensures Brings(op, f) == Nothing && !SeedsOver(t, op, f) && Showing(t.cache, f) != Nothing ==>
      Showing(Step(t, op).cache, f) == Showing(t.cache, f)
  {
    match op
    case OpTouch(g) => TouchShowing(t.cache, g, f);
    case OpSeedLink(url, meta) => if url != "" && !Telling(t.cache, url) { SetLinkShowing(t.cache, url, meta, f); }
    case OpSetLink(url, meta) => SetLinkShowing(t.cache, url, meta, f);
    case OpSetFailed(g) =>
    case _ =>
  }

  /** A seeded card is shown unless one that has a title or a description is, fetched or seeded. */
  lemma SeedIsShownIff(t: Trace, url: string, meta: Meta)
    requires url != ""
    ensures var f := Fetch(LinkCard, url);
      var before, after := Showing(t.cache, f), Showing(Step(t, OpSeedLink(url, meta)).cache, f);
      if before.Card? && before.card.Ready?
         && (before.card.content.title.Some? || before.card.content.description.Some?)
      then after == before else after == Card(Ready(meta))
  {
    SetLinkShowing(t.cache, url, meta, Fetch(LinkCard, url));
  }

  predicate LeavesAlone(t: Trace, ops: seq<Op>, f: Fetch)
    decreases |ops|
  {
    ops == [] ||
    (Brings(ops[0], f) == Nothing && !SeedsOver(t, ops[0], f) && LeavesAlone(Step(t, ops[0]), ops[1..], f))
  }

  lemma {:induction false} ShownStays(t: Trace, ops: seq<Op>, f: Fetch)
    requires Showing(t.cache, f) != Nothing && LeavesAlone(t, ops, f)
    ensures Showing(Run(t, ops).cache, f) == Showing(t.cache, f)
    decreases |ops|
  {
    if ops != [] {
      StepShows(t, ops[0], f);
      ShownStays(Step(t, ops[0]), ops[1..], f);
    }
  }

  /** What an answer brings is shown until the next answer, or card seeded over it, for the same address. */
  lemma AnswerIsShown(t: Trace, op: Op, f: Fetch, later: seq<Op>)
    requires Brings(op, f) != Nothing && LeavesAlone(Step(t, op), later, f)
    ensures Showing(Run(Step(t, op), later).cache, f) == Brings(op, f)
  {
    StepShows(t, op, f);
    ShownStays(Step(t, op), later, f);
  }

  /** The thumbnail of a card that is fetched, or seeded over nothing, is requested unless its state is known. */
  lemma ThumbIsServed(t: Trace, url: string, meta: Meta)
    requires meta.thumb.Some? && IsHttp(meta.thumb.value)
    ensures var thumb := Fetch(Image, meta.thumb.value);
      && (StatusOf(t.cache, thumb) == Unknown ==> thumb in Asked(Step(t, OpSetLink(url, meta))))
      && StatusOf(Step(t, OpSetLink(url, meta)).cache, thumb) != Unknown
      && (url != "" && !Telling(t.cache, url) ==>
            StatusOf(Step(t, OpSeedLink(url, meta)).cache, thumb) != Unknown)
  {
    var thumb := Fetch(Image, meta.thumb.value);
    if StatusOf(t.cache, thumb) == Unknown {
      TouchBecomes(t.cache, thumb);
      PrefixElements(t.cache.pending, thumb);
    }
  }

  // ---- link cards that came with a message -----------------------------------------------

  /** The link request an operation answers from the network, if any. */
  function LinkAnswer(op: Op): set<Fetch> {
    if op.OpSetLink? then {Fetch(LinkCard, op.url)}
    else if op.OpSetFailed? && op.f.kind.LinkCard? then {op.f}
    else {}
  }

  function LinkAnswers(ops: seq<Op>): set<Fetch> {
    if ops == [] then {} else LinkAnswer(ops[0]) + LinkAnswers(ops[1..])
  }

  /** The network answers a link only if its request was sent out and, with `done` answered, is not yet answered. */
  predicate AnswersOnce(t: Trace, done: set<Fetch>, op: Op) {
    forall f | f in LinkAnswer(op) :: f in t.sent && f !in done
  }

  predicate AnswersEachOnce(t: Trace, done: set<Fetch>, ops: seq<Op>)
    decreases |ops|
  {
    ops == [] ||
    (AnswersOnce(t, done, ops[0]) && AnswersEachOnce(Step(t, ops[0]), done + LinkAnswer(ops[0]), ops[1..]))
  }

  /** A request for the link is out or queued, and its answer is still to come. */
  predicate AwaitsLink(t: Trace, done: set<Fetch>, url: string) {
    Fetch(LinkCard, url) in Asked(t) && Fetch(LinkCard, url) !in done
  }

  /** The run leaves the card under `url` as it is. */
  predicate Keeps(t: Trace, ops: seq<Op>, url: string)
    requires url in t.cache.links
  {
    url in Run(t, ops).cache.links && Run(t, ops).cache.links[url] == t.cache.links[url]
  }

  lemma TouchKeepsCard(c: Media, f: Fetch, url: string)
    requires Telling(c, url)
    ensures var d := Touch(c, f);
      && url in d.links && d.links[url] == c.links[url]
      && (d.pending == c.pending || (d.pending == c.pending + [f] && f != Fetch(LinkCard, url)))
  {
  }

  lemma SetLinkKeepsCard(c: Media, other: string, meta: Meta, url: string)
    requires Telling(c, url) && other != url
    ensures var d := SetLink(c, other, meta);
      && url in d.links && d.links[url] == c.links[url]
      && (forall f | f in d.pending :: f in c.pending || f.kind.Image?)
  {
    if meta.thumb.Some? {
      TouchKeepsCard(c, Fetch(Image, meta.thumb.value), url);
      PrefixElements(c.pending, Fetch(Image, meta.thumb.value));
    }
  }

  lemma StepKeepsCard(t: Trace, done: set<Fetch>, op: Op, url: string)
    requires Telling(t.cache, url) && !AwaitsLink(t, done, url) && AnswersOnce(t, done, op)
    ensures var u := Step(t, op);
      && url in u.cache.links && u.cache.links[url] == t.cache.links[url]
      && !AwaitsLink(u, done + LinkAnswer(op), url)
  {
    match op
    case OpTouch(f) => TouchKeepsCard(t.cache, f, url);
    case OpSeedLink(other, meta) => if other != url { SetLinkKeepsCard(t.cache, other, meta, url); }
    case OpSetLink(other, meta) =>
      assert Fetch(LinkCard, other) in LinkAnswer(op);
      SetLinkKeepsCard(t.cache, other, meta, url);
    case OpSetFailed(f) => assert f.kind.LinkCard? ==> f in LinkAnswer(op);
    case _ =>
  }

  lemma {:induction false} AnsweredCardStays(t: Trace, done: set<Fetch>, ops: seq<Op>, url: string)
    requires Telling(t.cache, url) && !AwaitsLink(t, done, url) && AnswersEachOnce(t, done, ops)
    ensures Keeps(t, ops, url)
    decreases |ops|
  {
    if ops != [] {
      StepKeepsCard(t, done, ops[0], url);
      AnsweredCardStays(Step(t, ops[0]), done + LinkAnswer(ops[0]), ops[1..], url);
    }
  }

  lemma RunTwo(t: Trace, a: Op, b: Op)
    ensures Run(t, [a, b]) == Step(Step(t, a), b)
  {
    assert [a, b][1..] == [b] && [b][1..] == [];
    assert Run(Step(t, a), [b]) == Run(Step(Step(t, a), b), []);
  }

  /** A request sent out at last and then answered by a failure hides the card, though it says something. */
  lemma LateFailureHidesCard(t: Trace, done: set<Fetch>, url: string)
    requires Telling(t.cache, url) && AwaitsLink(t, done, url)
    ensures var ops := [OpDrain, OpSetFailed(Fetch(LinkCard, url))];
      AnswersEachOnce(t, done, ops) && !Keeps(t, ops, url)
  {
    var fail := OpSetFailed(Fetch(LinkCard, url));
    RunTwo(t, OpDrain, fail);
    assert [OpDrain, fail][1..] == [fail] && [fail][1..] == [];
    assert AnswersOnce(t, done, OpDrain);
    assert AnswersOnce(Step(t, OpDrain), done + LinkAnswer(OpDrain), fail);
    assert AnswersEachOnce(Step(t, OpDrain), done + LinkAnswer(OpDrain), [fail]);
  }

  lemma CardSurvivesIff(t: Trace, done: set<Fetch>, url: string)
    requires Telling(t.cache, url)
    ensures (forall ops | AnswersEachOnce(t, done, ops) :: Keeps(t, ops, url)) <==> !AwaitsLink(t, done, url)
  {
    if AwaitsLink(t, done, url) {
      LateFailureHidesCard(t, done, url);
    } else {
      forall ops | AnswersEachOnce(t, done, ops) ensures Keeps(t, ops, url) {
        AnsweredCardStays(t, done, ops, url);
      }
    }
  }

  /**
   After any run of the client, a card that says something survives every later answer exactly when no
   request for its link is still unanswered: the preference for it over a failure holds for seeding only.
   */
  lemma SeededCardSurvivesIff(before: seq<Op>, url: string)
    requires Telling(Run(Trace(EMPTY, []), before).cache, url)
    ensures var t, done := Run(Trace(EMPTY, []), before), LinkAnswers(before);
      (forall later | AnswersEachOnce(t, done, later) :: Keeps(t, later, url)) <==> !AwaitsLink(t, done, url)
  {
    CardSurvivesIff(Run(Trace(EMPTY, []), before), LinkAnswers(before), url);
  }

  /** A link is touched and its request sent; `ops` follow. */
  function Touched(url: string, ops: seq<Op>): seq<Op> {
    [OpTouch(Fetch(LinkCard, url)), OpDrain] + ops
  }

  lemma TouchedRun(url: string, ops: seq<Op>)
    requires IsHttp(url)
    ensures var f := Fetch(LinkCard, url);
      && Run(Trace(EMPTY, []), Touched(url, ops)) == Run(Trace(EMPTY.(links := map[url := Loading]), [f]), ops)
      && LinkAnswers(Touched(url, ops)) == LinkAnswers(ops)
  {
    var touch, all := OpTouch(Fetch(LinkCard, url)), Touched(url, ops);
    assert all[1..] == [OpDrain] + ops && all[1..][1..] == ops;
    var t1 := Step(Trace(EMPTY, []), touch);
    assert t1 == Trace(EMPTY.(links := map[url := Loading], pending := [touch.f]), []);
    assert Step(t1, OpDrain) == Trace(EMPTY.(links := map[url := Loading]), [touch.f]);
    assert Run(Trace(EMPTY, []), all) == Run(t1, all[1..]) == Run(Step(t1, OpDrain), ops);
    assert LinkAnswers(all[1..]) == LinkAnswer(OpDrain) + LinkAnswers(ops);
  }

  /**
   Instances: a link touched, requested and then seeded can still lose its card; one whose request had
   failed before the card came cannot.
   */
  lemma SeededBeforeOrAfterTheAnswer(url: string, meta: Meta)
    requires IsHttp(url) && meta.title.Some? && meta.thumb.None?
    ensures var before := Touched(url, [OpSeedLink(url, meta)]); var t := Run(Trace(EMPTY, []), before);
      Telling(t.cache, url) && AwaitsLink(t, LinkAnswers(before), url)
    ensures var after := Touched(url, [OpSetFailed(Fetch(LinkCard, url)), OpSeedLink(url, meta)]);
      var t := Run(Trace(EMPTY, []), after);
      Telling(t.cache, url) && !AwaitsLink(t, LinkAnswers(after), url)
  {
    var seed, fail := OpSeedLink(url, meta), OpSetFailed(Fetch(LinkCard, url));
    var t := Trace(EMPTY.(links := map[url := Loading]), [Fetch(LinkCard, url)]);
    TouchedRun(url, [seed]);
    TouchedRun(url, [fail, seed]);
    RunTwo(t, fail, seed);
    assert [seed][1..] == [] && [fail, seed][1..] == [seed];
    assert Run(t, [seed]) == Run(Step(t, seed), []);
    assert LinkAnswers([seed]) == {} && LinkAnswers([fail, seed]) == LinkAnswer(fail) + LinkAnswers([seed]);
  }
}
