/**
 Strings handed to a Wasm guest: a bump allocator in freshly grown pages of the guest's linear
 memory, each string stored as a little-endian length and its bytes.
 */
module Arena {
  type Byte = x: int | 0 <= x < 256

  datatype Result<+T> = Ok(value: T) | Err(why: string)

  /** The arena's next free offset (0 before first use) and the guest's memory with its page limit. */
  datatype Host = Host(next: nat, mem: seq<Byte>, maxPages: nat)

  predicate MemoryOk(h: Host) {
    |h.mem| % 65_536 == 0 && |h.mem| <= h.maxPages * 65_536 && h.maxPages <= 65_536
  }

  // ---- words -----------------------------------------------------------------------------

  function Align4(n: nat): (a: nat)
    ensures n <= a < n + 4 && a % 4 == 0
  {
    (n + 3) / 4 * 4
  }

  function Le32(n: nat): (s: seq<Byte>)
    ensures |s| == 4
  {
    [n % 256, n / 256 % 256, n / 65_536 % 256, n / 16_777_216 % 256]
  }

  function FromLe32(s: seq<Byte>): nat
    requires |s| == 4
  {
    var a: int, b: int, c: int, d: int := s[0], s[1], s[2], s[3];
    a + 256 * b + 65_536 * c + 16_777_216 * d
  }

  /** The header holds the length modulo 2^32, low byte first. */
  lemma HeaderRoundTrip(n: nat)
    ensures FromLe32(Le32(n)) == n % 0x1_0000_0000
    ensures Le32(n) == [n, 0, 0, 0] <==> n < 256
  {
    var a, b, c := n / 256, n / 65_536, n / 16_777_216;
    assert b == a / 256 && c == b / 256;
    assert n == 256 * a + n % 256 && a == 256 * b + a % 256 && b == 256 * c + b % 256 && c == 256 * (c / 256) + c % 256;
    assert n == 0x1_0000_0000 * (c / 256) + FromLe32(Le32(n));
  }

  /** An unsigned 32-bit offset as the signed pointer the guest sees. */
  function AsI32(start: nat): int {
    if start % 0x1_0000_0000 < 0x8000_0000 then start % 0x1_0000_0000 else start % 0x1_0000_0000 - 0x1_0000_0000
  }

  // ---- memory ----------------------------------------------------------------------------

  function Put(mem: seq<Byte>, at: nat, bs: seq<Byte>): seq<Byte>
    requires at + |bs| <= |mem|
  {
    mem[..at] + bs + mem[at + |bs|..]
  }

  function Zeros(n: nat): seq<Byte> {
    seq(n, _ => 0)
  }

  function PagesFor(end: nat): nat {
    (end + 65_536 - 1) / 65_536
  }

  /** Grow the memory so that `end` bytes exist; fails beyond the page limit or when the runtime refuses. */
  function EnsurePages(h: Host, end: nat, grant: bool): Result<Host> {
    var need, cur := PagesFor(end), |h.mem| / 65_536;
    if need <= cur then Ok(h)
    else if need > h.maxPages || !grant then Err("memory.grow")
    else Ok(h.(mem := h.mem + Zeros((need - cur) * 65_536)))
  }

  /** The same memory with zeros behind it. */
  predicate Extends(h: Host, g: Host) {
    MemoryOk(g) && h.mem <= g.mem && g.maxPages == h.maxPages
  }

  lemma EnsurePagesFacts(h: Host, end: nat, grant: bool)
    requires MemoryOk(h)
    ensures var r := EnsurePages(h, end, grant);
      && (r.Err? <==> end > |h.mem| && (end > h.maxPages * 65_536 || !grant))
      && (r.Ok? ==> end <= |r.value.mem| && Extends(h, r.value) && r.value.next == h.next)
      && (r.Ok? ==> r.value == h || |r.value.mem| < end + 65_536)
  {
    var need, cur := PagesFor(end), |h.mem| / 65_536;
    assert |h.mem| == cur * 65_536;
    assert end <= need * 65_536 < end + 65_536;
    if need > cur {
      assert (need - cur) * 65_536 == need * 65_536 - cur * 65_536;
    }
  }

  lemma PageAligned(n: nat)
    requires n % 65_536 == 0
    ensures n % 4 == 0
  {
    var k := n / 65_536;
    assert n == 65_536 * k;
    assert n == 4 * (16_384 * k);
  }

  lemma WithinPages(n: nat, pages: nat)
    requires n <= pages * 65_536 && pages <= 65_536
    ensures n <= 0x1_0000_0000
  {
  }

  lemma AlignExact(n: nat)
    requires n % 4 == 0
    ensures Align4(n) == n
  {
  }

  lemma MemoryBound(h: Host)
    requires MemoryOk(h)
    ensures |h.mem| <= 0x1_0000_0000 && |h.mem| % 4 == 0 && Align4(|h.mem|) == |h.mem|
  {
    var n, pages := |h.mem|, h.maxPages;
    PageAligned(n);
    WithinPages(n, pages);
    AlignExact(n);
  }

  // ---- write and read --------------------------------------------------------------------

  function Need(value: seq<Byte>): nat {
    Align4(4 + |value|)
  }

  /** Choose the arena's first offset: the end of memory as it was. */
  function Place(h: Host, value: seq<Byte>, grant: bool): Result<Host> {
    if h.next != 0 then Ok(h)
    else
      var start := Align4(|h.mem|);
      var grown := EnsurePages(h, start + Need(value), grant);
      if grown.Err? then grown else Ok(grown.value.(next := start % 0x1_0000_0000))
  }

  function Store(h: Host, value: seq<Byte>): Host
    requires h.next + Need(value) <= |h.mem|
  {
    h.(mem := Put(Put(h.mem, h.next, Le32(|value| % 0x1_0000_0000)), h.next + 4, value),
       next := (h.next + Need(value)) % 0x1_0000_0000)
  }

  /** The state in which the string can be stored: placed, and grown to its end. */
  function Ready(h: Host, value: seq<Byte>, grant: bool): Result<Host> {
    var placed := Place(h, value, grant);
    if placed.Err? then placed else EnsurePages(placed.value, placed.value.next + Need(value), grant)
  }

  lemma SmallWord(n: nat)
    requires n < 0x1_0000_0000
    ensures n % 0x1_0000_0000 == n
  {
  }

  /** Where the next string goes. */
  function Start(h: Host): nat {
    if h.next != 0 then h.next else |h.mem|
  }

  lemma PlaceFacts(h: Host, value: seq<Byte>, grant: bool)
    requires MemoryOk(h)
    ensures var p := Place(h, value, grant);
      && (p.Err? ==> h.next == 0)
      && (p.Ok? ==> Extends(h, p.value) && p.value.next == Start(h))
      && (p.Ok? && h.next == 0 ==> Start(h) + Need(value) <= |p.value.mem|)
  {
    MemoryBound(h);
    EnsurePagesFacts(h, |h.mem| + Need(value), grant);
    var grown := EnsurePages(h, |h.mem| + Need(value), grant);
    if h.next == 0 && grown.Ok? {
      MemoryBound(grown.value);
      SmallWord(|h.mem|);
    }
  }

  /** Everything up to the string's end exists by the time it is stored; a failure changes nothing. */
  lemma ReadyFacts(h: Host, value: seq<Byte>, grant: bool)
    requires MemoryOk(h)
    ensures var g := Ready(h, value, grant);
      && (g.Ok? ==> Extends(h, g.value) && g.value.next == Start(h) && Start(h) + Need(value) <= |g.value.mem|)
      && (g.Err? && Place(h, value, grant).Ok? ==> Place(h, value, grant).value == h)
  {
    PlaceFacts(h, value, grant);
    var placed := Place(h, value, grant);
    if placed.Ok? {
      EnsurePagesFacts(placed.value, Start(h) + Need(value), grant);
    }
  }

  /** The pointer and the state after a write. */
  function Write(h: Host, value: seq<Byte>, grant: bool): (Result<int>, Host)
    requires MemoryOk(h)
  {
    var g := Ready(h, value, grant);
    if g.Err? then (Err(g.why), if Place(h, value, grant).Ok? then Place(h, value, grant).value else h)
    else
      ReadyFacts(h, value, grant);
      (Ok(AsI32(g.value.next)), Store(g.value, value))
  }

  /** Read back a string; `utf8` says which byte strings are valid text. */
  function Read(mem: seq<Byte>, ptr: int, utf8: seq<Byte> -> bool): Result<seq<Byte>> {
    if ptr < 0 then Err("negative pointer")
    else if ptr + 4 > |mem| then Err("no room for the length")
    else
      var len := FromLe32(mem[ptr..ptr + 4]);
      if ptr + 4 + len > |mem| then Err("no room for the bytes")
      else
        var bytes := mem[ptr + 4..ptr + 4 + len];
        if utf8(bytes) then Ok(bytes) else Err("not utf-8")
  }

  // ---- whole sessions --------------------------------------------------------------------

  /** A successful write: the pointer returned, its offset, and the text. */
  datatype Region = Region(ptr: int, start: nat, value: seq<Byte>)

  function End(r: Region): nat {
    r.start + Need(r.value)
  }

  datatype Session = Session(host: Host, base: nat, regions: seq<Region>)

  datatype Op =
    | HostWrite(value: seq<Byte>, grant: bool)
    | GuestWrite(at: nat, b: Byte)
    | GuestGrow(pages: nat)

  /** The guest keeps away from what the host has written. */
  predicate Outside(at: nat, regions: seq<Region>) {
    forall i | 0 <= i < |regions| :: at < regions[i].start || End(regions[i]) <= at
  }

  predicate OpOk(s: Session, op: Op) {
    match op
    case HostWrite(_, _) => true
    case GuestWrite(at, _) => at < |s.host.mem| && Outside(at, s.regions)
    case GuestGrow(pages) => |s.host.mem| + pages * 65_536 <= s.host.maxPages * 65_536
  }

  function HostStep(s: Session, value: seq<Byte>, grant: bool): Session
    requires MemoryOk(s.host)
  {
    var (r, h) := Write(s.host, value, grant);
    if r.Err? then s.(host := h)
    else
      Session(h, if s.regions == [] then |s.host.mem| else s.base, s.regions + [Region(r.value, Start(s.host), value)])
  }

  function Step(s: Session, op: Op): Session
    requires MemoryOk(s.host) && OpOk(s, op)
  {
    match op
    case HostWrite(value, grant) => HostStep(s, value, grant)
    case GuestWrite(at, b) => s.(host := s.host.(mem := s.host.mem[at := b]))
    case GuestGrow(pages) => s.(host := s.host.(mem := s.host.mem + Zeros(pages * 65_536)))
  }

  /** The region's header and bytes are in memory as written. */
  predicate Holds(mem: seq<Byte>, r: Region) {
    && End(r) <= |mem|
    && mem[r.start..r.start + 4] == Le32(|r.value|)
    && mem[r.start + 4..r.start + 4 + |r.value|] == r.value
  }

  predicate RegionsOk(s: Session) {
    && (forall i | 0 <= i < |s.regions| ::
          Holds(s.host.mem, s.regions[i]) && s.regions[i].start % 4 == 0 && s.base <= s.regions[i].start
          && s.regions[i].ptr == AsI32(s.regions[i].start))
    && (forall i, j | 0 <= i < j < |s.regions| :: End(s.regions[i]) <= s.regions[j].start)
    && (s.regions != [] ==> s.regions[0].start == s.base)
  }

  /** Where the arena stands: untouched, just after the last region, or wrapped with memory full. */
  predicate NextOk(s: Session) {
    if s.regions == [] then s.host.next == 0
    else
      var end := End(s.regions[|s.regions| - 1]);
      (s.host.next == end && end != 0) || (s.host.next == 0 && end == 0x1_0000_0000 == |s.host.mem|)
  }

  predicate Invariant(s: Session) {
    MemoryOk(s.host) && RegionsOk(s) && NextOk(s)
  }

  lemma PutFacts(mem: seq<Byte>, at: nat, bs: seq<Byte>)
    requires at + |bs| <= |mem|
    ensures |Put(mem, at, bs)| == |mem|
    ensures Put(mem, at, bs)[at..at + |bs|] == bs
    ensures Put(mem, at, bs)[..at] == mem[..at]
    ensures Put(mem, at, bs)[at + |bs|..] == mem[at + |bs|..]
  {
  }

  lemma SamePrefix(mem: seq<Byte>, mem': seq<Byte>, n: nat, a: nat, b: nat)
    requires n <= |mem| && n <= |mem'| && mem'[..n] == mem[..n] && a <= b <= n
    ensures mem'[a..b] == mem[a..b]
  {
    assert mem'[a..b] == mem'[..n][a..b] && mem[a..b] == mem[..n][a..b];
  }

  /** Storing a string leaves what lies before it alone and can be read back. */
  lemma StoreFacts(h: Host, value: seq<Byte>)
    requires h.next + Need(value) <= |h.mem| <= 0x1_0000_0000
    ensures var t := Store(h, value);
      && |t.mem| == |h.mem| && t.maxPages == h.maxPages
      && Holds(t.mem, Region(AsI32(h.next), h.next, value))
      && t.mem[..h.next] == h.mem[..h.next]
  {
    SmallWord(|value|);
    var at, header := h.next, Le32(|value|);
    var m1 := Put(h.mem, at, header);
    PutFacts(h.mem, at, header);
    PutFacts(m1, at + 4, value);
    var m2 := Put(m1, at + 4, value);
    SamePrefix(m1, m2, at + 4, at, at + 4);
    SamePrefix(m1, m2, at + 4, 0, at);
  }

  lemma HoldsAfter(mem: seq<Byte>, mem': seq<Byte>, n: nat, r: Region)
    requires Holds(mem, r) && End(r) <= n <= |mem| && n <= |mem'| && mem'[..n] == mem[..n]
    ensures Holds(mem', r)
  {
    SamePrefix(mem, mem', n, r.start, r.start + 4);
    SamePrefix(mem, mem', n, r.start + 4, r.start + 4 + |r.value|);
  }

  lemma AppendRegion(s: Session, t: Session, r: Region)
    requires RegionsOk(s) && t.regions == s.regions + [r]
    requires s.regions != [] ==> t.base == s.base && End(s.regions[|s.regions| - 1]) <= r.start
    requires s.regions == [] ==> t.base == r.start
    requires r.start % 4 == 0 && r.ptr == AsI32(r.start) && Holds(t.host.mem, r)
    requires forall i | 0 <= i < |s.regions| :: Holds(t.host.mem, s.regions[i])
    ensures RegionsOk(t)
  {
    var last := |s.regions| - 1;
    forall i | 0 <= i < |s.regions| ensures End(s.regions[i]) <= r.start && s.base <= r.start {
      assert i < last ==> End(s.regions[i]) <= s.regions[last].start;
    }
  }

  lemma RegionsEndBefore(s: Session, i: nat)
    requires RegionsOk(s) && i < |s.regions|
    ensures End(s.regions[i]) <= End(s.regions[|s.regions| - 1])
  {
    var last := |s.regions| - 1;
    assert i < last ==> End(s.regions[i]) <= s.regions[last].start;
  }

  /** Regions keep what they hold when memory changes only behind the last of them. */
  lemma RegionsSurvive(s: Session, mem: seq<Byte>, n: nat)
    requires RegionsOk(s) && n <= |s.host.mem| && n <= |mem| && mem[..n] == s.host.mem[..n]
    requires s.regions != [] ==> End(s.regions[|s.regions| - 1]) <= n
    ensures forall i | 0 <= i < |s.regions| :: Holds(mem, s.regions[i])
  {
    forall i | 0 <= i < |s.regions| ensures Holds(mem, s.regions[i]) {
      RegionsEndBefore(s, i);
      HoldsAfter(s.host.mem, mem, n, s.regions[i]);
    }
  }

  lemma NextAfterStore(start: nat, need: nat, size: nat)
    requires start + need <= size <= 0x1_0000_0000 && need > 0
    ensures var next := (start + need) % 0x1_0000_0000;
      (next == start + need && next != 0) || (next == 0 && start + need == 0x1_0000_0000 == size)
  {
    if start + need < 0x1_0000_0000 { SmallWord(start + need); }
  }

  predicate Placed(h: Host, value: seq<Byte>, t: Host) {
    var at := Start(h);
    && MemoryOk(t) && at <= |h.mem| <= |t.mem| && at + Need(value) <= |t.mem|
    && t.next == (at + Need(value)) % 0x1_0000_0000
    && t.mem[..at] == h.mem[..at]
    && Holds(t.mem, Region(AsI32(at), at, value))
  }

  /** A write that succeeds puts its string at `Start` and leaves everything before it alone. */
  lemma WriteFacts(h: Host, value: seq<Byte>, grant: bool)
    requires MemoryOk(h) && Start(h) <= |h.mem| && Ready(h, value, grant).Ok?
    ensures Write(h, value, grant).0 == Ok(AsI32(Start(h))) && Placed(h, value, Write(h, value, grant).1)
  {
    var g, at := Ready(h, value, grant).value, Start(h);
    ReadyFacts(h, value, grant);
    MemoryBound(g);
    StoreFacts(g, value);
    SamePrefix(h.mem, g.mem, |h.mem|, 0, at);
  }

  lemma StartInMemory(s: Session)
    requires Invariant(s)
    ensures Start(s.host) <= |s.host.mem|
    ensures s.regions != [] ==> End(s.regions[|s.regions| - 1]) == Start(s.host)
  {
  }

  lemma SumAligned(a: nat, b: nat)
    requires a % 4 == 0 && b % 4 == 0
    ensures (a + b) % 4 == 0
  {
  }

  lemma StartAligned(s: Session)
    requires Invariant(s)
    ensures Start(s.host) % 4 == 0
  {
    MemoryBound(s.host);
    if s.regions != [] {
      var last := s.regions[|s.regions| - 1];
      SumAligned(last.start, Need(last.value));
    }
  }

  lemma FullMemoryRefuses(s: Session, value: seq<Byte>, grant: bool)
    requires Invariant(s) && Ready(s.host, value, grant).Ok?
    ensures s.regions == [] <==> s.host.next == 0
  {
    ReadyFacts(s.host, value, grant);
    MemoryBound(Ready(s.host, value, grant).value);
  }

  /** A write that fails changes nothing. */
  lemma FailedWriteChangesNothing(h: Host, value: seq<Byte>, grant: bool)
    requires MemoryOk(h) && Write(h, value, grant).0.Err?
    ensures Write(h, value, grant).1 == h
  {
    ReadyFacts(h, value, grant);
  }

  /** A write succeeds exactly when its end exists already, or fits the page limit and the runtime grants it. */
  lemma WriteSucceedsIff(h: Host, value: seq<Byte>, grant: bool)
    requires MemoryOk(h)
    ensures Write(h, value, grant).0.Ok? <==>
      Start(h) + Need(value) <= |h.mem| || (grant && Start(h) + Need(value) <= h.maxPages * 65_536)
  {
    ReadyFacts(h, value, grant);
    PlaceFacts(h, value, grant);
    MemoryBound(h);
    EnsurePagesFacts(h, Start(h) + Need(value), grant);
    var placed := Place(h, value, grant);
    if placed.Ok? {
      EnsurePagesFacts(placed.value, Start(h) + Need(value), grant);
    }
  }

  /** A region put at `Start` keeps the invariant. */
  lemma PlacedKeepsInvariant(s: Session, t: Session, value: seq<Byte>)
    requires Invariant(s) && Placed(s.host, value, t.host) && (s.regions == [] <==> s.host.next == 0)
    requires t.regions == s.regions + [Region(AsI32(Start(s.host)), Start(s.host), value)]
    requires t.base == if s.regions == [] then |s.host.mem| else s.base
    ensures Invariant(t)
  {
    var at := Start(s.host);
    StartInMemory(s);
    RegionsSurvive(s, t.host.mem, at);
    StartAligned(s);
    AppendRegion(s, t, Region(AsI32(at), at, value));
    assert NextOk(t) by {
      MemoryBound(t.host);
      NextAfterStore(at, Need(value), |t.host.mem|);
    }
  }

  lemma HostStepKeepsInvariant(s: Session, value: seq<Byte>, grant: bool)
    requires Invariant(s)
    ensures Invariant(HostStep(s, value, grant))
    ensures s.regions <= HostStep(s, value, grant).regions
  {
    if Ready(s.host, value, grant).Ok? {
      StartInMemory(s);
      WriteFacts(s.host, value, grant);
      FullMemoryRefuses(s, value, grant);
      PlacedKeepsInvariant(s, HostStep(s, value, grant), value);
    } else {
      FailedWriteChangesNothing(s.host, value, grant);
    }
  }

  lemma HoldsAfterWrite(mem: seq<Byte>, at: nat, b: Byte, r: Region)
    requires Holds(mem, r) && at < |mem| && (at < r.start || End(r) <= at)
    ensures Holds(mem[at := b], r)
  {
    var mem' := mem[at := b];
    assert mem'[r.start..r.start + 4] == mem[r.start..r.start + 4];
    assert mem'[r.start + 4..r.start + 4 + |r.value|] == mem[r.start + 4..r.start + 4 + |r.value|];
  }

  lemma GuestWriteKeepsInvariant(s: Session, at: nat, b: Byte)
    requires Invariant(s) && OpOk(s, GuestWrite(at, b))
    ensures Invariant(Step(s, GuestWrite(at, b)))
  {
    var t := Step(s, GuestWrite(at, b));
    forall i | 0 <= i < |s.regions| ensures Holds(t.host.mem, s.regions[i]) {
      HoldsAfterWrite(s.host.mem, at, b, s.regions[i]);
    }
  }

  lemma WholePages(n: nat, pages: nat)
    requires n % 65_536 == 0
    ensures (n + pages * 65_536) % 65_536 == 0
  {
    var k := n / 65_536;
    assert n + pages * 65_536 == 65_536 * (k + pages);
  }

  lemma GuestGrowKeepsInvariant(s: Session, pages: nat)
    requires Invariant(s) && OpOk(s, GuestGrow(pages))
    ensures Invariant(Step(s, GuestGrow(pages)))
  {
    var mem, t := s.host.mem, Step(s, GuestGrow(pages));
    assert t.host.mem[..|mem|] == mem[..|mem|];
    assert RegionsOk(t) by {
      StartInMemory(s);
      RegionsSurvive(s, t.host.mem, |mem|);
    }
    WholePages(|mem|, pages);
    WithinPages(|t.host.mem|, t.host.maxPages);
  }

  /** Every step keeps all earlier strings readable, disjoint, aligned and inside memory. */
  lemma StepKeepsInvariant(s: Session, op: Op)
    requires Invariant(s) && OpOk(s, op)
    ensures Invariant(Step(s, op)) && s.regions <= Step(s, op).regions
  {
    match op
    case HostWrite(value, grant) => HostStepKeepsInvariant(s, value, grant);
    case GuestWrite(at, b) => GuestWriteKeepsInvariant(s, at, b);
    case GuestGrow(pages) => GuestGrowKeepsInvariant(s, pages);
  }

  predicate RunOk(s: Session, ops: seq<Op>)
    requires MemoryOk(s.host)
    decreases |ops|
  {
    ops == [] || (OpOk(s, ops[0]) && MemoryOk(Step(s, ops[0]).host) && RunOk(Step(s, ops[0]), ops[1..]))
  }

  function Run(s: Session, ops: seq<Op>): Session
    requires MemoryOk(s.host) && RunOk(s, ops)
    decreases |ops|
  {
    if ops == [] then s else Run(Step(s, ops[0]), ops[1..])
  }

  lemma {:induction false} RunKeepsInvariant(s: Session, ops: seq<Op>)
    requires Invariant(s) && RunOk(s, ops)
    ensures Invariant(Run(s, ops)) && s.regions <= Run(s, ops).regions
    decreases |ops|
  {
    if ops != [] {
      StepKeepsInvariant(s, ops[0]);
      RunKeepsInvariant(Step(s, ops[0]), ops[1..]);
    }
  }

  /** Reading succeeds exactly when the pointer is not negative, length and bytes lie in memory, and are text. */
  lemma ReadSucceedsIff(mem: seq<Byte>, ptr: int, utf8: seq<Byte> -> bool)
    ensures Read(mem, ptr, utf8).Ok? <==>
      && 0 <= ptr && ptr + 4 <= |mem|
      && var end := ptr + 4 + FromLe32(mem[ptr..ptr + 4]);
         end <= |mem| && utf8(mem[ptr + 4..end])
  {
  }

  /** A region reads back as its text exactly when its offset fits a non-negative pointer. */
  lemma ReadsBackIff(mem: seq<Byte>, r: Region, utf8: seq<Byte> -> bool)
    requires Holds(mem, r) && |mem| <= 0x1_0000_0000 && r.ptr == AsI32(r.start) && utf8(r.value)
    ensures Read(mem, r.ptr, utf8) == Ok(r.value) <==> r.start < 0x8000_0000
  {
    SmallWord(r.start);
    SmallWord(|r.value|);
    HeaderRoundTrip(|r.value|);
  }

  /**
   Round trip and non-interference: from an untouched arena, after any mix of host writes, guest
   writes elsewhere and guest growth, every pointer ever returned still reads back its own text
   (exactly those below 2^31 can be read), and the strings lie one after another, 4-aligned, from
   the memory's size at first use on, inside memory.
   */
  lemma RunRoundTrip(mem: seq<Byte>, maxPages: nat, ops: seq<Op>, utf8: seq<Byte> -> bool, i: nat)
    requires MemoryOk(Host(0, mem, maxPages))
    requires var s := Session(Host(0, mem, maxPages), 0, []); RunOk(s, ops) && i < |Run(s, ops).regions|
    ensures var t := Run(Session(Host(0, mem, maxPages), 0, []), ops); var r := t.regions[i];
      && (utf8(r.value) ==> (Read(t.host.mem, r.ptr, utf8) == Ok(r.value) <==> r.start < 0x8000_0000))
      && r.start % 4 == 0 && t.base <= r.start && End(r) <= |t.host.mem|
      && (forall j | i < j < |t.regions| :: End(r) <= t.regions[j].start)
  {
    var s := Session(Host(0, mem, maxPages), 0, []);
    RunKeepsInvariant(s, ops);
    var t := Run(s, ops);
    MemoryBound(t.host);
    if utf8(t.regions[i].value) {
      ReadsBackIff(t.host.mem, t.regions[i], utf8);
    }
  }

  // ---- what the guest keeps in pages it grows --------------------------------------------

  /** The same state with other bytes from `lo` on. */
  function WithTail(h: Host, lo: nat, tail: seq<Byte>): Host
    requires lo <= |h.mem|
  {
    h.(mem := h.mem[..lo] + tail)
  }

  /** Whatever the guest keeps from `lo` on, the write leaves it alone. */
  ghost predicate Spares(h: Host, value: seq<Byte>, grant: bool, lo: nat)
    requires lo <= |h.mem| && MemoryOk(h)
  {
    forall tail: seq<Byte> | |tail| == |h.mem| - lo ::
      var t := Write(WithTail(h, lo, tail), value, grant).1;
      |h.mem| <= |t.mem| && t.mem[lo..|h.mem|] == tail
  }

  /** The bytes a write puts down. */
  function Image(value: seq<Byte>): seq<Byte> {
    Le32(|value| % 0x1_0000_0000) + value
  }

  /** Storing puts the image at the arena's offset and keeps all else. */
  lemma StoreIsImage(h: Host, value: seq<Byte>)
    requires h.next + Need(value) <= |h.mem|
    ensures Store(h, value).mem == h.mem[..h.next] + Image(value) + h.mem[h.next + |Image(value)|..]
  {
    var at, header := h.next, Le32(|value| % 0x1_0000_0000);
    var m1 := Put(h.mem, at, header);
    assert m1[..at + 4] == h.mem[..at] + header;
    assert m1[at + 4 + |value|..] == h.mem[at + 4 + |value|..];
  }

  lemma WriteIsImage(h: Host, value: seq<Byte>, grant: bool)
    requires MemoryOk(h) && h.next != 0 && h.next <= |h.mem| && Ready(h, value, grant).Ok?
    ensures var t, end := Write(h, value, grant).1.mem, h.next + |Image(value)|;
      && |h.mem| <= |t| && end <= |t| && t[h.next..end] == Image(value)
      && (forall k | 0 <= k < |h.mem| && (k < h.next || end <= k) :: t[k] == h.mem[k])
  {
    ReadyFacts(h, value, grant);
    StoreIsImage(Ready(h, value, grant).value, value);
  }

  lemma ReadyIgnoresTail(h: Host, value: seq<Byte>, grant: bool, lo: nat, tail: seq<Byte>)
    requires MemoryOk(h) && h.next != 0 && lo <= |h.mem| && |tail| == |h.mem| - lo && Ready(h, value, grant).Ok?
    ensures var g := WithTail(h, lo, tail); |g.mem| == |h.mem| && MemoryOk(g) && Ready(g, value, grant).Ok?
  {
  }

  lemma SparesFar(h: Host, value: seq<Byte>, grant: bool, lo: nat, tail: seq<Byte>)
    requires MemoryOk(h) && h.next != 0 && h.next <= lo <= |h.mem| && Ready(h, value, grant).Ok?
    requires |tail| == |h.mem| - lo && (lo == |h.mem| || h.next + |Image(value)| <= lo)
    ensures var t := Write(WithTail(h, lo, tail), value, grant).1;
      |h.mem| <= |t.mem| && t.mem[lo..|h.mem|] == tail
  {
    var g := WithTail(h, lo, tail);
    ReadyIgnoresTail(h, value, grant, lo, tail);
    WriteIsImage(g, value, grant);
    var t := Write(g, value, grant).1;
    forall k | lo <= k < |h.mem| ensures t.mem[k] == tail[k - lo] {
      assert g.mem[k] == tail[k - lo];
    }
  }

  lemma HitsNear(h: Host, value: seq<Byte>, grant: bool, lo: nat)
    requires MemoryOk(h) && h.next != 0 && h.next <= lo < |h.mem| && Ready(h, value, grant).Ok?
    requires lo < h.next + |Image(value)|
    ensures !Spares(h, value, grant, lo)
  {
    var w := Image(value)[lo - h.next];
    var tail := [if w == 0 then 1 else 0] + Zeros(|h.mem| - lo - 1);
    var g := WithTail(h, lo, tail);
    ReadyIgnoresTail(h, value, grant, lo, tail);
    WriteIsImage(g, value, grant);
    var t := Write(g, value, grant).1;
    assert t.mem[lo] == t.mem[h.next..h.next + |Image(value)|][lo - h.next] == w;
    assert tail[0] != w && t.mem[lo..|h.mem|][0] == t.mem[lo];
  }

  /**
   The arena is placed behind the guest's memory, but later strings follow it upwards: a write leaves
   the pages the guest has grown at `lo` alone exactly when it ends before them.
   */
  lemma GuestPagesSparedIff(h: Host, value: seq<Byte>, grant: bool, lo: nat)
    requires MemoryOk(h) && h.next != 0 && h.next <= lo <= |h.mem| && Ready(h, value, grant).Ok?
    ensures Spares(h, value, grant, lo) <==> lo == |h.mem| || h.next + 4 + |value| <= lo
  {
    if lo == |h.mem| || h.next + |Image(value)| <= lo {
      forall tail: seq<Byte> | |tail| == |h.mem| - lo
        ensures var t := Write(WithTail(h, lo, tail), value, grant).1;
          |h.mem| <= |t.mem| && t.mem[lo..|h.mem|] == tail
      {
        SparesFar(h, value, grant, lo, tail);
      }
    } else {
      HitsNear(h, value, grant, lo);
    }
  }

  /** The state after a first empty string in a one-page memory, and after the guest grew a page. */
  lemma GuestGrowsBehind(h: Host) returns (placed: Host, grown: Host)
    requires h.next == 0 && |h.mem| == 65_536 && h.maxPages == 4
    ensures placed == Write(h, [], true).1 && grown == placed.(mem := placed.mem + Zeros(65_536))
    ensures placed.next == 65_540 && |placed.mem| == 131_072 && MemoryOk(grown) && |grown.mem| == 196_608
  {
    placed := Write(h, [], true).1;
    grown := placed.(mem := placed.mem + Zeros(65_536));
    WriteSucceedsIff(h, [], true);
    ReadyFacts(h, [], true);
    PlaceFacts(h, [], true);
    assert Need([]) == 4;
    assert PagesFor(65_540) == 2;
  }

  /** An instance: a host string of 64 KiB runs into the page the guest has just grown. */
  lemma HostStringHitsGuestPage(h: Host, value: seq<Byte>)
    requires h.next == 0 && |h.mem| == 65_536 && h.maxPages == 4 && |value| == 65_536
    ensures var placed := Write(h, [], true).1; var grown := placed.(mem := placed.mem + Zeros(65_536));
      && MemoryOk(h) && MemoryOk(grown) && |placed.mem| <= |grown.mem|
      && Write(grown, value, true).0.Ok? && !Spares(grown, value, true, |placed.mem|)
  {
    var placed, grown := GuestGrowsBehind(h);
    WriteSucceedsIff(grown, value, true);
    GuestPagesSparedIff(grown, value, true, 131_072);
  }

  lemma LimitIsNegative()
    ensures AsI32(0x8000_0000) == -0x8000_0000
  {
  }

  lemma NegativeReadsNothing(mem: seq<Byte>, ptr: int, utf8: seq<Byte> -> bool)
    requires ptr < 0
    ensures Read(mem, ptr, utf8).Err?
  {
  }

  /** An instance at the pointers' limit: a string placed at 2 GiB gets a pointer that reads nothing. */
  lemma TwoGigabytesCannotBeRead(h: Host, value: seq<Byte>, grant: bool, utf8: seq<Byte> -> bool)
    requires MemoryOk(h) && h.next == 0 && |h.mem| == 0x8000_0000 && Ready(h, value, grant).Ok?
    ensures var w := Write(h, value, grant);
      w.0 == Ok(-0x8000_0000) && Read(w.1.mem, -0x8000_0000, utf8).Err?
  {
    WriteFacts(h, value, grant);
    LimitIsNegative();
    NegativeReadsNothing(Write(h, value, grant).1.mem, -0x8000_0000, utf8);
  }
}
