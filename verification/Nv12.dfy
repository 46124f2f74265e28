/**
 NV12 frames and their quarter turns: a luma plane of bytes and a chroma plane of byte pairs,
 half as wide and half as high.
 */
module Nv12 {
  import opened Text

  type Byte = x: int | 0 <= x < 256

  datatype Plane<T> = Plane(w: nat, h: nat, data: seq<T>)

  predicate Shaped<T>(p: Plane<T>) {
    |p.data| == p.w * p.h
  }

  // ---- index arithmetic ------------------------------------------------------------------

  /** Row-major position in rows of `w`. */
  function Idx(w: nat, x: nat, y: nat): nat {
    y * w + x
  }

  /** Its bounds, and the way back. */
  lemma Position(w: nat, h: nat, x: nat, y: nat)
    requires x < w && y < h
    ensures Idx(w, x, y) < w * h
    ensures Idx(w, x, y) / w == y && Idx(w, x, y) % w == x
  {
    MulOrder(y, h, w);
    DivUnique(Idx(w, x, y), w, y, x);
  }

  lemma MulOrder(a: nat, b: nat, w: nat)
    ensures a < b ==> a * w + w <= b * w
    ensures a <= b ==> a * w <= b * w
  {
    if a < b {
      var d := b - a - 1;
      assert b * w == a * w + w + d * w;
    }
  }

  lemma DivUnique(i: nat, w: nat, y: nat, x: nat)
    requires x < w && i == y * w + x
    ensures i / w == y && i % w == x
  {
    var q := i / w;
    assert i == q * w + i % w;
    MulOrder(q, y, w);
    MulOrder(y, q, w);
  }

  lemma Coordinates(w: nat, h: nat, i: nat)
    requires i < w * h
    ensures w > 0 && h > 0 && i % w < w && i / w < h && i == Idx(w, i % w, i / w)
  {
    MulOrder(h, i / w, w);
  }

  function At<T>(p: Plane<T>, x: nat, y: nat): T
    requires Shaped(p) && x < p.w && y < p.h
  {
    Position(p.w, p.h, x, y);
    p.data[Idx(p.w, x, y)]
  }

  /** Two planes of one shape that agree everywhere are the same plane. */
  lemma SamePlane<T>(p: Plane<T>, q: Plane<T>)
    requires Shaped(p) && Shaped(q) && p.w == q.w && p.h == q.h
    requires forall x: nat, y: nat | x < p.w && y < p.h :: At(p, x, y) == At(q, x, y)
    ensures p == q
  {
    forall i | 0 <= i < |p.data| ensures p.data[i] == q.data[i] {
      Coordinates(p.w, p.h, i);
      assert At(p, i % p.w, i / p.w) == At(q, i % p.w, i / p.w);
    }
  }

  /** The plane whose sample at (x, y) is `f(x, y)`. */
  function Build<T>(w: nat, h: nat, f: (nat, nat) --> T): (p: Plane<T>)
    requires forall x: nat, y: nat | x < w && y < h :: f.requires(x, y)
    ensures Shaped(p) && p.w == w && p.h == h
    ensures forall x: nat, y: nat | x < w && y < h :: At(p, x, y) == f(x, y)
  {
    CoordinatesAll(w, h);
    var p := Plane(w, h, seq(w * h, i requires 0 <= i < w * h => f(i % w, i / w)));
    PositionAll(w, h);
    p
  }

  lemma CoordinatesAll(w: nat, h: nat)
    ensures forall i: nat | i < w * h :: w > 0 && i % w < w && i / w < h
  {
    forall i: nat | i < w * h ensures w > 0 && i % w < w && i / w < h {
      Coordinates(w, h, i);
    }
  }

  lemma PositionAll(w: nat, h: nat)
    ensures forall x: nat, y: nat {:trigger Idx(w, x, y)} | x < w && y < h ::
      Idx(w, x, y) < w * h && Idx(w, x, y) / w == y && Idx(w, x, y) % w == x
  {
    forall x: nat, y: nat {:trigger Idx(w, x, y)} | x < w && y < h
      ensures Idx(w, x, y) < w * h && Idx(w, x, y) / w == y && Idx(w, x, y) % w == x
    {
      Position(w, h, x, y);
    }
  }

  // ---- quarter turns -----------------------------------------------------------------------

  /** A number of clockwise quarter turns. */
  type Turns = q: nat | q < 4

  function OutW(q: Turns, w: nat, h: nat): nat {
    if q % 2 == 0 then w else h
  }

  function OutH(q: Turns, w: nat, h: nat): nat {
    if q % 2 == 0 then h else w
  }

  /** The source sample of output position (dx, dy): its column and its row. */
  function SrcX(q: Turns, w: nat, h: nat, dx: nat, dy: nat): (sx: nat)
    requires dx < OutW(q, w, h) && dy < OutH(q, w, h)
    ensures sx < w
  {
    match q
    case 0 => dx
    case 1 => dy
    case 2 => w - 1 - dx
    case 3 => w - 1 - dy
  }

  function SrcY(q: Turns, w: nat, h: nat, dx: nat, dy: nat): (sy: nat)
    requires dx < OutW(q, w, h) && dy < OutH(q, w, h)
    ensures sy < h
  {
    match q
    case 0 => dy
    case 1 => h - 1 - dx
    case 2 => h - 1 - dy
    case 3 => dx
  }

  function Turn<T>(q: Turns, p: Plane<T>): (r: Plane<T>)
    requires Shaped(p)
    ensures Shaped(r) && r.w == OutW(q, p.w, p.h) && r.h == OutH(q, p.w, p.h)
    ensures forall x: nat, y: nat | x < r.w && y < r.h ::
      At(r, x, y) == At(p, SrcX(q, p.w, p.h, x, y), SrcY(q, p.w, p.h, x, y))
  {
    Build(OutW(q, p.w, p.h), OutH(q, p.w, p.h),
          (x: nat, y: nat) requires x < OutW(q, p.w, p.h) && y < OutH(q, p.w, p.h) =>
            At(p, SrcX(q, p.w, p.h, x, y), SrcY(q, p.w, p.h, x, y)))
  }

  function Add(a: Turns, b: Turns): Turns {
    (a + b) % 4
  }

  /** Where a sample of the source goes: the coordinates of the turned-back position. */
  function DstX(q: Turns, w: nat, h: nat, sx: nat, sy: nat): nat
    requires sx < w && sy < h
  {
    match q
    case 0 => sx
    case 1 => h - 1 - sy
    case 2 => w - 1 - sx
    case 3 => sy
  }

  function DstY(q: Turns, w: nat, h: nat, sx: nat, sy: nat): nat
    requires sx < w && sy < h
  {
    match q
    case 0 => sy
    case 1 => sx
    case 2 => h - 1 - sy
    case 3 => w - 1 - sx
  }

  /** Every output position takes its own source sample and every source sample is taken: a bijection. */
  lemma TurnIsBijection(q: Turns, w: nat, h: nat)
    ensures forall dx: nat, dy: nat | dx < OutW(q, w, h) && dy < OutH(q, w, h) ::
      var sx, sy := SrcX(q, w, h, dx, dy), SrcY(q, w, h, dx, dy);
      sx < w && sy < h && DstX(q, w, h, sx, sy) == dx && DstY(q, w, h, sx, sy) == dy
    ensures forall sx: nat, sy: nat | sx < w && sy < h ::
      var dx, dy := DstX(q, w, h, sx, sy), DstY(q, w, h, sx, sy);
      dx < OutW(q, w, h) && dy < OutH(q, w, h) && SrcX(q, w, h, dx, dy) == sx && SrcY(q, w, h, dx, dy) == sy
  {
  }

  lemma TurnAt<T>(q: Turns, p: Plane<T>, x: nat, y: nat)
    requires Shaped(p) && x < OutW(q, p.w, p.h) && y < OutH(q, p.w, p.h)
    ensures At(Turn(q, p), x, y) == At(p, SrcX(q, p.w, p.h, x, y), SrcY(q, p.w, p.h, x, y))
  {
  }

  lemma ComposeAt<T>(a: Turns, b: Turns, p: Plane<T>, x: nat, y: nat)
    requires Shaped(p) && x < OutW(b, Turn(a, p).w, Turn(a, p).h) && y < OutH(b, Turn(a, p).w, Turn(a, p).h)
    ensures x < Turn(Add(a, b), p).w && y < Turn(Add(a, b), p).h
    ensures At(Turn(b, Turn(a, p)), x, y) == At(Turn(Add(a, b), p), x, y)
  {
    var once := Turn(a, p);
    SourcesCompose(a, b, p.w, p.h, x, y);
    TurnAt(b, once, x, y);
    TurnAt(a, p, SrcX(b, once.w, once.h, x, y), SrcY(b, once.w, once.h, x, y));
    TurnAt(Add(a, b), p, x, y);
  }

  /** Turning by `a` and then by `b` is turning by their sum, on any plane. */
  lemma TurnsCompose<T>(a: Turns, b: Turns, p: Plane<T>)
    requires Shaped(p)
    ensures Turn(b, Turn(a, p)) == Turn(Add(a, b), p)
  {
    var twice, direct := Turn(b, Turn(a, p)), Turn(Add(a, b), p);
    assert twice.w == direct.w && twice.h == direct.h;
    forall x: nat, y: nat | x < twice.w && y < twice.h
      ensures At(twice, x, y) == At(direct, x, y)
    {
      ComposeAt(a, b, p, x, y);
    }
    SamePlane(twice, direct);
  }

  lemma SourcesCompose(a: Turns, b: Turns, w: nat, h: nat, x: nat, y: nat)
    requires x < OutW(b, OutW(a, w, h), OutH(a, w, h)) && y < OutH(b, OutW(a, w, h), OutH(a, w, h))
    ensures var x', y' := SrcX(b, OutW(a, w, h), OutH(a, w, h), x, y), SrcY(b, OutW(a, w, h), OutH(a, w, h), x, y);
      && x < OutW(Add(a, b), w, h) && y < OutH(Add(a, b), w, h)
      && SrcX(a, w, h, x', y') == SrcX(Add(a, b), w, h, x, y)
      && SrcY(a, w, h, x', y') == SrcY(Add(a, b), w, h, x, y)
  {
  }

  lemma NoTurn<T>(p: Plane<T>)
    requires Shaped(p)
    ensures Turn(0, p) == p
  {
    SamePlane(Turn(0, p), p);
  }

  /**
   On an even grid the chroma pair that covers an output pixel comes from the chroma pair that
   covers the pixel's own source, so colour stays with its light.
   */
  lemma PlanesStayTogether(q: Turns, w: nat, h: nat, dx: nat, dy: nat)
    requires w % 2 == 0 && h % 2 == 0 && dx < OutW(q, w, h) && dy < OutH(q, w, h)
    ensures dx / 2 < OutW(q, w / 2, h / 2) && dy / 2 < OutH(q, w / 2, h / 2)
    ensures SrcX(q, w / 2, h / 2, dx / 2, dy / 2) == SrcX(q, w, h, dx, dy) / 2
    ensures SrcY(q, w / 2, h / 2, dx / 2, dy / 2) == SrcY(q, w, h, dx, dy) / 2
  {
  }

  // ---- frames ------------------------------------------------------------------------------

  type Pair = (Byte, Byte)

  /** A packed NV12 frame: one byte per pixel, and the interleaved chroma bytes. */
  datatype Frame = Frame(y: seq<Byte>, uv: seq<Byte>, w: nat, h: nat)

  /** The visible part of a luma buffer with padded rows. */
  function Luma(data: seq<Byte>, stride: nat, w: nat, h: nat): (p: Plane<Byte>)
    requires w <= stride && stride * h <= |data|
    ensures Shaped(p) && p.w == w && p.h == h
    ensures forall x: nat, y: nat | x < w && y < h ::
      Idx(stride, x, y) < |data| && At(p, x, y) == data[Idx(stride, x, y)]
  {
    StrideInside(stride, w, h, |data|);
    Build(w, h, (x: nat, y: nat) requires x < w && y < h => data[Idx(stride, x, y)])
  }

  /** The visible pairs of an interleaved chroma buffer with padded rows. */
  function Chroma(data: seq<Byte>, stride: nat, cw: nat, ch: nat): (p: Plane<Pair>)
    requires 2 * cw <= stride && stride * ch <= |data|
    ensures Shaped(p) && p.w == cw && p.h == ch
    ensures forall x: nat, y: nat | x < cw && y < ch ::
      Idx(stride, 2 * x, y) < |data| && Idx(stride, 2 * x + 1, y) < |data|
      && At(p, x, y) == (data[Idx(stride, 2 * x, y)], data[Idx(stride, 2 * x + 1, y)])
  {
    StrideInside(stride, 2 * cw, ch, |data|);
    Build(cw, ch, (x: nat, y: nat) requires x < cw && y < ch =>
      (data[Idx(stride, 2 * x, y)], data[Idx(stride, 2 * x + 1, y)]))
  }

  lemma StrideInside(stride: nat, w: nat, h: nat, size: nat)
    requires w <= stride && stride * h <= size
    ensures forall x: nat, y: nat {:trigger Idx(stride, x, y)} | x < w && y < h :: Idx(stride, x, y) < size
  {
    forall x: nat, y: nat {:trigger Idx(stride, x, y)} | x < w && y < h ensures Idx(stride, x, y) < size {
      MulOrder(y, h, stride);
    }
  }

  function Interleave(pairs: seq<Pair>): seq<Byte> {
    seq(2 * |pairs|, i requires 0 <= i < 2 * |pairs| => if i % 2 == 0 then pairs[i / 2].0 else pairs[i / 2].1)
  }

  /** The quarter turns a rotation in degrees snaps to. */
  function Quarters(degrees: nat): Turns {
    var d := degrees % 360;
    if d <= 44 || 316 <= d then 0
    else if d <= 134 then 1
    else if d <= 224 then 2
    else 3
  }

  function Oriented(q: Turns, y: Plane<Byte>, uv: Plane<Pair>): Frame
    requires Shaped(y) && Shaped(uv)
  {
    Frame(Turn(q, y).data, Interleave(Turn(q, uv).data), OutW(q, y.w, y.h), OutH(q, y.w, y.h))
  }

  /** A source frame with padded rows, as the camera hands it over. */
  datatype Source = Source(y: seq<Byte>, uv: seq<Byte>, w: nat, h: nat, yStride: nat, uvStride: nat)

  /** Even, non-empty, and with enough bytes for its strides. */
  predicate Usable(s: Source) {
    && s.w != 0 && s.h != 0 && s.w % 2 == 0 && s.h % 2 == 0
    && s.w <= s.yStride && s.w <= s.uvStride
    && s.yStride * s.h <= |s.y| && s.uvStride * (s.h / 2) <= |s.uv|
  }

  function LumaOf(s: Source): (p: Plane<Byte>)
    requires Usable(s)
    ensures Shaped(p) && p.w == s.w && p.h == s.h
  {
    Luma(s.y, s.yStride, s.w, s.h)
  }

  function ChromaOf(s: Source): (p: Plane<Pair>)
    requires Usable(s)
    ensures Shaped(p) && p.w == s.w / 2 && p.h == s.h / 2
  {
    Chroma(s.uv, s.uvStride, s.w / 2, s.h / 2)
  }

  function Orient(s: Source, rotation: nat): Option<Frame> {
    if Usable(s)
    then Some(Oriented(Quarters(rotation), LumaOf(s), ChromaOf(s)))
    else None
  }

  /** A frame as the source of the next turn: its rows have no padding. */
  function Repacked(f: Frame): Source {
    Source(f.y, f.uv, f.w, f.h, f.w, f.w)
  }

  // ---- frame laws --------------------------------------------------------------------------

  lemma LumaOfPacked(p: Plane<Byte>)
    requires Shaped(p)
    ensures Luma(p.data, p.w, p.w, p.h) == p
  {
    SamePlane(Luma(p.data, p.w, p.w, p.h), p);
  }

  lemma InterleavedPair(pairs: seq<Pair>, k: nat)
    requires k < |pairs|
    ensures 2 * k + 1 < |Interleave(pairs)|
    ensures (Interleave(pairs)[2 * k], Interleave(pairs)[2 * k + 1]) == pairs[k]
  {
  }

  lemma ChromaOfInterleaved(p: Plane<Pair>)
    requires Shaped(p)
    ensures |Interleave(p.data)| == (2 * p.w) * p.h
    ensures Chroma(Interleave(p.data), 2 * p.w, p.w, p.h) == p
  {
    assert 2 * (p.w * p.h) == (2 * p.w) * p.h;
    var q := Chroma(Interleave(p.data), 2 * p.w, p.w, p.h);
    forall x: nat, y: nat | x < p.w && y < p.h ensures At(q, x, y) == At(p, x, y) {
      PairPosition(p.w, x, y);
      Position(p.w, p.h, x, y);
      InterleavedPair(p.data, Idx(p.w, x, y));
    }
    SamePlane(q, p);
  }

  lemma PairPosition(cw: nat, x: nat, y: nat)
    ensures Idx(2 * cw, 2 * x, y) == 2 * Idx(cw, x, y)
    ensures Idx(2 * cw, 2 * x + 1, y) == 2 * Idx(cw, x, y) + 1
  {
    assert y * (2 * cw) == 2 * (y * cw);
  }

  /**
   Orienting twice is orienting once by the sum of the two snapped rotations: both planes, both
   dimensions.
   */
  lemma OrientTwice(s: Source, a: nat, b: nat)
    requires Usable(s)
    ensures var f := Orient(s, a).value;
      Orient(Repacked(f), b) == Some(Oriented(Add(Quarters(a), Quarters(b)),
        Luma(s.y, s.yStride, s.w, s.h), Chroma(s.uv, s.uvStride, s.w / 2, s.h / 2)))
  {
    var f := Orient(s, a).value;
    var qa, qb := Quarters(a), Quarters(b);
    var y, uv := Luma(s.y, s.yStride, s.w, s.h), Chroma(s.uv, s.uvStride, s.w / 2, s.h / 2);
    var y', uv' := Turn(qa, y), Turn(qa, uv);
    LumaOfPacked(y');
    ChromaOfInterleaved(uv');
    assert f.w == y'.w == 2 * uv'.w && f.h == y'.h == 2 * uv'.h;
    TurnsCompose(qa, qb, y);
    TurnsCompose(qa, qb, uv);
  }

  lemma CardinalsAdd(a: nat, b: nat)
    requires a % 90 == 0 && b % 90 == 0
    ensures Quarters((a + b) % 360) == Add(Quarters(a), Quarters(b))
  {
    var i, j := a / 90, b / 90;
    assert a == 90 * i && b == 90 * j;
    CardinalIsQuarters(i);
    CardinalIsQuarters(j);
    CardinalIsQuarters(i + j);
    SnapIgnoresFullTurns(a + b);
    RemaindersAdd(i, j);
  }

  lemma SnapIgnoresFullTurns(d: nat)
    ensures Quarters(d % 360) == Quarters(d)
  {
  }

  lemma RemaindersAdd(i: nat, j: nat)
    ensures (i % 4 + j % 4) % 4 == (i + j) % 4
  {
  }

  lemma CardinalIsQuarters(i: nat)
    ensures Quarters(90 * i) == i % 4
  {
    assert i == 4 * (i / 4) + i % 4;
    assert 90 * i == 360 * (i / 4) + 90 * (i % 4);
    assert (90 * i) % 360 == 90 * (i % 4);
  }

  /** Rotation is a group action of the cardinal angles: turning by `a` then `b` is turning by their sum. */
  lemma CardinalRotationsCompose(s: Source, a: nat, b: nat, sum: nat)
    requires Usable(s) && a % 90 == 0 && b % 90 == 0 && sum == (a + b) % 360
    ensures Orient(Repacked(Orient(s, a).value), b) == Orient(s, sum)
  {
    OrientTwice(s, a, b);
    CardinalsAdd(a, b);
  }

  /** Sideways and back is no change at all, and twice sideways is upside down. */
  lemma SidewaysAndBack(s: Source)
    requires Usable(s)
    ensures Orient(Repacked(Orient(s, 90).value), 270) == Orient(s, 0)
    ensures Orient(Repacked(Orient(s, 90).value), 90) == Orient(s, 180)
  {
    CardinalRotationsCompose(s, 90, 270, 0);
    CardinalRotationsCompose(s, 90, 90, 180);
  }

  /** The snapped rotation is a nearest quarter turn: never more than 45 degrees away around the circle. */
  lemma SnapsToNearest(degrees: nat)
    ensures var d, snapped := degrees % 360, 90 * Quarters(degrees);
      var apart := if d < snapped then snapped - d else d - snapped;
      apart <= 45 || 360 - apart <= 45
  {
  }

  /** A quarter turn is clockwise: what was at (x, y) comes to (h - 1 - y, x). */
  lemma QuarterTurnIsClockwise<T>(p: Plane<T>, x: nat, y: nat)
    requires Shaped(p) && x < p.w && y < p.h
    ensures Turn(1, p).w == p.h && Turn(1, p).h == p.w
    ensures At(Turn(1, p), p.h - 1 - y, x) == At(p, x, y)
  {
    TurnAt(1, p, p.h - 1 - y, x);
  }

  lemma FrameByte(q: Turns, y: Plane<Byte>, uv: Plane<Pair>, dx: nat, dy: nat)
    requires Shaped(y) && Shaped(uv) && dx < OutW(q, y.w, y.h) && dy < OutH(q, y.w, y.h)
    ensures var f, i := Oriented(q, y, uv), Idx(OutW(q, y.w, y.h), dx, dy);
      i < |f.y| && f.y[i] == At(Turn(q, y), dx, dy)
  {
    Position(OutW(q, y.w, y.h), OutH(q, y.w, y.h), dx, dy);
  }

  lemma FramePair(q: Turns, y: Plane<Byte>, uv: Plane<Pair>, dx: nat, dy: nat)
    requires Shaped(y) && Shaped(uv) && dx < OutW(q, uv.w, uv.h) && dy < OutH(q, uv.w, uv.h)
    ensures var f, k := Oriented(q, y, uv), 2 * Idx(OutW(q, uv.w, uv.h), dx, dy);
      k + 1 < |f.uv| && (f.uv[k], f.uv[k + 1]) == At(Turn(q, uv), dx, dy)
  {
    Position(OutW(q, uv.w, uv.h), OutH(q, uv.w, uv.h), dx, dy);
    InterleavedPair(Turn(q, uv).data, Idx(OutW(q, uv.w, uv.h), dx, dy));
  }

  /** A frame turned by one quarter, pixel by pixel and pair by pair. */
  lemma ClockwiseFrame(y: Plane<Byte>, uv: Plane<Pair>, px: nat, py: nat)
    requires Shaped(y) && Shaped(uv) && px < y.w && py < y.h
    ensures var f, i := Oriented(1, y, uv), Idx(y.h, y.h - 1 - py, px);
      f.w == y.h && f.h == y.w && i < |f.y| && f.y[i] == At(y, px, py)
  {
    QuarterTurnIsClockwise(y, px, py);
    FrameByte(1, y, uv, y.h - 1 - py, px);
  }

  lemma ClockwisePairs(y: Plane<Byte>, uv: Plane<Pair>, cx: nat, cy: nat)
    requires Shaped(y) && Shaped(uv) && cx < uv.w && cy < uv.h
    ensures var f, k := Oriented(1, y, uv), 2 * Idx(uv.h, uv.h - 1 - cy, cx);
      k + 1 < |f.uv| && (f.uv[k], f.uv[k + 1]) == At(uv, cx, cy)
  {
    QuarterTurnIsClockwise(uv, cx, cy);
    FramePair(1, y, uv, uv.h - 1 - cy, cx);
  }

  lemma OrientIs(s: Source, rotation: nat, q: Turns, y: Plane<Byte>, uv: Plane<Pair>)
    requires Usable(s) && Quarters(rotation) == q && y == LumaOf(s) && uv == ChromaOf(s)
    ensures Orient(s, rotation) == Some(Oriented(q, y, uv))
  {
  }

  /** Exactly the empty, odd and short frames are rejected, whatever the rotation. */
  lemma RejectedIff(s: Source, rotation: nat)
    ensures Orient(s, rotation).None? <==>
      || s.w == 0 || s.h == 0 || s.w % 2 == 1 || s.h % 2 == 1 || s.yStride < s.w || s.uvStride < s.w
      || |s.y| < s.yStride * s.h || |s.uv| < s.uvStride * (s.h / 2)
  {
  }

  /** A rotation by 90 turns the frame clockwise: the pixel at (x, y) comes to (h - 1 - y, x). */
  lemma NinetyMovesPixels(s: Source, x: nat, y: nat)
    requires Usable(s) && x < s.w && y < s.h
    ensures Orient(s, 90).Some? && var f, i := Orient(s, 90).value, Idx(s.h, s.h - 1 - y, x);
      f.w == s.h && f.h == s.w && i < |f.y| && f.y[i] == At(LumaOf(s), x, y)
  {
    var luma, chroma := LumaOf(s), ChromaOf(s);
    OrientIs(s, 90, 1, luma, chroma);
    ClockwiseFrame(luma, chroma, x, y);
  }

  /** Each chroma pair comes along, its two bytes in order. */
  lemma NinetyMovesPairs(s: Source, cx: nat, cy: nat)
    requires Usable(s) && cx < s.w / 2 && cy < s.h / 2
    ensures Orient(s, 90).Some? && var f, k := Orient(s, 90).value, 2 * Idx(s.h / 2, s.h / 2 - 1 - cy, cx);
      k + 1 < |f.uv| && (f.uv[k], f.uv[k + 1]) == At(ChromaOf(s), cx, cy)
  {
    var luma, chroma := LumaOf(s), ChromaOf(s);
    OrientIs(s, 90, 1, luma, chroma);
    ClockwisePairs(luma, chroma, cx, cy);
  }

  // ---- rotations that are snapped --------------------------------------------------------

  /** How far a rotation is from the quarter turn it snaps to, clockwise. */
  function Nudge(degrees: nat): int {
    var d := degrees % 360;
    if Quarters(degrees) == 0 && d >= 316 then d - 360 else d - 90 * Quarters(degrees)
  }

  /** A rotation this far from `q` quarter turns still snaps to `q`. */
  predicate WithinSnap(q: Turns, nudge: int) {
    match q
    case 0 => -44 <= nudge <= 44
    case 1 => -45 <= nudge <= 44
    case 2 => -45 <= nudge <= 44
    case 3 => -45 <= nudge <= 45
  }

  lemma NudgeIsSmall(degrees: nat)
    ensures WithinSnap(Quarters(degrees), Nudge(degrees))
    ensures degrees % 360 == (90 * Quarters(degrees) + Nudge(degrees)) % 360
  {
  }

  /** Around a quarter turn the snap range decides where a rotation goes. */
  lemma SnapAround(q: Turns, nudge: int, degrees: nat)
    requires -90 <= nudge <= 90 && degrees % 360 == (90 * q + nudge) % 360
    ensures Quarters(degrees) == q <==> WithinSnap(q, nudge)
  {
  }

  lemma SumAround(a: nat, b: nat)
    ensures (a + b) % 360 == (90 * Add(Quarters(a), Quarters(b)) + (Nudge(a) + Nudge(b))) % 360
  {
    NudgeIsSmall(a);
    NudgeIsSmall(b);
    var qa: int, qb: int := Quarters(a), Quarters(b);
    var na, nb := Nudge(a), Nudge(b);
    var i := a / 360;
    var j := b / 360;
    var ra, rb := a % 360, b % 360;
    assert a == 360 * i + ra && b == 360 * j + rb;
    assert ra == 90 * qa + na || ra == 90 * qa + na + 360;
    assert rb == 90 * qb + nb || rb == 90 * qb + nb + 360;
    var sum: int := Add(Quarters(a), Quarters(b));
    assert sum == qa + qb || sum == qa + qb - 4;
    SameRemainder(a + b, 90 * sum + (na + nb), i + j);
  }

  lemma SameRemainder(x: int, y: int, k: int)
    requires x - y == 360 * k || x - y == 360 * (k + 1) || x - y == 360 * (k + 2) || x - y == 360 * (k + 3)
    ensures x % 360 == y % 360
  {
  }

  /** The snapped turns of a sum. */
  lemma QuartersAddIff(a: nat, b: nat)
    ensures Quarters(a + b) == Add(Quarters(a), Quarters(b))
            <==> WithinSnap(Add(Quarters(a), Quarters(b)), Nudge(a) + Nudge(b))
  {
    NudgeIsSmall(a);
    NudgeIsSmall(b);
    SumAround(a, b);
    SnapAround(Add(Quarters(a), Quarters(b)), Nudge(a) + Nudge(b), a + b);
  }

  /** Four pixels, no two alike, so that the frame looks different in each of the four turns. */
  predicate FourPixels(s: Source) {
    Usable(s) && s.w == 2 && s.h == 2 &&
    var p := LumaOf(s);
    At(p, 0, 0) == 0 && At(p, 1, 0) == 1 && At(p, 0, 1) == 2 && At(p, 1, 1) == 3
  }

  lemma LumaAt(p: Plane<Byte>, data: seq<Byte>, x: nat, y: nat)
    requires |data| == 4 && p == Luma(data, 2, 2, 2) && x < 2 && y < 2
    ensures At(p, x, y) == data[2 * y + x]
  {
    assert Idx(2, x, y) == 2 * y + x;
    assert At(p, x, y) == data[Idx(2, x, y)];
  }

  lemma FourPixelsOf(s: Source)
    requires s.w == s.h == s.yStride == s.uvStride == 2 && |s.y| == 4 && |s.uv| == 2
    requires s.y[0] == 0 && s.y[1] == 1 && s.y[2] == 2 && s.y[3] == 3
    ensures FourPixels(s)
  {
    var p := LumaOf(s);
    LumaAt(p, s.y, 0, 0);
    LumaAt(p, s.y, 1, 0);
    LumaAt(p, s.y, 0, 1);
    LumaAt(p, s.y, 1, 1);
  }

  lemma FourPixelsExist() returns (s: Source)
    ensures FourPixels(s)
  {
    s := Source([0, 1, 2, 3], [0, 0], 2, 2, 2, 2);
    FourPixelsOf(s);
  }

  /** The first byte of the turned frame is the corner that came to the top left. */
  lemma FirstByte(q: Turns, y: Plane<Byte>, uv: Plane<Pair>)
    requires Shaped(y) && Shaped(uv) && y.w == 2 && y.h == 2
    ensures var f := Oriented(q, y, uv);
      f.y != [] && f.y[0] == At(y, SrcX(q, 2, 2, 0, 0), SrcY(q, 2, 2, 0, 0))
  {
    FrameByte(q, y, uv, 0, 0);
    TurnAt(q, y, 0, 0);
  }

  lemma TurnsLookDifferent(s: Source, q: Turns, r: Turns)
    requires FourPixels(s) && q != r
    ensures Oriented(q, LumaOf(s), ChromaOf(s)) != Oriented(r, LumaOf(s), ChromaOf(s))
  {
    var y, uv := LumaOf(s), ChromaOf(s);
    FirstByte(q, y, uv);
    FirstByte(r, y, uv);
  }

  lemma OrientTwiceIs(s: Source, a: nat, b: nat)
    requires Usable(s)
    ensures Orient(Repacked(Orient(s, a).value), b)
            == Some(Oriented(Add(Quarters(a), Quarters(b)), LumaOf(s), ChromaOf(s)))
    ensures Orient(s, a + b) == Some(Oriented(Quarters(a + b), LumaOf(s), ChromaOf(s)))
  {
    OrientTwice(s, a, b);
    OrientIs(s, a + b, Quarters(a + b), LumaOf(s), ChromaOf(s));
  }

  /** For one frame: the turns are what matters. */
  lemma RotationsAddHere(s: Source, a: nat, b: nat)
    requires Usable(s)
    ensures Quarters(a + b) == Add(Quarters(a), Quarters(b)) ==>
      Orient(Repacked(Orient(s, a).value), b) == Orient(s, a + b)
    ensures FourPixels(s) && Quarters(a + b) != Add(Quarters(a), Quarters(b)) ==>
      Orient(Repacked(Orient(s, a).value), b) != Orient(s, a + b)
  {
    OrientTwiceIs(s, a, b);
    if FourPixels(s) && Quarters(a + b) != Add(Quarters(a), Quarters(b)) {
      TurnsLookDifferent(s, Add(Quarters(a), Quarters(b)), Quarters(a + b));
    }
  }

  /** Orienting any frame by `a` and then by `b` is orienting it by `a + b`. */
  ghost predicate RotationsAdd(a: nat, b: nat) {
    forall s: Source | Usable(s) :: Orient(Repacked(Orient(s, a).value), b) == Orient(s, a + b)
  }

  /**
   Two rotations add up for every frame exactly when their distances to the snapped quarter turns add
   up to one that still snaps to the sum of the turns.
   */
  lemma RotationsAddIff(a: nat, b: nat)
    ensures RotationsAdd(a, b) <==> WithinSnap(Add(Quarters(a), Quarters(b)), Nudge(a) + Nudge(b))
  {
    QuartersAddIff(a, b);
    if Quarters(a + b) == Add(Quarters(a), Quarters(b)) {
      forall s: Source | Usable(s) ensures Orient(Repacked(Orient(s, a).value), b) == Orient(s, a + b) {
        RotationsAddHere(s, a, b);
      }
    } else {
      var s := FourPixelsExist();
      RotationsAddHere(s, a, b);
    }
  }

  /** An instance: two nudges of 44 degrees leave the four pixels as they are, one of 88 turns them. */
  lemma NudgesDoNotAdd(s: Source)
    requires FourPixels(s)
    ensures Orient(Repacked(Orient(s, 44).value), 44) == Orient(s, 0) != Orient(s, 88)
  {
    RotationsAddHere(s, 44, 44);
    OrientTwiceIs(s, 44, 44);
    OrientIs(s, 0, 0, LumaOf(s), ChromaOf(s));
  }

  /** Two buffers agree in the first `w` bytes of each of `h` rows, whatever their strides. */
  ghost predicate SameVisible(a: seq<Byte>, aStride: nat, b: seq<Byte>, bStride: nat, w: nat, h: nat) {
    forall x: nat, y: nat | x < w && y < h ::
      && Idx(aStride, x, y) < |a| && Idx(bStride, x, y) < |b|
      && a[Idx(aStride, x, y)] == b[Idx(bStride, x, y)]
  }

  /** What lies in the row padding does not matter: only the visible samples do. */
  lemma PaddingIsIrrelevant(s: Source, t: Source, rotation: nat)
    requires Usable(s) && Usable(t) && s.w == t.w && s.h == t.h
    requires SameVisible(s.y, s.yStride, t.y, t.yStride, s.w, s.h)
    requires SameVisible(s.uv, s.uvStride, t.uv, t.uvStride, s.w, s.h / 2)
    ensures Orient(s, rotation) == Orient(t, rotation)
  {
    SamePlane(Luma(s.y, s.yStride, s.w, s.h), Luma(t.y, t.yStride, t.w, t.h));
    SamePlane(Chroma(s.uv, s.uvStride, s.w / 2, s.h / 2), Chroma(t.uv, t.uvStride, t.w / 2, t.h / 2));
  }
}
