/** The pixel loops: packing padded rows and turning the two planes, proved against `Nv12`. */
module Nv12Loops {
  import opened Text
  import opened Nv12

  /** The next position in a row-major sweep. */
  lemma Sweep(w: nat, x: nat, y: nat)
    ensures Idx(w, 0, y + 1) == Idx(w, w, y)
    ensures Idx(w, x + 1, y) == Idx(w, x, y) + 1
  {
  }

  /** Copy `w` bytes out of each of `h` padded rows. */
  method PackRows(data: seq<Byte>, stride: nat, w: nat, h: nat) returns (out: array<Byte>)
    requires w <= stride && stride * h <= |data|
    ensures fresh(out) && out[..] == Luma(data, stride, w, h).data
  {
    ghost var want := Luma(data, stride, w, h);
    out := new Byte[w * h](_ => 0);
    for row := 0 to h
      invariant Idx(w, 0, row) <= w * h
      invariant out[..Idx(w, 0, row)] == want.data[..Idx(w, 0, row)]
    {
      var src := row * stride;
      var dst := row * w;
      MulOrder(row, h, w);
      for col := 0 to w
        invariant Idx(w, col, row) <= w * h
        invariant out[..Idx(w, col, row)] == want.data[..Idx(w, col, row)]
      {
        Position(w, h, col, row);
        assert At(want, col, row) == data[Idx(stride, col, row)];
        out[dst + col] := data[src + col];
      }
      Sweep(w, w, row);
    }
  }

  method PackNv12(s: Source) returns (r: Option<(array<Byte>, array<Byte>)>)
    requires s.w <= s.yStride && s.w <= s.uvStride
    ensures r.Some? <==> s.yStride * s.h <= |s.y| && s.uvStride * (s.h / 2) <= |s.uv|
    ensures r.Some? ==>
      && fresh(r.value.0) && fresh(r.value.1)
      && r.value.0[..] == Luma(s.y, s.yStride, s.w, s.h).data
      && r.value.1[..] == Luma(s.uv, s.uvStride, s.w, s.h / 2).data
  {
    if |s.y| < s.yStride * s.h || |s.uv| < s.uvStride * (s.h / 2) {
      return None;
    }
    var y := PackRows(s.y, s.yStride, s.w, s.h);
    var uv := PackRows(s.uv, s.uvStride, s.w, s.h / 2);
    return Some((y, uv));
  }

  /** The luma loop shared by the three rotations; only the source coordinates differ. */
  method TurnLuma(q: Turns, y: seq<Byte>, w: nat, h: nat) returns (out: array<Byte>)
    requires |y| == w * h
    ensures fresh(out) && out[..] == Turn(q, Plane(w, h, y)).data
  {
    ghost var p := Plane(w, h, y);
    ghost var want := Turn(q, p);
    var outW, outH := OutW(q, w, h), OutH(q, w, h);
    out := new Byte[outW * outH](_ => 0);
    for dy := 0 to outH
      invariant Idx(outW, 0, dy) <= outW * outH
      invariant out[..Idx(outW, 0, dy)] == want.data[..Idx(outW, 0, dy)]
    {
      MulOrder(dy, outH, outW);
      for dx := 0 to outW
        invariant Idx(outW, dx, dy) <= outW * outH
        invariant out[..Idx(outW, dx, dy)] == want.data[..Idx(outW, dx, dy)]
      {
        var sx, sy := SrcX(q, w, h, dx, dy), SrcY(q, w, h, dx, dy);
        Position(w, h, sx, sy);
        Position(outW, outH, dx, dy);
        TurnAt(q, p, dx, dy);
        out[dy * outW + dx] := y[sy * w + sx];
      }
      Sweep(outW, outW, dy);
    }
  }

  /** Write one chroma pair, extending the finished prefix by two bytes. */
  method PutPair(out: array<Byte>, dst: nat, u: Byte, v: Byte, ghost want: seq<Byte>)
    requires dst + 1 < out.Length == |want| && out[..dst] == want[..dst] && want[dst] == u && want[dst + 1] == v
    modifies out
    ensures out[..dst + 2] == want[..dst + 2]
  {
    out[dst] := u;
    out[dst + 1] := v;
  }

  /** The chroma loop: two bytes move together. */
  method TurnChroma(q: Turns, uv: seq<Byte>, cw: nat, ch: nat) returns (out: array<Byte>)
    requires |uv| == (2 * cw) * ch
    ensures fresh(out) && out[..] == Interleave(Turn(q, Chroma(uv, 2 * cw, cw, ch)).data)
  {
    ghost var p := Chroma(uv, 2 * cw, cw, ch);
    ghost var turned := Turn(q, p);
    ghost var want := Interleave(turned.data);
    var outCw, outCh := OutW(q, cw, ch), OutH(q, cw, ch);
    out := new Byte[2 * (outCw * outCh)](_ => 0);
    for dy := 0 to outCh
      invariant Idx(outCw, 0, dy) <= outCw * outCh
      invariant out[..2 * Idx(outCw, 0, dy)] == want[..2 * Idx(outCw, 0, dy)]
    {
      MulOrder(dy, outCh, outCw);
      for dx := 0 to outCw
        invariant Idx(outCw, dx, dy) <= outCw * outCh
        invariant out[..2 * Idx(outCw, dx, dy)] == want[..2 * Idx(outCw, dx, dy)]
      {
        var sx, sy := SrcX(q, cw, ch, dx, dy), SrcY(q, cw, ch, dx, dy);
        var src := (sy * cw + sx) * 2;
        var dst := (dy * outCw + dx) * 2;
        MovePair(q, uv, cw, ch, dx, dy);
        PutPair(out, dst, uv[src], uv[src + 1], want);
      }
      Sweep(outCw, outCw, dy);
    }
  }

  /** The two bytes at an output pair are the two bytes at its source pair. */
  lemma MovePair(q: Turns, uv: seq<Byte>, cw: nat, ch: nat, dx: nat, dy: nat)
    requires |uv| == (2 * cw) * ch && dx < OutW(q, cw, ch) && dy < OutH(q, cw, ch)
    ensures var want := Interleave(Turn(q, Chroma(uv, 2 * cw, cw, ch)).data);
      var src := 2 * Idx(cw, SrcX(q, cw, ch, dx, dy), SrcY(q, cw, ch, dx, dy));
      var dst := 2 * Idx(OutW(q, cw, ch), dx, dy);
      && |want| == 2 * (OutW(q, cw, ch) * OutH(q, cw, ch)) && dst + 1 < |want| && src + 1 < |uv|
      && want[dst] == uv[src] && want[dst + 1] == uv[src + 1]
  {
    var p := Chroma(uv, 2 * cw, cw, ch);
    var sx, sy := SrcX(q, cw, ch, dx, dy), SrcY(q, cw, ch, dx, dy);
    Position(OutW(q, cw, ch), OutH(q, cw, ch), dx, dy);
    TurnAt(q, p, dx, dy);
    PairPosition(cw, sx, sy);
    assert At(p, sx, sy) == (uv[Idx(2 * cw, 2 * sx, sy)], uv[Idx(2 * cw, 2 * sx + 1, sy)]);
  }

  /** Packing the chroma rows as bytes and then pairing them is pairing them in place. */
  lemma PackedPairs(s: Source)
    requires Usable(s)
    ensures var packed := Luma(s.uv, s.uvStride, s.w, s.h / 2).data;
      |packed| == (2 * (s.w / 2)) * (s.h / 2)
      && Chroma(packed, 2 * (s.w / 2), s.w / 2, s.h / 2) == Chroma(s.uv, s.uvStride, s.w / 2, s.h / 2)
      && Interleave(Chroma(s.uv, s.uvStride, s.w / 2, s.h / 2).data) == packed
  {
    var cw, ch := s.w / 2, s.h / 2;
    assert 2 * cw == s.w;
    var bytes := Luma(s.uv, s.uvStride, s.w, ch);
    var a, b := Chroma(bytes.data, s.w, cw, ch), Chroma(s.uv, s.uvStride, cw, ch);
    forall x: nat, y: nat | x < cw && y < ch ensures At(a, x, y) == At(b, x, y) {
      assert At(bytes, 2 * x, y) == s.uv[Idx(s.uvStride, 2 * x, y)];
      assert At(bytes, 2 * x + 1, y) == s.uv[Idx(s.uvStride, 2 * x + 1, y)];
    }
    SamePlane(a, b);
    InterleavedBytes(bytes.data, cw, ch);
  }

  lemma InterleavedBytes(uv: seq<Byte>, cw: nat, ch: nat)
    requires |uv| == (2 * cw) * ch
    ensures Interleave(Chroma(uv, 2 * cw, cw, ch).data) == uv
  {
    var p := Chroma(uv, 2 * cw, cw, ch);
    var out := Interleave(p.data);
    assert 2 * (cw * ch) == (2 * cw) * ch;
    forall i | 0 <= i < |uv| ensures out[i] == uv[i] {
      var k := i / 2;
      Coordinates(cw, ch, k);
      var x, y := k % cw, k / cw;
      PairPosition(cw, x, y);
      assert At(p, x, y) == (uv[Idx(2 * cw, 2 * x, y)], uv[Idx(2 * cw, 2 * x + 1, y)]);
    }
  }

  /** Reject what cannot be NV12, strip the padding, and turn by the snapped rotation. */
  method OrientNv12(s: Source, rotation: nat) returns (r: Option<Frame>)
    ensures r == Orient(s, rotation)
  {
    if s.w == 0 || s.h == 0 || s.w % 2 != 0 || s.h % 2 != 0 {
      return None;
    }
    if s.yStride < s.w || s.uvStride < s.w {
      return None;
    }
    var packed := PackNv12(s);
    if packed.None? {
      return None;
    }
    PackedPairs(s);
    var y, uv := packed.value.0, packed.value.1;
    var q := Quarters(rotation);
    if q == 0 {
      NoTurn(Luma(s.y, s.yStride, s.w, s.h));
      NoTurn(Chroma(s.uv, s.uvStride, s.w / 2, s.h / 2));
      return Some(Frame(y[..], uv[..], s.w, s.h));
    }
    var yOut := TurnLuma(q, y[..], s.w, s.h);
    var uvOut := TurnChroma(q, uv[..], s.w / 2, s.h / 2);
    return Some(Frame(yOut[..], uvOut[..], OutW(q, s.w, s.h), OutH(q, s.w, s.h)));
  }
}
