/** The depth-tested frame buffer of the renderer: a depth buffer of inverse
    depths and a character buffer of glyphs, one entry per screen cell, reset
    at the start of every frame and then written point by point, a point
    winning its cell only when it is strictly closer than what the cell holds. */
module FrameBuffer {
  import opened Screen

  /** A position in the glyph ramp. */
  type RampIndex = i: nat | i < |Lux|

  /** A point after projection: its screen cell, its inverse depth `ooz`
      (larger is closer) and the ramp index of its luminance. */
  datatype Projected = Projected(xp: nat, yp: nat, ooz: real, lumIndex: RampIndex)

  /** Both buffers as values: `depth` is the depth buffer, `glyphs` the
      character buffer. */
  datatype Frame = Frame(depth: seq<real>, glyphs: seq<char>)

  predicate Sized(f: Frame)
  {
    |f.depth| == CellCount && |f.glyphs| == CellCount
  }

  predicate OnScreen(p: Projected)
  {
    p.xp < Width && p.yp < Height
  }

  /** Point `p` falls on buffer cell `c`. */
  predicate Hits(p: Projected, c: nat)
  {
    OnScreen(p) && LinPos(p.xp, p.yp) == c
  }

  /** The buffers right after the reset: every depth 0 and every glyph blank. */
  function Cleared(): (f: Frame)
    ensures Sized(f)
    ensures forall c :: 0 <= c < CellCount ==> f.depth[c] == 0.0 && f.glyphs[c] == Blank
  {
    Frame(seq(CellCount, _ => 0.0), seq(CellCount, _ => Blank))
  }

  /** The bounds test and the strict depth test that guard a write. */
  predicate Passes(f: Frame, p: Projected)
    requires Sized(f)
  {
    OnScreen(p) && p.ooz > f.depth[LinPos(p.xp, p.yp)]
  }

  /** One point processed against the buffers. */
  function Step(f: Frame, p: Projected): (r: Frame)
    requires Sized(f)
    ensures Sized(r)
    ensures forall c :: 0 <= c < CellCount ==> f.depth[c] <= r.depth[c]
    ensures forall c :: 0 <= c < CellCount && !Hits(p, c) ==>
              r.depth[c] == f.depth[c] && r.glyphs[c] == f.glyphs[c]
    ensures Passes(f, p) ==>
              r.depth[LinPos(p.xp, p.yp)] == p.ooz && r.glyphs[LinPos(p.xp, p.yp)] == Lux[p.lumIndex]
    ensures !Passes(f, p) ==> r == f
  {
    if Passes(f, p) then
      var c := LinPos(p.xp, p.yp);
      Frame(f.depth[c := p.ooz], f.glyphs[c := Lux[p.lumIndex]])
    else
      f
  }

  /** The buffers after a reset and then each point of `ps`, in order. */
  function Rendered(ps: seq<Projected>): (f: Frame)
    ensures Sized(f)
    decreases |ps|
  {
    if ps == [] then Cleared()
    else Step(Rendered(ps[..|ps| - 1]), ps[|ps| - 1])
  }

  /** `d` is the largest inverse depth among the points of `ps` on cell `c`,
      or 0 when none of them exceeds 0. */
  ghost predicate IsMaxDepth(ps: seq<Projected>, c: nat, d: real)
  {
    && d >= 0.0
    && (forall i :: 0 <= i < |ps| && Hits(ps[i], c) ==> ps[i].ooz <= d)
    && (d > 0.0 ==> exists i :: 0 <= i < |ps| && Hits(ps[i], c) && ps[i].ooz == d)
  }

  /** `ps[k]` is the earliest point on cell `c` whose inverse depth is `d`. */
  ghost predicate FirstAttains(ps: seq<Projected>, c: nat, d: real, k: int)
  {
    && 0 <= k < |ps|
    && Hits(ps[k], c)
    && ps[k].ooz == d
    && (forall j :: 0 <= j < k && Hits(ps[j], c) ==> ps[j].ooz < d)
  }

  /** What a cell holds at the end of a frame: the largest inverse depth of
      the points that fell on it (0 if none is positive), and the glyph of
      the earliest point reaching that depth (blank if the depth is 0). */
  lemma {:induction false} RenderedCell(ps: seq<Projected>, c: nat)
    requires c < CellCount
    ensures IsMaxDepth(ps, c, Rendered(ps).depth[c])
    ensures Rendered(ps).depth[c] == 0.0 ==> Rendered(ps).glyphs[c] == Blank
    ensures Rendered(ps).depth[c] > 0.0 ==>
              exists k :: FirstAttains(ps, c, Rendered(ps).depth[c], k) &&
                          Rendered(ps).glyphs[c] == Lux[ps[k].lumIndex]
    decreases |ps|
  {
    if ps == [] {
      return;
    }
    var n := |ps| - 1;
    var init, p := ps[..n], ps[n];
    RenderedCell(init, c);
    var before := Rendered(init);
    var after := Step(before, p);
    assert Rendered(ps) == after;
    var d0 := before.depth[c];
    assert forall i :: 0 <= i < n ==> ps[i] == init[i];
    if Hits(p, c) && p.ooz > d0 {
      assert after.depth[c] == p.ooz && after.glyphs[c] == Lux[p.lumIndex];
      assert FirstAttains(ps, c, p.ooz, n);
    } else {
      assert after.depth[c] == d0 && after.glyphs[c] == before.glyphs[c];
      if d0 > 0.0 {
        var k :| FirstAttains(init, c, d0, k) && before.glyphs[c] == Lux[init[k].lumIndex];
        assert FirstAttains(ps, c, d0, k);
      }
    }
  }

  /** The largest inverse depth on a cell is determined by the points alone. */
  lemma MaxDepthUnique(ps: seq<Projected>, c: nat, d1: real, d2: real)
    requires IsMaxDepth(ps, c, d1) && IsMaxDepth(ps, c, d2)
    ensures d1 == d2
  {
    if d1 > 0.0 {
      var i :| 0 <= i < |ps| && Hits(ps[i], c) && ps[i].ooz == d1;
      assert d1 <= d2;
    }
    if d2 > 0.0 {
      var i :| 0 <= i < |ps| && Hits(ps[i], c) && ps[i].ooz == d2;
      assert d2 <= d1;
    }
  }

  /** A cell shows a glyph exactly when some point has been written to it:
      the two buffers change in lock step and every written glyph is from
      the ramp. */
  lemma RenderedLockStep(ps: seq<Projected>, c: nat)
    requires c < CellCount
    ensures Rendered(ps).depth[c] >= 0.0
    ensures Rendered(ps).glyphs[c] == Blank <==> Rendered(ps).depth[c] == 0.0
    ensures Rendered(ps).glyphs[c] != Blank ==> Rendered(ps).glyphs[c] in Lux
  {
    RenderedCell(ps, c);
    RampGlyphs();
  }

  /** A point whose inverse depth is not positive never changes the buffers. */
  lemma NonPositiveNeverWritten(ps: seq<Projected>, p: Projected)
    requires p.ooz <= 0.0
    ensures Step(Rendered(ps), p) == Rendered(ps)
  {
    if OnScreen(p) {
      RenderedLockStep(ps, LinPos(p.xp, p.yp));
    }
  }

  /** Within a frame the depth stored at a cell never decreases: after any
      prefix of the points it is at most what it is after all of them. */
  lemma {:induction false} DepthNeverDecreases(ps: seq<Projected>, i: nat, c: nat)
    requires i <= |ps| && c < CellCount
    ensures Rendered(ps[..i]).depth[c] <= Rendered(ps).depth[c]
    decreases |ps|
  {
    if i == |ps| {
      assert ps[..i] == ps;
    } else {
      var init := ps[..|ps| - 1];
      DepthNeverDecreases(init, i, c);
      assert init[..i] == ps[..i];
    }
  }

  /** No two points on cell `c` share an inverse depth. */
  ghost predicate DistinctDepthsOn(ps: seq<Projected>, c: nat)
  {
    forall i, j :: 0 <= i < j < |ps| && Hits(ps[i], c) && Hits(ps[j], c) ==> ps[i].ooz != ps[j].ooz
  }

  /** Any reordering of the points of a frame leaves the depth of every cell
      unchanged. */
  lemma DepthOrderIndependent(ps: seq<Projected>, qs: seq<Projected>, c: nat)
    requires c < CellCount
    requires multiset(ps) == multiset(qs)
    ensures Rendered(ps).depth[c] == Rendered(qs).depth[c]
  {
    RenderedCell(ps, c);
    RenderedCell(qs, c);
    MaxDepthTransfers(ps, qs, c, Rendered(ps).depth[c]);
    MaxDepthUnique(qs, c, Rendered(ps).depth[c], Rendered(qs).depth[c]);
  }

  /** The closest point wins its cell whatever order the points come in:
      when no two points on a cell share an inverse depth, any reordering
      of the points leaves the glyph of that cell unchanged. */
  lemma GlyphOrderIndependent(ps: seq<Projected>, qs: seq<Projected>, c: nat)
    requires c < CellCount
    requires multiset(ps) == multiset(qs)
    requires DistinctDepthsOn(ps, c)
    ensures Rendered(ps).glyphs[c] == Rendered(qs).glyphs[c]
  {
    DepthOrderIndependent(ps, qs, c);
    RenderedCell(ps, c);
    RenderedCell(qs, c);
    var d := Rendered(ps).depth[c];
    if d > 0.0 {
      var k1 :| FirstAttains(ps, c, d, k1) && Rendered(ps).glyphs[c] == Lux[ps[k1].lumIndex];
      var k2 :| FirstAttains(qs, c, d, k2) && Rendered(qs).glyphs[c] == Lux[qs[k2].lumIndex];
      assert qs[k2] in multiset(qs);
      var k := IndexOf(ps, qs[k2]);
      assert k == k1;
    }
  }

  /** Where an element of a sequence sits in it. */
  lemma IndexOf(ps: seq<Projected>, p: Projected) returns (k: nat)
    requires p in multiset(ps)
    ensures k < |ps| && ps[k] == p
  {
    assert p in ps;
    k :| 0 <= k < |ps| && ps[k] == p;
  }

  /** Point lists with equal multisets have the same largest inverse depth
      on a cell. */
  lemma MaxDepthTransfers(ps: seq<Projected>, qs: seq<Projected>, c: nat, d: real)
    requires multiset(ps) == multiset(qs) && IsMaxDepth(ps, c, d)
    ensures IsMaxDepth(qs, c, d)
  {
    forall j | 0 <= j < |qs| && Hits(qs[j], c)
      ensures qs[j].ooz <= d
    {
      assert qs[j] in multiset(qs);
      var i := IndexOf(ps, qs[j]);
    }
    if d > 0.0 {
      var i :| 0 <= i < |ps| && Hits(ps[i], c) && ps[i].ooz == d;
      assert ps[i] in multiset(ps);
      var j := IndexOf(qs, ps[i]);
      assert Hits(qs[j], c) && qs[j].ooz == d;
    }
  }

  /** The two buffers of the renderer, allocated once and reused by every
      frame. */
  class Buffers {
    var zBuffer: array<real>
    var output: array<char>

    ghost predicate Valid()
      reads this
    {
      zBuffer.Length == CellCount && output.Length == CellCount
    }

    /** Both buffers as a value. */
    ghost function Contents(): (f: Frame)
      reads this, zBuffer, output
      requires Valid()
      ensures Sized(f)
    {
      Frame(zBuffer[..], output[..])
    }

    /** The buffers as the program allocates them: all depths 0, all cells blank. */
    constructor ()
      ensures Valid() && fresh(zBuffer) && fresh(output)
      ensures Contents() == Cleared()
    {
      zBuffer := new real[CellCount](_ => 0.0);
      output := new char[CellCount](_ => Blank);
    }

    /** Clears the character buffer to blank, then the depth buffer to 0. */
    method Reset()
      requires Valid()
      modifies zBuffer, output
      ensures Valid()
      ensures Contents() == Cleared()
    {
      Fill(output, Blank);
      Fill(zBuffer, 0.0);
    }

    /** Processes one projected point: writes both buffers at its cell when
        the cell is on screen and the point is strictly closer than what the
        cell holds, and otherwise changes nothing. */
    method Plot(xp: nat, yp: nat, ooz: real, lumIndex: nat)
      requires Valid() && lumIndex < |Lux|
      modifies zBuffer, output
      ensures Valid()
      ensures Contents() == Step(old(Contents()), Projected(xp, yp, ooz, lumIndex))
    {
      if xp < Width && yp < Height && ooz > zBuffer[LinPos(xp, yp)] {
        zBuffer[LinPos(xp, yp)] := ooz;
        output[LinPos(xp, yp)] := Lux[lumIndex];
      }
    }

    /** One frame: the reset, then every projected point in order. What the
        previous frame left in the buffers has no influence on the result. */
    method RenderFrame(points: seq<Projected>)
      requires Valid()
      modifies zBuffer, output
      ensures Valid()
      ensures Contents() == Rendered(points)
    {
      Reset();
      for i := 0 to |points|
        invariant Valid()
        invariant Contents() == Rendered(points[..i])
      {
        var p := points[i];
        Plot(p.xp, p.yp, p.ooz, p.lumIndex);
        assert points[..i + 1][..i] == points[..i];
      }
      assert points[..|points|] == points;
    }
  }

  /** Sets every element of `a` to `v`, as the slice `fill` does. */
  method Fill<T>(a: array<T>, v: T)
    modifies a
    ensures forall i :: 0 <= i < a.Length ==> a[i] == v
  {
    for i := 0 to a.Length
      invariant forall j :: 0 <= j < i ==> a[j] == v
    {
      a[i] := v;
    }
  }
}
