/** The bounds projector: the eight corners of a mesh's local bounding box are
    projected to normalised device coordinates by the camera (a collaborator),
    mapped to pixels, and folded into the enclosing screen rectangle. */
module Bounds {
  import opened Geometry
  import Arith

  /** Axis-aligned box in an object's local space, as kept by its geometry. */
  datatype Box3 = Box3(min: Vec3, max: Vec3) {
    predicate Valid() {
      min.x <= max.x && min.y <= max.y && min.z <= max.z
    }
  }

  /** The world transform of a mesh; the core never looks inside it. */
  type Transform = seq<real>

  /** A renderable mesh: its local bounding box and its world transform. */
  datatype Mesh = Mesh(box: Box3, world: Transform)

  /** Applying a world transform and then the camera's view-projection to a
      local point, keeping the normalised device x and y. Supplied by the 3D
      library; the core treats it as an arbitrary function. */
  type Projector = (Transform, Vec3) -> Vec2

  /** Screen rectangle in pixel space. */
  datatype Rect = Rect(minX: real, maxX: real, minY: real, maxY: real) {
    predicate Valid() {
      minX <= maxX && minY <= maxY
    }

    predicate Contains(p: Vec2) {
      minX <= p.x <= maxX && minY <= p.y <= maxY
    }
  }

  /** The corner that takes the max of the box on each axis whose flag is set
      and the min on the others. */
  function Corner(b: Box3, hx: bool, hy: bool, hz: bool): Vec3 {
    Vec3(if hx then b.max.x else b.min.x,
         if hy then b.max.y else b.min.y,
         if hz then b.max.z else b.min.z)
  }

  /** Position of a corner in the list built by `Corners`: the x choice is the
      most significant bit and the z choice the least. */
  function CornerIndex(hx: bool, hy: bool, hz: bool): (k: nat)
    ensures k < 8
  {
    (if hx then 4 else 0) + (if hy then 2 else 0) + (if hz then 1 else 0)
  }

  /** The eight corners of a box, in the order the grid renderer lists them. */
  function Corners(b: Box3): (r: seq<Vec3>)
    ensures |r| == 8
    ensures forall k :: 0 <= k < 8 ==> r[k] == Corner(b, k >= 4, k % 4 >= 2, k % 2 == 1)
  {
    [ Vec3(b.min.x, b.min.y, b.min.z),
      Vec3(b.min.x, b.min.y, b.max.z),
      Vec3(b.min.x, b.max.y, b.min.z),
      Vec3(b.min.x, b.max.y, b.max.z),
      Vec3(b.max.x, b.min.y, b.min.z),
      Vec3(b.max.x, b.min.y, b.max.z),
      Vec3(b.max.x, b.max.y, b.min.z),
      Vec3(b.max.x, b.max.y, b.max.z) ]
  }

  /** Every one of the eight min/max choices occurs in the corner list, at
      its own index, so no two choices share a slot. */
  lemma CornersComplete(b: Box3, hx: bool, hy: bool, hz: bool)
    ensures Corners(b)[CornerIndex(hx, hy, hz)] == Corner(b, hx, hy, hz)
    ensures forall hx', hy', hz' :: CornerIndex(hx', hy', hz') == CornerIndex(hx, hy, hz) ==> hx' == hx && hy' == hy && hz' == hz
  {
    var k := CornerIndex(hx, hy, hz);
    assert (k >= 4) == hx;
    assert (k % 4 >= 2) == hy;
    assert (k % 2 == 1) == hz;
  }

  /** Every listed corner lies inside its (well-formed) box. */
  lemma CornersInsideBox(b: Box3)
    requires b.Valid()
    ensures forall c <- Corners(b) :: b.min.x <= c.x <= b.max.x && b.min.y <= c.y <= b.max.y && b.min.z <= c.z <= b.max.z
  {
    var cs := Corners(b);
    forall c <- cs
      ensures b.min.x <= c.x <= b.max.x && b.min.y <= c.y <= b.max.y && b.min.z <= c.z <= b.max.z
    {
      var k :| 0 <= k < 8 && cs[k] == c;
      assert c == Corner(b, k >= 4, k % 4 >= 2, k % 2 == 1);
    }
  }

  /** Viewport mapping from normalised device coordinates to pixels; the
      device y axis points up and the pixel y axis points down. */
  function NdcToPixel(n: Vec2, w: nat, h: nat): (p: Vec2)
    ensures -1.0 <= n.x <= 1.0 ==> 0.0 <= p.x <= w as real
    ensures -1.0 <= n.y <= 1.0 ==> 0.0 <= p.y <= h as real
    ensures n.x == 0.0 && n.y == 0.0 ==> p == Vec2(w as real / 2.0, h as real / 2.0)
  {
    var tx, ty := n.x * 0.5 + 0.5, -n.y * 0.5 + 0.5;
    var px, py := tx * w as real, ty * h as real;
    Arith.UnitTimesNonneg(tx, w as real, px);
    Arith.UnitTimesNonneg(ty, h as real, py);
    Vec2(px, py)
  }

  /** Inverse viewport mapping, defined for a surface of positive size. */
  function PixelToNdc(p: Vec2, w: nat, h: nat): Vec2
    requires w > 0 && h > 0
  {
    Vec2(2.0 * p.x / w as real - 1.0, 1.0 - 2.0 * p.y / h as real)
  }

  /** On a surface of positive size the viewport mapping is a bijection:
      mapping a device point to pixels and back gives the same point. */
  lemma PixelRoundTrip(n: Vec2, w: nat, h: nat)
    requires w > 0 && h > 0
    ensures PixelToNdc(NdcToPixel(n, w, h), w, h) == n
  {
    var p := NdcToPixel(n, w, h);
    Arith.DivCancel(n.x + 1.0, w as real, 2.0 * p.x);
    Arith.DivCancel(1.0 - n.y, h as real, 2.0 * p.y);
  }

  lemma NdcRoundTrip(p: Vec2, w: nat, h: nat)
    requires w > 0 && h > 0
    ensures NdcToPixel(PixelToNdc(p, w, h), w, h) == p
  {
    var n := PixelToNdc(p, w, h);
    assert (n.x * 0.5 + 0.5) * w as real == p.x;
    assert (-n.y * 0.5 + 0.5) * h as real == p.y;
  }

  /** Each rectangle bound is reached by one of the points. */
  ghost predicate Attains(r: Rect, ps: seq<Vec2>) {
    && (exists k :: 0 <= k < |ps| && ps[k].x == r.minX)
    && (exists k :: 0 <= k < |ps| && ps[k].x == r.maxX)
    && (exists k :: 0 <= k < |ps| && ps[k].y == r.minY)
    && (exists k :: 0 <= k < |ps| && ps[k].y == r.maxY)
  }

  /** Widen a rectangle to take in one more point. */
  function Extend(r: Rect, p: Vec2): (r': Rect)
    ensures r'.Contains(p)
    ensures r.Valid() ==> r'.Valid() && forall q :: r.Contains(q) ==> r'.Contains(q)
    ensures (r'.minX == r.minX || r'.minX == p.x) && (r'.maxX == r.maxX || r'.maxX == p.x)
    ensures (r'.minY == r.minY || r'.minY == p.y) && (r'.maxY == r.maxY || r'.maxY == p.y)
  {
    Rect(Min(r.minX, p.x), Max(r.maxX, p.x), Min(r.minY, p.y), Max(r.maxY, p.y))
  }

  /** The min/max fold over a nonempty list of points, taken left to right;
      the result is the smallest rectangle holding every point. */
  function Envelope(ps: seq<Vec2>): (r: Rect)
    requires |ps| > 0
    ensures r.Valid()
    ensures forall k :: 0 <= k < |ps| ==> r.Contains(ps[k])
    ensures Attains(r, ps)
    decreases |ps|
  {
    if |ps| == 1 then Rect(ps[0].x, ps[0].x, ps[0].y, ps[0].y)
    else
      var init := ps[..|ps| - 1];
      assert forall k :: 0 <= k < |init| ==> init[k] == ps[k];
      Extend(Envelope(init), ps[|ps| - 1])
  }

  /** A rectangle that holds every point and whose bounds are all reached is
      the envelope: the envelope is characterised by these two facts. */
  lemma EnvelopeUnique(ps: seq<Vec2>, r: Rect)
    requires |ps| > 0
    requires forall k :: 0 <= k < |ps| ==> r.Contains(ps[k])
    requires Attains(r, ps)
    ensures r == Envelope(ps)
  {
    var e := Envelope(ps);
    var a :| 0 <= a < |ps| && ps[a].x == r.minX;
    var b :| 0 <= b < |ps| && ps[b].x == e.minX;
    assert e.minX <= r.minX && r.minX <= e.minX;
    var c :| 0 <= c < |ps| && ps[c].x == r.maxX;
    var d :| 0 <= d < |ps| && ps[d].x == e.maxX;
    assert e.maxX >= r.maxX && r.maxX >= e.maxX;
    var f :| 0 <= f < |ps| && ps[f].y == r.minY;
    var g :| 0 <= g < |ps| && ps[g].y == e.minY;
    assert e.minY <= r.minY && r.minY <= e.minY;
    var i :| 0 <= i < |ps| && ps[i].y == r.maxY;
    var j :| 0 <= j < |ps| && ps[j].y == e.maxY;
    assert e.maxY >= r.maxY && r.maxY >= e.maxY;
  }

  /** The order in which corners are visited does not matter: two lists with
      the same points have the same envelope. */
  lemma EnvelopeOrderFree(ps: seq<Vec2>, qs: seq<Vec2>)
    requires |ps| > 0 && |qs| > 0
    requires forall p <- ps :: p in qs
    requires forall q <- qs :: q in ps
    ensures Envelope(ps) == Envelope(qs)
  {
    var e := Envelope(ps);
    forall k | 0 <= k < |qs|
      ensures e.Contains(qs[k])
    {
      assert qs[k] in ps;
    }
    var a :| 0 <= a < |ps| && ps[a].x == e.minX;
    assert ps[a] in qs;
    var b :| 0 <= b < |ps| && ps[b].x == e.maxX;
    assert ps[b] in qs;
    var c :| 0 <= c < |ps| && ps[c].y == e.minY;
    assert ps[c] in qs;
    var d :| 0 <= d < |ps| && ps[d].y == e.maxY;
    assert ps[d] in qs;
    EnvelopeUnique(qs, e);
  }

  /** Pixel position of one local point of a mesh. */
  function PixelOf(m: Mesh, project: Projector, w: nat, h: nat, v: Vec3): (p: Vec2)
    ensures w > 0 && h > 0 ==> PixelToNdc(p, w, h) == project(m.world, v)
  {
    var n := project(m.world, v);
    if w > 0 && h > 0 then
      PixelRoundTrip(n, w, h);
      NdcToPixel(n, w, h)
    else
      NdcToPixel(n, w, h)
  }

  /** The eight projected corners of a mesh, in corner-list order. */
  function ProjectedCorners(m: Mesh, project: Projector, w: nat, h: nat): (r: seq<Vec2>)
    ensures |r| == 8
    ensures forall hx, hy, hz :: r[CornerIndex(hx, hy, hz)] == PixelOf(m, project, w, h, Corner(m.box, hx, hy, hz))
  {
    var cs := Corners(m.box);
    var r := seq(|cs|, k requires 0 <= k < |cs| => PixelOf(m, project, w, h, cs[k]));
    assert forall hx, hy, hz :: cs[CornerIndex(hx, hy, hz)] == Corner(m.box, hx, hy, hz) by {
      forall hx, hy, hz
        ensures cs[CornerIndex(hx, hy, hz)] == Corner(m.box, hx, hy, hz)
      {
        CornersComplete(m.box, hx, hy, hz);
      }
    }
    r
  }

  /** The screen rectangle of a mesh: well formed, holding the projection of
      every one of its box's corners, and tight (each side touches one). */
  function ScreenRect(m: Mesh, project: Projector, w: nat, h: nat): (r: Rect)
    ensures r.Valid()
    ensures forall hx, hy, hz :: r.Contains(PixelOf(m, project, w, h, Corner(m.box, hx, hy, hz)))
    ensures Attains(r, ProjectedCorners(m, project, w, h))
  {
    var ps := ProjectedCorners(m, project, w, h);
    Envelope(ps)
  }

  /** Index of the corner opposite in x and y (same z choice). */
  function Mirror(k: nat): nat
    requires k < 8
  {
    if k % 2 == 0 then 6 - k else 8 - k
  }

  /** When the points pair up so that each pair sums to (W, H), the envelope
      is centred on (W / 2, H / 2). */
  lemma EnvelopeOfMirroredPoints(ps: seq<Vec2>, W: real, H: real)
    requires |ps| == 8
    requires forall k :: 0 <= k < 8 ==> ps[k].x + ps[Mirror(k)].x == W && ps[k].y + ps[Mirror(k)].y == H
    ensures Envelope(ps).minX + Envelope(ps).maxX == W
    ensures Envelope(ps).minY + Envelope(ps).maxY == H
  {
    var e := Envelope(ps);
    var k1 :| 0 <= k1 < |ps| && ps[k1].x == e.minX;
    assert e.Contains(ps[Mirror(k1)]);
    var k2 :| 0 <= k2 < |ps| && ps[k2].x == e.maxX;
    assert e.Contains(ps[Mirror(k2)]);
    var k3 :| 0 <= k3 < |ps| && ps[k3].y == e.minY;
    assert e.Contains(ps[Mirror(k3)]);
    var k4 :| 0 <= k4 < |ps| && ps[k4].y == e.maxY;
    assert e.Contains(ps[Mirror(k4)]);
  }

  /** Through an identity camera, opposite corners of a box centred on the
      origin land on pixels mirrored about the middle of the surface. */
  lemma CentredCorner(m: Mesh, project: Projector, w: nat, h: nat, hx: bool, hy: bool, hz: bool)
    requires forall t, v :: project(t, v) == Vec2(v.x, v.y)
    requires m.box.min == Vec3(-m.box.max.x, -m.box.max.y, -m.box.max.z)
    ensures var p := PixelOf(m, project, w, h, Corner(m.box, hx, hy, hz));
            var q := PixelOf(m, project, w, h, Corner(m.box, !hx, !hy, hz));
            p.x + q.x == w as real && p.y + q.y == h as real
  {
    var v := Corner(m.box, hx, hy, hz);
    var u := Corner(m.box, !hx, !hy, hz);
    assert project(m.world, v) == Vec2(v.x, v.y);
    assert project(m.world, u) == Vec2(-v.x, -v.y);
    Arith.Mirrored(v.x, w as real, NdcToPixel(Vec2(v.x, v.y), w, h).x, NdcToPixel(Vec2(-v.x, -v.y), w, h).x);
    Arith.Mirrored(-v.y, h as real, NdcToPixel(Vec2(v.x, v.y), w, h).y, NdcToPixel(Vec2(-v.x, -v.y), w, h).y);
  }

  /** The same fact indexed by position in the projected corner list. */
  lemma CentredCornerAt(m: Mesh, project: Projector, w: nat, h: nat, k: nat)
    requires forall t, v :: project(t, v) == Vec2(v.x, v.y)
    requires m.box.min == Vec3(-m.box.max.x, -m.box.max.y, -m.box.max.z)
    requires k < 8
    ensures var ps := ProjectedCorners(m, project, w, h);
            ps[k].x + ps[Mirror(k)].x == w as real && ps[k].y + ps[Mirror(k)].y == h as real
  {
    var hx, hy, hz := k >= 4, k % 4 >= 2, k % 2 == 1;
    assert k == CornerIndex(hx, hy, hz);
    assert Mirror(k) == CornerIndex(!hx, !hy, hz);
    CentredCorner(m, project, w, h, hx, hy, hz);
  }

  /** A box centred on the origin seen through an identity camera projects
      to a rectangle centred on the middle of the surface. */
  lemma CentredBoxProjectsToCentre(m: Mesh, project: Projector, w: nat, h: nat)
    requires forall t, v :: project(t, v) == Vec2(v.x, v.y)
    requires m.box.min == Vec3(-m.box.max.x, -m.box.max.y, -m.box.max.z)
    ensures var r := ScreenRect(m, project, w, h);
            r.minX + r.maxX == w as real && r.minY + r.maxY == h as real
  {
    var ps := ProjectedCorners(m, project, w, h);
    forall k | 0 <= k < 8
      ensures ps[k].x + ps[Mirror(k)].x == w as real && ps[k].y + ps[Mirror(k)].y == h as real
    {
      CentredCornerAt(m, project, w, h, k);
    }
    EnvelopeOfMirroredPoints(ps, w as real, h as real);
    assert ScreenRect(m, project, w, h) == Envelope(ps);
  }
}
