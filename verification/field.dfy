/** The displacement function: every influence ellipse pushes a point
    radially away from its centre, with a force that fades from the centre to
    the ellipse boundary; the pushes of all ellipses are summed. */
module Field {
  import opened Geometry
  import opened Influence
  import Arith

  /** The floating-point library functions the field is computed with. The
      model leaves them uninterpreted; `Sound` states the laws that hold of
      the ideal functions, and only lemmas assume it. */
  datatype Trig = Trig(sqrt: real -> real, atan2: (real, real) -> real, cos: real -> real, sin: real -> real)

  /** `sqrt` is the nonnegative square root, and the cosine and sine of
      `atan2(y, x)` are the components of the unit vector along (x, y). */
  ghost predicate Sound(m: Trig) {
    && (forall v :: v >= 0.0 ==> m.sqrt(v) >= 0.0 && m.sqrt(v) * m.sqrt(v) == v)
    && (forall y, x :: !(x == 0.0 && y == 0.0) ==>
          && m.cos(m.atan2(y, x)) * m.sqrt(x * x + y * y) == x
          && m.sin(m.atan2(y, x)) * m.sqrt(x * x + y * y) == y)
  }

  /** Largest push an ellipse can give, approached at its centre. */
  const ForceScale: real := 40.0

  /** Squared distance of a point from an ellipse's centre after scaling each
      axis by the ellipse's radius: below 1 exactly inside the ellipse. */
  function NormSq(e: Ellipse, p: Vec2): (n: real)
    requires e.Proper()
    ensures n >= 0.0
    ensures n == 0.0 <==> p == e.Centre()
  {
    var nx := (p.x - e.cx) / e.rx;
    var ny := (p.y - e.cy) / e.ry;
    assert nx == 0.0 <==> p.x == e.cx;
    assert ny == 0.0 <==> p.y == e.cy;
    Arith.SumOfSquaresZero(nx, ny, nx * nx + ny * ny);
    nx * nx + ny * ny
  }

  /** The normalised distance the gate is taken on: with an ideal square
      root, the nonnegative number whose square is the squared normalised
      distance. */
  function Dist(m: Trig, e: Ellipse, p: Vec2): (r: real)
    requires e.Proper()
    ensures Sound(m) ==> r >= 0.0 && r * r == NormSq(e, p)
  {
    m.sqrt(NormSq(e, p))
  }

  /** An ellipse pushes a point only when its normalised distance lies strictly
      between 0 and 1: not on or beyond the boundary, and not at the centre.
      With an ideal square root this is the same gate on the squared
      distance. */
  predicate Active(m: Trig, e: Ellipse, p: Vec2)
    requires e.Proper()
    ensures Sound(m) ==> (Active(m, e, p) <==> 0.0 < NormSq(e, p) < 1.0)
  {
    GateOnRoot(m, NormSq(e, p));
    0.0 < Dist(m, e, p) < 1.0
  }

  /** An ideal square root lies strictly between 0 and 1 exactly when its
      argument does. */
  lemma GateOnRoot(m: Trig, n: real)
    requires n >= 0.0
    ensures Sound(m) ==> (0.0 < m.sqrt(n) < 1.0 <==> 0.0 < n < 1.0)
  {
    if Sound(m) {
      Arith.RootGate(m.sqrt(n), n);
    }
  }

  /** Strength of the push at normalised distance `d`. */
  function Force(d: real): (f: real)
    requires 0.0 < d < 1.0
    ensures 0.0 < f < ForceScale
  {
    (1.0 - d) * ForceScale
  }

  /** The force weakens as the point moves out from the centre. */
  lemma ForceFades(d1: real, d2: real)
    requires 0.0 < d1 < d2 < 1.0
    ensures Force(d1) > Force(d2)
  {
  }

  /** One ellipse's push on a point. */
  function Contribution(m: Trig, e: Ellipse, p: Vec2): (c: Vec2)
    requires e.Proper()
    ensures !Active(m, e, p) ==> c == Zero
  {
    if Active(m, e, p) then
      var angle := m.atan2(p.y - e.cy, p.x - e.cx);
      var force := Force(Dist(m, e, p));
      Vec2(m.cos(angle) * force, m.sin(angle) * force)
    else
      Zero
  }

  /** The exact centre of an ellipse receives no push from it. */
  lemma CentreIsInert(m: Trig, e: Ellipse)
    requires Sound(m)
    requires e.Proper()
    ensures Contribution(m, e, e.Centre()) == Zero
  {
    assert !Active(m, e, e.Centre());
  }

  /** Points on or outside the ellipse boundary receive no push from it. */
  lemma OutsideIsInert(m: Trig, e: Ellipse, p: Vec2)
    requires Sound(m)
    requires e.Proper()
    requires NormSq(e, p) >= 1.0
    ensures Contribution(m, e, p) == Zero
  {
  }

  /** A point an ellipse pushes is not its centre. */
  lemma ActiveOffCentre(m: Trig, e: Ellipse, p: Vec2)
    requires Sound(m)
    requires e.Proper()
    requires Active(m, e, p)
    ensures Sub(p, e.Centre()) != Zero
  {
    assert p != e.Centre();
  }

  /** Under the ideal laws, `sqrt` gives the positive length of a nonzero
      offset and cosine and sine of its `atan2` angle give its direction. */
  lemma Direction(m: Trig, off: Vec2)
    requires Sound(m)
    requires off != Zero
    ensures var len := m.sqrt(LengthSq(off));
            && len > 0.0 && len * len == LengthSq(off)
            && m.cos(m.atan2(off.y, off.x)) * len == off.x
            && m.sin(m.atan2(off.y, off.x)) * len == off.y
  {
    PositiveLength(m, off);
    Unit(m, off.x, off.y);
  }

  /** The angle law of `Sound` at one nonzero offset. */
  lemma Unit(m: Trig, x: real, y: real)
    requires Sound(m)
    requires !(x == 0.0 && y == 0.0)
    ensures m.cos(m.atan2(y, x)) * m.sqrt(LengthSq(Vec2(x, y))) == x
    ensures m.sin(m.atan2(y, x)) * m.sqrt(LengthSq(Vec2(x, y))) == y
  {
    assert LengthSq(Vec2(x, y)) == x * x + y * y;
  }

  /** The square root of a nonzero offset's squared length is positive. */
  lemma PositiveLength(m: Trig, off: Vec2)
    requires Sound(m)
    requires off != Zero
    ensures m.sqrt(LengthSq(off)) > 0.0
    ensures m.sqrt(LengthSq(off)) * m.sqrt(LengthSq(off)) == LengthSq(off)
  {
    var lsq := LengthSq(off);
    var len := m.sqrt(lsq);
    Arith.SumOfSquaresZero(off.x, off.y, lsq);
    if len == 0.0 {
      Arith.MulZero(len, len, lsq);
    }
  }

  /** The push of an active ellipse, given the length and direction of the
      point's offset from its centre. */
  lemma PushAlongOffset(m: Trig, e: Ellipse, p: Vec2, len: real)
    requires e.Proper()
    requires Active(m, e, p)
    requires var off := Sub(p, e.Centre());
             && len > 0.0 && len * len == LengthSq(off)
             && m.cos(m.atan2(off.y, off.x)) * len == off.x
             && m.sin(m.atan2(off.y, off.x)) * len == off.y
    ensures var f := Force(Dist(m, e, p));
            && Contribution(m, e, p) == Scale(f / len, Sub(p, e.Centre()))
            && LengthSq(Contribution(m, e, p)) == f * f
  {
    var dx, dy := p.x - e.cx, p.y - e.cy;
    var angle := m.atan2(dy, dx);
    var f := Force(Dist(m, e, p));
    Arith.ScaledUnit(m.cos(angle), m.sin(angle), len, dx, dy, f);
  }

  /** When an ellipse is active, its push points straight away from its
      centre and its length is the force. */
  lemma ContributionIsOutwardPush(m: Trig, e: Ellipse, p: Vec2)
    requires Sound(m)
    requires e.Proper()
    requires Active(m, e, p)
    ensures var off := Sub(p, e.Centre());
            var len := m.sqrt(LengthSq(off));
            && len > 0.0
            && Contribution(m, e, p) == Scale(Force(Dist(m, e, p)) / len, off)
    ensures LengthSq(Contribution(m, e, p)) == Force(Dist(m, e, p)) * Force(Dist(m, e, p))
  {
    var off := Sub(p, e.Centre());
    ActiveOffCentre(m, e, p);
    Direction(m, off);
    PushAlongOffset(m, e, p, m.sqrt(LengthSq(off)));
  }

  /** The worked example: halfway from the centre to the right-hand end of
      the x radius, the push is half the full force, along +x. */
  lemma HalfRadiusPush(m: Trig, e: Ellipse)
    requires Sound(m)
    requires e.Proper()
    ensures Contribution(m, e, Vec2(e.cx + e.rx / 2.0, e.cy)) == Vec2(ForceScale / 2.0, 0.0)
  {
    var p := Vec2(e.cx + e.rx / 2.0, e.cy);
    HalfRadiusDistance(m, e);
    ContributionIsOutwardPush(m, e, p);
    HalfRadiusOffset(m, e);
    Arith.DivTimes(Force(0.5), e.rx / 2.0);
  }

  /** The point halfway out along the x radius is at normalised distance
      one half. */
  lemma HalfRadiusDistance(m: Trig, e: Ellipse)
    requires Sound(m)
    requires e.Proper()
    ensures Dist(m, e, Vec2(e.cx + e.rx / 2.0, e.cy)) == 0.5
  {
    var p := Vec2(e.cx + e.rx / 2.0, e.cy);
    assert (p.x - e.cx) / e.rx == 0.5;
    assert NormSq(e, p) == 0.25;
    Arith.RootUnique(m.sqrt(0.25), 0.5, 0.25);
  }

  /** Its offset from the centre is half the x radius, along +x. */
  lemma HalfRadiusOffset(m: Trig, e: Ellipse)
    requires Sound(m)
    requires e.Proper()
    ensures var off := Sub(Vec2(e.cx + e.rx / 2.0, e.cy), e.Centre());
            off == Vec2(e.rx / 2.0, 0.0) && m.sqrt(LengthSq(off)) == e.rx / 2.0
  {
    var off := Sub(Vec2(e.cx + e.rx / 2.0, e.cy), e.Centre());
    assert off == Vec2(e.rx / 2.0, 0.0);
    Arith.RootUnique(m.sqrt(LengthSq(off)), e.rx / 2.0, LengthSq(off));
  }

  /** Every ellipse of a list is proper. */
  predicate AllProper(es: seq<Ellipse>) {
    forall k :: 0 <= k < |es| ==> es[k].Proper()
  }

  /** The push of each ellipse on the point `p`, as a total function; the
      second branch is never taken for the ellipses the renderer builds. */
  function PushOn(m: Trig, p: Vec2): Ellipse -> Vec2 {
    (e: Ellipse) => if e.Proper() then Contribution(m, e, p) else Zero
  }

  /** The displacement of a point: the pushes of the ellipses, accumulated in
      list order. A point no ellipse is active at is left where it is. */
  function Displacement(m: Trig, es: seq<Ellipse>, p: Vec2): (d: Vec2)
    requires AllProper(es)
    ensures (forall k :: 0 <= k < |es| ==> !Active(m, es[k], p)) ==> d == Zero
  {
    QuietPointStays(m, es, p);
    Sum(es, PushOn(m, p))
  }

  lemma QuietPointStays(m: Trig, es: seq<Ellipse>, p: Vec2)
    requires AllProper(es)
    ensures (forall k :: 0 <= k < |es| ==> !Active(m, es[k], p)) ==> Sum(es, PushOn(m, p)) == Zero
  {
    if forall k :: 0 <= k < |es| ==> !Active(m, es[k], p) {
      assert forall k :: 0 <= k < |es| ==> PushOn(m, p)(es[k]) == Zero;
    }
  }

  /** Displacement is additive over concatenation of ellipse lists. */
  lemma DisplacementAppend(m: Trig, a: seq<Ellipse>, b: seq<Ellipse>, p: Vec2)
    requires AllProper(a) && AllProper(b)
    ensures AllProper(a + b)
    ensures Displacement(m, a + b, p) == Add(Displacement(m, a, p), Displacement(m, b, p))
  {
    assert forall k :: 0 <= k < |a + b| ==> (a + b)[k] == (if k < |a| then a[k] else b[k - |a|]);
    SumAppend(a, b, PushOn(m, p));
  }

  /** Taking any one ellipse out of the list takes away exactly its push. */
  lemma DisplacementPick(m: Trig, es: seq<Ellipse>, i: nat, p: Vec2)
    requires AllProper(es)
    requires i < |es|
    ensures AllProper(es[..i] + es[i + 1..])
    ensures Displacement(m, es, p) == Add(Contribution(m, es[i], p), Displacement(m, es[..i] + es[i + 1..], p))
  {
    var rest := es[..i] + es[i + 1..];
    assert forall k :: 0 <= k < |rest| ==> rest[k] == (if k < i then es[k] else es[k + 1]);
    SumPick(es, i, PushOn(m, p));
  }

  /** The order of the ellipse list does not matter. */
  lemma DisplacementPermutation(m: Trig, a: seq<Ellipse>, b: seq<Ellipse>, p: Vec2)
    requires AllProper(a)
    requires multiset(a) == multiset(b)
    ensures AllProper(b)
    ensures Displacement(m, a, p) == Displacement(m, b, p)
  {
    forall k | 0 <= k < |b|
      ensures b[k].Proper()
    {
      assert b[k] in multiset(a);
    }
    SumPermutation(a, b, PushOn(m, p));
  }

  /** When one ellipse alone is active at a point, the displacement there is
      that ellipse's push. */
  lemma SingleActiveEllipse(m: Trig, es: seq<Ellipse>, i: nat, p: Vec2)
    requires AllProper(es)
    requires i < |es|
    requires forall k :: 0 <= k < |es| && k != i ==> !Active(m, es[k], p)
    ensures Displacement(m, es, p) == Contribution(m, es[i], p)
  {
    SumOfOne(es, i, PushOn(m, p));
  }
}
