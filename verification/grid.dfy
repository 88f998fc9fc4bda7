/** The gravity-grid renderer: a square lattice over the canvas, each
    lattice point pushed by the influence ellipses of the meshes in the
    scene, stroked as vertical polylines and then horizontal polylines. */
module Grid {
  import opened Geometry
  import opened Bounds
  import opened Influence
  import opened Field
  import opened Canvas

  /** Distance in pixels between neighbouring lattice lines. */
  const Spacing: nat := 30

  /** Colour and width the grid is stroked with. */
  const LineColour: string := "#EFEFEF"
  const LineThickness: real := 1.0

  /** How many whole lattice cells fit along an extent: the largest count
      whose lines stay on the canvas. */
  function Cells(extent: nat): (c: nat)
    ensures c * Spacing <= extent < (c + 1) * Spacing
  {
    extent / Spacing
  }

  /** The undisturbed lattice point in column `i`, row `j`. It lies on a
      canvas of a given extent exactly when its index is at most the number
      of whole cells along that extent. */
  function LatticePoint(i: nat, j: nat): (q: Vec2)
    ensures q.x >= 0.0 && q.y >= 0.0
    ensures forall w: nat :: q.x <= w as real <==> i <= Cells(w)
    ensures forall h: nat :: q.y <= h as real <==> j <= Cells(h)
  {
    Vec2((i * Spacing) as real, (j * Spacing) as real)
  }

  /** The lattice point after the ellipses have pushed it. */
  function Warped(m: Trig, es: seq<Ellipse>, i: nat, j: nat): (q: Vec2)
    requires AllProper(es)
    ensures (forall k :: 0 <= k < |es| ==> !Active(m, es[k], LatticePoint(i, j))) ==> q == LatticePoint(i, j)
  {
    var b := LatticePoint(i, j);
    Add(b, Displacement(m, es, b))
  }

  /** The polylines of a `w` by `h` canvas whose lattice point (i, j) is
      drawn at `at(i, j)`: first one line per column, running down the rows,
      then one line per row, running across the columns. */
  function Lines(w: nat, h: nat, at: (nat, nat) -> Vec2): (r: seq<seq<Vec2>>)
    ensures Drawable(r)
    ensures |r| == (Cells(w) + 1) + (Cells(h) + 1)
    ensures forall i :: 0 <= i <= Cells(w) ==> |r[i]| == Cells(h) + 1
    ensures forall k :: Cells(w) + 1 <= k < |r| ==> |r[k]| == Cells(w) + 1
  {
    var cols, rows := Cells(w), Cells(h);
    seq(cols + 1, i requires 0 <= i <= cols => seq(rows + 1, j requires 0 <= j <= rows => at(i, j)))
      + seq(rows + 1, j requires 0 <= j <= rows => seq(cols + 1, i requires 0 <= i <= cols => at(i, j)))
  }

  /** Column `i` and row `j` cross at the lattice point (i, j): the two
      passes draw every lattice point at the same place. */
  lemma Crossings(w: nat, h: nat, at: (nat, nat) -> Vec2, i: nat, j: nat)
    requires i <= Cells(w) && j <= Cells(h)
    ensures Lines(w, h, at)[i][j] == at(i, j)
    ensures Lines(w, h, at)[Cells(w) + 1 + j][i] == at(i, j)
  {
  }

  lemma AllCrossings(w: nat, h: nat, at: (nat, nat) -> Vec2)
    ensures forall i: nat, j: nat :: i <= Cells(w) && j <= Cells(h) ==>
              Lines(w, h, at)[i][j] == at(i, j) && Lines(w, h, at)[Cells(w) + 1 + j][i] == at(i, j)
  {
    forall i: nat, j: nat | i <= Cells(w) && j <= Cells(h) {
      Crossings(w, h, at, i, j);
    }
  }

  /** The lines depend only on where the lattice points inside the canvas
      are drawn. */
  lemma LinesAgree(w: nat, h: nat, at: (nat, nat) -> Vec2, at': (nat, nat) -> Vec2)
    requires forall i: nat, j: nat :: i <= Cells(w) && j <= Cells(h) ==> at(i, j) == at'(i, j)
    ensures Lines(w, h, at) == Lines(w, h, at')
  {
    var a, b := Lines(w, h, at), Lines(w, h, at');
    forall k | 0 <= k < |a|
      ensures a[k] == b[k]
    {
      if k <= Cells(w) {
        assert forall j :: 0 <= j < |a[k]| ==> a[k][j] == at(k, j) && b[k][j] == at'(k, j);
      } else {
        var j := k - (Cells(w) + 1);
        assert forall i :: 0 <= i < |a[k]| ==> a[k][i] == at(i, j) && b[k][i] == at'(i, j);
      }
    }
  }

  /** The grid of a canvas under a list of ellipses: column `i` and row `j`
      both pass through the pushed lattice point (i, j). */
  function GridLines(m: Trig, es: seq<Ellipse>, w: nat, h: nat): (r: seq<seq<Vec2>>)
    requires AllProper(es)
    ensures Drawable(r)
    ensures |r| == (Cells(w) + 1) + (Cells(h) + 1)
    ensures forall i :: 0 <= i <= Cells(w) ==> |r[i]| == Cells(h) + 1
    ensures forall k :: Cells(w) + 1 <= k < |r| ==> |r[k]| == Cells(w) + 1
    ensures forall i: nat, j: nat :: i <= Cells(w) && j <= Cells(h) ==>
              r[i][j] == Warped(m, es, i, j) && r[Cells(w) + 1 + j][i] == Warped(m, es, i, j)
  {
    var at := (i: nat, j: nat) => Warped(m, es, i, j);
    AllCrossings(w, h, at);
    Lines(w, h, at)
  }

  /** The grid nothing pushes. */
  function Undisturbed(w: nat, h: nat): (r: seq<seq<Vec2>>)
    ensures Drawable(r)
  {
    Lines(w, h, LatticePoint)
  }

  /** Where no ellipse reaches a lattice point, the grid is the undisturbed
      lattice; in particular a scene without meshes draws a square grid. */
  lemma QuietGridIsUndisturbed(m: Trig, es: seq<Ellipse>, w: nat, h: nat)
    requires AllProper(es)
    requires forall i: nat, j: nat, k :: i <= Cells(w) && j <= Cells(h) && 0 <= k < |es| ==>
               !Active(m, es[k], LatticePoint(i, j))
    ensures GridLines(m, es, w, h) == Undisturbed(w, h)
  {
    LinesAgree(w, h, (i: nat, j: nat) => Warped(m, es, i, j), LatticePoint);
  }

  /** A node of the scene graph; only meshes bend the grid. */
  datatype Node = MeshNode(mesh: Mesh) | OtherNode

  /** The meshes among the scene's children, in scene order: each mesh
      appears as many times as the scene holds it. */
  function Meshes(scene: seq<Node>): (r: seq<Mesh>)
    ensures |r| <= |scene|
    ensures forall x :: x in r <==> MeshNode(x) in scene
    ensures forall x :: multiset(r)[x] == multiset(scene)[MeshNode(x)]
    decreases |scene|
  {
    if scene == [] then []
    else
      var rest := Meshes(scene[1..]);
      assert scene == [scene[0]] + scene[1..];
      assert forall x :: MeshNode(x) in scene <==> scene[0] == MeshNode(x) || MeshNode(x) in scene[1..];
      if scene[0].MeshNode? then [scene[0].mesh] + rest else rest
  }

  /** The filter keeps scene order: filtering a scene split in two filters
      each part and puts the results one after the other. */
  lemma {:induction false} MeshesAppend(a: seq<Node>, b: seq<Node>)
    ensures Meshes(a + b) == Meshes(a) + Meshes(b)
    decreases |a|
  {
    if a == [] {
      assert a + b == b;
    } else {
      assert (a + b)[1..] == a[1..] + b;
      MeshesAppend(a[1..], b);
    }
  }

  /** A single node is kept exactly when it is a mesh. */
  lemma MeshesOfOne(n: Node)
    ensures Meshes([n]) == if n.MeshNode? then [n.mesh] else []
  {
    assert [n][1..] == [];
  }

  /** The influence ellipse of one mesh on a `w` by `h` canvas: grown from
      its screen rectangle, which it gives back when shrunk by the pad. */
  function MeshEllipse(mesh: Mesh, project: Projector, w: nat, h: nat): (e: Ellipse)
    ensures e.Proper() && e.rx >= Pad && e.ry >= Pad
    ensures Silhouette(e) == ScreenRect(mesh, project, w, h)
  {
    var r := ScreenRect(mesh, project, w, h);
    SilhouetteOfEllipse(r);
    EllipseOf(r)
  }

  /** One influence ellipse per mesh, in scene order. */
  function Ellipses(scene: seq<Node>, project: Projector, w: nat, h: nat): (r: seq<Ellipse>)
    ensures |r| == |Meshes(scene)|
    ensures AllProper(r)
    ensures forall k :: 0 <= k < |r| ==> r[k].rx >= Pad && r[k].ry >= Pad
    ensures forall k :: 0 <= k < |r| ==> Silhouette(r[k]) == ScreenRect(Meshes(scene)[k], project, w, h)
  {
    var ms := Meshes(scene);
    seq(|ms|, k requires 0 <= k < |ms| => MeshEllipse(ms[k], project, w, h))
  }

  /** Every corner of a mesh's bounding box, as projected, lies inside the
      silhouette of the mesh's ellipse. */
  lemma EllipseCoversMesh(scene: seq<Node>, project: Projector, w: nat, h: nat, k: nat,
                          hx: bool, hy: bool, hz: bool)
    requires k < |Meshes(scene)|
    ensures var mesh := Meshes(scene)[k];
            Silhouette(Ellipses(scene, project, w, h)[k]).Contains(PixelOf(mesh, project, w, h, Corner(mesh.box, hx, hy, hz)))
  {
  }

  /** A canvas frame: its size in pixels and the scene it shows. */
  datatype Frame = Frame(width: nat, height: nat, scene: seq<Node>)

  /** The commands that reset the canvas before the grid is drawn: the
      whole surface is cleared first, and nothing is stroked. */
  function Header(f: Frame): (h: seq<Cmd>)
    ensures |h| == 3 && h[0] == ClearRect(f.width, f.height)
    ensures Strokes(h) == 0
  {
    var h := [ClearRect(f.width, f.height), StrokeStyle(LineColour), LineWidth(LineThickness)];
    assert [h[2]][1..] == [];
    assert Strokes([h[2]]) == 0;
    assert [h[1], h[2]][1..] == [h[2]];
    assert Strokes([h[1], h[2]]) == 0;
    assert h[1..] == [h[1], h[2]];
    h
  }

  /** The grid a frame shows. */
  function FrameGrid(f: Frame, project: Projector, m: Trig): (r: seq<seq<Vec2>>)
    ensures Drawable(r)
    ensures |r| == (Cells(f.width) + 1) + (Cells(f.height) + 1)
  {
    GridLines(m, Ellipses(f.scene, project, f.width, f.height), f.width, f.height)
  }

  /** A scene without meshes draws the undisturbed square grid, whatever
      the camera and the library functions. */
  lemma NoMeshesNoWarp(f: Frame, project: Projector, m: Trig)
    requires Meshes(f.scene) == []
    ensures FrameGrid(f, project, m) == Undisturbed(f.width, f.height)
  {
    QuietGridIsUndisturbed(m, Ellipses(f.scene, project, f.width, f.height), f.width, f.height);
  }

  /** Draw one frame of the gravity grid. A canvas of width 0 is left
      untouched; otherwise the canvas is cleared, the pen set, and every
      grid line stroked once, columns first. */
  function Render(f: Frame, project: Projector, m: Trig): (r: seq<Cmd>)
    ensures r == [] <==> f.width == 0
    ensures f.width > 0 ==> |r| >= 3 && r[..3] == Header(f)
    ensures f.width > 0 ==> Decode(r[3..]) == Some(FrameGrid(f, project, m))
    ensures f.width > 0 ==> Strokes(r) == (Cells(f.width) + 1) + (Cells(f.height) + 1)
  {
    if f.width == 0 then []
    else
      var ls := FrameGrid(f, project, m);
      var r := Header(f) + Emit(ls);
      DecodeEmit(ls);
      EmitStrokes(ls);
      StrokesAppend(Header(f), Emit(ls));
      assert r[3..] == Emit(ls);
      r
  }

  /** A point command with its point erased: what is drawn, not where. */
  function Erase(c: Cmd): Cmd {
    match c
    case MoveTo(_) => MoveTo(Zero)
    case LineTo(_) => LineTo(Zero)
    case _ => c
  }

  function Skeleton(cs: seq<Cmd>): (r: seq<Cmd>)
    ensures |r| == |cs|
  {
    seq(|cs|, k requires 0 <= k < |cs| => Erase(cs[k]))
  }

  /** Polyline lists of the same shape: as many lines, each as long. */
  predicate SameShape(a: seq<seq<Vec2>>, b: seq<seq<Vec2>>) {
    |a| == |b| && forall k :: 0 <= k < |a| ==> |a[k]| == |b[k]|
  }

  /** Same-shaped polyline lists are drawn with the same commands, point
      positions aside. */
  lemma {:induction false} EmitSkeleton(a: seq<seq<Vec2>>, b: seq<seq<Vec2>>)
    requires Drawable(a) && Drawable(b)
    requires SameShape(a, b)
    ensures Skeleton(Emit(a)) == Skeleton(Emit(b))
    decreases |a|
  {
    if a != [] {
      EmitSkeleton(a[1..], b[1..]);
      PolylineSkeleton(a[0], b[0]);
      SkeletonAppend(Polyline(a[0]), Emit(a[1..]));
      SkeletonAppend(Polyline(b[0]), Emit(b[1..]));
    }
  }

  /** Two polylines through the same number of points are drawn with the
      same commands, point positions aside. */
  lemma PolylineSkeleton(x: seq<Vec2>, y: seq<Vec2>)
    requires |x| > 0 && |x| == |y|
    ensures Skeleton(Polyline(x)) == Skeleton(Polyline(y))
  {
    var px, py := Polyline(x), Polyline(y);
    forall k | 0 <= k < |px|
      ensures Erase(px[k]) == Erase(py[k])
    {
      if 2 <= k < |px| - 1 {
        assert px[k] == LineTo(x[k - 1]) && py[k] == LineTo(y[k - 1]);
      }
    }
  }

  lemma SkeletonAppend(x: seq<Cmd>, y: seq<Cmd>)
    ensures Skeleton(x + y) == Skeleton(x) + Skeleton(y)
  {
  }

  /** Only the lattice size decides which commands a frame issues: the
      scene, the camera and the library functions move points, never add,
      drop or reorder commands. */
  lemma LayoutIgnoresScene(f: Frame, g: Frame, project: Projector, project': Projector, m: Trig, m': Trig)
    requires f.width == g.width && f.height == g.height
    ensures Skeleton(Render(f, project, m)) == Skeleton(Render(g, project', m'))
  {
    if f.width > 0 {
      var a, b := FrameGrid(f, project, m), FrameGrid(g, project', m');
      assert SameShape(a, b);
      EmitSkeleton(a, b);
      SkeletonAppend(Header(f), Emit(a));
      SkeletonAppend(Header(g), Emit(b));
    }
  }

  /** A 300 by 300 canvas gets eleven columns and eleven rows, each line
      through eleven lattice points. */
  lemma ThreeHundredSquare(scene: seq<Node>, project: Projector, m: Trig)
    ensures var f := Frame(300, 300, scene);
            var ls := FrameGrid(f, project, m);
            && Strokes(Render(f, project, m)) == 22
            && |ls| == 22
            && forall k :: 0 <= k < 22 ==> |ls[k]| == 11
  {
    assert Cells(300) == 10;
  }
}
