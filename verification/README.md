# Gravity grid: a Dafny model of `CreatorApp.drawGravityGrid`

The creator page of this site draws a light grey square grid behind its 3D
scene. The grid bends away from every mesh in the scene. Each frame, the
renderer does five things:

1. It takes the eight corners of each mesh's local bounding box.
2. It projects those corners through the camera and folds them into a screen
   rectangle.
3. It grows the rectangle into an influence ellipse: the ellipse is centred on
   the rectangle and reaches 50 px past each side.
4. It pushes every lattice point `(30·i, 30·j)` radially away from the centre
   of each ellipse that holds it strictly inside. The push approaches 40 px
   near the centre and fades to nothing at the boundary. A point exactly at the
   centre gets no push, because its normalised distance of 0 fails the
   `dist > 0` gate. The pushes of all ellipses are summed.
5. It strokes the pushed lattice as one polyline per column, then one polyline
   per row.

This project models that pipeline as pure functions over exact reals. The
drawing is modelled as a returned list of canvas commands. The modules follow
the stages:

| module | file | stage |
|---|---|---|
| `Geometry` | geometry.dfy | points, vectors, and the order-free vector sum |
| `Arith` | arith.dfy | real-arithmetic facts the solver needs stated over separate variables |
| `Bounds` | bounds.dfy | corner list, viewport mapping, min/max envelope, screen rectangle |
| `Influence` | influence.dfy | the influence ellipse of a screen rectangle |
| `Field` | field.dfy | per-ellipse push and the summed displacement |
| `Canvas` | canvas.dfy | canvas commands, polyline emission and its decoder |
| `Grid` | grid.dfy | lattice, grid lines, scene filter, and the whole frame (`Render`) |

Some parts of the renderer are supplied by the 3D library or by `Math`, so
they enter the model as parameters:

- **The camera.** `applyMatrix4(matrixWorld).project(camera)` is a `Projector`,
  an arbitrary function from a world transform and a local point to normalised
  device `(x, y)`.
- **The math functions.** `Math.sqrt`, `Math.atan2`, `Math.cos` and `Math.sin`
  form a `Trig` record of arbitrary functions.
- **Ideal laws.** The lemmas that need the ideal behaviour of those functions
  assume the predicate `Field.Sound`:
  - `sqrt` is the nonnegative square root;
  - the cosine and sine of `atan2(y, x)`, times the length, give back `x` and
    `y`.
- **The model functions themselves never assume `Sound`.** So the gating
  (`0 < dist < 1`), the order-independence of the sum, and the command layout
  hold for any implementation of those functions.

## Model

| member | source | states |
|---|---|---|
| Bounds.Corners | src/creator.js:72-81 | there are exactly eight corners; the corner at index k takes the max on x when bit 4 of k is set, on y when bit 2 is set and on z when bit 1 is set, and the min otherwise |
| Bounds.CornerIndex | src/creator.js:72-81 | each min/max choice maps to an index below 8 |
| Bounds.CornersComplete | src/creator.js:72-81 | every one of the eight min/max choices appears in the list, at its own index, and no two choices share an index |
| Bounds.CornersInsideBox | src/creator.js:72-81 | every listed corner lies within the bounds of a well-formed box |
| Bounds.NdcToPixel | src/creator.js:87-88 | device coordinates in [-1, 1] map into [0, width] × [0, height]; the device origin maps to the middle of the canvas (device y points up, pixel y points down) |
| Bounds.PixelRoundTrip | src/creator.js:87-88 | on a canvas of positive size, mapping a device point to pixels and back gives the same point |
| Bounds.NdcRoundTrip | src/creator.js:87-88 | mapping pixels to device coordinates and back gives the same pixel |
| Bounds.Extend | src/creator.js:89-92 | one step of the fold: the widened rectangle holds the new point and, when well formed, everything the old one held; each side is either the old side or the new point's coordinate |
| Bounds.Envelope | src/creator.js:84-93 | the left-to-right min/max fold is a valid rectangle that contains every point, and each of its four sides is reached by some point |
| Bounds.EnvelopeUnique | src/creator.js:84-93 | any rectangle that contains all the points and has every side reached by a point is the fold's result |
| Bounds.EnvelopeOrderFree | src/creator.js:84-93 | the order in which the corners are visited does not change the rectangle |
| Bounds.ProjectedCorners | src/creator.js:85-88 | the eight projected pixels, with the pixel for each min/max choice at that choice's index |
| Bounds.PixelOf | src/creator.js:86-88 | on a canvas of positive size, the pixel of a corner maps back, through the inverse viewport mapping, to the corner's projected device point |
| Bounds.ScreenRect | src/creator.js:84-93 | the screen rectangle of a mesh satisfies minX ≤ maxX and minY ≤ maxY, contains the projection of every box corner, and is tight |
| Bounds.EnvelopeOfMirroredPoints | src/creator.js:84-93 | when the points pair up so that each pair sums to (W, H), the envelope is centred on (W/2, H/2) |
| Bounds.CentredCorner | src/creator.js:72-88 | through an identity camera, corners of an origin-centred box that are opposite in x and y land on pixels mirrored about the middle of the canvas |
| Bounds.CentredCornerAt | src/creator.js:72-88 | the same mirror fact, by position in the projected corner list |
| Bounds.CentredBoxProjectsToCentre | src/creator.js:72-93 | through an identity camera, a box centred on the origin projects to a rectangle centred on the middle of the canvas |
| Influence.EllipseOf | src/creator.js:96-101 | the ellipse centre is the rectangle midpoint, so it lies inside a valid rectangle; each radius exceeds the half extent by exactly 50, so both radii are at least 50 |
| Influence.SilhouetteOfEllipse | src/creator.js:96-101 | shrinking an ellipse's radii by 50 gives back the rectangle it was built from |
| Influence.EllipseOfSilhouette | src/creator.js:96-101 | every ellipse is the one built from its own shrunk rectangle |
| Field.NormSq | src/creator.js:108-110 | the normalised squared distance is nonnegative, and it is zero exactly at the ellipse centre |
| Field.Dist | src/creator.js:110 | with an ideal square root, the distance is nonnegative and its square is the normalised squared distance |
| Field.Active | src/creator.js:110-112 | with an ideal square root, the distance gate passes exactly when the squared normalised distance lies strictly between 0 and 1 |
| Field.Force | src/creator.js:115 | at any gated distance, the force lies strictly between 0 and 40 |
| Field.ForceFades | src/creator.js:115 | the force strictly decreases as the normalised distance grows |
| Field.Contribution | src/creator.js:107-118 | an ellipse whose normalised distance is not strictly between 0 and 1 contributes exactly zero |
| Field.CentreIsInert | src/creator.js:112 | a point exactly at an ellipse's centre gets no push from it |
| Field.OutsideIsInert | src/creator.js:112 | a point on or outside the ellipse boundary gets no push from it |
| Field.ActiveOffCentre | src/creator.js:112 | a point an ellipse pushes is never that ellipse's centre |
| Field.Direction | src/creator.js:113-117 | with ideal math functions, the offset from the centre has a positive length, and the cosine and sine of its atan2 angle, times that length, give back the offset |
| Field.PushAlongOffset | src/creator.js:113-117 | given the offset's length and direction, the push is the force times the unit offset, and its squared length is the force squared |
| Field.ContributionIsOutwardPush | src/creator.js:113-117 | an active ellipse pushes the point straight away from the ellipse centre, and the push's length equals the force |
| Field.HalfRadiusPush | src/creator.js:107-118 | halfway from the centre to the end of the x radius, the push is (20, 0): half the full force, along +x |
| Field.Displacement | src/creator.js:104-121 | where no ellipse passes the gate, the displacement is zero; with no ellipses at all, every point stays where it is |
| Geometry.SumAppend | src/creator.js:105-119 | accumulating pushes over two lists in turn gives the sum of the two accumulations |
| Geometry.SumPick | src/creator.js:105-119 | taking any one element out of the list takes exactly its term out of the accumulation |
| Geometry.SumPermutation | src/creator.js:105-119 | two lists with the same elements, in any order and with the same multiplicities, accumulate to the same vector |
| Geometry.Sum | src/creator.js:105-119 | the accumulation of pushes from a zero seed; when every term is zero it stays at the seed |
| Geometry.SumOfOne | src/creator.js:105-119 | when every term but one is zero, the accumulation is that one term |
| Field.DisplacementAppend | src/creator.js:105-119 | the displacement under two concatenated ellipse lists is the sum of the displacements under each |
| Field.DisplacementPick | src/creator.js:105-119 | removing any one ellipse from the list removes exactly its push |
| Field.DisplacementPermutation | src/creator.js:105-119 | the displacement does not depend on the order of the ellipse list |
| Field.SingleActiveEllipse | src/creator.js:105-119 | where only one ellipse passes the gate, the displacement is that ellipse's push |
| Canvas.Polyline | src/creator.js:128-136 | a polyline through n points takes n + 2 commands, opens with beginPath and closes with stroke |
| Canvas.Emit | src/creator.js:127-150 | the two stroke passes issue no command exactly when there are no polylines; otherwise the stream opens with beginPath and ends with stroke |
| Canvas.LeadingLineTos | src/creator.js:133-134 | the count of leading lineTo commands is the length of the maximal lineTo run |
| Canvas.Decode | src/creator.js:127-150 | every polyline the decoder reads from a command stream has at least one point |
| Canvas.DecodeEmit | src/creator.js:127-150 | emitting a list of polylines and then decoding the commands gives back the same list |
| Canvas.EmitDecode | src/creator.js:127-150 | every command stream the decoder accepts is exactly the emission of what it decodes to |
| Canvas.EmitStrokes | src/creator.js:136 | each polyline is stroked exactly once |
| Grid.Cells | src/creator.js:123-124 | the cell count is the floor of extent / 30: count · 30 ≤ extent < (count + 1) · 30 |
| Grid.LatticePoint | src/creator.js:130-131 | the base point (30·i, 30·j) is nonnegative, and its x lies within a width w exactly when i ≤ floor(w / 30), and its y within a height h exactly when j ≤ floor(h / 30): the loop bounds i ≤ cols, j ≤ rows keep exactly the points on the canvas |
| Grid.Warped | src/creator.js:130-133 | a lattice point that no ellipse reaches is drawn at its base point (30·i, 30·j) |
| Grid.Lines | src/creator.js:127-150 | there are cols + 1 vertical lines with rows + 1 points each, followed by rows + 1 horizontal lines with cols + 1 points each |
| Grid.Crossings | src/creator.js:127-150 | vertical line i and horizontal line j both pass through lattice point (i, j), at the same position |
| Grid.LinesAgree | src/creator.js:127-150 | the lines depend only on where the lattice points inside the canvas are drawn |
| Grid.GridLines | src/creator.js:123-150 | the grid under a list of ellipses has the lattice shape, and column i and row j both pass through the pushed lattice point (i, j) |
| Grid.QuietGridIsUndisturbed | src/creator.js:104-150 | where no ellipse reaches any lattice point, the grid equals the undisturbed square lattice |
| Grid.Meshes | src/creator.js:61 | the meshes kept are exactly the mesh nodes of the scene, each kept as many times as the scene holds it |
| Grid.MeshesAppend | src/creator.js:61 | the filter keeps scene order: filtering two scene parts in turn gives the two filtered parts one after the other |
| Grid.MeshesOfOne | src/creator.js:61 | a single node is kept exactly when it is a mesh |
| Grid.MeshEllipse | src/creator.js:64-102 | a mesh's ellipse is proper, both radii are at least 50, and shrinking it by 50 gives the mesh's screen rectangle |
| Grid.Ellipses | src/creator.js:64-102 | there is one ellipse per mesh, each proper with both radii at least 50, and each one's shrunk rectangle is its own mesh's screen rectangle |
| Grid.EllipseCoversMesh | src/creator.js:72-102 | every projected box corner of a mesh lies inside its ellipse's shrunk rectangle |
| Grid.Header | src/creator.js:57-59 | the frame opens by clearing the whole w × h canvas, and setting the pen strokes nothing |
| Grid.FrameGrid | src/creator.js:123-150 | a frame draws cols + 1 + rows + 1 polylines, each with at least one point |
| Grid.NoMeshesNoWarp | src/creator.js:104-150 | a scene with no meshes draws the undisturbed square grid, whatever the camera and the math functions |
| Grid.Render | src/creator.js:54-151 | the command list is empty exactly when the canvas width is 0. Otherwise it opens with clearRect(w, h), strokeStyle #EFEFEF and lineWidth 1, and the rest decodes to the frame's grid, stroked once per line: cols + 1 + rows + 1 strokes |
| Grid.EmitSkeleton | src/creator.js:127-150 | polyline lists of the same shape are drawn with the same command sequence, apart from the point positions |
| Grid.LayoutIgnoresScene | src/creator.js:54-151 | two frames of the same size issue the same command sequence, apart from point positions, whatever their scene, camera or math functions |
| Grid.ThreeHundredSquare | src/creator.js:123-150 | a 300 × 300 canvas gets 11 vertical and 11 horizontal lines of 11 points each: 22 strokes |

## Left out

- Scene, camera, lights, renderer and controls setup, `resize`, the `animate` loop and the mobile panel toggle (src/creator.js:6-51, 153-196): library plumbing, frame scheduling and page wiring.
- The world transform and camera projection (`applyMatrix4(...).project(camera)`, src/creator.js:86): the model takes them as a `Projector` parameter. Only the viewport mapping that follows them is modelled.
- `Math.sqrt`, `Math.atan2`, `Math.cos`, `Math.sin` (src/creator.js:110-117): these are parameters. The lemmas about direction and magnitude assume the ideal laws in `Field.Sound`; rounding is not modelled.
- IEEE doubles: the model uses exact reals. NaN and Infinity (for example, a corner behind the camera) are not modelled.
- The `Infinity` / `-Infinity` seeds of the min/max fold (src/creator.js:84): these are replaced by folding the nonempty corner list from its first element. For eight finite corners the result is the same.
- The lazy bounding-box computation (src/creator.js:66-68): the box is taken as part of the mesh, as the geometry would cache it.
- The canvas itself: drawing is the returned command list. `clearRect(0, 0, w, h)` is recorded as `ClearRect(w, h)`.
- Field.Contribution: requires positive radii. The ellipses the renderer builds always have radii of at least 50 (`Grid.MeshEllipse`); for a radius of 0 the source would divide by zero.
- Field.ContributionIsOutwardPush: states the push's direction and length only under the ideal laws of `Field.Sound`, not for the floating-point functions.
- src/main.js, src/item-details.js and vite.config.js: hero scene, DOM handlers, font loading and build configuration. None of them holds a gravity grid; the only copy of the grid renderer is in src/creator.js.
