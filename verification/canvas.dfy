/** The drawing commands the gravity grid issues on its 2D canvas context,
    and the shape of the stream it issues: a sequence of polylines, each
    opened with `beginPath`, started with one `moveTo`, continued with
    `lineTo`s and closed with `stroke`. A decoder reads the polylines back
    out of a command stream, so that what the renderer draws can be stated
    as the list of point lists it encodes. */
module Canvas {
  import opened Geometry

  datatype Cmd =
    | ClearRect(w: nat, h: nat)
    | StrokeStyle(color: string)
    | LineWidth(width: real)
    | BeginPath
    | MoveTo(p: Vec2)
    | LineTo(p: Vec2)
    | Stroke

  /** A polyline through at least one point. */
  predicate Drawable(ls: seq<seq<Vec2>>) {
    forall k :: 0 <= k < |ls| ==> |ls[k]| > 0
  }

  /** The commands that stroke one polyline: the first point is moved to,
      every later point is drawn to. */
  function Polyline(pts: seq<Vec2>): (r: seq<Cmd>)
    requires |pts| > 0
    ensures |r| == |pts| + 2
    ensures r[0] == BeginPath && r[|r| - 1] == Stroke
  {
    [BeginPath, MoveTo(pts[0])] + LineTos(pts[1..]) + [Stroke]
  }

  function LineTos(pts: seq<Vec2>): (r: seq<Cmd>)
    ensures |r| == |pts|
    ensures forall k :: 0 <= k < |r| ==> r[k].LineTo? && r[k].p == pts[k]
  {
    seq(|pts|, k requires 0 <= k < |pts| => LineTo(pts[k]))
  }

  /** The commands for a list of polylines, one after another: nothing at
      all for no polylines, otherwise a stream that opens a path first and
      strokes last. */
  function Emit(ls: seq<seq<Vec2>>): (r: seq<Cmd>)
    requires Drawable(ls)
    ensures r == [] <==> ls == []
    ensures ls != [] ==> r[0] == BeginPath && r[|r| - 1] == Stroke
    decreases |ls|
  {
    if ls == [] then [] else Polyline(ls[0]) + Emit(ls[1..])
  }

  /** How many `lineTo` commands open the stream. */
  function LeadingLineTos(cs: seq<Cmd>): (n: nat)
    ensures n <= |cs|
    ensures forall k :: 0 <= k < n ==> cs[k].LineTo?
    ensures n < |cs| ==> !cs[n].LineTo?
    decreases |cs|
  {
    if cs == [] || !cs[0].LineTo? then 0 else 1 + LeadingLineTos(cs[1..])
  }

  /** The points of a run of `lineTo` commands. */
  function Targets(cs: seq<Cmd>): (r: seq<Vec2>)
    requires forall k :: 0 <= k < |cs| ==> cs[k].LineTo?
    ensures |r| == |cs|
    ensures LineTos(r) == cs
  {
    seq(|cs|, k requires 0 <= k < |cs| => cs[k].p)
  }

  /** Reads a command stream as a list of polylines; `None` when the stream
      is not made of complete `beginPath`, `moveTo`, `lineTo`*, `stroke`
      groups. */
  function Decode(cs: seq<Cmd>): (r: Option<seq<seq<Vec2>>>)
    ensures r.Some? ==> Drawable(r.value)
    decreases |cs|
  {
    if cs == [] then Some([])
    else if |cs| < 3 || cs[0] != BeginPath || !cs[1].MoveTo? then None
    else
      var n := LeadingLineTos(cs[2..]);
      if 2 + n >= |cs| || cs[2 + n] != Stroke then None
      else
        match Decode(cs[3 + n..])
        case None => None
        case Some(rest) => Some([[cs[1].p] + Targets(cs[2..2 + n])] + rest)
  }

  /** Decoding a polyline's commands in front of a stream reads that
      polyline, then decodes the stream. */
  lemma DecodePolyline(pts: seq<Vec2>, tail: seq<Cmd>)
    requires |pts| > 0
    ensures Decode(Polyline(pts) + tail) ==
            if Decode(tail).Some? then Some([pts] + Decode(tail).value) else None
  {
    PolylineLayout(pts, tail);
    assert [pts[0]] + pts[1..] == pts;
  }

  /** Where the parts of a polyline sit in a stream that starts with it. */
  lemma PolylineLayout(pts: seq<Vec2>, tail: seq<Cmd>)
    requires |pts| > 0
    ensures var cs, n := Polyline(pts) + tail, |pts| - 1;
            && |cs| >= 3 + n
            && cs[0] == BeginPath && cs[1] == MoveTo(pts[0])
            && LeadingLineTos(cs[2..]) == n && cs[2 + n] == Stroke
            && cs[3 + n..] == tail
            && Targets(cs[2..2 + n]) == pts[1..]
  {
    var cs := Polyline(pts) + tail;
    var body := LineTos(pts[1..]);
    assert cs == [BeginPath, MoveTo(pts[0])] + body + [Stroke] + tail;
    assert cs[2..] == body + ([Stroke] + tail);
    LeadingPrefix(body, [Stroke] + tail);
    var n := |body|;
    assert cs[3 + n..] == tail;
    assert cs[2..2 + n] == body;
  }

  /** Emitting polylines and reading them back gives the same polylines. */
  lemma {:induction false} DecodeEmit(ls: seq<seq<Vec2>>)
    requires Drawable(ls)
    ensures Decode(Emit(ls)) == Some(ls)
    decreases |ls|
  {
    if ls != [] {
      DecodeEmit(ls[1..]);
      DecodeFirst(ls);
      assert [ls[0]] + ls[1..] == ls;
    }
  }

  /** Decoding an emission reads its first polyline, then decodes the
      emission of the rest. */
  lemma DecodeFirst(ls: seq<seq<Vec2>>)
    requires Drawable(ls) && ls != []
    ensures var tail := Decode(Emit(ls[1..]));
            Decode(Emit(ls)) == if tail.Some? then Some([ls[0]] + tail.value) else None
  {
    var tail := Emit(ls[1..]);
    assert Emit(ls) == Polyline(ls[0]) + tail;
    DecodePolyline(ls[0], tail);
  }

  /** A run of `lineTo`s followed by something else: the leading count is
      the length of the run. */
  lemma {:induction false} LeadingPrefix(body: seq<Cmd>, rest: seq<Cmd>)
    requires forall k :: 0 <= k < |body| ==> body[k].LineTo?
    requires rest != [] && !rest[0].LineTo?
    ensures LeadingLineTos(body + rest) == |body|
    decreases |body|
  {
    if body != [] {
      assert (body + rest)[1..] == body[1..] + rest;
      LeadingPrefix(body[1..], rest);
    } else {
      assert body + rest == rest;
    }
  }

  /** One step of the decoder on a stream it accepts: a whole polyline
      group, then an accepted rest. */
  lemma DecodeStep(cs: seq<Cmd>)
    requires cs != [] && Decode(cs).Some?
    ensures var n := LeadingLineTos(cs[2..]);
            && 3 + n <= |cs|
            && cs[0] == BeginPath && cs[1].MoveTo? && cs[2 + n] == Stroke
            && Decode(cs[3 + n..]).Some?
            && Decode(cs).value == [[cs[1].p] + Targets(cs[2..2 + n])] + Decode(cs[3 + n..]).value
  {
  }

  /** Every stream the decoder accepts is exactly the emission of what it
      decodes to: the decoder rejects everything else. */
  lemma {:induction false} EmitDecode(cs: seq<Cmd>)
    requires Decode(cs).Some?
    ensures Emit(Decode(cs).value) == cs
    decreases |cs|
  {
    if cs != [] {
      DecodeStep(cs);
      var n := LeadingLineTos(cs[2..]);
      var rest := cs[3 + n..];
      var pts := [cs[1].p] + Targets(cs[2..2 + n]);
      EmitDecode(rest);
      GroupOf(cs, n);
      EmitCons(pts, Decode(rest).value);
    }
  }

  /** Emitting a polyline list emits its first polyline, then the rest. */
  lemma EmitCons(pts: seq<Vec2>, ls: seq<seq<Vec2>>)
    requires |pts| > 0 && Drawable(ls)
    ensures Drawable([pts] + ls)
    ensures Emit([pts] + ls) == Polyline(pts) + Emit(ls)
  {
    assert ([pts] + ls)[1..] == ls;
  }

  /** The first group of an accepted stream is the polyline of its points,
      and the stream is that polyline followed by the rest. */
  lemma GroupOf(cs: seq<Cmd>, n: nat)
    requires 3 + n <= |cs| && n == LeadingLineTos(cs[2..])
    requires cs[0] == BeginPath && cs[1].MoveTo? && cs[2 + n] == Stroke
    ensures Polyline([cs[1].p] + Targets(cs[2..2 + n])) + cs[3 + n..] == cs
  {
    var run := cs[2..2 + n];
    assert forall k :: 0 <= k < n ==> run[k] == cs[2..][k];
    var pts := [cs[1].p] + Targets(run);
    assert pts[1..] == Targets(run);
    assert LineTos(Targets(run)) == run;
    assert Polyline(pts) == cs[..3 + n] by {
      assert cs[..3 + n] == [cs[0], MoveTo(cs[1].p)] + run + [cs[2 + n]];
    }
    assert cs[..3 + n] + cs[3 + n..] == cs;
  }

  /** The number of `stroke` commands in a stream. */
  function Strokes(cs: seq<Cmd>): nat
    decreases |cs|
  {
    if cs == [] then 0 else (if cs[0] == Stroke then 1 else 0) + Strokes(cs[1..])
  }

  lemma {:induction false} StrokesAppend(a: seq<Cmd>, b: seq<Cmd>)
    ensures Strokes(a + b) == Strokes(a) + Strokes(b)
    decreases |a|
  {
    if a == [] {
      assert a + b == b;
    } else {
      assert (a + b)[1..] == a[1..] + b;
      StrokesAppend(a[1..], b);
    }
  }

  lemma {:induction false} NoStrokeInLineTos(pts: seq<Vec2>)
    ensures Strokes(LineTos(pts)) == 0
    decreases |pts|
  {
    if pts != [] {
      assert LineTos(pts)[1..] == LineTos(pts[1..]);
      NoStrokeInLineTos(pts[1..]);
    }
  }

  /** Each polyline is stroked exactly once. */
  lemma {:induction false} EmitStrokes(ls: seq<seq<Vec2>>)
    requires Drawable(ls)
    ensures Strokes(Emit(ls)) == |ls|
    decreases |ls|
  {
    if ls != [] {
      var pts := ls[0];
      NoStrokeInLineTos(pts[1..]);
      StrokesAppend([BeginPath, MoveTo(pts[0])], LineTos(pts[1..]));
      StrokesAppend([BeginPath, MoveTo(pts[0])] + LineTos(pts[1..]), [Stroke]);
      StrokesAppend(Polyline(pts), Emit(ls[1..]));
      assert Strokes([BeginPath, MoveTo(pts[0])]) == 0 by {
        assert [BeginPath, MoveTo(pts[0])][1..] == [MoveTo(pts[0])];
        assert [MoveTo(pts[0])][1..] == [];
      }
      assert Strokes([Stroke]) == 1 by {
        assert [Stroke][1..] == [];
      }
      EmitStrokes(ls[1..]);
    }
  }
}
