/** Which marks the pose visualiser puts on a frame.

    For every detected person whose overall score reaches the instance
    threshold, the visualiser draws a dot on each keypoint whose score
    reaches the keypoint threshold, then a line along each skeleton edge
    whose two endpoints both score strictly above that threshold. The
    rasterisation is left to the drawing library; this module models the
    ordered list of drawing calls the visualiser issues.
 */
module Visualizer {
  import opened EdgeTable
  import opened Selection

  /** An integer pixel coordinate, as handed to the drawing library. */
  type Point = (int, int)

  datatype Keypoint = Keypoint(coord: Point, score: real)

  /** A detected person: keypoints in their fixed anatomical order and an
      overall confidence. The bounding box of the detector's result is never
      used for drawing and is not modelled. */
  datatype Person = Person(keypoints: seq<Keypoint>, score: real)

  /** One drawing call: a circle centred on a keypoint, or a skeleton line,
      with the radius and stroke thickness passed to the drawing library. */
  datatype DrawCmd =
    | Circle(center: Point, radius: int, color: Color, thickness: int)
    | Line(from: Point, to: Point, color: Color, thickness: int)

  const DOT_RADIUS: int := 2
  const DOT_THICKNESS: int := 4
  const LINE_THICKNESS: int := 2

  const DEFAULT_KEYPOINT_COLOR: Color := (0, 255, 0)
  const DEFAULT_KEYPOINT_THRESHOLD: real := 0.05
  const DEFAULT_INSTANCE_THRESHOLD: real := 0.1

  /** The dot test: a keypoint is drawn when its score reaches the threshold. */
  function ShowsKeypoint(threshold: real): Keypoint -> bool {
    (k: Keypoint) => k.score >= threshold
  }

  /** The line test: an edge is drawn when both endpoints score strictly
      above the threshold. The range guards only make the test total; every
      caller requires `EdgesWithin`, so they always hold there. */
  function ShowsEdge(kps: seq<Keypoint>, threshold: real): Edge -> bool {
    (e: Edge) => e.0.0 < |kps| && e.0.1 < |kps|
         && kps[e.0.0].score > threshold && kps[e.0.1].score > threshold
  }

  /** Positions of the keypoints that get a dot, in keypoint order. */
  function DrawnKeypoints(kps: seq<Keypoint>, threshold: real): seq<nat> {
    Select(kps, ShowsKeypoint(threshold))
  }

  /** Positions in `edges` of the edges that get a line, in table order. */
  function DrawnEdges(kps: seq<Keypoint>, edges: seq<Edge>, threshold: real): seq<nat> {
    Select(edges, ShowsEdge(kps, threshold))
  }

  /** The line drawn for edge `e`: between its endpoints' coordinates, in
      the edge's colour. */
  function EdgeLine(kps: seq<Keypoint>, e: Edge): DrawCmd
    requires e.0.0 < |kps| && e.0.1 < |kps|
  {
    Line(kps[e.0.0].coord, kps[e.0.1].coord, e.1, LINE_THICKNESS)
  }

  /** The landmark loop: walks every keypoint in order and draws a dot for
      each one scoring at least `threshold`. The result is exactly one dot
      per selected keypoint, in keypoint order. */
  function Circles(kps: seq<Keypoint>, color: Color, threshold: real): (r: seq<DrawCmd>)
    ensures var idx := DrawnKeypoints(kps, threshold);
      && |r| == |idx|
      && forall j :: 0 <= j < |idx| ==> r[j] == Circle(kps[idx[j]].coord, DOT_RADIUS, color, DOT_THICKNESS)
    decreases |kps|
  {
    if |kps| == 0 then []
    else
      var last := |kps| - 1;
      var prefix := Circles(kps[..last], color, threshold);
      assert forall i :: 0 <= i < last ==> kps[..last][i] == kps[i];
      prefix + (if kps[last].score >= threshold then [Circle(kps[last].coord, DOT_RADIUS, color, DOT_THICKNESS)] else [])
  }

  /** The edge loop: walks `edges` in order and draws a line for each edge
      whose endpoints both score strictly above `threshold`. The result is
      exactly one line per selected edge, in table order. */
  function Lines(kps: seq<Keypoint>, edges: seq<Edge>, threshold: real): (r: seq<DrawCmd>)
    requires EdgesWithin(edges, |kps|)
    ensures var idx := DrawnEdges(kps, edges, threshold);
      && |r| == |idx|
      && forall j :: 0 <= j < |idx| ==> r[j] == EdgeLine(kps, edges[idx[j]])
    decreases |edges|
  {
    if |edges| == 0 then []
    else
      var last := |edges| - 1;
      var prefix := Lines(kps, edges[..last], threshold);
      assert forall i :: 0 <= i < last ==> edges[..last][i] == edges[i];
      var e := edges[last];
      prefix + (if kps[e.0.0].score > threshold && kps[e.0.1].score > threshold
                then [Line(kps[e.0.0].coord, kps[e.0.1].coord, e.1, LINE_THICKNESS)]
                else [])
  }

  /** A person is safe to draw when it is skipped or has a keypoint for
      every index the skeleton table mentions. */
  predicate Drawable(p: Person, instanceThreshold: real) {
    p.score < instanceThreshold || |p.keypoints| >= KEYPOINT_COUNT
  }

  /** Every person of the list is safe to draw. */
  predicate AllDrawable(persons: seq<Person>, instanceThreshold: real) {
    forall i :: 0 <= i < |persons| ==> Drawable(persons[i], instanceThreshold)
  }

  /** Everything drawn for one accepted person against a skeleton `edges`:
      first a dot for each selected keypoint in keypoint order, then a line
      for each selected edge in `edges` order, each line in its edge's
      colour. */
  function SkeletonCommands(kps: seq<Keypoint>, edges: seq<Edge>, color: Color, threshold: real): (r: seq<DrawCmd>)
    requires EdgesWithin(edges, |kps|)
    ensures var ki := DrawnKeypoints(kps, threshold);
      var ei := DrawnEdges(kps, edges, threshold);
      && |r| == |ki| + |ei|
      && (forall j :: 0 <= j < |ki| ==> r[j] == Circle(kps[ki[j]].coord, DOT_RADIUS, color, DOT_THICKNESS))
      && (forall j :: 0 <= j < |ei| ==> r[|ki| + j] == EdgeLine(kps, edges[ei[j]]))
  {
    var circles := Circles(kps, color, threshold);
    var lines := Lines(kps, edges, threshold);
    assert forall j :: 0 <= j < |lines| ==> (circles + lines)[|circles| + j] == lines[j];
    circles + lines
  }

  /** Everything drawn for one accepted person: the dots, then the lines
      of the skeleton table (see `SkeletonCommands`). */
  function PersonCommands(p: Person, color: Color, threshold: real): seq<DrawCmd>
    requires |p.keypoints| >= KEYPOINT_COUNT
  {
    TableFits(|p.keypoints|);
    SkeletonCommands(p.keypoints, KEYPOINT_EDGE_COLORS, color, threshold)
  }

  /** What one iteration of the person loop draws: nothing for a person
      below the instance threshold. */
  function PersonOutput(p: Person, color: Color, keypointThreshold: real, instanceThreshold: real): seq<DrawCmd>
    requires Drawable(p, instanceThreshold)
  {
    if p.score < instanceThreshold then [] else PersonCommands(p, color, keypointThreshold)
  }

  /** The person loop: the calls `draw` makes for each person, person after
      person. */
  function DrawAll(persons: seq<Person>, draw: Person --> seq<DrawCmd>): seq<DrawCmd>
    requires forall i :: 0 <= i < |persons| ==> draw.requires(persons[i])
    decreases |persons|
  {
    if |persons| == 0 then []
    else
      var last := |persons| - 1;
      var front := persons[..last];
      assert forall i :: 0 <= i < last ==> front[i] == persons[i];
      DrawAll(front, draw) + draw(persons[last])
  }

  /** A property of single calls that holds of every call made for every
      person holds of every call of the loop. */
  lemma {:induction false} DrawAllKeeps(persons: seq<Person>, draw: Person --> seq<DrawCmd>, ok: DrawCmd -> bool)
    requires forall i :: 0 <= i < |persons| ==> draw.requires(persons[i])
    requires forall i, k :: 0 <= i < |persons| && 0 <= k < |draw(persons[i])| ==> ok(draw(persons[i])[k])
    ensures forall k :: 0 <= k < |DrawAll(persons, draw)| ==> ok(DrawAll(persons, draw)[k])
    decreases |persons|
  {
    if |persons| > 0 {
      var last := |persons| - 1;
      var front := persons[..last];
      assert forall i :: 0 <= i < last ==> front[i] == persons[i];
      DrawAllKeeps(front, draw, ok);
      var head := DrawAll(front, draw);
      var tail := draw(persons[last]);
      assert forall k :: 0 <= k < |tail| ==> (head + tail)[|head| + k] == tail[k];
    }
  }

  /** A loop whose every iteration draws nothing draws nothing. */
  lemma {:induction false} DrawAllSilent(persons: seq<Person>, draw: Person --> seq<DrawCmd>)
    requires forall i :: 0 <= i < |persons| ==> draw.requires(persons[i]) && draw(persons[i]) == []
    ensures DrawAll(persons, draw) == []
    decreases |persons|
  {
    if |persons| > 0 {
      var last := |persons| - 1;
      var front := persons[..last];
      assert forall i :: 0 <= i < last ==> front[i] == persons[i];
      DrawAllSilent(front, draw);
    }
  }

  /** One iteration of the person loop of `visualize`, as a value. */
  function PersonDrawer(color: Color, keypointThreshold: real, instanceThreshold: real): Person --> seq<DrawCmd> {
    p requires Drawable(p, instanceThreshold) => PersonOutput(p, color, keypointThreshold, instanceThreshold)
  }

  /** Every dot drawn against any skeleton is in the keypoint colour. */
  lemma SkeletonDotsInColor(kps: seq<Keypoint>, edges: seq<Edge>, color: Color, threshold: real)
    requires EdgesWithin(edges, |kps|)
    ensures var out := SkeletonCommands(kps, edges, color, threshold);
      forall k :: 0 <= k < |out| && out[k].Circle? ==> out[k].color == color
  {
    var ki := DrawnKeypoints(kps, threshold);
    var out := SkeletonCommands(kps, edges, color, threshold);
    assert forall k :: |ki| <= k < |out| ==> out[k].Line?;
  }

  /** Every dot drawn for one person is in the keypoint colour. */
  lemma DotsInKeypointColor(p: Person, color: Color, keypointThreshold: real, instanceThreshold: real)
    requires Drawable(p, instanceThreshold)
    ensures var out := PersonOutput(p, color, keypointThreshold, instanceThreshold);
      forall k :: 0 <= k < |out| && out[k].Circle? ==> out[k].color == color
  {
    if p.score >= instanceThreshold {
      TableFits(|p.keypoints|);
      SkeletonDotsInColor(p.keypoints, KEYPOINT_EDGE_COLORS, color, keypointThreshold);
    }
  }

  /** The drawing calls `visualize` issues for `persons`, in order. Nothing
      is drawn when every person is below the instance threshold. */
  function Visualize(persons: seq<Person>, color: Color, keypointThreshold: real, instanceThreshold: real): (r: seq<DrawCmd>)
    requires AllDrawable(persons, instanceThreshold)
    ensures (forall i :: 0 <= i < |persons| ==> persons[i].score < instanceThreshold) ==> r == []
  {
    var draw := PersonDrawer(color, keypointThreshold, instanceThreshold);
    var r := DrawAll(persons, draw);
    assert (forall i :: 0 <= i < |persons| ==> persons[i].score < instanceThreshold) ==> r == [] by {
      if forall i :: 0 <= i < |persons| ==> persons[i].score < instanceThreshold {
        DrawAllSilent(persons, draw);
      }
    }
    r
  }

  /** Every circle `visualize` draws is in the keypoint colour. */
  lemma VisualizeDotColor(persons: seq<Person>, color: Color, keypointThreshold: real, instanceThreshold: real)
    requires AllDrawable(persons, instanceThreshold)
    ensures var r := Visualize(persons, color, keypointThreshold, instanceThreshold);
      forall k :: 0 <= k < |r| && r[k].Circle? ==> r[k].color == color
  {
    var draw := PersonDrawer(color, keypointThreshold, instanceThreshold);
    forall i | 0 <= i < |persons|
      ensures var out := draw(persons[i]);
        forall k :: 0 <= k < |out| && out[k].Circle? ==> out[k].color == color
    {
      DotsInKeypointColor(persons[i], color, keypointThreshold, instanceThreshold);
    }
    DrawAllKeeps(persons, draw, (c: DrawCmd) => c.Circle? ==> c.color == color);
  }

  /** A keypoint gets a dot exactly when its score reaches the threshold,
      and an edge gets a line exactly when both its endpoints score strictly
      above it. */
  lemma SelectionRule(kps: seq<Keypoint>, edges: seq<Edge>, threshold: real)
    requires EdgesWithin(edges, |kps|)
    ensures forall i :: 0 <= i < |kps| ==>
      (i in DrawnKeypoints(kps, threshold) <==> kps[i].score >= threshold)
    ensures forall k :: 0 <= k < |edges| ==>
      (k in DrawnEdges(kps, edges, threshold) <==>
         kps[edges[k].0.0].score > threshold && kps[edges[k].0.1].score > threshold)
  {
    SelectIsSelection(kps, ShowsKeypoint(threshold));
    SelectIsSelection(edges, ShowsEdge(kps, threshold));
  }

  /** The two tests differ at the boundary: a keypoint scoring exactly the
      threshold gets its dot, yet no line touching it is drawn. */
  lemma BoundaryKeypoint(kps: seq<Keypoint>, edges: seq<Edge>, threshold: real, i: nat)
    requires EdgesWithin(edges, |kps|)
    requires i < |kps| && kps[i].score == threshold
    ensures i in DrawnKeypoints(kps, threshold)
    ensures forall j :: 0 <= j < |DrawnEdges(kps, edges, threshold)| ==>
      var e := edges[DrawnEdges(kps, edges, threshold)[j]];
      e.0.0 != i && e.0.1 != i
  {
    SelectionRule(kps, edges, threshold);
  }

  /** One more person adds that person's calls at the end. */
  lemma DrawAllSnoc(s: seq<Person>, x: Person, draw: Person --> seq<DrawCmd>)
    requires forall i :: 0 <= i < |s| ==> draw.requires(s[i])
    requires draw.requires(x)
    ensures forall i :: 0 <= i < |s + [x]| ==> draw.requires((s + [x])[i])
    ensures DrawAll(s + [x], draw) == DrawAll(s, draw) + draw(x)
  {
    var sx := s + [x];
    assert forall i :: 0 <= i < |sx| ==> draw.requires(sx[i]) by {
      assert forall i :: 0 <= i < |s| ==> sx[i] == s[i];
    }
    assert sx[..|s|] == s;
  }

  lemma {:induction false} DrawAllAppend(a: seq<Person>, b: seq<Person>, draw: Person --> seq<DrawCmd>)
    requires forall i :: 0 <= i < |a| ==> draw.requires(a[i])
    requires forall i :: 0 <= i < |b| ==> draw.requires(b[i])
    ensures forall i :: 0 <= i < |a + b| ==> draw.requires((a + b)[i])
    ensures DrawAll(a + b, draw) == DrawAll(a, draw) + DrawAll(b, draw)
    decreases |b|
  {
    var ab := a + b;
    assert forall i :: 0 <= i < |ab| ==> draw.requires(ab[i]) by {
      assert forall i :: 0 <= i < |ab| ==> ab[i] == if i < |a| then a[i] else b[i - |a|];
    }
    if |b| == 0 {
      assert ab == a;
    } else {
      var last := |b| - 1;
      var front := b[..last];
      var x := b[last];
      assert forall i :: 0 <= i < last ==> draw.requires(front[i]) by {
        assert forall i :: 0 <= i < last ==> front[i] == b[i];
      }
      assert b == front + [x];
      assert ab == (a + front) + [x];
      DrawAllAppend(a, front, draw);
      DrawAllSnoc(a + front, x, draw);
      DrawAllSnoc(front, x, draw);
      AppendAssociative(DrawAll(a, draw), DrawAll(front, draw), draw(x));
    }
  }

  /** The person loop is compositional: the calls for `a + b` are the calls
      for `a` followed by the calls for `b`. */
  lemma VisualizeAppend(a: seq<Person>, b: seq<Person>, color: Color,
                        keypointThreshold: real, instanceThreshold: real)
    requires AllDrawable(a, instanceThreshold) && AllDrawable(b, instanceThreshold)
    ensures AllDrawable(a + b, instanceThreshold)
    ensures Visualize(a + b, color, keypointThreshold, instanceThreshold)
         == Visualize(a, color, keypointThreshold, instanceThreshold)
          + Visualize(b, color, keypointThreshold, instanceThreshold)
  {
    DrawAllAppend(a, b, PersonDrawer(color, keypointThreshold, instanceThreshold));
  }

  lemma AppendAssociative<T>(x: seq<T>, y: seq<T>, z: seq<T>)
    ensures (x + y) + z == x + (y + z)
  {
  }

  /** Person `i`'s calls sit between those of the persons before it and
      those of the persons after it. */
  lemma PersonBlock(persons: seq<Person>, i: nat, color: Color,
                    keypointThreshold: real, instanceThreshold: real)
    requires AllDrawable(persons, instanceThreshold)
    requires i < |persons|
    ensures Visualize(persons, color, keypointThreshold, instanceThreshold)
         == Visualize(persons[..i], color, keypointThreshold, instanceThreshold)
          + PersonOutput(persons[i], color, keypointThreshold, instanceThreshold)
          + Visualize(persons[i + 1..], color, keypointThreshold, instanceThreshold)
  {
    assert persons == persons[..i] + [persons[i]] + persons[i + 1..];
    VisualizeAppend(persons[..i], [persons[i]], color, keypointThreshold, instanceThreshold);
    VisualizeAppend(persons[..i] + [persons[i]], persons[i + 1..], color, keypointThreshold, instanceThreshold);
    VisualizeSingle(persons[i], color, keypointThreshold, instanceThreshold);
  }

  /** The loop over a single person makes exactly that person's calls. */
  lemma VisualizeSingle(p: Person, color: Color, keypointThreshold: real, instanceThreshold: real)
    requires Drawable(p, instanceThreshold)
    ensures AllDrawable([p], instanceThreshold)
    ensures Visualize([p], color, keypointThreshold, instanceThreshold)
         == PersonOutput(p, color, keypointThreshold, instanceThreshold)
  {
    var draw := PersonDrawer(color, keypointThreshold, instanceThreshold);
    assert [p][..0] == [];
    assert DrawAll([p], draw) == DrawAll([], draw) + draw(p);
    assert draw(p) == PersonOutput(p, color, keypointThreshold, instanceThreshold);
  }

  /** A person below the instance threshold contributes nothing and leaves
      the other persons' calls untouched. */
  lemma SkippedPerson(before: seq<Person>, p: Person, after: seq<Person>, color: Color,
                      keypointThreshold: real, instanceThreshold: real)
    requires AllDrawable(before, instanceThreshold) && AllDrawable(after, instanceThreshold)
    requires p.score < instanceThreshold
    ensures AllDrawable(before + [p] + after, instanceThreshold)
    ensures Visualize(before + [p] + after, color, keypointThreshold, instanceThreshold)
         == Visualize(before, color, keypointThreshold, instanceThreshold)
          + Visualize(after, color, keypointThreshold, instanceThreshold)
  {
    VisualizeAppend(before, [p], color, keypointThreshold, instanceThreshold);
    VisualizeAppend(before + [p], after, color, keypointThreshold, instanceThreshold);
    VisualizeSingle(p, color, keypointThreshold, instanceThreshold);
    var vb := Visualize(before, color, keypointThreshold, instanceThreshold);
    assert vb + [] == vb;
  }

  /** When only the first keypoint reaches the threshold, it alone gets
      a dot. */
  lemma OnlyFirstKeypointDrawn(kps: seq<Keypoint>, threshold: real)
    requires |kps| > 0 && kps[0].score >= threshold
    requires forall i :: 1 <= i < |kps| ==> kps[i].score < threshold
    ensures DrawnKeypoints(kps, threshold) == [0]
  {
    SelectIsSelection(kps, ShowsKeypoint(threshold));
    assert IsSelection(kps, ShowsKeypoint(threshold), [0]);
    SelectionUnique(kps, ShowsKeypoint(threshold), DrawnKeypoints(kps, threshold), [0]);
  }

  /** Every skeleton edge has an endpoint other than keypoint 0, so when
      only keypoint 0 may score above the threshold no line is drawn. */
  lemma NoLinesWithoutSecondKeypoint(kps: seq<Keypoint>, threshold: real)
    requires |kps| >= KEYPOINT_COUNT
    requires forall i :: 1 <= i < |kps| ==> kps[i].score <= threshold
    ensures DrawnEdges(kps, KEYPOINT_EDGE_COLORS, threshold) == []
  {
    var edges := KEYPOINT_EDGE_COLORS;
    TableShape();
    SelectIsSelection(edges, ShowsEdge(kps, threshold));
    assert forall k :: 0 <= k < |edges| ==> 1 <= edges[k].0.1 < |kps|;
    assert IsSelection(edges, ShowsEdge(kps, threshold), []);
    SelectionUnique(edges, ShowsEdge(kps, threshold), DrawnEdges(kps, edges, threshold), []);
  }

  /** With a single keypoint selected and no edge selected, one person's
      calls are a single circle on that keypoint. */
  lemma OnlyFirstDot(kps: seq<Keypoint>, edges: seq<Edge>, color: Color, threshold: real)
    requires EdgesWithin(edges, |kps|) && |kps| > 0
    requires DrawnKeypoints(kps, threshold) == [0]
    requires DrawnEdges(kps, edges, threshold) == []
    ensures SkeletonCommands(kps, edges, color, threshold)
         == [Circle(kps[0].coord, DOT_RADIUS, color, DOT_THICKNESS)]
  {
  }

  /** A worked case with the default arguments: one confident person whose
      nose scores 0.2 and left eye 0.04, every other keypoint 0. Only the
      nose gets a dot; the nose-to-left-eye edge is not drawn, and neither
      is any other. */
  lemma DefaultThresholdExample()
    ensures var kps := [Keypoint((10, 20), 0.2), Keypoint((12, 18), 0.04)]
                     + seq(15, i => Keypoint((i, i), 0.0));
      var p := Person(kps, 0.5);
      Visualize([p], DEFAULT_KEYPOINT_COLOR, DEFAULT_KEYPOINT_THRESHOLD, DEFAULT_INSTANCE_THRESHOLD)
        == [Circle((10, 20), DOT_RADIUS, DEFAULT_KEYPOINT_COLOR, DOT_THICKNESS)]
  {
    var kps := [Keypoint((10, 20), 0.2), Keypoint((12, 18), 0.04)]
             + seq(15, i => Keypoint((i, i), 0.0));
    var th := DEFAULT_KEYPOINT_THRESHOLD;
    assert |kps| == KEYPOINT_COUNT;
    assert kps[0] == Keypoint((10, 20), 0.2);
    assert forall i :: 1 <= i < |kps| ==> kps[i].score <= 0.04;
    OnlyFirstKeypointDrawn(kps, th);
    NoLinesWithoutSecondKeypoint(kps, th);
    TableFits(|kps|);
    OnlyFirstDot(kps, KEYPOINT_EDGE_COLORS, DEFAULT_KEYPOINT_COLOR, th);
    var p := Person(kps, 0.5);
    VisualizeSingle(p, DEFAULT_KEYPOINT_COLOR, th, DEFAULT_INSTANCE_THRESHOLD);
  }
}
