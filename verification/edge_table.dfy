/** The skeleton of a detected pose: which pairs of the 17 body keypoints are
    joined by a line, and the colour of each line. */
module EdgeTable {

  /** A colour triple, channel values as the drawing library receives them. */
  type Color = (int, int, int)

  /** A pair of keypoint indices and the colour of the line between them. */
  type Edge = ((nat, nat), Color)

  /** Number of keypoints in a detected pose. */
  const KEYPOINT_COUNT: nat := 17

  /** The skeleton edges in declaration order, which is also the order in
      which they are drawn. */
  const KEYPOINT_EDGE_COLORS: seq<Edge> := [
    ((0, 1), (147, 20, 255)),
    ((0, 2), (255, 255, 0)),
    ((1, 3), (147, 20, 255)),
    ((2, 4), (255, 255, 0)),
    ((0, 5), (147, 20, 255)),
    ((0, 6), (255, 255, 0)),
    ((5, 7), (147, 20, 255)),
    ((7, 9), (147, 20, 255)),
    ((6, 8), (255, 255, 0)),
    ((8, 10), (255, 255, 0)),
    ((5, 6), (0, 255, 255)),
    ((5, 11), (147, 20, 255)),
    ((6, 12), (255, 255, 0)),
    ((11, 12), (0, 255, 255)),
    ((11, 13), (147, 20, 255)),
    ((13, 15), (147, 20, 255)),
    ((12, 14), (255, 255, 0)),
    ((14, 16), (255, 255, 0))
  ]

  /** Both endpoints of every edge index into a keypoint list of length `n`. */
  predicate EdgesWithin(edges: seq<Edge>, n: nat) {
    forall k :: 0 <= k < |edges| ==> edges[k].0.0 < n && edges[k].0.1 < n
  }

  /** The table has 18 edges, each pair is written smaller index first, and
      every index is a keypoint of a 17-keypoint pose. */
  lemma TableShape()
    ensures |KEYPOINT_EDGE_COLORS| == 18
    ensures EdgesWithin(KEYPOINT_EDGE_COLORS, KEYPOINT_COUNT)
    ensures forall k :: 0 <= k < |KEYPOINT_EDGE_COLORS| ==>
      KEYPOINT_EDGE_COLORS[k].0.0 < KEYPOINT_EDGE_COLORS[k].0.1
  {
  }

  /** No pair appears twice: the table is a dictionary keyed by the pair,
      so each edge is drawn at most once per person. */
  lemma TableKeysDistinct()
    ensures forall j, k :: 0 <= j < k < |KEYPOINT_EDGE_COLORS| ==>
      KEYPOINT_EDGE_COLORS[j].0 != KEYPOINT_EDGE_COLORS[k].0
  {
  }

  /** Every edge of the table can be looked up on a pose with at least
      `n >= 17` keypoints. */
  lemma TableFits(n: nat)
    requires n >= KEYPOINT_COUNT
    ensures EdgesWithin(KEYPOINT_EDGE_COLORS, n)
  {
    TableShape();
  }
}
