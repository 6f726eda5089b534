/**
 The full-screen quad of script.js (`initBuffers`, drawn by `drawScene` as a
 four-vertex triangle strip). Vertex i reads the i-th pair of the position
 array and the i-th pair of the texture-coordinate array.
 */
module Geometry {

  /** Vertices drawn by drawArrays(TRIANGLE_STRIP, 0, 4). */
  const VertexCount: nat := 4

  /** Clip-space corners: top-left, top-right, bottom-left, bottom-right. */
  const Positions: seq<real> := [-1.0, 1.0, 1.0, 1.0, -1.0, -1.0, 1.0, -1.0]

  /** The texture coordinates as `initBuffers` lists them: five pairs, the
      third pair repeated. */
  const WrittenTexCoords: seq<real> := [0.0, 0.0, 1.0, 0.0, 0.0, 1.0, 0.0, 1.0, 1.0, 1.0]

  /** The texture coordinates without the repeated pair. */
  const CorrectedTexCoords: seq<real> := [0.0, 0.0, 1.0, 0.0, 0.0, 1.0, 1.0, 1.0]

  /** The pair a two-component attribute yields for vertex i. */
  function Pair(data: seq<real>, i: nat): (real, real)
    requires 2 * i + 1 < |data|
  {
    (data[2 * i], data[2 * i + 1])
  }

  /** The texture coordinate that shows the image upright and unstretched at
      clip-space point (x, y): image row 0 at the top of the screen. */
  function UprightTexCoord(p: (real, real)): (real, real)
  {
    ((p.0 + 1.0) / 2.0, (1.0 - p.1) / 2.0)
  }

  /** Vertex i samples the texture where its corner of the screen is. */
  predicate CornerMatches(coords: seq<real>, i: nat)
    requires i < VertexCount && 2 * i + 1 < |coords|
  {
    Pair(coords, i) == UprightTexCoord(Pair(Positions, i))
  }

  /** As written, the first three corners sample the texture upright, but
      the bottom-right corner samples (0, 1) instead of (1, 1), which folds
      the lower-right triangle of the image onto its left edge. */
  lemma WrittenBottomRightMismatch()
    ensures forall i :: 0 <= i < 3 ==> CornerMatches(WrittenTexCoords, i)
    ensures !CornerMatches(WrittenTexCoords, 3)
    ensures Pair(WrittenTexCoords, 3) == (0.0, 1.0) && UprightTexCoord(Pair(Positions, 3)) == (1.0, 1.0)
  {
    assert CornerMatches(WrittenTexCoords, 0);
    assert CornerMatches(WrittenTexCoords, 1);
    assert CornerMatches(WrittenTexCoords, 2);
  }

  /** With the repeated pair removed every corner samples the texture
      upright, and there is exactly one pair per vertex. */
  lemma CorrectedCornersMatch()
    ensures |CorrectedTexCoords| == 2 * VertexCount
    ensures forall i :: 0 <= i < VertexCount ==> CornerMatches(CorrectedTexCoords, i)
  {
    assert CornerMatches(CorrectedTexCoords, 0);
    assert CornerMatches(CorrectedTexCoords, 1);
    assert CornerMatches(CorrectedTexCoords, 2);
    assert CornerMatches(CorrectedTexCoords, 3);
  }
}
