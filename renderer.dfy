/**
  How the chart renderer (`create_bullseye_radar_advanced`)
  pairs rows with the angles that `calculate_segment_positions` returns. The
  angle list holds one angle per row whose key kept a segment, in row order,
  but the renderer reads it by raw row position: once a row of a dropped
  segment precedes a kept one, the rows after it are drawn at the angles of
  other rows, and the last kept rows are not drawn at all.
*/
module Renderer {
  import opened Wrappers
  import opened Frame
  import opened SegmentLayout

  /** As written: row `idx` is drawn at `angles[idx]` when `idx < len(angles)`, and skipped otherwise. */
  function DrawnAngleAsWritten(angles: seq<real>, idx: nat): (a: Option<real>)
    ensures a.Some? <==> idx < |angles|
    ensures a.Some? ==> a.value == angles[idx]
  {
    if idx < |angles| then Some(angles[idx]) else None
  }

  /**
    Corrected: row `r` is drawn only when its key owns a segment, at the angle
    that the layout emitted for it, which follows those of the earlier placed
    rows.
  */
  function DrawnAngle(keys: seq<Cell>, segs: map<Cell, SegmentInfo>, angles: seq<real>, r: nat): (a: Option<real>)
    requires r < |keys|
    ensures a.Some? ==> keys[r] in segs && a.value in angles
  {
    if keys[r] in segs && PlacedCount(keys, segs, r) < |angles| then Some(angles[PlacedCount(keys, segs, r)])
    else None
  }

  /**
    With the corrected lookup every row of a kept segment is drawn at its own
    position of that segment (the one GroupedRow places inside the segment's
    wedge), and the rows of dropped segments are not drawn.
  */
  lemma DrawnAngleIsOwnPosition(keys: seq<Cell>, maxSegments: nat, tau: real, r: nat)
    requires keys != [] && maxSegments > 0 && tau > 0.0 && r < |keys|
    ensures var layout := GroupedLayout(keys, maxSegments, tau);
      keys[r] !in layout.segments ==> DrawnAngle(keys, layout.segments, layout.angles, r) == None
    ensures var layout := GroupedLayout(keys, maxSegments, tau);
      keys[r] in layout.segments ==>
        && Rank(keys, r) < |layout.segments[keys[r]].positions|
        && DrawnAngle(keys, layout.segments, layout.angles, r) == Some(layout.segments[keys[r]].positions[Rank(keys, r)])
  {
    if keys[r] in GroupedLayout(keys, maxSegments, tau).segments {
      GroupedRow(keys, maxSegments, tau, r);
    }
  }

  /**
    Keys A, B, C, A with the default cap of two segments: A keeps the wedge
    [0, tau/2) with its rows at 0.05·tau and 0.45·tau, B keeps [tau/2, tau)
    with its one row at 0.75·tau, and C is dropped. The angle list is
    0.05·tau, 0.75·tau, 0.45·tau. As written, row 2 (key C, which has no
    segment) is drawn at 0.45·tau, inside A's wedge, and row 3 (key A) is not
    drawn; the corrected lookup leaves row 2 out and draws row 3 at 0.45·tau.
  */
  lemma AsWrittenMisplacesRows(tau: real)
    ensures var keys := [Text("A"), Text("B"), Text("C"), Text("A")];
      var layout := GroupedLayout(keys, 2, tau);
      && layout.angles == [0.05 * tau, 0.75 * tau, 0.45 * tau]
      && Text("C") !in layout.segments
      && DrawnAngleAsWritten(layout.angles, 2) == Some(0.45 * tau)
      && DrawnAngleAsWritten(layout.angles, 3) == None
      && DrawnAngle(keys, layout.segments, layout.angles, 2) == None
      && DrawnAngle(keys, layout.segments, layout.angles, 3) == Some(0.45 * tau)
  {
    var keys := [Text("A"), Text("B"), Text("C"), Text("A")];
    ExampleSegments(tau);
    var segs := GroupedLayout(keys, 2, tau).segments;
    ExamplePlacement(segs, [0.05 * tau, 0.45 * tau], [0.75 * tau]);
  }

  /** Keys A, B, C, A: three distinct keys, A twice; with a cap of 2, A and B keep a segment. */
  lemma ExampleKeys()
    ensures var keys := [Text("A"), Text("B"), Text("C"), Text("A")];
      && Unique(keys) == [Text("A"), Text("B"), Text("C")]
      && SegmentCount(keys, 2) == 2
      && Count(keys, Text("A")) == 2
      && Count(keys, Text("B")) == 1
      && Rank(keys, 0) == 0
      && Rank(keys, 1) == 0
      && Rank(keys, 3) == 1
  {
    var a, b, c := Text("A"), Text("B"), Text("C");
    var keys := [a, b, c, a];
    ExamplePrefixes();
    assert Count([a], a) == 1 && Count([a], b) == 0;
    assert Count([a, b], a) == 1 && Count([a, b], b) == 1;
    assert Count([a, b, c], a) == 1 && Count([a, b, c], b) == 1;
  }

  /** The distinct keys of each prefix of A, B, C, A. */
  lemma ExamplePrefixes()
    ensures var a, b, c := Text("A"), Text("B"), Text("C");
      && [a, b, c, a][..3] == [a, b, c] && [a, b, c][..2] == [a, b] && [a, b][..1] == [a] && [a][..0] == []
      && [a, b, c, a][..1] == [a] && [a, b, c, a][..2] == [a, b]
      && Unique([a, b, c, a]) == [a, b, c]
  {
    var a, b, c := Text("A"), Text("B"), Text("C");
    assert [a, b, c, a][..3] == [a, b, c] && [a, b, c][..2] == [a, b] && [a, b][..1] == [a] && [a][..0] == [];
    assert Unique([a]) == [a];
    assert Unique([a, b]) == [a, b];
    assert Unique([a, b, c]) == [a, b, c];
  }

  /** A owns [0, tau/2) with rows at 0.05·tau and 0.45·tau; B owns [tau/2, tau) with its row at 0.75·tau. */
  lemma ExampleSegments(tau: real)
    ensures var keys := [Text("A"), Text("B"), Text("C"), Text("A")];
      GroupedLayout(keys, 2, tau).segments == map[
        Text("A") := SegmentInfo(0.0, 0.5 * tau, [0.05 * tau, 0.45 * tau]),
        Text("B") := SegmentInfo(0.5 * tau, tau, [0.75 * tau])]
  {
    var keys := [Text("A"), Text("B"), Text("C"), Text("A")];
    ExampleKeys();
    var span := SegmentAngle(tau, 2);
    assert span == 0.5 * tau;
    PositionIsMember(0.0, span, 2, 0);
    PositionIsMember(0.0, span, 2, 1);
    assert Positions(0.0, span, 2) == [0.05 * tau, 0.45 * tau];
    assert BaseAngle(1, span) == 0.5 * tau;
    assert Positions(0.5 * tau, span, 1) == [0.75 * tau];
    assert SegmentFor(keys, 2, tau, 0) == SegmentInfo(0.0, 0.5 * tau, [0.05 * tau, 0.45 * tau]);
    assert SegmentFor(keys, 2, tau, 1) == SegmentInfo(0.5 * tau, tau, [0.75 * tau]);
    SegmentMapStep(keys, 2, tau, 0);
    SegmentMapStep(keys, 2, tau, 1);
  }

  /** Rows 0, 1 and 3 are placed in row order; row 2, whose key has no segment, is not. */
  lemma ExamplePlacement(segs: map<Cell, SegmentInfo>, pa: seq<real>, pb: seq<real>)
    requires |pa| == 2 && |pb| == 1
    requires Text("A") in segs && segs[Text("A")].positions == pa
    requires Text("B") in segs && segs[Text("B")].positions == pb
    requires Text("C") !in segs
    ensures var keys := [Text("A"), Text("B"), Text("C"), Text("A")];
      && PlacedAngles(keys, segs, 4) == [pa[0], pb[0], pa[1]]
      && PlacedCount(keys, segs, 3) == 2
  {
    var keys := [Text("A"), Text("B"), Text("C"), Text("A")];
    ExampleKeys();
    assert PlacedAngles(keys, segs, 1) == [pa[0]];
    assert PlacedAngles(keys, segs, 2) == [pa[0], pb[0]];
    assert PlacedAngles(keys, segs, 3) == [pa[0], pb[0]];
    assert PlacedAngles(keys, segs, 4) == [pa[0], pb[0]] + [pa[1]];
    assert PlacedCount(keys, segs, 1) == 1;
    assert PlacedCount(keys, segs, 2) == 2;
  }
}
