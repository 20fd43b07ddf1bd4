/**
  The field's scalar parameters, the values held by a line or arc record, and
  the default markings derived from the parameters.
*/
module Geometry {
  import opened ShapeTypes

  /** The scalar parameters that a division preset overwrites. */
  datatype FieldDimensions = FieldDimensions(
    fieldLength: real,
    fieldWidth: real,
    goalWidth: real,
    goalDepth: real,
    goalHeight: real,
    boundaryWidth: real,
    lineThickness: real,
    penaltyAreaDepth: real,
    penaltyAreaWidth: real,
    goalCenterToPenaltyMark: real,
    centerCircleRadius: real,
    ballRadius: real,
    maxRobotRadius: real,
    numCamerasTotal: int,
    numCamerasLocal: int)

  /**
    The values the field starts with. The ball and robot radii come from the
    division A constant table, which is not part of this model.
  */
  function InitialDimensions(ballRadius: real, maxRobotRadius: real): (d: FieldDimensions)
    ensures 0.0 <= d.penaltyAreaDepth <= d.fieldLength / 2.0 && 0.0 <= d.penaltyAreaWidth <= d.fieldWidth
    ensures 0.0 < d.lineThickness && 0.0 < d.centerCircleRadius < d.fieldWidth / 2.0
    ensures d.ballRadius == ballRadius && d.maxRobotRadius == maxRobotRadius
    ensures 0 < d.numCamerasLocal <= d.numCamerasTotal
  {
    FieldDimensions(12040.0, 9020.0, 1200.0, 180.0, 155.0, 300.0, 10.0, 1220.0, 2410.0, 8000.0, 500.0,
                    ballRadius, maxRobotRadius, 2, 2)
  }

  /** The leaf values of a line record: Name, Type, P1.x, P1.y, P2.x, P2.y, Line thickness. */
  datatype LineValues = LineValues(name: string, kind: string, p1x: real, p1y: real, p2x: real, p2y: real, thickness: real)

  /** The leaf values of an arc record: Name, Type, Center.x, Center.y, Radius, Start angle, End angle, Line thickness. */
  datatype ArcValues = ArcValues(
    name: string, kind: string, centerX: real, centerY: real, radius: real, a1: real, a2: real, thickness: real)

  /** The values of a line made by the name-only constructor. */
  function BlankLine(name: string): LineValues {
    LineValues(name, "Undefined", 0.0, 0.0, 0.0, 0.0, 10.0)
  }

  /** The values of an arc made by the name-only constructor. */
  function BlankArc(name: string): ArcValues {
    ArcValues(name, "Undefined", 0.0, 0.0, 0.0, 0.0, 0.0, 10.0)
  }

  /** 2.0 * M_PI as a double. */
  const TwoPi: real := 6.283185307179586

  /** The eleven lines every default field has, in the order they are generated. */
  const DefaultLineNames: seq<string> := [
    "TopTouchLine", "BottomTouchLine", "LeftGoalLine", "RightGoalLine", "HalfwayLine",
    "LeftPenaltyStretch", "RightPenaltyStretch", "LeftFieldLeftPenaltyStretch",
    "LeftFieldRightPenaltyStretch", "RightFieldRightPenaltyStretch", "RightFieldLeftPenaltyStretch"]

  /** A line built from explicit values: its type string is its name. */
  function Marking(name: string, p1x: real, p1y: real, p2x: real, p2y: real, thickness: real): (r: LineValues)
    ensures r.name == name && r.kind == r.name
    ensures r.thickness == thickness
  {
    LineValues(name, name, p1x, p1y, p2x, p2y, thickness)
  }

  /**
    The default lines, from the half length L, half width W, penalty inset Px
    and penalty half width Py: eleven, or twelve with the centre line, each
    built from explicit values (so its type string is its name) and drawn with
    the field's line thickness.
  */
  function DefaultLines(d: FieldDimensions, centerLine: bool): (r: seq<LineValues>)
    ensures |r| == if centerLine then 12 else 11
    ensures forall i | 0 <= i < |r| :: r[i].kind == r[i].name && r[i].thickness == d.lineThickness
  {
    var l := d.fieldLength / 2.0;
    var w := d.fieldWidth / 2.0;
    var px := l - d.penaltyAreaDepth;
    var py := d.penaltyAreaWidth / 2.0;
    var t := d.lineThickness;
    [ Marking("TopTouchLine", -l, w, l, w, t),
      Marking("BottomTouchLine", -l, -w, l, -w, t),
      Marking("LeftGoalLine", -l, -w, -l, w, t),
      Marking("RightGoalLine", l, -w, l, w, t),
      Marking("HalfwayLine", 0.0, -w, 0.0, w, t),
      Marking("LeftPenaltyStretch", -px, -py, -px, py, t),
      Marking("RightPenaltyStretch", px, -py, px, py, t),
      Marking("LeftFieldLeftPenaltyStretch", -l, -py, -px, -py, t),
      Marking("LeftFieldRightPenaltyStretch", -l, py, -px, py, t),
      Marking("RightFieldRightPenaltyStretch", l, -py, px, -py, t),
      Marking("RightFieldLeftPenaltyStretch", l, py, px, py, t) ]
    + (if centerLine then [Marking("CenterLine", -l, 0.0, l, 0.0, t)] else [])
  }

  /** The default arcs: only the centre circle, a full turn at the origin, 10 thick whatever the line thickness. */
  function DefaultArcs(d: FieldDimensions): seq<ArcValues> {
    [ArcValues("CenterCircle", "CenterCircle", 0.0, 0.0, d.centerCircleRadius, 0.0, TwoPi, 10.0)]
  }

  /** The generated lines, by name and order; the centre line comes last, and only when enabled. */
  lemma DefaultLineOrder(d: FieldDimensions, centerLine: bool)
    ensures var r := DefaultLines(d, centerLine);
            && (forall i | 0 <= i < 11 :: r[i].name == DefaultLineNames[i])
            && (centerLine ==> r[11].name == "CenterLine")
  {
  }

  /** Every generated line's type string resolves to the kind of the same name, never to Undefined. */
  lemma DefaultLinesResolve(d: FieldDimensions, centerLine: bool)
    ensures var r := DefaultLines(d, centerLine);
            forall i | 0 <= i < |r| ::
              ParseShapeType(r[i].kind) != Undefined && KindName(ParseShapeType(r[i].kind)) == r[i].name
  {
    var r := DefaultLines(d, centerLine);
    var kinds := [TopTouchLine, BottomTouchLine, LeftGoalLine, RightGoalLine, HalfwayLine,
                  LeftPenaltyStretch, RightPenaltyStretch, LeftFieldLeftPenaltyStretch,
                  LeftFieldRightPenaltyStretch, RightFieldRightPenaltyStretch, RightFieldLeftPenaltyStretch,
                  CenterLine];
    forall i | 0 <= i < |r|
      ensures ParseShapeType(r[i].kind) != Undefined && KindName(ParseShapeType(r[i].kind)) == r[i].name
    {
      assert r[i].kind == KindName(kinds[i]);
      ParseKindName(kinds[i]);
    }
  }

  /** The default arc's type string resolves to CenterCircle. */
  lemma DefaultArcResolves(d: FieldDimensions)
    ensures |DefaultArcs(d)| == 1 && ParseShapeType(DefaultArcs(d)[0].kind) == CenterCircle
  {
    ParseKindName(CenterCircle);
  }

  /** Each line is horizontal or vertical. */
  lemma DefaultLinesAxisParallel(d: FieldDimensions, centerLine: bool)
    ensures var r := DefaultLines(d, centerLine);
            forall i | 0 <= i < |r| :: r[i].p1x == r[i].p2x || r[i].p1y == r[i].p2y
  {
  }

  /**
    When the penalty area fits in its half of the field, every generated
    endpoint lies on or inside the field rectangle [-L, L] x [-W, W].
  */
  lemma DefaultLinesInsideField(d: FieldDimensions, centerLine: bool)
    requires 0.0 <= d.penaltyAreaDepth <= d.fieldLength / 2.0
    requires 0.0 <= d.penaltyAreaWidth <= d.fieldWidth
    ensures var r := DefaultLines(d, centerLine);
            var l, w := d.fieldLength / 2.0, d.fieldWidth / 2.0;
            forall i | 0 <= i < |r| ::
              -l <= r[i].p1x <= l && -l <= r[i].p2x <= l && -w <= r[i].p1y <= w && -w <= r[i].p2y <= w
  {
  }

  /** Whether two lines cover the same segment, in either direction. */
  predicate SameSegment(a: LineValues, b: LineValues) {
    (a.p1x == b.p1x && a.p1y == b.p1y && a.p2x == b.p2x && a.p2y == b.p2y) ||
    (a.p1x == b.p2x && a.p1y == b.p2y && a.p2x == b.p1x && a.p2y == b.p1y)
  }

  /** The line reflected in the halfway line (x to -x). */
  function MirrorX(a: LineValues): LineValues {
    a.(p1x := -a.p1x, p2x := -a.p2x)
  }

  /** The line reflected in the centre line (y to -y). */
  function MirrorY(a: LineValues): LineValues {
    a.(p1y := -a.p1y, p2y := -a.p2y)
  }

  /** Left-right symmetry of the default markings: each line mirrors in the halfway line onto its partner. */
  lemma DefaultLinesMirrorLeftRight(d: FieldDimensions, centerLine: bool)
    ensures var r := DefaultLines(d, centerLine);
            var partner := [0, 1, 3, 2, 4, 6, 5, 9, 10, 7, 8, 11];
            forall i | 0 <= i < |r| :: SameSegment(MirrorX(r[i]), r[partner[i]])
  {
  }

  /** Top-bottom symmetry of the default markings: each line mirrors in the centre line onto its partner. */
  lemma DefaultLinesMirrorTopBottom(d: FieldDimensions, centerLine: bool)
    ensures var r := DefaultLines(d, centerLine);
            var partner := [1, 0, 2, 3, 4, 5, 6, 8, 7, 10, 9, 11];
            forall i | 0 <= i < |r| :: SameSegment(MirrorY(r[i]), r[partner[i]])
  {
  }

  /** The formulas of the generated segments, in terms of L, W, Px and Py. */
  lemma DefaultLineCoordinates(d: FieldDimensions, centerLine: bool)
    ensures var r := DefaultLines(d, centerLine);
            var l, w := d.fieldLength / 2.0, d.fieldWidth / 2.0;
            var px, py := l - d.penaltyAreaDepth, d.penaltyAreaWidth / 2.0;
            && (r[0].p1x, r[0].p1y, r[0].p2x, r[0].p2y) == (-l, w, l, w)
            && (r[2].p1x, r[2].p1y, r[2].p2x, r[2].p2y) == (-l, -w, -l, w)
            && (r[4].p1x, r[4].p1y, r[4].p2x, r[4].p2y) == (0.0, -w, 0.0, w)
            && (r[5].p1x, r[5].p1y, r[5].p2x, r[5].p2y) == (-px, -py, -px, py)
            && (r[9].p1x, r[9].p1y, r[9].p2x, r[9].p2y) == (l, -py, px, -py)
  {
  }

  /** On the initial dimensions: the top touch line, the left penalty stretch, one centre line and one centre circle of radius 500. */
  lemma InitialFieldExample(ballRadius: real, maxRobotRadius: real)
    ensures var d := InitialDimensions(ballRadius, maxRobotRadius);
            var r := DefaultLines(d, true);
            && |r| == 12
            && (r[0].name, r[0].p1x, r[0].p1y, r[0].p2x, r[0].p2y) == ("TopTouchLine", -6020.0, 4510.0, 6020.0, 4510.0)
            && (r[5].name, r[5].p1x, r[5].p1y, r[5].p2x, r[5].p2y) == ("LeftPenaltyStretch", -4800.0, -1205.0, -4800.0, 1205.0)
            && (forall i | 0 <= i < |r| :: r[i].name == "CenterLine" <==> i == 11)
            && DefaultArcs(d) == [ArcValues("CenterCircle", "CenterCircle", 0.0, 0.0, 500.0, 0.0, TwoPi, 10.0)]
  {
  }

  /** The C++ cast from double to int: truncation toward zero. */
  function Trunc(x: real): (r: int)
    ensures 0.0 <= x ==> r as real <= x < r as real + 1.0
    ensures x < 0.0 ==> r as real - 1.0 < x <= r as real
  {
    if x >= 0.0 then x.Floor else -((-x).Floor)
  }
}
