/** The geometry message the field is rendered into, and one entry per record. */
module WireFormat {
  import opened ShapeTypes
  import opened Geometry

  datatype Vector2 = Vector2(x: real, y: real)

  datatype SslFieldLineSegment = SslFieldLineSegment(
    name: string, kind: ShapeKind, p1: Vector2, p2: Vector2, thickness: real)

  datatype SslFieldCircularArc = SslFieldCircularArc(
    name: string, kind: ShapeKind, center: Vector2, radius: real, a1: real, a2: real, thickness: real)

  datatype SslGeometryFieldSize = SslGeometryFieldSize(
    fieldLength: int,
    fieldWidth: int,
    goalWidth: int,
    goalDepth: int,
    boundaryWidth: int,
    penaltyAreaDepth: int,
    penaltyAreaWidth: int,
    centerCircleRadius: int,
    lineThickness: int,
    goalCenterToPenaltyMark: int,
    goalHeight: int,
    ballRadius: real,
    maxRobotRadius: real,
    fieldLines: seq<SslFieldLineSegment>,
    fieldArcs: seq<SslFieldCircularArc>)

  /** The entry for one line: its name, the kind its type string resolves to, its endpoints and thickness. */
  function RenderLine(v: LineValues): SslFieldLineSegment {
    SslFieldLineSegment(v.name, ParseShapeType(v.kind), Vector2(v.p1x, v.p1y), Vector2(v.p2x, v.p2y), v.thickness)
  }

  /** The entry for one arc. */
  function RenderArc(v: ArcValues): SslFieldCircularArc {
    SslFieldCircularArc(v.name, ParseShapeType(v.kind), Vector2(v.centerX, v.centerY), v.radius, v.a1, v.a2, v.thickness)
  }

  /** Rendering the default lines names every entry after a kind of its own; none is Undefined. */
  lemma RenderDefaultLines(d: FieldDimensions, centerLine: bool)
    ensures var r := DefaultLines(d, centerLine);
            forall i | 0 <= i < |r| ::
              RenderLine(r[i]).kind != Undefined && KindName(RenderLine(r[i]).kind) == RenderLine(r[i]).name
  {
    DefaultLinesResolve(d, centerLine);
  }

  /** A line whose type string is not registered (such as the "Type" a line copy carries) renders as Undefined. */
  lemma UnregisteredTypeRendersUndefined(v: LineValues)
    requires v.kind !in ShapeTypeMap
    ensures RenderLine(v).kind == Undefined
  {
  }
}
