/** The shape kinds of the wire format and the exact-match lookup from a type string to a kind. */
module ShapeTypes {

  datatype ShapeKind =
    | Undefined
    | CenterCircle
    | TopTouchLine
    | BottomTouchLine
    | LeftGoalLine
    | RightGoalLine
    | HalfwayLine
    | CenterLine
    | LeftPenaltyStretch
    | RightPenaltyStretch
    | LeftFieldLeftPenaltyStretch
    | LeftFieldRightPenaltyStretch
    | RightFieldLeftPenaltyStretch
    | RightFieldRightPenaltyStretch

  /** The string key under which each kind is registered. */
  function KindName(k: ShapeKind): string {
    match k
    case Undefined => "Undefined"
    case CenterCircle => "CenterCircle"
    case TopTouchLine => "TopTouchLine"
    case BottomTouchLine => "BottomTouchLine"
    case LeftGoalLine => "LeftGoalLine"
    case RightGoalLine => "RightGoalLine"
    case HalfwayLine => "HalfwayLine"
    case CenterLine => "CenterLine"
    case LeftPenaltyStretch => "LeftPenaltyStretch"
    case RightPenaltyStretch => "RightPenaltyStretch"
    case LeftFieldLeftPenaltyStretch => "LeftFieldLeftPenaltyStretch"
    case LeftFieldRightPenaltyStretch => "LeftFieldRightPenaltyStretch"
    case RightFieldLeftPenaltyStretch => "RightFieldLeftPenaltyStretch"
    case RightFieldRightPenaltyStretch => "RightFieldRightPenaltyStretch"
  }

  /** shapeTypeMap: the fourteen registered strings and their kinds. */
  const ShapeTypeMap: map<string, ShapeKind> := map[
    "Undefined" := Undefined,
    "CenterCircle" := CenterCircle,
    "TopTouchLine" := TopTouchLine,
    "BottomTouchLine" := BottomTouchLine,
    "LeftGoalLine" := LeftGoalLine,
    "RightGoalLine" := RightGoalLine,
    "HalfwayLine" := HalfwayLine,
    "CenterLine" := CenterLine,
    "LeftPenaltyStretch" := LeftPenaltyStretch,
    "RightPenaltyStretch" := RightPenaltyStretch,
    "LeftFieldLeftPenaltyStretch" := LeftFieldLeftPenaltyStretch,
    "LeftFieldRightPenaltyStretch" := LeftFieldRightPenaltyStretch,
    "RightFieldLeftPenaltyStretch" := RightFieldLeftPenaltyStretch,
    "RightFieldRightPenaltyStretch" := RightFieldRightPenaltyStretch
  ]

  /** parseShapeType: the registered kind of the string, Undefined for any other string. */
  function ParseShapeType(s: string): (k: ShapeKind)
    ensures k != Undefined ==> KindName(k) == s
  {
    if s in ShapeTypeMap then ShapeTypeMap[s] else Undefined
  }

  /** Every kind is found again from its own name. */
  lemma ParseKindName(k: ShapeKind)
    ensures ParseShapeType(KindName(k)) == k
  {
    assert KindName(k) in ShapeTypeMap;
  }

  /** A string falls back to Undefined exactly when it names no kind other than Undefined. */
  lemma ParseUndefinedIff(s: string)
    ensures ParseShapeType(s) == Undefined <==> forall k: ShapeKind | KindName(k) == s :: k == Undefined
  {
    if ParseShapeType(s) == Undefined {
      forall k: ShapeKind | KindName(k) == s ensures k == Undefined {
        ParseKindName(k);
      }
    }
  }

  /** No two kinds share a name. */
  lemma KindNameInjective(a: ShapeKind, b: ShapeKind)
    requires KindName(a) == KindName(b)
    ensures a == b
  {
    ParseKindName(a);
    ParseKindName(b);
  }
}
